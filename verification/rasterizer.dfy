/**
  The per-triangle rasterization of `rasterize_triangle`: four sub-pixel
  samples per pixel, a covered-sample fragment (count, depth sum, colour sum),
  and one depth-tested write per pixel of the mean depth and mean colour.
 */
module Rasterizer {
  import opened FrameBuffer
  import opened Geometry

  /** A screen-space vertex as `Triangle::toVector4` hands it to the rasterizer. */
  datatype Vertex = Vertex(x: real, y: real, z: real, w: real)

  /**
    A triangle ready for rasterization. `Triangle::getColor` returns one flat
    colour for the whole triangle, so only that colour is kept.
   */
  datatype Triangle = Triangle(a: Vertex, b: Vertex, c: Vertex, color: Color)

  function XY(v: Vertex): Vec2 {
    Vec2(v.x, v.y)
  }

  /**
    The inputs the source cannot handle are excluded: a zero-area triangle
    divides by zero in the barycentric formula, and a non-positive w breaks the
    perspective-correct depth.
   */
  predicate WellFormed(t: Triangle) {
    NonDegenerate(XY(t.a), XY(t.b), XY(t.c)) && PositiveW(t)
  }

  predicate PositiveW(t: Triangle) {
    t.a.w > 0.0 && t.b.w > 0.0 && t.c.w > 0.0
  }

  function MinZ(t: Triangle): real {
    Min3(t.a.z, t.b.z, t.c.z)
  }

  function MaxZ(t: Triangle): real {
    Max3(t.a.z, t.b.z, t.c.z)
  }

  /** The 2x2 grid of sub-pixel sample offsets. */
  const SampleOffsets: seq<Vec2> := [Vec2(0.25, 0.25), Vec2(0.75, 0.25), Vec2(0.25, 0.75), Vec2(0.75, 0.75)]

  /** A convex weighting by (u1, u2, u3) of three values stays within their range. */
  lemma WeightedMeanWithin(u1: real, u2: real, u3: real, z1: real, z2: real, z3: real)
    requires u1 >= 0.0 && u2 >= 0.0 && u3 >= 0.0 && u1 + u2 + u3 > 0.0
    ensures Min3(z1, z2, z3) <= (u1 * z1 + u2 * z2 + u3 * z3) * (1.0 / (u1 + u2 + u3)) <= Max3(z1, z2, z3)
  {
    var s := u1 + u2 + u3;
    var k := 1.0 / s;
    assert (u1 * z1 + u2 * z2 + u3 * z3) * k == (u1 * k) * z1 + (u2 * k) * z2 + (u3 * k) * z3;
    assert u1 * k + u2 * k + u3 * k == s * k == 1.0;
    NonNegProduct(u1, k);
    NonNegProduct(u2, k);
    NonNegProduct(u3, k);
    ConvexWithin(u1 * k, u2 * k, u3 * k, z1, z2, z3);
  }

  lemma PositiveQuotient(a: real, w: real)
    requires a >= 0.0 && w > 0.0
    ensures a / w >= 0.0 && (a > 0.0 ==> a / w > 0.0)
  {
  }

  lemma QuotientOfProduct(a: real, z: real, w: real)
    requires w != 0.0
    ensures a * z / w == (a / w) * z
  {
  }

  /** The weights alpha/wa, beta/wb, gamma/wc of a covered sample are non-negative with a positive sum. */
  lemma PerspectiveWeightsPositive(bc: Bary, wa: real, wb: real, wc: real)
    requires Covered(bc) && bc.alpha + bc.beta + bc.gamma == 1.0
    requires wa > 0.0 && wb > 0.0 && wc > 0.0
    ensures bc.alpha / wa >= 0.0 && bc.beta / wb >= 0.0 && bc.gamma / wc >= 0.0
    ensures bc.alpha / wa + bc.beta / wb + bc.gamma / wc > 0.0
  {
    PositiveQuotient(bc.alpha, wa);
    PositiveQuotient(bc.beta, wb);
    PositiveQuotient(bc.gamma, wc);
  }

  lemma PerspectiveNumerators(bc: Bary, za: real, zb: real, zc: real, wa: real, wb: real, wc: real)
    requires wa > 0.0 && wb > 0.0 && wc > 0.0
    ensures bc.alpha * za / wa == (bc.alpha / wa) * za
    ensures bc.beta * zb / wb == (bc.beta / wb) * zb
    ensures bc.gamma * zc / wc == (bc.gamma / wc) * zc
  {
    QuotientOfProduct(bc.alpha, za, wa);
    QuotientOfProduct(bc.beta, zb, wb);
    QuotientOfProduct(bc.gamma, zc, wc);
  }

  /**
    Depths weighted by non-negative weights (u1, u2, u3) and renormalised by
    their sum: the shape of the perspective-correct interpolation, with
    n_i = u_i * z_i.
   */
  lemma NormalisedWeightsWithin(u1: real, u2: real, u3: real, n1: real, n2: real, n3: real, z1: real, z2: real, z3: real)
    requires u1 >= 0.0 && u2 >= 0.0 && u3 >= 0.0 && u1 + u2 + u3 > 0.0
    requires n1 == u1 * z1 && n2 == u2 * z2 && n3 == u3 * z3
    ensures Min3(z1, z2, z3) <= Renormalise(n1, n2, n3, u1, u2, u3) <= Max3(z1, z2, z3)
  {
    WeightedMeanWithin(u1, u2, u3, z1, z2, z3);
    var m := (u1 * z1 + u2 * z2 + u3 * z3) * (1.0 / (u1 + u2 + u3));
    assert Renormalise(n1, n2, n3, u1, u2, u3) == m;
  }

  /** The weighted sum times the reciprocal of the weight sum (`w_reciprocal`). */
  function Renormalise(n1: real, n2: real, n3: real, u1: real, u2: real, u3: real): real
    requires u1 + u2 + u3 != 0.0
  {
    var wReciprocal := 1.0 / (u1 + u2 + u3);
    (n1 + n2 + n3) * wReciprocal
  }

  /**
    The perspective-correct depth of a covered sample (the interpolation with
    `w_reciprocal`). Each vertex depth is weighted by its barycentric
    coordinate over its w, so the result lies between the nearest and farthest
    vertex.
   */
  function SampleDepth(t: Triangle, bc: Bary): (z: real)
    requires PositiveW(t) && Covered(bc) && bc.alpha + bc.beta + bc.gamma == 1.0
    ensures MinZ(t) <= z <= MaxZ(t)
  {
    PerspectiveWeightsPositive(bc, t.a.w, t.b.w, t.c.w);
    PerspectiveNumerators(bc, t.a.z, t.b.z, t.c.z, t.a.w, t.b.w, t.c.w);
    NormalisedWeightsWithin(bc.alpha / t.a.w, bc.beta / t.b.w, bc.gamma / t.c.w,
                            bc.alpha * t.a.z / t.a.w, bc.beta * t.b.z / t.b.w, bc.gamma * t.c.z / t.c.w,
                            t.a.z, t.b.z, t.c.z);
    Renormalise(bc.alpha * t.a.z / t.a.w, bc.beta * t.b.z / t.b.w, bc.gamma * t.c.z / t.c.w,
                bc.alpha / t.a.w, bc.beta / t.b.w, bc.gamma / t.c.w)
  }

  /**
    With every w equal to 1, as after `Triangle::toVector4`, the
    perspective-correct depth is plain barycentric interpolation of z.
   */
  lemma SampleDepthUnitW(t: Triangle, bc: Bary)
    requires PositiveW(t) && Covered(bc) && bc.alpha + bc.beta + bc.gamma == 1.0
    requires t.a.w == 1.0 && t.b.w == 1.0 && t.c.w == 1.0
    ensures SampleDepth(t, bc) == bc.alpha * t.a.z + bc.beta * t.b.z + bc.gamma * t.c.z
  {
  }

  /** One sub-pixel sample: whether the triangle covers it, and its depth if so. */
  datatype Sample = Sample(covered: bool, z: real)

  /**
    The sample at offset `off` inside pixel (x, y). A covered sample lies in the
    triangle's bounding box and its depth lies in the triangle's depth range.
   */
  function SampleAt(t: Triangle, x: int, y: int, off: Vec2): (s: Sample)
    requires WellFormed(t)
    ensures s.covered ==> MinZ(t) <= s.z <= MaxZ(t)
    ensures s.covered ==> Min3(t.a.x, t.b.x, t.c.x) <= x as real + off.x <= Max3(t.a.x, t.b.x, t.c.x)
    ensures s.covered ==> Min3(t.a.y, t.b.y, t.c.y) <= y as real + off.y <= Max3(t.a.y, t.b.y, t.c.y)
  {
    var p := Vec2(x as real + off.x, y as real + off.y);
    var bc := Barycentric(p, XY(t.a), XY(t.b), XY(t.c));
    if Covered(bc) then
      CoveredInBoundingBox(p, XY(t.a), XY(t.b), XY(t.c));
      Sample(true, SampleDepth(t, bc))
    else
      Sample(false, 0.0)
  }

  /**
    The four samples of pixel (x, y), in the order the source visits them. Every
    sample point lies strictly inside the pixel's unit cell, so a covered sample
    means the triangle's extent reaches into that cell on both axes.
   */
  function Samples(t: Triangle, x: int, y: int): (ss: seq<Sample>)
    requires WellFormed(t)
    ensures |ss| == |SampleOffsets|
    ensures forall k :: 0 <= k < |ss| ==> ss[k] == SampleAt(t, x, y, SampleOffsets[k])
    ensures forall k :: 0 <= k < |ss| && ss[k].covered ==>
      Min3(t.a.x, t.b.x, t.c.x) < x as real + 1.0 && x as real < Max3(t.a.x, t.b.x, t.c.x) &&
      Min3(t.a.y, t.b.y, t.c.y) < y as real + 1.0 && y as real < Max3(t.a.y, t.b.y, t.c.y)
  {
    assert forall k :: 0 <= k < |SampleOffsets| ==>
      0.0 < SampleOffsets[k].x < 1.0 && 0.0 < SampleOffsets[k].y < 1.0;
    seq(|SampleOffsets|, k requires 0 <= k < |SampleOffsets| => SampleAt(t, x, y, SampleOffsets[k]))
  }

  /** The running sums of one pixel: covered-sample count, depth sum and colour sum. */
  datatype Fragment = Fragment(count: nat, totalZ: real, colorSum: Color)

  function Add(c: Color, d: Color): Color {
    Color(c.r + d.r, c.g + d.g, c.b + d.b)
  }

  /** The sum of n copies of v. */
  function Copies(n: nat, v: real): real {
    if n == 0 then 0.0 else Copies(n - 1, v) + v
  }

  lemma {:induction false} CopiesIsProduct(n: nat, v: real)
    ensures Copies(n, v) == n as real * v
  {
    if n > 0 {
      CopiesIsProduct(n - 1, v);
      assert (n - 1) as real * v + v == n as real * v;
    }
  }

  /** The sum of n copies of colour c. */
  function Scale(n: nat, c: Color): Color {
    if n == 0 then Black else Add(Scale(n - 1, c), c)
  }

  lemma {:induction false} ScaleIsProduct(n: nat, c: Color)
    ensures Scale(n, c) == Color(n as real * c.r, n as real * c.g, n as real * c.b)
  {
    if n > 0 {
      ScaleIsProduct(n - 1, c);
      var m := (n - 1) as real;
      assert m * c.r + c.r == n as real * c.r;
      assert m * c.g + c.g == n as real * c.g;
      assert m * c.b + c.b == n as real * c.b;
    }
  }

  /** The positions of the covered samples. */
  function CoveredSet(samples: seq<Sample>): set<int> {
    set k | 0 <= k < |samples| && samples[k].covered
  }

  /** The sum of the covered samples' depths, first sample first. */
  function CoveredDepthSum(samples: seq<Sample>): real {
    if samples == [] then 0.0
    else (if samples[0].covered then samples[0].z else 0.0) + CoveredDepthSum(samples[1..])
  }

  lemma {:induction false} CoveredDepthSumAppend(samples: seq<Sample>, s: Sample)
    ensures CoveredDepthSum(samples + [s]) == CoveredDepthSum(samples) + (if s.covered then s.z else 0.0)
  {
    if samples == [] {
      assert [s][1..] == [];
    } else {
      assert (samples + [s])[1..] == samples[1..] + [s];
      CoveredDepthSumAppend(samples[1..], s);
    }
  }

  lemma CoveredSetLast(samples: seq<Sample>)
    requires samples != []
    ensures |CoveredSet(samples)| == |CoveredSet(samples[..|samples| - 1])| + (if samples[|samples| - 1].covered then 1 else 0)
  {
    var n := |samples|;
    var prefix := samples[..n - 1];
    var a, b := CoveredSet(prefix), CoveredSet(samples);
    if samples[n - 1].covered {
      assert b == a + {n - 1};
      assert n - 1 !in a;
    } else {
      assert b == a;
    }
  }

  /**
    The sample loop of one pixel: every covered sample adds its depth and the
    triangle's flat colour and bumps the count. The count is the number of
    covered samples (so zero exactly when none is covered), the depth sum is
    the sum of their depths, and the colour sum is `count` copies of the flat
    colour.
   */
  function Accumulate(samples: seq<Sample>, color: Color): (f: Fragment)
    ensures f.count == |CoveredSet(samples)| <= |samples|
    ensures f.count == 0 <==> forall k :: 0 <= k < |samples| ==> !samples[k].covered
    ensures f.totalZ == CoveredDepthSum(samples)
    ensures f.colorSum == Scale(f.count, color)
  {
    if samples == [] then Fragment(0, 0.0, Black)
    else
      var prefix, s := samples[..|samples| - 1], samples[|samples| - 1];
      var f := Accumulate(prefix, color);
      assert samples == prefix + [s];
      CoveredDepthSumAppend(prefix, s);
      CoveredSetLast(samples);
      if s.covered then Fragment(f.count + 1, f.totalZ + s.z, Add(f.colorSum, color)) else f
  }

  /** If every covered sample lies in [lo, hi], the depth sum lies between count copies of each. */
  lemma {:induction false} AccumulateDepthWithin(samples: seq<Sample>, color: Color, lo: real, hi: real)
    requires forall k :: 0 <= k < |samples| && samples[k].covered ==> lo <= samples[k].z <= hi
    ensures var f := Accumulate(samples, color);
      Copies(f.count, lo) <= f.totalZ <= Copies(f.count, hi)
  {
    if samples != [] {
      var prefix := samples[..|samples| - 1];
      assert forall k :: 0 <= k < |prefix| ==> prefix[k] == samples[k];
      AccumulateDepthWithin(prefix, color, lo, hi);
      var g := Accumulate(prefix, color);
      var s := samples[|samples| - 1];
      var f := Accumulate(samples, color);
      if s.covered {
        assert f.count == g.count + 1 && f.totalZ == g.totalZ + s.z;
      } else {
        assert f == g;
      }
    }
  }

  /** The fragment of pixel (x, y): at most four samples, and its depth sum in the triangle's range. */
  function FragmentAt(t: Triangle, x: int, y: int): (f: Fragment)
    requires WellFormed(t)
    ensures f.count <= 4
    ensures f.colorSum == Scale(f.count, t.color)
    ensures Copies(f.count, MinZ(t)) <= f.totalZ <= Copies(f.count, MaxZ(t))
  {
    var ss := Samples(t, x, y);
    assert forall k :: 0 <= k < |ss| && ss[k].covered ==> MinZ(t) <= ss[k].z <= MaxZ(t);
    AccumulateDepthWithin(ss, t.color, MinZ(t), MaxZ(t));
    Accumulate(ss, t.color)
  }

  function MeanDepth(f: Fragment): real
    requires f.count > 0
  {
    f.totalZ / f.count as real
  }

  function MeanColor(f: Fragment): Color
    requires f.count > 0
  {
    Color(f.colorSum.r / f.count as real, f.colorSum.g / f.count as real, f.colorSum.b / f.count as real)
  }

  /**
    Averaging over covered samples only does no blending: the mean colour of
    any covered pixel is the triangle's flat colour, whatever the count.
   */
  lemma MeanColorIsFlat(f: Fragment, color: Color)
    requires f.count > 0 && f.colorSum == Scale(f.count, color)
    ensures MeanColor(f) == color
  {
    ScaleIsProduct(f.count, color);
  }

  lemma MeanWithin(n: real, total: real, lo: real, hi: real)
    requires n > 0.0 && n * lo <= total <= n * hi
    ensures lo <= total / n <= hi
  {
    assert total / n - lo == (total - n * lo) / n;
    assert hi - total / n == (n * hi - total) / n;
  }

  lemma MeanOfCopiesWithin(n: nat, total: real, lo: real, hi: real)
    requires n > 0 && Copies(n, lo) <= total <= Copies(n, hi)
    ensures lo <= total / n as real <= hi
  {
    CopiesIsProduct(n, lo);
    CopiesIsProduct(n, hi);
    MeanWithin(n as real, total, lo, hi);
  }

  /** The mean depth of a covered pixel lies in the triangle's depth range. */
  lemma MeanDepthWithin(t: Triangle, x: int, y: int)
    requires WellFormed(t) && FragmentAt(t, x, y).count > 0
    ensures MinZ(t) <= MeanDepth(FragmentAt(t, x, y)) <= MaxZ(t)
  {
    var f := FragmentAt(t, x, y);
    MeanOfCopiesWithin(f.count, f.totalZ, MinZ(t), MaxZ(t));
  }

  /** One pixel's colour and depth entries. */
  datatype Cell = Cell(color: Color, depth: Depth)

  function CellOf(b: Buffers, i: int): Cell
    requires Valid(b) && 0 <= i < |b.frame|
  {
    Cell(b.frame[i], b.depth[i])
  }

  /** The depth test of the pixel loop: some sample is covered and the mean depth is nearer. */
  predicate Passes(f: Fragment, d: Depth) {
    f.count > 0 && Closer(f.totalZ / f.count as real, d)
  }

  /**
    The depth-tested update of one pixel. The stored depth never gets farther,
    a fragment with no covered sample changes nothing, and the cell changes
    exactly when the fragment passes the test.
   */
  function ResolveCell(c: Cell, f: Fragment): (r: Cell)
    ensures NoFarther(r.depth, c.depth)
    ensures f.count == 0 ==> r == c
    ensures Passes(f, c.depth) <==> r.depth != c.depth
    ensures Passes(f, c.depth) ==> r.depth.Fin? && r.depth.z * f.count as real == f.totalZ
    ensures !Passes(f, c.depth) ==> r == c
  {
    if Passes(f, c.depth) then Cell(MeanColor(f), Fin(MeanDepth(f))) else c
  }

  /**
    Two fragments whose mean depths differ (or one of which covers nothing)
    resolve to the same cell in either order: the nearer one wins.
   */
  lemma ResolveCommutes(c: Cell, f: Fragment, g: Fragment)
    requires f.count > 0 && g.count > 0 ==> MeanDepth(f) != MeanDepth(g)
    ensures ResolveCell(ResolveCell(c, f), g) == ResolveCell(ResolveCell(c, g), f)
  {
  }

  /**
    The depth the stray write of line 157 leaves in the pixel's entry: each
    covered sample overwrites it, so the last covered sample's depth wins.
   */
  function StrayDepth(samples: seq<Sample>, d: Depth): (r: Depth)
    ensures (forall k :: 0 <= k < |samples| ==> !samples[k].covered) ==> r == d
  {
    if samples == [] then d
    else if samples[|samples| - 1].covered then Fin(samples[|samples| - 1].z)
    else StrayDepth(samples[..|samples| - 1], d)
  }

  /**
    Lines 151-174 as written, with `index` bound as the commented-out line 155
    binds it (the pixel's own entry): every covered sample stores its depth
    unconditionally before the mean depth is tested against that entry.
   */
  function ResolveCellAsWritten(c: Cell, samples: seq<Sample>, color: Color): (r: Cell)
    ensures (forall k :: 0 <= k < |samples| ==> !samples[k].covered) ==> r == c
  {
    ResolveCell(Cell(c.color, StrayDepth(samples, c.depth)), Accumulate(samples, color))
  }

  /** n covered samples, all at depth z: a pixel fully inside a triangle of constant depth. */
  function AllCovered(n: nat, z: real): seq<Sample> {
    seq(n, _ => Sample(true, z))
  }

  lemma {:induction false} AccumulateAllCovered(n: nat, z: real, color: Color)
    ensures Accumulate(AllCovered(n, z), color) == Fragment(n, Copies(n, z), Scale(n, color))
  {
    if n > 0 {
      assert AllCovered(n, z)[..n - 1] == AllCovered(n - 1, z);
      AccumulateAllCovered(n - 1, z, color);
    }
  }

  /** A fully covered pixel at constant depth z passes exactly when z is nearer, and then stores z. */
  lemma ResolveAllCovered(c: Cell, z: real, color: Color)
    ensures ResolveCell(c, Accumulate(AllCovered(4, z), color))
            == if Closer(z, c.depth) then Cell(color, Fin(z)) else c
  {
    AccumulateAllCovered(4, z, color);
    CopiesIsProduct(4, z);
    var f := Accumulate(AllCovered(4, z), color);
    assert MeanDepth(f) == z;
    MeanColorIsFlat(f, color);
  }

  /**
    As written, a pixel fully covered at constant depth z never changes colour
    and always ends with depth z, even when z is farther than what was stored:
    the stray writes make the mean depth meet itself in the test.
   */
  lemma ResolveCellAsWrittenFullCover(c: Cell, z: real, color: Color)
    ensures ResolveCellAsWritten(c, AllCovered(4, z), color) == Cell(c.color, Fin(z))
  {
    assert StrayDepth(AllCovered(4, z), c.depth) == Fin(z);
    ResolveAllCovered(Cell(c.color, Fin(z)), z, color);
  }

  /**
    The discrepancy on concrete cells. As written, blue at depth 5 over red
    at depth 1 leaves red at depth 5, where the depth-tested update keeps
    depth 1; and green at depth 3 over red at depth 5 leaves red at depth 3,
    where the depth-tested update paints green.
   */
  lemma ResolveCellAsWrittenRaisesDepth()
    ensures ResolveCellAsWritten(Cell(Red, Fin(1.0)), AllCovered(4, 5.0), Blue) == Cell(Red, Fin(5.0))
    ensures ResolveCellAsWritten(Cell(Red, Fin(5.0)), AllCovered(4, 3.0), Green) == Cell(Red, Fin(3.0))
    ensures ResolveCell(Cell(Red, Fin(1.0)), Accumulate(AllCovered(4, 5.0), Blue)) == Cell(Red, Fin(1.0))
    ensures ResolveCell(Cell(Red, Fin(1.0)), Accumulate(AllCovered(4, 3.0), Green)) == Cell(Red, Fin(1.0))
    ensures ResolveCell(Cell(Red, Fin(5.0)), Accumulate(AllCovered(4, 3.0), Green)) == Cell(Green, Fin(3.0))
  {
    ResolveCellAsWrittenFullCover(Cell(Red, Fin(1.0)), 5.0, Blue);
    ResolveCellAsWrittenFullCover(Cell(Red, Fin(5.0)), 3.0, Green);
    ResolveAllCovered(Cell(Red, Fin(1.0)), 5.0, Blue);
    ResolveAllCovered(Cell(Red, Fin(1.0)), 3.0, Green);
    ResolveAllCovered(Cell(Red, Fin(5.0)), 3.0, Green);
  }

  const Red := Color(1.0, 0.0, 0.0)
  const Green := Color(0.0, 1.0, 0.0)
  const Blue := Color(0.0, 0.0, 1.0)

  /**
    Lines 172-174: the per-pixel depth test and write. Only the entries at
    `Index(x, y)` may change, and they change as `ResolveCell` says; a passing
    pixel receives the triangle's own colour.
   */
  function DrawPixel(b: Buffers, t: Triangle, x: int, y: int): (r: Buffers)
    requires Valid(b) && WellFormed(t) && OnScreen(b, x, y)
    ensures Valid(r) && r.width == b.width && r.height == b.height
    ensures 0 <= Index(b, x, y) < |b.frame|
    ensures CellOf(r, Index(b, x, y)) == ResolveCell(CellOf(b, Index(b, x, y)), FragmentAt(t, x, y))
    ensures Passes(FragmentAt(t, x, y), b.depth[Index(b, x, y)]) ==> r.frame[Index(b, x, y)] == t.color
    ensures forall i :: 0 <= i < |b.frame| && i != Index(b, x, y) ==> CellOf(r, i) == CellOf(b, i)
  {
    var i := Index(b, x, y);
    IndexBounds(b, x, y);
    var f := FragmentAt(t, x, y);
    if f.count > 0 && Closer(f.totalZ / f.count as real, b.depth[i]) then
      MeanColorIsFlat(f, t.color);
      SetPixel(b.(depth := b.depth[i := Fin(f.totalZ / f.count as real)]), x, y, MeanColor(f))
    else
      b
  }

  /** `static_cast<int>` of a float: truncation toward zero. */
  function Trunc(r: real): (n: int)
    ensures 0.0 <= r ==> n as real <= r < n as real + 1.0
    ensures r < 0.0 ==> n as real - 1.0 < r <= n as real
  {
    if r >= 0.0 then r.Floor else -((-r).Floor)
  }

  /** Truncation agrees with floor on non-negative reals and is one above it on negative non-integers. */
  lemma TruncVersusFloor(r: real)
    ensures 0.0 <= r ==> Trunc(r) == r.Floor
    ensures r < 0.0 && r != r.Floor as real ==> Trunc(r) == r.Floor + 1
  {
  }

  /** The inclusive pixel ranges the loops of `rasterize_triangle` visit. */
  datatype Box = Box(x0: int, x1: int, y0: int, y1: int)

  /** Truncation is monotone. */
  lemma TruncMonotone(r: real, s: real)
    requires r <= s
    ensures Trunc(r) <= Trunc(s)
  {
  }

  /** The loop bounds: the truncated extremes of the vertex coordinates; never an empty range. */
  function BoundingBox(t: Triangle): (bx: Box)
    ensures bx.x0 <= bx.x1 && bx.y0 <= bx.y1
  {
    TruncMonotone(Min3(t.a.x, t.b.x, t.c.x), Max3(t.a.x, t.b.x, t.c.x));
    TruncMonotone(Min3(t.a.y, t.b.y, t.c.y), Max3(t.a.y, t.b.y, t.c.y));
    Box(Trunc(Min3(t.a.x, t.b.x, t.c.x)), Trunc(Max3(t.a.x, t.b.x, t.c.x)),
        Trunc(Min3(t.a.y, t.b.y, t.c.y)), Trunc(Max3(t.a.y, t.b.y, t.c.y)))
  }

  predicate InBox(bx: Box, x: int, y: int) {
    bx.x0 <= x <= bx.x1 && bx.y0 <= y <= bx.y1
  }

  /** The source does not clip: every pixel its loops visit must be on the screen. */
  predicate BoxOnScreen(b: Buffers, bx: Box) {
    0 <= bx.x0 && bx.x1 < b.width && 0 <= bx.y0 && bx.y1 < b.height
  }

  lemma TruncBounds(lo: real, hi: real, n: int)
    requires lo < n as real + 1.0 && n as real < hi && 0 <= n
    ensures Trunc(lo) <= n <= Trunc(hi)
  {
  }

  /**
    Bounding-box culling misses nothing: a pixel with non-negative coordinates
    that has any covered sample lies inside the truncated box.
   */
  lemma BoxMissesNothing(t: Triangle, x: int, y: int)
    requires WellFormed(t) && 0 <= x && 0 <= y && FragmentAt(t, x, y).count > 0
    ensures InBox(BoundingBox(t), x, y)
  {
    var ss := Samples(t, x, y);
    var k :| 0 <= k < |ss| && ss[k].covered;
    TruncBounds(Min3(t.a.x, t.b.x, t.c.x), Max3(t.a.x, t.b.x, t.c.x), x);
    TruncBounds(Min3(t.a.y, t.b.y, t.c.y), Max3(t.a.y, t.b.y, t.c.y), y);
  }

  /** A cell that changes receives the triangle's colour and a nearer depth in its depth range. */
  predicate WrittenBy(c: Cell, before: Cell, t: Triangle) {
    c != before ==>
      c.color == t.color && c.depth.Fin? && MinZ(t) <= c.depth.z <= MaxZ(t) && Closer(c.depth.z, before.depth)
  }

  /**
    The cell at flat index i after drawing t into b: the pixel stored there,
    resolved against that pixel's fragment.
   */
  function DrawnCell(b: Buffers, t: Triangle, i: int): (c: Cell)
    requires Valid(b) && WellFormed(t) && 0 <= i < |b.frame|
    ensures NoFarther(c.depth, b.depth[i])
    ensures WrittenBy(c, CellOf(b, i), t)
  {
    PixelOfInRange(b, i);
    var p := PixelOf(b, i);
    var f := FragmentAt(t, p.x, p.y);
    if f.count > 0 then
      MeanColorIsFlat(f, t.color);
      MeanDepthWithin(t, p.x, p.y);
      ResolveCell(CellOf(b, i), f)
    else
      ResolveCell(CellOf(b, i), f)
  }

  /**
    Drawing one triangle, pixel by pixel over the whole screen: the reference
    the loops of `rasterize_triangle` are proved to compute. No stored depth
    gets farther; an on-screen pixel without a covered sample keeps its cell;
    a cell that changes receives the triangle's colour and a depth in the
    triangle's depth range that is strictly nearer than before.
   */
  function Drawn(b: Buffers, t: Triangle): (r: Buffers)
    requires Valid(b) && WellFormed(t)
    ensures Valid(r) && r.width == b.width && r.height == b.height
    ensures forall i :: 0 <= i < |b.frame| ==> CellOf(r, i) == DrawnCell(b, t, i)
    ensures forall i :: 0 <= i < |b.frame| ==> NoFarther(r.depth[i], b.depth[i])
    ensures forall i :: 0 <= i < |b.frame| ==> WrittenBy(CellOf(r, i), CellOf(b, i), t)
    ensures forall x, y :: OnScreen(b, x, y) ==> 0 <= Index(b, x, y) < |b.frame|
    ensures forall x, y :: OnScreen(b, x, y) && FragmentAt(t, x, y).count == 0 ==>
      CellOf(r, Index(b, x, y)) == CellOf(b, Index(b, x, y))
  {
    AllIndicesInRange(b);
    Buffers(b.width, b.height,
            seq(|b.frame|, i requires 0 <= i < |b.frame| => DrawnCell(b, t, i).color),
            seq(|b.frame|, i requires 0 <= i < |b.frame| => DrawnCell(b, t, i).depth))
  }

  /** Drawing the same triangle twice is drawing it once: its mean depths never beat themselves. */
  lemma DrawnIdempotent(b: Buffers, t: Triangle)
    requires Valid(b) && WellFormed(t)
    ensures Drawn(Drawn(b, t), t) == Drawn(b, t)
  {
    var once := Drawn(b, t);
    var twice := Drawn(once, t);
    forall i | 0 <= i < |b.frame|
      ensures CellOf(twice, i) == CellOf(once, i)
    {
      PixelOfInRange(b, i);
      var p := PixelOf(b, i);
      var f := FragmentAt(t, p.x, p.y);
      assert PixelOf(once, i) == p;
      assert CellOf(once, i) == ResolveCell(CellOf(b, i), f);
      assert CellOf(twice, i) == ResolveCell(CellOf(once, i), f);
    }
    assert twice.frame == once.frame;
    assert twice.depth == once.depth;
  }

  /** Wherever both triangles cover a sample of an on-screen pixel, their mean depths differ. */
  predicate MeanDepthsDiffer(b: Buffers, A: Triangle, B: Triangle)
    requires WellFormed(A) && WellFormed(B)
  {
    forall x, y ::
      (0 <= x < b.width && 0 <= y < b.height && FragmentAt(A, x, y).count > 0 && FragmentAt(B, x, y).count > 0) ==>
      MeanDepth(FragmentAt(A, x, y)) != MeanDepth(FragmentAt(B, x, y))
  }

  /**
    The depth test makes drawing order irrelevant: if the two triangles never
    tie on a pixel both cover, drawing A then B equals drawing B then A.
   */
  lemma DrawnCommute(b: Buffers, A: Triangle, B: Triangle)
    requires Valid(b) && WellFormed(A) && WellFormed(B) && MeanDepthsDiffer(b, A, B)
    ensures Drawn(Drawn(b, A), B) == Drawn(Drawn(b, B), A)
  {
    var ab := Drawn(Drawn(b, A), B);
    var ba := Drawn(Drawn(b, B), A);
    forall i | 0 <= i < |b.frame|
      ensures CellOf(ab, i) == CellOf(ba, i)
    {
      DrawnTwice(b, A, B, i);
      DrawnTwice(b, B, A, i);
      PixelOfInRange(b, i);
      var p := PixelOf(b, i);
      var fa, fb := FragmentAt(A, p.x, p.y), FragmentAt(B, p.x, p.y);
      ResolveCommutes(CellOf(b, i), fa, fb);
    }
    assert ab.frame == ba.frame;
    assert ab.depth == ba.depth;
  }

  /** Triangles at separated depth ranges, all of A nearer than all of B, never tie. */
  lemma SeparatedDepthsDiffer(b: Buffers, A: Triangle, B: Triangle)
    requires WellFormed(A) && WellFormed(B) && MaxZ(A) < MinZ(B)
    ensures MeanDepthsDiffer(b, A, B)
  {
    forall x, y | OnScreen(b, x, y) && FragmentAt(A, x, y).count > 0 && FragmentAt(B, x, y).count > 0
      ensures MeanDepth(FragmentAt(A, x, y)) < MeanDepth(FragmentAt(B, x, y))
    {
      MeanDepthWithin(A, x, y);
      MeanDepthWithin(B, x, y);
    }
  }

  /** Drawing two triangles resolves each cell against both fragments in drawing order. */
  lemma DrawnTwice(b: Buffers, A: Triangle, B: Triangle, i: int)
    requires Valid(b) && WellFormed(A) && WellFormed(B) && 0 <= i < |b.frame|
    ensures b.width > 0
    ensures CellOf(Drawn(Drawn(b, A), B), i)
            == ResolveCell(ResolveCell(CellOf(b, i), FragmentAt(A, PixelOf(b, i).x, PixelOf(b, i).y)),
                           FragmentAt(B, PixelOf(b, i).x, PixelOf(b, i).y))
  {
    PixelOfInRange(b, i);
    var once := Drawn(b, A);
    assert PixelOf(once, i) == PixelOf(b, i);
    assert CellOf(once, i) == DrawnCell(b, A, i);
  }

  /** After a depth-only clear, every pixel with a covered sample shows the triangle's colour. */
  lemma DrawAfterDepthClear(b: Buffers, t: Triangle, x: int, y: int)
    requires Valid(b) && WellFormed(t) && OnScreen(b, x, y) && FragmentAt(t, x, y).count > 0
    ensures 0 <= Index(b, x, y) < |b.frame|
    ensures Drawn(Clear(b, ClearMask(false, true)), t).frame[Index(b, x, y)] == t.color
  {
    IndexInRange(b, x, y);
    var cleared := Clear(b, ClearMask(false, true));
    var f := FragmentAt(t, x, y);
    assert cleared.depth[Index(b, x, y)] == Inf;
    MeanColorIsFlat(f, t.color);
    assert DrawnCell(cleared, t, Index(b, x, y)) == Cell(t.color, Fin(MeanDepth(f)));
  }

  /** The loops' progress: pixels of the box before (x, y) in visiting order are drawn. */
  predicate Visited(bx: Box, p: Pixel, x: int, y: int) {
    InBox(bx, p.x, p.y) && (p.x < x || (p.x == x && p.y < y))
  }

  function Partial(b: Buffers, t: Triangle, bx: Box, x: int, y: int, i: int): Cell
    requires Valid(b) && WellFormed(t) && 0 <= i < |b.frame|
  {
    PixelOfInRange(b, i);
    if Visited(bx, PixelOf(b, i), x, y) then DrawnCell(b, t, i) else CellOf(b, i)
  }

  /**
    `rasterize_triangle` (lines 119-177): visit every pixel of the truncated
    bounding box, column by column, and depth-test each one. The result is the
    whole-screen reference `Drawn`: the box culls no covered pixel.
   */
  method RasterizeTriangle(b: Buffers, t: Triangle) returns (r: Buffers)
    requires Valid(b) && WellFormed(t) && BoxOnScreen(b, BoundingBox(t))
    ensures r == Drawn(b, t)
  {
    var bx := BoundingBox(t);
    r := b;
    var x := bx.x0;
    while x <= bx.x1
      invariant bx.x0 <= x <= bx.x1 + 1
      invariant Valid(r) && r.width == b.width && r.height == b.height
      invariant forall i :: 0 <= i < |b.frame| ==> CellOf(r, i) == Partial(b, t, bx, x, bx.y0, i)
    {
      var y := bx.y0;
      while y <= bx.y1
        invariant bx.y0 <= y <= bx.y1 + 1
        invariant Valid(r) && r.width == b.width && r.height == b.height
        invariant forall i :: 0 <= i < |b.frame| ==> CellOf(r, i) == Partial(b, t, bx, x, y, i)
      {
        var next := DrawPixel(r, t, x, y);
        DrawPixelAdvances(b, t, bx, r, x, y);
        r := next;
        y := y + 1;
      }
      x := x + 1;
    }
    BoxSweepIsDrawn(b, t, r);
  }

  /** One iteration of the inner loop moves the visited frontier past pixel (x, y). */
  lemma DrawPixelAdvances(b: Buffers, t: Triangle, bx: Box, r: Buffers, x: int, y: int)
    requires Valid(b) && WellFormed(t) && OnScreen(b, x, y) && InBox(bx, x, y)
    requires Valid(r) && r.width == b.width && r.height == b.height
    requires forall i :: 0 <= i < |b.frame| ==> CellOf(r, i) == Partial(b, t, bx, x, y, i)
    ensures forall i :: 0 <= i < |b.frame| ==> CellOf(DrawPixel(r, t, x, y), i) == Partial(b, t, bx, x, y + 1, i)
  {
    var next := DrawPixel(r, t, x, y);
    IndexInRange(b, x, y);
    forall i | 0 <= i < |b.frame|
      ensures CellOf(next, i) == Partial(b, t, bx, x, y + 1, i)
    {
      PixelOfInRange(b, i);
      if i == Index(b, x, y) {
        assert CellOf(r, i) == CellOf(b, i);
      } else {
        assert PixelOf(b, i) != Pixel(x, y);
      }
    }
  }

  /** Once the whole truncated box is visited, the buffers are the whole-screen reference. */
  lemma BoxSweepIsDrawn(b: Buffers, t: Triangle, r: Buffers)
    requires Valid(b) && WellFormed(t)
    requires Valid(r) && r.width == b.width && r.height == b.height
    requires forall i :: 0 <= i < |b.frame| ==>
      CellOf(r, i) == Partial(b, t, BoundingBox(t), BoundingBox(t).x1 + 1, BoundingBox(t).y0, i)
    ensures r == Drawn(b, t)
  {
    var bx := BoundingBox(t);
    forall i | 0 <= i < |b.frame|
      ensures CellOf(r, i) == DrawnCell(b, t, i)
    {
      PixelOfInRange(b, i);
      var p := PixelOf(b, i);
      if !InBox(bx, p.x, p.y) && FragmentAt(t, p.x, p.y).count > 0 {
        BoxMissesNothing(t, p.x, p.y);
      }
    }
    var d := Drawn(b, t);
    assert r.frame == d.frame;
    assert r.depth == d.depth;
  }
}
