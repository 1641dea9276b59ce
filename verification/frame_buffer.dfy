/**
  The rasterizer's two per-pixel buffers: a colour (frame) buffer and a depth
  buffer, both flat sequences of width*height entries addressed by one
  flattening function. Row 0 of the flat buffers is the TOP screen row, while
  pixel coordinates measure y upwards from the bottom.
 */
module FrameBuffer {

  /** A stored depth: +infinity (the cleared state) or a finite real. */
  datatype Depth = Inf | Fin(z: real)

  /** The float comparison `z < d` of a finite depth against a stored one. */
  predicate Closer(z: real, d: Depth) {
    d.Inf? || z < d.z
  }

  /** `d` is no farther than `e` (+infinity is the farthest depth). */
  predicate NoFarther(d: Depth, e: Depth) {
    e.Inf? || (d.Fin? && d.z <= e.z)
  }

  /** An RGB triple; channels are floats in the source, reals here. */
  datatype Color = Color(r: real, g: real, b: real)

  const Black := Color(0.0, 0.0, 0.0)

  datatype Pixel = Pixel(x: int, y: int)

  datatype Buffers = Buffers(width: nat, height: nat, frame: seq<Color>, depth: seq<Depth>)

  /** Both buffers hold exactly one entry per pixel; they are never resized. */
  predicate Valid(b: Buffers) {
    |b.frame| == b.width * b.height && |b.depth| == b.width * b.height
  }

  predicate OnScreen(b: Buffers, x: int, y: int) {
    0 <= x < b.width && 0 <= y < b.height
  }

  /** `get_index`: pixel (x, y), y upwards, to its flat buffer index. */
  function Index(b: Buffers, x: int, y: int): int {
    (b.height - 1 - y) * b.width + x
  }

  /** The pixel stored at flat index `i`: the inverse of `Index`. */
  function PixelOf(b: Buffers, i: int): Pixel
    requires b.width > 0
  {
    Pixel(i % b.width, b.height - 1 - i / b.width)
  }

  lemma DivModUnique(i: int, w: int, q: int, r: int)
    requires w > 0 && 0 <= r < w && i == q * w + r
    ensures i / w == q && i % w == r
  {
    var d := i / w - q;
    assert w * d == r - i % w;
  }

  /** On-screen pixels land inside the buffers. */
  lemma IndexBounds(b: Buffers, x: int, y: int)
    requires OnScreen(b, x, y)
    ensures 0 <= Index(b, x, y) < b.width * b.height
  {
    var row := b.height - 1 - y;
    assert row * b.width <= (b.height - 1) * b.width;
    assert 0 <= row * b.width;
  }

  /** On-screen pixels land inside the buffers, and `PixelOf` undoes `Index`. */
  lemma IndexInRange(b: Buffers, x: int, y: int)
    requires OnScreen(b, x, y)
    ensures 0 <= Index(b, x, y) < b.width * b.height
    ensures PixelOf(b, Index(b, x, y)) == Pixel(x, y)
  {
    IndexBounds(b, x, y);
    DivModUnique(Index(b, x, y), b.width, b.height - 1 - y, x);
  }

  /** `IndexInRange` for every on-screen pixel at once. */
  lemma AllIndicesInRange(b: Buffers)
    ensures forall x, y :: OnScreen(b, x, y) ==>
      0 <= Index(b, x, y) < b.width * b.height && PixelOf(b, Index(b, x, y)) == Pixel(x, y)
  {
    forall x, y | OnScreen(b, x, y)
      ensures 0 <= Index(b, x, y) < b.width * b.height && PixelOf(b, Index(b, x, y)) == Pixel(x, y)
    {
      IndexInRange(b, x, y);
    }
  }

  /** Every flat index is the index of exactly the on-screen pixel `PixelOf` names. */
  lemma PixelOfInRange(b: Buffers, i: int)
    requires 0 <= i < b.width * b.height
    ensures b.width > 0
    ensures OnScreen(b, PixelOf(b, i).x, PixelOf(b, i).y)
    ensures Index(b, PixelOf(b, i).x, PixelOf(b, i).y) == i
  {
    var w, h := b.width, b.height;
    PositiveFactors(w, h);
    var q, r := i / w, i % w;
    assert i == w * q + r;
    MulMonotone(w, h, q);
    assert q < h;
  }

  lemma PositiveFactors(w: nat, h: nat)
    requires w * h > 0
    ensures w > 0 && h > 0
  {
  }

  lemma MulMonotone(w: nat, a: int, b: int)
    ensures a <= b ==> w * a <= w * b
  {
    if a <= b {
      assert w * b - w * a == w * (b - a);
    }
  }

  /** `get_index` is injective on the screen grid. */
  lemma IndexInjective(b: Buffers, x1: int, y1: int, x2: int, y2: int)
    requires OnScreen(b, x1, y1) && OnScreen(b, x2, y2)
    requires Index(b, x1, y1) == Index(b, x2, y2)
    ensures x1 == x2 && y1 == y2
  {
    IndexInRange(b, x1, y1);
    IndexInRange(b, x2, y2);
  }

  /** The bottom-left pixel starts the last row; the top-left pixel is entry 0. */
  lemma IndexCorners(b: Buffers)
    requires b.width > 0 && b.height > 0
    ensures Index(b, 0, 0) == (b.height - 1) * b.width
    ensures Index(b, 0, b.height - 1) == 0
    ensures Index(b, b.width - 1, 0) == b.width * b.height - 1
  {
  }

  /**
    The constructor: both buffers are resized to w*h entries. `std::vector::resize`
    value-initialises the float depths to 0; the Eigen colour vectors are left
    uninitialised, so their contents are a parameter here.
   */
  function Create(w: nat, h: nat, garbage: seq<Color>): (b: Buffers)
    requires |garbage| == w * h
    ensures Valid(b) && b.width == w && b.height == h
    ensures forall i :: 0 <= i < |b.depth| ==> b.depth[i] == Fin(0.0)
  {
    Buffers(w, h, garbage, seq(w * h, _ => Fin(0.0)))
  }

  /**
    A freshly created rasterizer rejects every fragment at a non-negative depth
    until the depth buffer is cleared: the initial depth 0 is already nearer.
   */
  lemma CreatedRejectsUntilCleared(w: nat, h: nat, garbage: seq<Color>, i: int, z: real)
    requires |garbage| == w * h && 0 <= i < w * h && 0.0 <= z
    ensures !Closer(z, Create(w, h, garbage).depth[i])
  {
  }

  /** `set_pixel`: overwrite exactly the colour at pixel (x, y). */
  function SetPixel(b: Buffers, x: int, y: int, c: Color): (r: Buffers)
    requires Valid(b) && OnScreen(b, x, y)
    ensures Valid(r) && r.width == b.width && r.height == b.height
    ensures r.depth == b.depth
    ensures 0 <= Index(b, x, y) < |r.frame| && r.frame[Index(b, x, y)] == c
    ensures forall i :: 0 <= i < |b.frame| && i != Index(b, x, y) ==> r.frame[i] == b.frame[i]
  {
    var i := Index(b, x, y);
    IndexBounds(b, x, y);
    b.(frame := b.frame[i := c])
  }

  /** The bit flags of `clear`: which of the two buffers to reset. */
  datatype ClearMask = ClearMask(color: bool, depth: bool)

  /** `clear`: reset the selected buffers to black and to +infinity. */
  function Clear(b: Buffers, m: ClearMask): (r: Buffers)
    requires Valid(b)
    ensures Valid(r) && r.width == b.width && r.height == b.height
    ensures m.color ==> forall i :: 0 <= i < |r.frame| ==> r.frame[i] == Black
    ensures !m.color ==> r.frame == b.frame
    ensures m.depth ==> forall i :: 0 <= i < |r.depth| ==> r.depth[i] == Inf
    ensures !m.depth ==> r.depth == b.depth
  {
    var frame := if m.color then seq(|b.frame|, _ => Black) else b.frame;
    var depth := if m.depth then seq(|b.depth|, _ => Inf) else b.depth;
    b.(frame := frame, depth := depth)
  }

  /** Clearing twice with the same flags is the same as clearing once. */
  lemma ClearIdempotent(b: Buffers, m: ClearMask)
    requires Valid(b)
    ensures Clear(Clear(b, m), m) == Clear(b, m)
  {
    var once := Clear(b, m);
    var twice := Clear(once, m);
    assert twice.frame == once.frame;
    assert twice.depth == once.depth;
  }

  /** Clearing colour and depth separately, in either order, is one combined clear. */
  lemma ClearFlagsCombine(b: Buffers)
    requires Valid(b)
    ensures Clear(Clear(b, ClearMask(true, false)), ClearMask(false, true)) == Clear(b, ClearMask(true, true))
    ensures Clear(Clear(b, ClearMask(false, true)), ClearMask(true, false)) == Clear(b, ClearMask(true, true))
  {
  }
}
