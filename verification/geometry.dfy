/**
  Screen-space geometry of the rasterizer: the 2D barycentric coordinates of a
  point against a triangle, the coverage test built on them, and the viewport
  remap that carries normalised device coordinates to pixels and depths.
  Floats are modelled as reals, so the identities below hold exactly.
 */
module Geometry {

  datatype Vec2 = Vec2(x: real, y: real)

  datatype Vec3 = Vec3(x: real, y: real, z: real)

  /**
    The edge function of the directed line a -> b evaluated at p: an affine
    function of p that vanishes on the line. Each barycentric numerator and
    denominator of `computeBarycentric2D` is one of these.
   */
  function Edge(a: Vec2, b: Vec2, p: Vec2): real {
    p.x * (a.y - b.y) + (b.x - a.x) * p.y + a.x * b.y - b.x * a.y
  }

  /** Twice the signed area of triangle v0 v1 v2. */
  function Area2(v0: Vec2, v1: Vec2, v2: Vec2): real {
    Edge(v1, v2, v0)
  }

  /** The triangle has a non-zero area, so no barycentric denominator is zero. */
  predicate NonDegenerate(v0: Vec2, v1: Vec2, v2: Vec2) {
    Area2(v0, v1, v2) != 0.0
  }

  /** The three denominators of `computeBarycentric2D` are all the same signed area. */
  lemma DenominatorsAgree(v0: Vec2, v1: Vec2, v2: Vec2)
    ensures Edge(v2, v0, v1) == Area2(v0, v1, v2)
    ensures Edge(v0, v1, v2) == Area2(v0, v1, v2)
  {
  }

  /** The three edge functions at any point add up to the signed area. */
  lemma EdgeSum(v0: Vec2, v1: Vec2, v2: Vec2, p: Vec2)
    ensures Edge(v1, v2, p) + Edge(v2, v0, p) + Edge(v0, v1, p) == Area2(v0, v1, v2)
  {
  }

  /** The edge-weighted vertices reproduce the point, scaled by the signed area. */
  lemma EdgeReconstruct(v0: Vec2, v1: Vec2, v2: Vec2, p: Vec2)
    ensures Edge(v1, v2, p) * v0.x + Edge(v2, v0, p) * v1.x + Edge(v0, v1, p) * v2.x == p.x * Area2(v0, v1, v2)
    ensures Edge(v1, v2, p) * v0.y + Edge(v2, v0, p) * v1.y + Edge(v0, v1, p) * v2.y == p.y * Area2(v0, v1, v2)
  {
  }

  datatype Bary = Bary(alpha: real, beta: real, gamma: real)

  /** The point with barycentric coordinates `bc` against v0 v1 v2. */
  function Combine(bc: Bary, v0: Vec2, v1: Vec2, v2: Vec2): Vec2 {
    Vec2(bc.alpha * v0.x + bc.beta * v1.x + bc.gamma * v2.x,
         bc.alpha * v0.y + bc.beta * v1.y + bc.gamma * v2.y)
  }

  /**
    `computeBarycentric2D`: the affine coordinates of p against v0 v1 v2. They
    sum to one and recombine the vertices into p itself.
   */
  function Barycentric(p: Vec2, v0: Vec2, v1: Vec2, v2: Vec2): (r: Bary)
    requires NonDegenerate(v0, v1, v2)
    ensures r.alpha + r.beta + r.gamma == 1.0
    ensures Combine(r, v0, v1, v2) == p
  {
    DenominatorsAgree(v0, v1, v2);
    var d := Area2(v0, v1, v2);
    var r := Bary(Edge(v1, v2, p) / Edge(v1, v2, v0),
                  Edge(v2, v0, p) / Edge(v2, v0, v1),
                  Edge(v0, v1, p) / Edge(v0, v1, v2));
    EdgeSum(v0, v1, v2, p);
    EdgeReconstruct(v0, v1, v2, p);
    ScaledSum(Edge(v1, v2, p), Edge(v2, v0, p), Edge(v0, v1, p), d, d);
    assert d / d == 1.0;
    ScaledSum(Edge(v1, v2, p) * v0.x, Edge(v2, v0, p) * v1.x, Edge(v0, v1, p) * v2.x, p.x * d, d);
    ScaledSum(Edge(v1, v2, p) * v0.y, Edge(v2, v0, p) * v1.y, Edge(v0, v1, p) * v2.y, p.y * d, d);
    r
  }

  lemma ScaledSum(a: real, b: real, c: real, s: real, d: real)
    requires d != 0.0 && a + b + c == s
    ensures a / d + b / d + c / d == s / d
  {
  }

  /** Barycentric coordinates are unique: any affine combination giving p is the computed one. */
  lemma BarycentricUnique(p: Vec2, v0: Vec2, v1: Vec2, v2: Vec2, bc: Bary)
    requires NonDegenerate(v0, v1, v2)
    requires bc.alpha + bc.beta + bc.gamma == 1.0 && Combine(bc, v0, v1, v2) == p
    ensures Barycentric(p, v0, v1, v2) == bc
  {
    DenominatorsAgree(v0, v1, v2);
    var d := Area2(v0, v1, v2);
    assert Edge(v1, v2, p) == bc.alpha * d;
    assert Edge(v2, v0, p) == bc.beta * d;
    assert Edge(v0, v1, p) == bc.gamma * d;
  }

  /** At vertex i the coordinates are the i-th unit triple. */
  lemma BarycentricAtVertices(v0: Vec2, v1: Vec2, v2: Vec2)
    requires NonDegenerate(v0, v1, v2)
    ensures Barycentric(v0, v0, v1, v2) == Bary(1.0, 0.0, 0.0)
    ensures Barycentric(v1, v0, v1, v2) == Bary(0.0, 1.0, 0.0)
    ensures Barycentric(v2, v0, v1, v2) == Bary(0.0, 0.0, 1.0)
  {
    BarycentricUnique(v0, v0, v1, v2, Bary(1.0, 0.0, 0.0));
    BarycentricUnique(v1, v0, v1, v2, Bary(0.0, 1.0, 0.0));
    BarycentricUnique(v2, v0, v1, v2, Bary(0.0, 0.0, 1.0));
  }

  /** The live coverage test of the pixel loop: all three coordinates non-negative. */
  predicate Covered(bc: Bary) {
    bc.alpha >= 0.0 && bc.beta >= 0.0 && bc.gamma >= 0.0
  }

  /**
    A point is covered exactly when it is a convex combination of the vertices:
    for any affine combination giving p, the test passes iff its weights are
    all non-negative.
   */
  lemma CoveredIffConvex(p: Vec2, v0: Vec2, v1: Vec2, v2: Vec2, bc: Bary)
    requires NonDegenerate(v0, v1, v2)
    requires bc.alpha + bc.beta + bc.gamma == 1.0 && Combine(bc, v0, v1, v2) == p
    ensures Covered(Barycentric(p, v0, v1, v2)) <==> Covered(bc)
  {
    BarycentricUnique(p, v0, v1, v2, bc);
  }

  function Min3(a: real, b: real, c: real): real {
    if a <= b && a <= c then a else if b <= c then b else c
  }

  function Max3(a: real, b: real, c: real): real {
    if a >= b && a >= c then a else if b >= c then b else c
  }

  lemma ConvexWithin(alpha: real, beta: real, gamma: real, a: real, b: real, c: real)
    requires alpha >= 0.0 && beta >= 0.0 && gamma >= 0.0 && alpha + beta + gamma == 1.0
    ensures Min3(a, b, c) <= alpha * a + beta * b + gamma * c <= Max3(a, b, c)
  {
    var lo, hi := Min3(a, b, c), Max3(a, b, c);
    var v := alpha * a + beta * b + gamma * c;
    assert v - lo == alpha * (a - lo) + beta * (b - lo) + gamma * (c - lo);
    NonNegProduct(alpha, a - lo);
    NonNegProduct(beta, b - lo);
    NonNegProduct(gamma, c - lo);
    assert hi - v == alpha * (hi - a) + beta * (hi - b) + gamma * (hi - c);
    NonNegProduct(alpha, hi - a);
    NonNegProduct(beta, hi - b);
    NonNegProduct(gamma, hi - c);
  }

  lemma NonNegProduct(a: real, b: real)
    requires a >= 0.0 && b >= 0.0
    ensures a * b >= 0.0
  {
  }

  lemma ConvexCombinationInBox(bc: Bary, v0: Vec2, v1: Vec2, v2: Vec2)
    requires Covered(bc) && bc.alpha + bc.beta + bc.gamma == 1.0
    ensures Min3(v0.x, v1.x, v2.x) <= Combine(bc, v0, v1, v2).x <= Max3(v0.x, v1.x, v2.x)
    ensures Min3(v0.y, v1.y, v2.y) <= Combine(bc, v0, v1, v2).y <= Max3(v0.y, v1.y, v2.y)
  {
    var q := Combine(bc, v0, v1, v2);
    ConvexWithin(bc.alpha, bc.beta, bc.gamma, v0.x, v1.x, v2.x);
    assert q.x == bc.alpha * v0.x + bc.beta * v1.x + bc.gamma * v2.x;
    ConvexWithin(bc.alpha, bc.beta, bc.gamma, v0.y, v1.y, v2.y);
    assert q.y == bc.alpha * v0.y + bc.beta * v1.y + bc.gamma * v2.y;
  }

  /** A covered point lies inside the triangle's axis-aligned bounding box. */
  lemma CoveredInBoundingBox(p: Vec2, v0: Vec2, v1: Vec2, v2: Vec2)
    requires NonDegenerate(v0, v1, v2) && Covered(Barycentric(p, v0, v1, v2))
    ensures Min3(v0.x, v1.x, v2.x) <= p.x <= Max3(v0.x, v1.x, v2.x)
    ensures Min3(v0.y, v1.y, v2.y) <= p.y <= Max3(v0.y, v1.y, v2.y)
  {
    ConvexCombinationInBox(Barycentric(p, v0, v1, v2), v0, v1, v2);
  }

  /** The tolerance of `insideTriangle`, the float literal 1e-6. */
  const Epsilon: real := 0.000001

  /**
    `insideTriangle` as the source writes it: it only checks that the three
    coordinates sum to at most 1 + epsilon. The pixel loop never calls it.
   */
  function InsideTriangleAsWritten(x: int, y: int, v0: Vec2, v1: Vec2, v2: Vec2): (r: bool)
    requires NonDegenerate(v0, v1, v2)
    ensures r
  {
    var bc := Barycentric(Vec2(x as real, y as real), v0, v1, v2);
    bc.alpha + bc.beta + bc.gamma - 1.0 <= Epsilon
  }

  /**
    The as-written test accepts every point outside the triangle (some
    affine weight negative), all of which the all-non-negative test rejects.
   */
  lemma InsideTriangleAsWrittenAcceptsOutside(x: int, y: int, v0: Vec2, v1: Vec2, v2: Vec2, bc: Bary)
    requires NonDegenerate(v0, v1, v2)
    requires bc.alpha + bc.beta + bc.gamma == 1.0 && Combine(bc, v0, v1, v2) == Vec2(x as real, y as real)
    requires !Covered(bc)
    ensures InsideTriangleAsWritten(x, y, v0, v1, v2)
    ensures !Covered(Barycentric(Vec2(x as real, y as real), v0, v1, v2))
  {
    BarycentricUnique(Vec2(x as real, y as real), v0, v1, v2, bc);
  }

  /**
    A concrete witness for the lemma above: pixel (5, 5) is the affine
    combination (-9, 5, 5) of the unit right triangle at the origin.
   */
  lemma InsideTriangleAsWrittenWitness()
    ensures NonDegenerate(Vec2(0.0, 0.0), Vec2(1.0, 0.0), Vec2(0.0, 1.0))
    ensures Combine(Bary(-9.0, 5.0, 5.0), Vec2(0.0, 0.0), Vec2(1.0, 0.0), Vec2(0.0, 1.0)) == Vec2(5 as real, 5 as real)
    ensures !Covered(Bary(-9.0, 5.0, 5.0))
  {
    var v0, v1, v2 := Vec2(0.0, 0.0), Vec2(1.0, 0.0), Vec2(0.0, 1.0);
    assert Area2(v0, v1, v2) == 1.0;
    assert Combine(Bary(-9.0, 5.0, 5.0), v0, v1, v2) == Vec2(5.0, 5.0);
  }

  /** The near and far planes behind the depth-remap constants f1 and f2. */
  const Near: real := 0.1
  const Far: real := 50.0
  const F1: real := (Far - Near) / 2.0
  const F2: real := (Far + Near) / 2.0

  /** The viewport transformation of `draw`, applied after homogeneous division. */
  function Viewport(width: nat, height: nat, v: Vec3): (r: Vec3)
    ensures -1.0 <= v.x <= 1.0 ==> 0.0 <= r.x <= width as real
    ensures -1.0 <= v.y <= 1.0 ==> 0.0 <= r.y <= height as real
    ensures -1.0 <= v.z <= 1.0 ==> Near <= r.z <= Far
  {
    Vec3(0.5 * width as real * (v.x + 1.0), 0.5 * height as real * (v.y + 1.0), v.z * F1 + F2)
  }

  /** The inverse of the viewport map, back to normalised device coordinates. */
  function ViewportInverse(width: nat, height: nat, r: Vec3): Vec3
    requires width > 0 && height > 0
  {
    Vec3(2.0 * r.x / width as real - 1.0, 2.0 * r.y / height as real - 1.0, (r.z - F2) / F1)
  }

  /** The viewport map is a bijection on non-empty screens: the inverse undoes it both ways. */
  lemma ViewportRoundTrip(width: nat, height: nat, v: Vec3, r: Vec3)
    requires width > 0 && height > 0
    ensures ViewportInverse(width, height, Viewport(width, height, v)) == v
    ensures Viewport(width, height, ViewportInverse(width, height, r)) == r
  {
  }

  /** NDC corners land on the screen corners; depth -1 lands on Near and +1 on Far. */
  lemma ViewportCorners(width: nat, height: nat)
    ensures Viewport(width, height, Vec3(-1.0, -1.0, -1.0)) == Vec3(0.0, 0.0, Near)
    ensures Viewport(width, height, Vec3(1.0, 1.0, 1.0)) == Vec3(width as real, height as real, Far)
  {
  }

  /** The remap preserves depth order, so the depth test compares the same way before and after. */
  lemma ViewportDepthMonotone(width: nat, height: nat, u: Vec3, v: Vec3)
    ensures u.z < v.z <==> Viewport(width, height, u).z < Viewport(width, height, v).z
  {
  }
}
