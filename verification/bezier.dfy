/**
  `recursive_bezier`: de Casteljau's algorithm as a list reduction. Each round
  replaces n points by the n - 1 linear interpolations of neighbours, until one
  point is left. The reference `Casteljau` is the textbook recursion
  B(p0..pn) = (1 - t) B(p0..pn-1) + t B(p1..pn).
 */
module Bezier {
  import Geometry

  /** A control point; `cv::Point2f` holds floats, reals here. */
  datatype Point = Point(x: real, y: real)

  datatype Option<T> = None | Some(value: T)

  /** The interpolation of one coordinate: (1 - t) a + t b. */
  function Mix(a: real, b: real, t: real): real {
    (1.0 - t) * a + t * b
  }

  /** The interpolation of one round, coordinate by coordinate. */
  function Lerp(p: Point, q: Point, t: real): Point {
    Point(Mix(p.x, q.x, t), Mix(p.y, q.y, t))
  }

  /** One round of the outer loop: one point fewer, each the lerp of two neighbours. */
  function Round(ps: seq<Point>, t: real): (r: seq<Point>)
    requires |ps| >= 1
    ensures |r| == |ps| - 1
    ensures forall i :: 0 <= i < |r| ==> r[i] == Lerp(ps[i], ps[i + 1], t)
  {
    seq(|ps| - 1, i requires 0 <= i < |ps| - 1 => Lerp(ps[i], ps[i + 1], t))
  }

  /** The curve point of control polygon `ps` at parameter t, by the two-sided recursion. */
  function Casteljau(ps: seq<Point>, t: real): Point
    requires |ps| >= 1
  {
    if |ps| == 1 then ps[0]
    else Lerp(Casteljau(ps[..|ps| - 1], t), Casteljau(ps[1..], t), t)
  }

  /** A round of the loop does not change the curve point: the loop's invariant. */
  lemma {:induction false} RoundPreservesCurve(ps: seq<Point>, t: real)
    requires |ps| >= 2
    ensures Casteljau(Round(ps, t), t) == Casteljau(ps, t)
    decreases |ps|
  {
    var r := Round(ps, t);
    var n := |ps|;
    if n > 2 {
      assert r[..n - 2] == Round(ps[..n - 1], t);
      assert r[1..] == Round(ps[1..], t);
      RoundPreservesCurve(ps[..n - 1], t);
      RoundPreservesCurve(ps[1..], t);
    } else {
      assert ps[..1] == [ps[0]] && ps[1..] == [ps[1]];
    }
  }

  /**
    `recursive_bezier` (main.cpp:52-75). The source reads `points[0]` of the
    final list, which an empty input leaves empty; that case returns None.
    Otherwise the loop stops with exactly one point, the curve point.
   */
  method RecursiveBezier(controlPoints: seq<Point>, t: real) returns (r: Option<Point>)
    ensures r.None? <==> |controlPoints| == 0
    ensures |controlPoints| >= 1 ==> r == Some(Casteljau(controlPoints, t))
  {
    var points := controlPoints;
    while |points| > 1
      invariant |controlPoints| >= 1 ==> |points| >= 1 && Casteljau(points, t) == Casteljau(controlPoints, t)
      invariant |controlPoints| == 0 ==> points == []
      decreases |points|
    {
      var newPoints: seq<Point> := [];
      var i := 0;
      while i < |points| - 1
        invariant 0 <= i <= |points| - 1
        invariant |newPoints| == i
        invariant forall j :: 0 <= j < i ==> newPoints[j] == Lerp(points[j], points[j + 1], t)
      {
        var x := (1.0 - t) * points[i].x + t * points[i + 1].x;
        var y := (1.0 - t) * points[i].y + t * points[i + 1].y;
        assert Point(x, y) == Lerp(points[i], points[i + 1], t);
        newPoints := newPoints + [Point(x, y)];
        i := i + 1;
      }
      assert newPoints == Round(points, t);
      RoundPreservesCurve(points, t);
      points := newPoints;
    }
    if |points| == 0 {
      return None;
    }
    return Some(points[0]);
  }

  /** At t = 0 the curve starts at the first control point. */
  lemma {:induction false} CasteljauAtZero(ps: seq<Point>)
    requires |ps| >= 1
    ensures Casteljau(ps, 0.0) == ps[0]
    decreases |ps|
  {
    if |ps| > 1 {
      CasteljauAtZero(ps[..|ps| - 1]);
    }
  }

  /** At t = 1 the curve ends at the last control point. */
  lemma {:induction false} CasteljauAtOne(ps: seq<Point>)
    requires |ps| >= 1
    ensures Casteljau(ps, 1.0) == ps[|ps| - 1]
    decreases |ps|
  {
    if |ps| > 1 {
      CasteljauAtOne(ps[1..]);
    }
  }

  /** One control point is returned unchanged; two give their linear interpolation. */
  lemma CasteljauShortPolygons(p: Point, q: Point, t: real)
    ensures Casteljau([p], t) == p
    ensures Casteljau([p, q], t) == Lerp(p, q, t)
  {
    assert [p, q][..1] == [p] && [p, q][1..] == [q];
  }

  /** Every x coordinate lies in [lo, hi]. */
  predicate XWithin(ps: seq<Point>, lo: real, hi: real) {
    forall i :: 0 <= i < |ps| ==> lo <= ps[i].x <= hi
  }

  /** Every y coordinate lies in [lo, hi]. */
  predicate YWithin(ps: seq<Point>, lo: real, hi: real) {
    forall i :: 0 <= i < |ps| ==> lo <= ps[i].y <= hi
  }

  lemma LerpWithin(a: real, b: real, t: real, lo: real, hi: real)
    requires 0.0 <= t <= 1.0 && lo <= a <= hi && lo <= b <= hi
    ensures lo <= Mix(a, b, t) <= hi
  {
    Geometry.NonNegProduct(1.0 - t, a - lo);
    Geometry.NonNegProduct(t, b - lo);
    Geometry.NonNegProduct(1.0 - t, hi - a);
    Geometry.NonNegProduct(t, hi - b);
    assert (1.0 - t) * a + t * b - lo == (1.0 - t) * (a - lo) + t * (b - lo);
    assert hi - ((1.0 - t) * a + t * b) == (1.0 - t) * (hi - a) + t * (hi - b);
  }

  lemma LerpPointWithin(p: Point, q: Point, t: real, lox: real, hix: real, loy: real, hiy: real)
    requires 0.0 <= t <= 1.0
    requires lox <= p.x <= hix && lox <= q.x <= hix && loy <= p.y <= hiy && loy <= q.y <= hiy
    ensures lox <= Lerp(p, q, t).x <= hix && loy <= Lerp(p, q, t).y <= hiy
  {
    LerpWithin(p.x, q.x, t, lox, hix);
    LerpWithin(p.y, q.y, t, loy, hiy);
  }

  /**
    For t in [0, 1] the curve point stays in every axis-aligned box that holds
    the control polygon (the convex-hull property, per axis).
   */
  lemma {:induction false} CasteljauWithin(ps: seq<Point>, t: real, lox: real, hix: real, loy: real, hiy: real)
    requires |ps| >= 1 && 0.0 <= t <= 1.0
    requires XWithin(ps, lox, hix) && YWithin(ps, loy, hiy)
    ensures lox <= Casteljau(ps, t).x <= hix
    ensures loy <= Casteljau(ps, t).y <= hiy
    decreases |ps|
  {
    if |ps| > 1 {
      var front, back := ps[..|ps| - 1], ps[1..];
      assert forall i :: 0 <= i < |front| ==> front[i] == ps[i];
      assert forall i :: 0 <= i < |back| ==> back[i] == ps[i + 1];
      CasteljauWithin(front, t, lox, hix, loy, hiy);
      CasteljauWithin(back, t, lox, hix, loy, hiy);
      var a, b := Casteljau(front, t), Casteljau(back, t);
      assert Casteljau(ps, t) == Lerp(a, b, t);
      LerpPointWithin(a, b, t, lox, hix, loy, hiy);
    }
  }

  /** The cubic Bernstein form of one coordinate, as `naive_bezier` evaluates it. */
  function Cubic(a: real, b: real, c: real, d: real, t: real): real {
    var s := 1.0 - t;
    s * s * s * a + 3.0 * t * s * s * b + 3.0 * t * t * s * c + t * t * t * d
  }

  function Quadratic(a: real, b: real, c: real, t: real): real {
    var s := 1.0 - t;
    s * s * a + 2.0 * t * s * b + t * t * c
  }

  lemma QuadraticStep(a: real, b: real, c: real, t: real)
    ensures Mix(Mix(a, b, t), Mix(b, c, t), t) == Quadratic(a, b, c, t)
  {
  }

  lemma CubicStep(a: real, b: real, c: real, d: real, t: real)
    ensures Mix(Quadratic(a, b, c, t), Quadratic(b, c, d, t), t) == Cubic(a, b, c, d, t)
  {
  }

  /** Three control points give the quadratic Bernstein form. */
  lemma CasteljauQuadratic(p0: Point, p1: Point, p2: Point, t: real)
    ensures Casteljau([p0, p1, p2], t)
            == Point(Quadratic(p0.x, p1.x, p2.x, t), Quadratic(p0.y, p1.y, p2.y, t))
  {
    var ps := [p0, p1, p2];
    assert ps[..2] == [p0, p1] && ps[1..] == [p1, p2];
    CasteljauShortPolygons(p0, p1, t);
    CasteljauShortPolygons(p1, p2, t);
    assert Casteljau(ps, t) == Lerp(Lerp(p0, p1, t), Lerp(p1, p2, t), t);
    QuadraticStep(p0.x, p1.x, p2.x, t);
    QuadraticStep(p0.y, p1.y, p2.y, t);
  }

  /**
    With the four control points the program collects, de Casteljau agrees
    with the closed cubic form of `naive_bezier`.
   */
  lemma CasteljauCubic(p0: Point, p1: Point, p2: Point, p3: Point, t: real)
    ensures Casteljau([p0, p1, p2, p3], t)
            == Point(Cubic(p0.x, p1.x, p2.x, p3.x, t), Cubic(p0.y, p1.y, p2.y, p3.y, t))
  {
    var ps := [p0, p1, p2, p3];
    assert ps[..3] == [p0, p1, p2] && ps[1..] == [p1, p2, p3];
    CasteljauQuadratic(p0, p1, p2, t);
    CasteljauQuadratic(p1, p2, p3, t);
    assert Casteljau(ps, t) == Lerp(Casteljau([p0, p1, p2], t), Casteljau([p1, p2, p3], t), t);
    CubicStep(p0.x, p1.x, p2.x, p3.x, t);
    CubicStep(p0.y, p1.y, p2.y, p3.y, t);
  }
}
