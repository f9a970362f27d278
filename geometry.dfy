/** The line-segment geometry of the collision subsystem (src/Collision/Line.cpp):
    closest point, intersection of the infinite lines, and the overlap tests against
    another segment, an axis-aligned rectangle and a point. Coordinates are reals. */
module Geometry {

  /** A point, also used as a 2D vector (`Point` and `Vec2<>` in the source). */
  datatype Point = Point(x: real, y: real)

  /** A segment from `positionA` to `positionB`. */
  datatype Line = Line(positionA: Point, positionB: Point)

  /** An axis-aligned rectangle given by its center and its full width and height. */
  datatype Rectangle = Rectangle(position: Point, size: Point)

  const Origin := Point(0.0, 0.0)

  function Add(p: Point, q: Point): Point { Point(p.x + q.x, p.y + q.y) }

  function Sub(p: Point, q: Point): Point { Point(p.x - q.x, p.y - q.y) }

  function Scale(p: Point, k: real): Point { Point(p.x * k, p.y * k) }

  function Div(p: Point, k: real): Point
    requires k != 0.0
  {
    Point(p.x / k, p.y / k)
  }

  /** The 2D cross product (the z component of the 3D one). */
  function Cross(p: Point, q: Point): real { p.x * q.y - p.y * q.x }

  function Dot(p: Point, q: Point): real { p.x * q.x + p.y * q.y }

  /** Squared Euclidean distance. */
  function Dist2(p: Point, q: Point): real { Dot(Sub(p, q), Sub(p, q)) }

  /** The direction of a segment, from its first endpoint to its second. */
  function Direction(l: Line): Point { Sub(l.positionB, l.positionA) }

  /** `q` lies on the infinite line through the segment's endpoints. */
  ghost predicate OnLine(l: Line, q: Point)
  {
    Cross(Sub(q, l.positionA), Direction(l)) == 0.0
  }

  /** The point at parameter `s` of the segment: `positionA` at 0, `positionB` at 1. */
  function At(l: Line, s: real): Point
  {
    Add(l.positionA, Scale(Direction(l), s))
  }

  // ---------------------------------------------------------------------------
  // Arithmetic facts the solver needs spelled out

  // Each product is named by a parameter `p` rather than written out: the solver keeps a
  // fact about a named product, while one about `a * a` itself it rewrites away.

  lemma MulPositive(x: real, y: real, p: real)
    requires x > 0.0 && y > 0.0 && p == x * y
    ensures p > 0.0
  {
  }

  lemma SquareNonNegative(a: real, p: real)
    requires p == a * a
    ensures p >= 0.0
  {
    if a < 0.0 {
      var m := -a;
      assert p == m * m;
    }
  }

  lemma SquarePositive(a: real, p: real)
    requires p == a * a && a != 0.0
    ensures p > 0.0
  {
    if a > 0.0 {
      MulPositive(a, a, p);
    } else {
      var m := -a;
      assert p == m * m;
      MulPositive(m, m, p);
    }
  }

  /** A² + B² (written `a * a - -b * b` as in the source) is positive unless A = B = 0. */
  lemma SumOfSquaresPositive(a: real, b: real, s: real)
    requires s == a * a - -b * b && (a != 0.0 || b != 0.0)
    ensures s > 0.0
  {
    var aa, bb := a * a, b * b;
    SquareNonNegative(a, aa);
    SquareNonNegative(b, bb);
    if a != 0.0 {
      SquarePositive(a, aa);
    } else {
      SquarePositive(b, bb);
    }
  }

  lemma DivMul(a: real, k: real)
    requires k != 0.0
    ensures (a / k) * k == a
  {
  }

  lemma MulMonotone(k: real, a: real, b: real)
    requires k >= 0.0 && a <= b
    ensures k * a <= k * b
  {
    assert k * b - k * a == k * (b - a);
  }

  /** Cramer's rule for the 2×2 system behind `getIntersection`. */
  lemma Cramer(px: real, py: real, qx: real, qy: real, c1: real, c2: real)
    requires px * qy - py * qx != 0.0
    ensures var det := px * qy - py * qx;
      var rx, ry := (qx * c1 - px * c2) / det, (qy * c1 - py * c2) / det;
      rx * py - ry * px == -c1 && rx * qy - ry * qx == -c2
  {
    var det := px * qy - py * qx;
    var rx, ry := (qx * c1 - px * c2) / det, (qy * c1 - py * c2) / det;
    assert rx * det == qx * c1 - px * c2;
    assert ry * det == qy * c1 - py * c2;
    assert (rx * py - ry * px) * det == (rx * det) * py - (ry * det) * px;
    assert (rx * py - ry * px) * det == (qx * c1 - px * c2) * py - (qy * c1 - py * c2) * px;
    assert (rx * py - ry * px) * det == -c1 * det;
    assert (rx * qy - ry * qx) * det == (rx * det) * qy - (ry * det) * qx;
    assert (rx * qy - ry * qx) * det == (qx * c1 - px * c2) * qy - (qy * c1 - py * c2) * qx;
    assert (rx * qy - ry * qx) * det == -c2 * det;
  }

  // ---------------------------------------------------------------------------
  // closestPointTo

  /** The determinant of `closestPointTo`, written `A1 * A1 - -B1 * B1` in the source,
      that is A1² + B1² for the line's normal (A1, B1). */
  function ClosestDet(l: Line): real
  {
    var a1 := l.positionB.y - l.positionA.y;
    var b1 := l.positionA.x - l.positionB.x;
    a1 * a1 - -b1 * b1
  }

  /** The determinant vanishes exactly for a zero-length segment. */
  lemma ClosestDetZero(l: Line)
    ensures ClosestDet(l) == 0.0 <==> l.positionA == l.positionB
  {
    if l.positionA != l.positionB {
      SumOfSquaresPositive(l.positionB.y - l.positionA.y, l.positionA.x - l.positionB.x, ClosestDet(l));
    }
  }

  /** Projects `point` onto the line in normal form A1·x + B1·y = C1, solving it together
      with the perpendicular through `point`, −B1·x + A1·y = C2. A zero-length segment
      returns `point` itself. */
  function ClosestPointTo(l: Line, point: Point): (r: Point)
    ensures l.positionA == l.positionB ==> r == point
  {
    var a1 := l.positionB.y - l.positionA.y;
    var b1 := l.positionA.x - l.positionB.x;
    var c1 := a1 * l.positionA.x + b1 * l.positionA.y;
    var c2 := -b1 * point.x + a1 * point.y;
    var det := a1 * a1 - -b1 * b1;
    if det == 0.0 then point
    else Point((a1 * c1 - b1 * c2) / det, (a1 * c2 + b1 * c1) / det)
  }

  /** For a segment of nonzero length the result solves both equations of the source:
      it lies on the line, and the step from `point` to it is perpendicular to the line. */
  lemma ClosestPointIsProjection(l: Line, point: Point)
    requires l.positionA != l.positionB
    ensures var r := ClosestPointTo(l, point);
      OnLine(l, r) && Dot(Sub(point, r), Direction(l)) == 0.0
  {
    var a1 := l.positionB.y - l.positionA.y;
    var b1 := l.positionA.x - l.positionB.x;
    var c1 := a1 * l.positionA.x + b1 * l.positionA.y;
    var c2 := -b1 * point.x + a1 * point.y;
    var det := ClosestDet(l);
    ClosestDetZero(l);
    var r := ClosestPointTo(l, point);
    DivMul(a1 * c1 - b1 * c2, det);
    DivMul(a1 * c2 + b1 * c1, det);
    NormalEquations(a1, b1, c1, c2, det, r.x, r.y);
  }

  /** Cancels a nonzero factor. */
  lemma CancelFactor(u: real, v: real, d: real)
    requires d != 0.0 && u * d == v * d
    ensures u == v
  {
    assert (u - v) * d == 0.0;
  }

  /** The solution of Cramer's rule for the normal form solves both equations. */
  lemma NormalEquations(a1: real, b1: real, c1: real, c2: real, det: real, x: real, y: real)
    requires det != 0.0 && det == a1 * a1 - -b1 * b1
    requires x * det == a1 * c1 - b1 * c2 && y * det == a1 * c2 + b1 * c1
    ensures a1 * x + b1 * y == c1
    ensures -b1 * x + a1 * y == c2
  {
    assert (a1 * x + b1 * y) * det == a1 * (x * det) + b1 * (y * det);
    assert a1 * (a1 * c1 - b1 * c2) + b1 * (a1 * c2 + b1 * c1) == c1 * det;
    CancelFactor(a1 * x + b1 * y, c1, det);
    assert (-b1 * x + a1 * y) * det == -b1 * (x * det) + a1 * (y * det);
    assert -b1 * (a1 * c1 - b1 * c2) + a1 * (a1 * c2 + b1 * c1) == c2 * det;
    CancelFactor(-b1 * x + a1 * y, c2, det);
  }

  /** Hence the result is the nearest point of the infinite line to `point`. */
  lemma ClosestPointIsNearest(l: Line, point: Point, q: Point)
    requires l.positionA != l.positionB && OnLine(l, q)
    ensures Dist2(point, ClosestPointTo(l, point)) <= Dist2(point, q)
  {
    var r := ClosestPointTo(l, point);
    ClosestPointIsProjection(l, point);
    var d := Direction(l);
    var u := Sub(point, r);
    var v := Sub(q, r);
    assert Cross(v, d) == Cross(Sub(q, l.positionA), d) - Cross(Sub(r, l.positionA), d);
    assert Dot(u, d) == 0.0 && Cross(v, d) == 0.0;
    // in the plane, a vector perpendicular to d and one parallel to d are orthogonal
    assert Dot(u, v) * d.x == v.x * Dot(u, d) + u.y * (v.y * d.x - v.x * d.y);
    assert Dot(u, v) * d.y == v.y * Dot(u, d) - u.x * (v.y * d.x - v.x * d.y);
    assert d.x != 0.0 || d.y != 0.0;
    assert Dot(u, v) == 0.0;
    assert Sub(point, q) == Sub(u, v);
    assert Dist2(point, q) == Dot(u, u) - 2.0 * Dot(u, v) + Dot(v, v);
    assert Dot(v, v) >= 0.0;
  }

  // ---------------------------------------------------------------------------
  // getIntersection

  /** The determinant of `getIntersection`: the cross product of the two directions. */
  function IntersectionDet(l: Line, m: Line): real
  {
    Cross(Sub(l.positionA, l.positionB), Sub(m.positionA, m.positionB))
  }

  /** The intersection of the two infinite lines through the segments; the origin when their
      directions are parallel. */
  function GetIntersection(l: Line, m: Line): (r: Point)
    ensures IntersectionDet(l, m) == 0.0 ==> r == Origin
  {
    var a := Sub(l.positionA, l.positionB);
    var b := Sub(m.positionA, m.positionB);
    var det := Cross(a, b);
    if det == 0.0 then Origin
    else Div(Sub(Scale(b, Cross(l.positionA, l.positionB)), Scale(a, Cross(m.positionA, m.positionB))), det)
  }

  /** For non-parallel lines the result lies on both infinite lines (not necessarily
      within either segment). */
  lemma IntersectionOnBothLines(l: Line, m: Line)
    requires IntersectionDet(l, m) != 0.0
    ensures OnLine(l, GetIntersection(l, m)) && OnLine(m, GetIntersection(l, m))
  {
    IntersectionCrosses(l, m);
    OnLineByCross(l, GetIntersection(l, m));
    OnLineByCross(m, GetIntersection(l, m));
  }

  /** The intersection solves the two line equations in cross-product form. */
  lemma IntersectionCrosses(l: Line, m: Line)
    requires IntersectionDet(l, m) != 0.0
    ensures var r := GetIntersection(l, m);
      && Cross(r, Sub(l.positionA, l.positionB)) == -Cross(l.positionA, l.positionB)
      && Cross(r, Sub(m.positionA, m.positionB)) == -Cross(m.positionA, m.positionB)
  {
    var a := Sub(l.positionA, l.positionB);
    var b := Sub(m.positionA, m.positionB);
    var c1 := Cross(l.positionA, l.positionB);
    var c2 := Cross(m.positionA, m.positionB);
    Cramer(a.x, a.y, b.x, b.y, c1, c2);
  }

  /** A point `r` is on the line exactly when Cross(r, A − B) == −Cross(A, B). */
  lemma OnLineByCross(l: Line, r: Point)
    ensures OnLine(l, r) <==> Cross(r, Sub(l.positionA, l.positionB)) == -Cross(l.positionA, l.positionB)
  {
    var p, q := l.positionA, l.positionB;
    assert Cross(Sub(r, p), Direction(l)) == -(Cross(r, Sub(p, q)) + Cross(p, q));
  }

  /** For non-parallel lines the result is the only point on both lines. */
  lemma IntersectionUnique(l: Line, m: Line, q: Point)
    requires IntersectionDet(l, m) != 0.0
    requires OnLine(l, q) && OnLine(m, q)
    ensures q == GetIntersection(l, m)
  {
    IntersectionOnBothLines(l, m);
    var r := GetIntersection(l, m);
    var a := Sub(l.positionA, l.positionB);
    var b := Sub(m.positionA, m.positionB);
    var det := Cross(a, b);
    var e := Sub(q, r);
    // q - r is parallel to both directions, so it is zero
    assert Cross(e, Direction(l)) == Cross(Sub(q, l.positionA), Direction(l)) - Cross(Sub(r, l.positionA), Direction(l));
    assert Cross(e, Direction(m)) == Cross(Sub(q, m.positionA), Direction(m)) - Cross(Sub(r, m.positionA), Direction(m));
    assert Cross(e, a) == 0.0 && Cross(e, b) == 0.0;
    assert e.x * det == a.x * Cross(e, b) - b.x * Cross(e, a);
    assert e.y * det == a.y * Cross(e, b) - b.y * Cross(e, a);
    assert e.x == 0.0 && e.y == 0.0;
  }

  // ---------------------------------------------------------------------------
  // overlap(Line)

  /** The shared denominator of uA and uB. */
  function Denominator(l: Line, m: Line): real
  {
    var x1, y1, x2, y2 := l.positionA.x, l.positionA.y, l.positionB.x, l.positionB.y;
    var x3, y3, x4, y4 := m.positionA.x, m.positionA.y, m.positionB.x, m.positionB.y;
    (y4 - y3) * (x2 - x1) - (x4 - x3) * (y2 - y1)
  }

  /** The numerator of uA, the parameter of the crossing point along `l`. */
  function NumeratorA(l: Line, m: Line): real
  {
    var x1, y1 := l.positionA.x, l.positionA.y;
    var x3, y3, x4, y4 := m.positionA.x, m.positionA.y, m.positionB.x, m.positionB.y;
    (x4 - x3) * (y1 - y3) - (y4 - y3) * (x1 - x3)
  }

  /** The numerator of uB, the parameter of the crossing point along `m`. */
  function NumeratorB(l: Line, m: Line): real
  {
    var x1, y1, x2, y2 := l.positionA.x, l.positionA.y, l.positionB.x, l.positionB.y;
    var x3, y3 := m.positionA.x, m.positionA.y;
    (x2 - x1) * (y1 - y3) - (y2 - y1) * (x1 - x3)
  }

  /** Segment-against-segment test by the parametric method: true iff both uA and uB lie in
      [0, 1]. A zero denominator (parallel or collinear segments) makes the floating-point
      quotients infinite or NaN, every comparison fails and the answer is false. */
  function OverlapLine(l: Line, m: Line): (r: bool)
    ensures Denominator(l, m) == 0.0 ==> !r
  {
    var d := Denominator(l, m);
    if d == 0.0 then false
    else
      var uA := NumeratorA(l, m) / d;
      var uB := NumeratorB(l, m) / d;
      uA >= 0.0 && uA <= 1.0 && uB >= 0.0 && uB <= 1.0
  }

  /** The two segments share a point. */
  ghost predicate SegmentsMeet(l: Line, m: Line)
  {
    exists s: real, t: real :: 0.0 <= s <= 1.0 && 0.0 <= t <= 1.0 && At(l, s) == At(m, t)
  }

  /** uA and uB are the parameters at which the two lines cross. */
  lemma CrossingParameters(l: Line, m: Line)
    requires Denominator(l, m) != 0.0
    ensures At(l, NumeratorA(l, m) / Denominator(l, m)) == At(m, NumeratorB(l, m) / Denominator(l, m))
  {
    var dd := Denominator(l, m);
    var s := NumeratorA(l, m) / dd;
    var t := NumeratorB(l, m) / dd;
    var d1, d2 := Direction(l), Direction(m);
    var w := Sub(l.positionA, m.positionA);
    assert dd == d2.y * d1.x - d2.x * d1.y;
    assert NumeratorA(l, m) == d2.x * w.y - d2.y * w.x;
    assert NumeratorB(l, m) == d1.x * w.y - d1.y * w.x;
    assert s * dd == d2.x * w.y - d2.y * w.x;
    assert t * dd == d1.x * w.y - d1.y * w.x;
    assert (w.x + s * d1.x - t * d2.x) * dd == w.x * dd + (s * dd) * d1.x - (t * dd) * d2.x;
    assert w.x * dd + (d2.x * w.y - d2.y * w.x) * d1.x - (d1.x * w.y - d1.y * w.x) * d2.x == 0.0;
    assert w.x + s * d1.x - t * d2.x == 0.0;
    assert (w.y + s * d1.y - t * d2.y) * dd == w.y * dd + (s * dd) * d1.y - (t * dd) * d2.y;
    assert w.y * dd + (d2.x * w.y - d2.y * w.x) * d1.y - (d1.x * w.y - d1.y * w.x) * d2.y == 0.0;
    assert w.y + s * d1.y - t * d2.y == 0.0;
  }

  /** Any common point of the two lines has exactly the parameters uA and uB. */
  lemma CrossingParametersUnique(l: Line, m: Line, s: real, t: real)
    requires Denominator(l, m) != 0.0 && At(l, s) == At(m, t)
    ensures s == NumeratorA(l, m) / Denominator(l, m) && t == NumeratorB(l, m) / Denominator(l, m)
  {
    var dd := Denominator(l, m);
    var d1, d2 := Direction(l), Direction(m);
    var w := Sub(l.positionA, m.positionA);
    assert w.x + s * d1.x == t * d2.x && w.y + s * d1.y == t * d2.y;
    assert s * dd == d2.y * (s * d1.x) - d2.x * (s * d1.y);
    assert s * dd == d2.y * (t * d2.x - w.x) - d2.x * (t * d2.y - w.y);
    assert s * dd == NumeratorA(l, m);
    assert t * dd == (t * d2.y) * d1.x - (t * d2.x) * d1.y;
    assert t * dd == (w.y + s * d1.y) * d1.x - (w.x + s * d1.x) * d1.y;
    assert t * dd == NumeratorB(l, m);
  }

  /** For non-parallel segments the test is exact: true iff the segments share a point. */
  lemma OverlapLineMeansMeet(l: Line, m: Line)
    requires Denominator(l, m) != 0.0
    ensures OverlapLine(l, m) <==> SegmentsMeet(l, m)
  {
    var dd := Denominator(l, m);
    if OverlapLine(l, m) {
      CrossingParameters(l, m);
      var s, t := NumeratorA(l, m) / dd, NumeratorB(l, m) / dd;
      assert 0.0 <= s <= 1.0 && 0.0 <= t <= 1.0 && At(l, s) == At(m, t);
    }
    if SegmentsMeet(l, m) {
      var s: real, t: real :| 0.0 <= s <= 1.0 && 0.0 <= t <= 1.0 && At(l, s) == At(m, t);
      CrossingParametersUnique(l, m, s, t);
    }
  }

  /** Whenever the test says true, the segments really share a point. */
  lemma OverlapLineSound(l: Line, m: Line)
    requires OverlapLine(l, m)
    ensures SegmentsMeet(l, m)
  {
    OverlapLineMeansMeet(l, m);
  }

  /** Two non-parallel segments sharing an endpoint overlap: uA and uB are 0 or 1. */
  lemma SharedEndpointOverlaps(l: Line, m: Line)
    requires Denominator(l, m) != 0.0
    requires l.positionA == m.positionA || l.positionA == m.positionB
          || l.positionB == m.positionA || l.positionB == m.positionB
    ensures OverlapLine(l, m)
  {
    assert At(l, 0.0) == l.positionA && At(l, 1.0) == l.positionB;
    assert At(m, 0.0) == m.positionA && At(m, 1.0) == m.positionB;
    OverlapLineMeansMeet(l, m);
  }

  /** Non-parallel segments with a common start point have uA = uB = 0. */
  lemma SharedStartParameters(l: Line, m: Line)
    requires Denominator(l, m) != 0.0 && l.positionA == m.positionA
    ensures NumeratorA(l, m) / Denominator(l, m) == 0.0
    ensures NumeratorB(l, m) / Denominator(l, m) == 0.0
    ensures OverlapLine(l, m)
  {
    assert NumeratorA(l, m) == 0.0 && NumeratorB(l, m) == 0.0;
  }

  /** The test does not depend on which segment is asked. */
  lemma OverlapLineSymmetric(l: Line, m: Line)
    ensures OverlapLine(l, m) == OverlapLine(m, l)
  {
    assert Denominator(m, l) == -Denominator(l, m);
    if Denominator(l, m) != 0.0 {
      OverlapLineMeansMeet(l, m);
      OverlapLineMeansMeet(m, l);
      if SegmentsMeet(l, m) {
        var s: real, t: real :| 0.0 <= s <= 1.0 && 0.0 <= t <= 1.0 && At(l, s) == At(m, t);
        assert At(m, t) == At(l, s);
      }
      if SegmentsMeet(m, l) {
        var t: real, s: real :| 0.0 <= t <= 1.0 && 0.0 <= s <= 1.0 && At(m, t) == At(l, s);
        assert At(l, s) == At(m, t);
      }
    }
  }

  /** Collinear segments that share a stretch are reported as not overlapping, because
      their denominator is zero: here `m` runs from the middle of `l` to half a length past
      its end. */
  lemma CollinearOverlapNotReported(l: Line, m: Line)
    requires m.positionA == At(l, 0.5) && m.positionB == At(l, 1.5)
    ensures SegmentsMeet(l, m)
    ensures !OverlapLine(l, m)
  {
    assert Direction(m) == Direction(l);
    assert Denominator(l, m) == 0.0;
    assert At(m, 0.0) == At(l, 0.5);
  }

  /** Parallel segments that meet end to end are reported as not overlapping either: they
      share the point `l.positionB == m.positionA`, yet the denominator is zero. So the
      shared-endpoint guarantee holds only for non-parallel segments; (0,0)–(1,0) and
      (1,0)–(2,0) is an instance. */
  lemma EndToEndNotReported(l: Line, m: Line)
    requires Denominator(l, m) == 0.0 && m.positionA == l.positionB
    ensures SegmentsMeet(l, m)
    ensures !OverlapLine(l, m)
  {
    assert At(l, 1.0) == At(m, 0.0);
  }

  // ---------------------------------------------------------------------------
  // overlap(Rectangle)

  /** The rectangle's four corners in the source's order: (+,+), (−,+), (−,−), (+,−)
      half-sizes from the center. */
  function Corner(rect: Rectangle, sx: real, sy: real): Point
  {
    Add(rect.position, Point(sx * rect.size.x / 2.0, sy * rect.size.y / 2.0))
  }

  /** The closed rectangle contains `p`. */
  predicate RectContains(rect: Rectangle, p: Point)
  {
    && rect.position.x - rect.size.x / 2.0 <= p.x <= rect.position.x + rect.size.x / 2.0
    && rect.position.y - rect.size.y / 2.0 <= p.y <= rect.position.y + rect.size.y / 2.0
  }

  /** True iff an endpoint lies in the rectangle or the segment overlaps one of its four
      edges p1p2, p2p3, p3p4, p4p1. */
  function OverlapRectangle(l: Line, rect: Rectangle): (r: bool)
    ensures RectContains(rect, l.positionA) ==> r
    ensures RectContains(rect, l.positionB) ==> r
  {
    var p1 := Corner(rect, 1.0, 1.0);
    var p2 := Corner(rect, -1.0, 1.0);
    var p3 := Corner(rect, -1.0, -1.0);
    var p4 := Corner(rect, 1.0, -1.0);
    RectContains(rect, l.positionA) || RectContains(rect, l.positionB)
    || OverlapLine(l, Line(p1, p2)) || OverlapLine(l, Line(p2, p3))
    || OverlapLine(l, Line(p3, p4)) || OverlapLine(l, Line(p4, p1))
  }

  /** On one axis: a point between two values of `[lo, hi]` is in `[lo, hi]`. */
  lemma BetweenInRange(lo: real, hi: real, a: real, b: real, t: real)
    requires lo <= a <= hi && lo <= b <= hi && 0.0 <= t <= 1.0
    ensures lo <= a + (b - a) * t <= hi
  {
    if a <= b {
      ScaledStep(b - a, t, (b - a) * t);
    } else {
      ScaledStep(a - b, t, (a - b) * t);
      assert (b - a) * t == -((a - b) * t);
    }
  }

  /** A fraction `t` of a non-negative length `d` lies between 0 and `d`. */
  lemma ScaledStep(d: real, t: real, p: real)
    requires d >= 0.0 && 0.0 <= t <= 1.0 && p == d * t
    ensures 0.0 <= p <= d
  {
    MulMonotone(d, 0.0, t);
    MulMonotone(d, t, 1.0);
  }

  /** A point between two points of a rectangle is in the rectangle. */
  lemma SegmentInsideRect(rect: Rectangle, e: Line, t: real)
    requires RectContains(rect, e.positionA) && RectContains(rect, e.positionB)
    requires 0.0 <= t <= 1.0
    ensures RectContains(rect, At(e, t))
  {
    var a, b := e.positionA, e.positionB;
    BetweenInRange(rect.position.x - rect.size.x / 2.0, rect.position.x + rect.size.x / 2.0, a.x, b.x, t);
    BetweenInRange(rect.position.y - rect.size.y / 2.0, rect.position.y + rect.size.y / 2.0, a.y, b.y, t);
  }

  /** An edge the segment overlaps gives it a point inside the rectangle. */
  lemma EdgeOverlapInside(l: Line, rect: Rectangle, e: Line)
    requires RectContains(rect, e.positionA) && RectContains(rect, e.positionB)
    requires OverlapLine(l, e)
    ensures exists s: real :: 0.0 <= s <= 1.0 && RectContains(rect, At(l, s))
  {
    OverlapLineSound(l, e);
    var s: real, t: real :| 0.0 <= s <= 1.0 && 0.0 <= t <= 1.0 && At(l, s) == At(e, t);
    SegmentInsideRect(rect, e, t);
  }

  /** For a rectangle of non-negative size, a positive answer means that some point of the
      segment lies in the closed rectangle. */
  lemma OverlapRectangleSound(l: Line, rect: Rectangle)
    requires rect.size.x >= 0.0 && rect.size.y >= 0.0
    requires OverlapRectangle(l, rect)
    ensures exists s: real :: 0.0 <= s <= 1.0 && RectContains(rect, At(l, s))
  {
    var p1 := Corner(rect, 1.0, 1.0);
    var p2 := Corner(rect, -1.0, 1.0);
    var p3 := Corner(rect, -1.0, -1.0);
    var p4 := Corner(rect, 1.0, -1.0);
    assert RectContains(rect, p1) && RectContains(rect, p2) && RectContains(rect, p3) && RectContains(rect, p4);
    if RectContains(rect, l.positionA) {
      assert At(l, 0.0) == l.positionA;
    } else if RectContains(rect, l.positionB) {
      assert At(l, 1.0) == l.positionB;
    } else if OverlapLine(l, Line(p1, p2)) {
      EdgeOverlapInside(l, rect, Line(p1, p2));
    } else if OverlapLine(l, Line(p2, p3)) {
      EdgeOverlapInside(l, rect, Line(p2, p3));
    } else if OverlapLine(l, Line(p3, p4)) {
      EdgeOverlapInside(l, rect, Line(p3, p4));
    } else {
      EdgeOverlapInside(l, rect, Line(p4, p1));
    }
  }

  /** A horizontal segment through the center of a rectangle, with both endpoints outside
      it, is caught by the left edge p2p3. */
  lemma CrossingSegmentOverlapsRectangle(l: Line, rect: Rectangle, w: real)
    requires rect.size.x > 0.0 && rect.size.y > 0.0 && w > rect.size.x / 2.0
    requires l.positionA == Point(rect.position.x - w, rect.position.y)
    requires l.positionB == Point(rect.position.x + w, rect.position.y)
    ensures !RectContains(rect, l.positionA) && !RectContains(rect, l.positionB)
    ensures OverlapRectangle(l, rect)
  {
    var e := Line(Corner(rect, -1.0, 1.0), Corner(rect, -1.0, -1.0));
    var dd := Denominator(l, e);
    assert dd == -rect.size.y * (2.0 * w);
    MulPositive(rect.size.y, 2.0 * w, rect.size.y * (2.0 * w));
    var s := (w - rect.size.x / 2.0) / (2.0 * w);
    DivMul(w - rect.size.x / 2.0, 2.0 * w);
    assert 0.0 <= s <= 1.0;
    assert At(l, s) == At(e, 0.5);
    OverlapLineMeansMeet(l, e);
  }

  // ---------------------------------------------------------------------------
  // overlap(Point)

  /** A segment never overlaps a point. */
  function OverlapPoint(l: Line, point: Point): (r: bool)
    ensures !r
  {
    false
  }

  /** Not even a point of the segment itself. */
  lemma PointOnSegmentNotReported(l: Line, s: real)
    requires 0.0 <= s <= 1.0
    ensures !OverlapPoint(l, At(l, s))
  {
  }
}
