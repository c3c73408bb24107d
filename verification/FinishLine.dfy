/** The finish line test: how far a position is from a line segment in the plane. */
module FinishLine {
  import opened Reals

  datatype Point = Point(x: real, y: real)

  datatype Line = Line(a: Point, b: Point, tolerance: real)

  function Dot(p: Point, q: Point): real {
    Times(p.x, q.x) + Times(p.y, q.y)
  }

  function Minus(p: Point, q: Point): Point {
    Point(p.x - q.x, p.y - q.y)
  }

  function Scale(t: real, p: Point): Point {
    Point(t * p.x, t * p.y)
  }

  function Norm2(p: Point): real {
    Dot(p, p)
  }

  /** A length below the tolerance, given its square. */
  predicate Within(square: real, tolerance: real) {
    0.0 < tolerance && square < Times(tolerance, tolerance)
  }

  /** The test: project the position on the line through the end points, clamp to the segment, and
      compare the distance. With equal end points the projection is not a number and nothing is near. */
  predicate Near(line: Line, p: Point) {
    var ab := Minus(line.b, line.a);
    var ap := Minus(p, line.a);
    if Dot(ab, ab) == 0.0 then false
    else
      var projection := Dot(ap, ab) / Dot(ab, ab);
      Within(if projection < 0.0 then Norm2(ap)
             else if projection > 1.0 then Norm2(Minus(p, line.b))
             else Norm2(Minus(ap, Scale(projection, ab))),
             line.tolerance)
  }

  /** The square of the distance between the position and the segment's point at `u`. */
  function SquareAt(line: Line, p: Point, u: real): real {
    var dx := p.x - (line.a.x + u * (line.b.x - line.a.x));
    var dy := p.y - (line.a.y + u * (line.b.y - line.a.y));
    Times(dx, dx) + Times(dy, dy)
  }

  /** The end points differ, and some point of the segment is closer than the tolerance. */
  ghost predicate Reaches(line: Line, p: Point) {
    line.a != line.b && 0.0 < line.tolerance &&
    exists u :: 0.0 <= u <= 1.0 && SquareAt(line, p, u) < Times(line.tolerance, line.tolerance)
  }

  function Parabola(n: real, b: real, d: real, u: real): real {
    n - 2.0 * (u * b) + u * u * d
  }

  lemma {:induction false} SquareAtIs(line: Line, p: Point, u: real)
    ensures var ab, ap := Minus(line.b, line.a), Minus(p, line.a);
            SquareAt(line, p, u) == Parabola(Norm2(ap), Dot(ap, ab), Norm2(ab), u)
  {
    var ab, ap := Minus(line.b, line.a), Minus(p, line.a);
    OffsetIs(line, p, u);
    NormOfDifference(ap, ab, u);
  }

  /** The position seen from the segment's point at `u`. */
  lemma {:induction false} OffsetIs(line: Line, p: Point, u: real)
    ensures SquareAt(line, p, u) == Norm2(Minus(Minus(p, line.a), Scale(u, Minus(line.b, line.a))))
  {
    Axis(p.x, line.a.x, line.b.x, u);
    Axis(p.y, line.a.y, line.b.y, u);
    var seen := Minus(p, Point(line.a.x + u * (line.b.x - line.a.x), line.a.y + u * (line.b.y - line.a.y)));
    var offset := Minus(Minus(p, line.a), Scale(u, Minus(line.b, line.a)));
    assert offset.x == p.x - line.a.x - u * (line.b.x - line.a.x) == seen.x;
    assert offset.y == p.y - line.a.y - u * (line.b.y - line.a.y) == seen.y;
    assert seen == offset;
  }

  lemma {:induction false} Axis(p: real, a: real, b: real, u: real)
    ensures p - (a + u * (b - a)) == (p - a) - u * (b - a)
  {
  }

  lemma {:induction false} NormOfDifference(p: Point, q: Point, u: real)
    ensures Norm2(Minus(p, Scale(u, q))) == Parabola(Norm2(p), Dot(p, q), Norm2(q), u)
  {
    SquareOfDifference(p.x, q.x, u);
    SquareOfDifference(p.y, q.y, u);
    Distribute(u, p.x * q.x, p.y * q.y);
    Distribute(u * u, q.x * q.x, q.y * q.y);
  }

  lemma {:induction false} Distribute(u: real, c: real, d: real)
    ensures u * (c + d) == u * c + u * d
  {
  }

  lemma {:induction false} SquareOfDifference(c: real, d: real, u: real)
    ensures (c - u * d) * (c - u * d) == c * c - 2.0 * (u * (c * d)) + u * u * (d * d)
  {
    var e := u * d;
    assert (c - e) * (c - e) == c * c - 2.0 * (c * e) + e * e;
    assert c * e == u * (c * d);
    assert e * e == u * u * (d * d);
  }

  /** A parabola with its minimum at t = b/d is least on [0, 1] at t clamped to [0, 1]. */
  lemma {:induction false} ClampedMinimum(n: real, b: real, d: real, t: real, u: real)
    requires d > 0.0 && b == t * d && 0.0 <= u <= 1.0
    ensures var v := if t < 0.0 then 0.0 else if t > 1.0 then 1.0 else t;
            Parabola(n, b, d, v) <= Parabola(n, b, d, u)
  {
    var v := if t < 0.0 then 0.0 else if t > 1.0 then 1.0 else t;
    var gap := (u - v) * (u + v - 2.0 * t);
    assert gap >= 0.0 by {
      if t < 0.0 {
        Signs(u - v, u + v - 2.0 * t);
      } else if t > 1.0 {
        Signs(v - u, 2.0 * t - u - v);
        assert (v - u) * (2.0 * t - u - v) == gap;
      } else {
        Signs(u - v, u - v);
        Signs(v - u, v - u);
      }
    }
    Signs(gap, d);
    Difference(d, b, t, u, v);
  }

  lemma {:induction false} Signs(x: real, y: real)
    ensures x >= 0.0 && y >= 0.0 ==> x * y >= 0.0
  {
  }

  lemma {:induction false} Difference(d: real, b: real, t: real, u: real, v: real)
    requires b == t * d
    ensures (u - v) * (u + v - 2.0 * t) * d == (u * u * d - 2.0 * (u * b)) - (v * v * d - 2.0 * (v * b))
  {
    assert (u - v) * (u + v - 2.0 * t) == u * u - v * v - 2.0 * (u * t) + 2.0 * (v * t);
    assert u * t * d == u * b && v * t * d == v * b;
    assert (u * u - v * v - 2.0 * (u * t) + 2.0 * (v * t)) * d
        == u * u * d - v * v * d - 2.0 * (u * t * d) + 2.0 * (v * t * d);
  }

  lemma {:induction false} NormPositive(p: Point)
    ensures Norm2(p) >= 0.0
    ensures p.x != 0.0 || p.y != 0.0 ==> Norm2(p) > 0.0
  {
    SameSigns(p.x, p.x);
    SameSigns(p.y, p.y);
    assert Norm2(p) == Times(p.x, p.x) + Times(p.y, p.y);
  }

  /** The test is true exactly when some point of the segment is closer than the tolerance, provided
      the end points differ; with equal end points it is never true. */
  lemma {:induction false} NearIff(line: Line, p: Point)
    ensures Near(line, p) <==> Reaches(line, p)
  {
    if line.a == line.b {
      NotNearPoint(line, p);
    } else {
      Spread(line);
      NearAtClamp(line, p, Clamped(line, p));
      ClampedIsLeast(line, p);
      ReachesIff(line, p, Clamped(line, p));
    }
  }

  lemma {:induction false} NotNearPoint(line: Line, p: Point)
    requires line.a == line.b
    ensures !Near(line, p)
  {
    var ab := Minus(line.b, line.a);
    SameSigns(ab.x, ab.x);
    SameSigns(ab.y, ab.y);
  }

  lemma {:induction false} Spread(line: Line)
    requires line.a != line.b
    ensures Norm2(Minus(line.b, line.a)) > 0.0
  {
    NormPositive(Minus(line.b, line.a));
  }

  /** Some point is close enough if the closest one is. */
  lemma {:induction false} ReachesIff(line: Line, p: Point, v: real)
    requires line.a != line.b && 0.0 <= v <= 1.0
    requires forall u :: 0.0 <= u <= 1.0 ==> SquareAt(line, p, v) <= SquareAt(line, p, u)
    ensures Within(SquareAt(line, p, v), line.tolerance) <==> Reaches(line, p)
  {
    if Reaches(line, p) {
      ReachesWithin(line, p, v);
    }
  }

  lemma {:induction false} WithinLess(square: real, larger: real, tolerance: real)
    requires square <= larger < Times(tolerance, tolerance) && 0.0 < tolerance
    ensures Within(square, tolerance)
  {
  }

  lemma {:induction false} ReachesWithin(line: Line, p: Point, v: real)
    requires forall u :: 0.0 <= u <= 1.0 ==> SquareAt(line, p, v) <= SquareAt(line, p, u)
    requires Reaches(line, p)
    ensures Within(SquareAt(line, p, v), line.tolerance)
  {
    var u :| 0.0 <= u <= 1.0 && SquareAt(line, p, u) < Times(line.tolerance, line.tolerance);
    WithinLess(SquareAt(line, p, v), SquareAt(line, p, u), line.tolerance);
  }

  lemma {:induction false} ClampedIsLeast(line: Line, p: Point)
    requires Norm2(Minus(line.b, line.a)) > 0.0
    ensures forall u :: 0.0 <= u <= 1.0 ==> SquareAt(line, p, Clamped(line, p)) <= SquareAt(line, p, u)
  {
    forall u | 0.0 <= u <= 1.0
      ensures SquareAt(line, p, Clamped(line, p)) <= SquareAt(line, p, u)
    {
      ClampedIsNearest(line, p, u);
    }
  }

  /** The projection of the position, clamped to the segment. */
  function Clamped(line: Line, p: Point): (v: real)
    requires Norm2(Minus(line.b, line.a)) != 0.0
    ensures 0.0 <= v <= 1.0
  {
    var t := Dot(Minus(p, line.a), Minus(line.b, line.a)) / Norm2(Minus(line.b, line.a));
    if t < 0.0 then 0.0 else if t > 1.0 then 1.0 else t
  }

  lemma {:induction false} ClampedIsNearest(line: Line, p: Point, u: real)
    requires Norm2(Minus(line.b, line.a)) > 0.0 && 0.0 <= u <= 1.0
    ensures SquareAt(line, p, Clamped(line, p)) <= SquareAt(line, p, u)
  {
    var ab, ap := Minus(line.b, line.a), Minus(p, line.a);
    var d, b := Norm2(ab), Dot(ap, ab);
    SquareAtIs(line, p, Clamped(line, p));
    SquareAtIs(line, p, u);
    Quotient(b, d);
    ClampedMinimum(Norm2(ap), b, d, b / d, u);
  }

  lemma {:induction false} Quotient(b: real, d: real)
    requires d != 0.0
    ensures b == b / d * d
  {
  }

  lemma {:induction false} NearAtClamp(line: Line, p: Point, v: real)
    requires Norm2(Minus(line.b, line.a)) != 0.0 && v == Clamped(line, p)
    ensures Near(line, p) <==> Within(SquareAt(line, p, v), line.tolerance)
  {
    OffsetIs(line, p, v);
    assert v == 1.0 ==> SquareAt(line, p, v) == Norm2(Minus(p, line.b));
    assert v == 0.0 ==> SquareAt(line, p, v) == Norm2(Minus(p, line.a));
  }
}
