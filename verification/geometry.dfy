/**
 * Point arithmetic of the visualiser (script.js): linear interpolation,
 * squared distances and the clamped point-to-segment distance.
 *
 * `dist` and `pointToSegmentDistance` (script.js:129, 189-199) are only
 * compared with each other or with the hit radius (script.js:140-181), so
 * every distance here is a SQUARED distance: for non-negative values
 * `sqrt(a) < sqrt(b)` iff `a < b`, so each of those comparisons is preserved.
 */
module Geometry {

  datatype Point = Point(x: real, y: real)

  const Origin: Point := Point(0.0, 0.0)

  /** `HIT_R`, the hit radius in pixels (script.js:28), and its square. */
  const HitRadius: real := 10.0
  const HitRadius2: real := HitRadius * HitRadius

  function Add(a: Point, b: Point): Point {
    Point(a.x + b.x, a.y + b.y)
  }

  function Sub(a: Point, b: Point): Point {
    Point(a.x - b.x, a.y - b.y)
  }

  function Scale(k: real, a: Point): Point {
    Point(k * a.x, k * a.y)
  }

  function Dot(a: Point, b: Point): real {
    a.x * b.x + a.y * b.y
  }

  /** `lerp`: the point (1 - t)·a + t·b; defined for every t (it extrapolates). */
  function Lerp(a: Point, b: Point, t: real): (r: Point)
    ensures t == 0.0 ==> r == a
    ensures t == 1.0 ==> r == b
    ensures a == b ==> r == a
  {
    Point((1.0 - t) * a.x + t * b.x, (1.0 - t) * a.y + t * b.y)
  }

  /** Squared Euclidean distance; `dist(p, x, y)` is its square root. */
  function Dist2(p: Point, q: Point): (r: real)
    ensures r >= 0.0
    ensures p == q ==> r == 0.0
  {
    var dx := p.x - q.x;
    var dy := p.y - q.y;
    SquareNonNegative(dx);
    SquareNonNegative(dy);
    dx * dx + dy * dy
  }

  lemma SquareNonNegative(d: real)
    ensures d * d >= 0.0
  {
    if d < 0.0 {
      assert d * d == (-d) * (-d);
    }
  }

  /**
   * The parameter a branch of `pointToSegmentDistance` measures at, given
   * the projection scalar c1 and the squared length c2: 0 when c1 <= 0,
   * 1 when c2 <= c1, and c1/c2 otherwise.
   */
  predicate ClampedChoice(c1: real, c2: real, best: real)
  {
    && (c1 <= 0.0 ==> best == 0.0)
    && (0.0 < c1 && c2 <= c1 ==> best == 1.0)
    && (0.0 < c1 < c2 ==> c1 == best * c2)
  }

  /**
   * `pointToSegmentDistance`, squared: the three branches of the source
   * (projection scalar before a, past b, or strictly inside the segment).
   * A degenerate segment measures the distance to its single point.
   */
  function PointToSegmentDist2(p: Point, a: Point, b: Point): (r: real)
    ensures r >= 0.0
    ensures a == b ==> r == Dist2(p, a)
  {
    var v := Sub(b, a);
    var w := Sub(p, a);
    var c1 := Dot(v, w);
    if c1 <= 0.0 then
      Dist2(p, a)
    else
      var c2 := Dot(v, v);
      if c2 <= c1 then
        Dist2(p, b)
      else
        var s := c1 / c2;
        Dist2(p, Point(a.x + s * v.x, a.y + s * v.y))
  }

  /** Strictly between the ends, the projection scalar c1/c2 is a parameter strictly inside (0, 1). */
  lemma InsideParameter(c1: real, c2: real, s: real)
    ensures 0.0 < c1 < c2 && s == c1 / c2 ==> c1 == s * c2 && 0.0 < s < 1.0
  {
    if 0.0 < c1 < c2 && s == c1 / c2 {
      assert s * c2 == c1;
      PositiveFactor(s, c2, c1);
      assert (1.0 - s) * c2 == c2 - c1;
      PositiveFactor(1.0 - s, c2, c2 - c1);
    }
  }

  lemma PositiveFactor(x: real, c: real, y: real)
    requires c > 0.0 && x * c == y && y > 0.0
    ensures x > 0.0
  {
  }

  /** The projection branch measures against the lerp at s = c1/c2, a parameter strictly inside (0, 1). */
  lemma InsideBranch(p: Point, a: Point, b: Point) returns (s: real)
    requires 0.0 < Dot(Sub(b, a), Sub(p, a)) < Dot(Sub(b, a), Sub(b, a))
    ensures 0.0 < s < 1.0
    ensures Dot(Sub(b, a), Sub(p, a)) == s * Dot(Sub(b, a), Sub(b, a))
    ensures PointToSegmentDist2(p, a, b) == Dist2(p, Lerp(a, b, s))
  {
    var c1, c2 := Dot(Sub(b, a), Sub(p, a)), Dot(Sub(b, a), Sub(b, a));
    s := c1 / c2;
    InsideParameter(c1, c2, s);
    ProjectionIsLerp(a.x, b.x, s);
    ProjectionIsLerp(a.y, b.y, s);
    assert Point(a.x + s * Sub(b, a).x, a.y + s * Sub(b, a).y) == Lerp(a, b, s);
  }

  lemma SquareOfDifference(w: real, v: real, s: real)
    ensures (w - s * v) * (w - s * v) == w * w - 2.0 * s * (v * w) + s * s * (v * v)
  {
  }

  lemma LerpOffset(a: real, b: real, p: real, s: real)
    ensures p - ((1.0 - s) * a + s * b) == (p - a) - s * (b - a)
  {
  }

  /** The squared distance from p to the point at parameter s on [a, b], as a quadratic in s. */
  lemma Dist2AlongSegment(p: Point, a: Point, b: Point, s: real)
    ensures Dist2(p, Lerp(a, b, s))
            == Dist2(p, a) - 2.0 * s * Dot(Sub(b, a), Sub(p, a)) + s * s * Dot(Sub(b, a), Sub(b, a))
  {
    LerpOffset(a.x, b.x, p.x, s);
    LerpOffset(a.y, b.y, p.y, s);
    SquareOfDifference(p.x - a.x, b.x - a.x, s);
    SquareOfDifference(p.y - a.y, b.y - a.y, s);
  }

  /**
   * Scalar core of the minimality argument, one lemma per branch of the
   * source: W - 2s·c1 + s²·c2 is the squared distance at parameter s.
   */
  lemma BeforeStartIsMinimum(W: real, c1: real, c2: real, best: real, s: real)
    requires c1 <= 0.0 && c2 >= 0.0 && best == 0.0 && 0.0 <= s
    ensures W - 2.0 * best * c1 + best * best * c2 <= W - 2.0 * s * c1 + s * s * c2
  {
    assert s * c1 <= 0.0;
    assert s * s >= 0.0;
    assert s * s * c2 >= 0.0;
  }

  lemma PastEndIsMinimum(W: real, c1: real, c2: real, best: real, s: real)
    requires 0.0 <= c2 <= c1 && best == 1.0 && 0.0 <= s <= 1.0
    ensures W - 2.0 * best * c1 + best * best * c2 <= W - 2.0 * s * c1 + s * s * c2
  {
    // (1 - s)·(2c1 - (1 + s)·c2) is a product of two non-negative factors
    assert (1.0 + s) * c2 <= 2.0 * c2;
    assert (1.0 + s) * c2 <= 2.0 * c1;
    var f := 2.0 * c1 - (1.0 + s) * c2;
    assert (1.0 - s) * f >= 0.0;
    assert (1.0 - s) * f == 2.0 * c1 - c2 - (2.0 * s * c1 - s * s * c2);
  }

  lemma InsideIsMinimum(W: real, c1: real, c2: real, best: real, s: real)
    requires c2 > 0.0 && c1 == best * c2
    ensures W - 2.0 * best * c1 + best * best * c2 <= W - 2.0 * s * c1 + s * s * c2
  {
    var d := s - best;
    SquareNonNegative(d);
    assert d * d * c2 >= 0.0;
    assert d * d * c2 == (s * s * c2 - 2.0 * s * c1) - (best * best * c2 - 2.0 * best * c1);
  }

  /** The three branches together: the clamped parameter minimises the quadratic on [0, 1]. */
  lemma ClampedIsMinimum(W: real, c1: real, c2: real, best: real, s: real)
    requires c2 >= 0.0 && 0.0 <= s <= 1.0 && ClampedChoice(c1, c2, best)
    ensures W - 2.0 * best * c1 + best * best * c2 <= W - 2.0 * s * c1 + s * s * c2
  {
    if c1 <= 0.0 {
      BeforeStartIsMinimum(W, c1, c2, best, s);
    } else if c2 <= c1 {
      PastEndIsMinimum(W, c1, c2, best, s);
    } else {
      InsideIsMinimum(W, c1, c2, best, s);
    }
  }

  lemma ProjectionIsLerp(a: real, b: real, s: real)
    ensures a + s * (b - a) == (1.0 - s) * a + s * b
  {
  }

  /**
   * The parameter of the point of [a, b] that the source's branch measures
   * against: 0 before a, 1 past b, the projection scalar c1/c2 in between.
   */
  lemma ClampedParameter(p: Point, a: Point, b: Point) returns (best: real)
    ensures 0.0 <= best <= 1.0
    ensures PointToSegmentDist2(p, a, b) == Dist2(p, Lerp(a, b, best))
    ensures Dot(Sub(b, a), Sub(b, a)) >= 0.0
    ensures ClampedChoice(Dot(Sub(b, a), Sub(p, a)), Dot(Sub(b, a), Sub(b, a)), best)
  {
    var v := Sub(b, a);
    SquareNonNegative(v.x);
    SquareNonNegative(v.y);
    if Dot(v, Sub(p, a)) <= 0.0 {
      best := 0.0;
      BeforeStartBranch(p, a, b);
    } else if Dot(v, v) <= Dot(v, Sub(p, a)) {
      best := 1.0;
      PastEndBranch(p, a, b);
    } else {
      best := InsideBranch(p, a, b);
    }
  }

  /** The first branch measures against a, the point at parameter 0. */
  lemma BeforeStartBranch(p: Point, a: Point, b: Point)
    requires Dot(Sub(b, a), Sub(p, a)) <= 0.0
    ensures PointToSegmentDist2(p, a, b) == Dist2(p, Lerp(a, b, 0.0))
  {
    assert Lerp(a, b, 0.0) == a;
  }

  /** The second branch measures against b, the point at parameter 1. */
  lemma PastEndBranch(p: Point, a: Point, b: Point)
    requires 0.0 < Dot(Sub(b, a), Sub(p, a)) && Dot(Sub(b, a), Sub(b, a)) <= Dot(Sub(b, a), Sub(p, a))
    ensures PointToSegmentDist2(p, a, b) == Dist2(p, Lerp(a, b, 1.0))
  {
    assert Lerp(a, b, 1.0) == b;
  }

  /** No point of [a, b] at parameter s is closer to p than the clamped projection. */
  lemma SegmentDistanceBelow(p: Point, a: Point, b: Point, s: real)
    requires 0.0 <= s <= 1.0
    ensures PointToSegmentDist2(p, a, b) <= Dist2(p, Lerp(a, b, s))
  {
    var best := ClampedParameter(p, a, b);
    Dist2AlongSegment(p, a, b, best);
    Dist2AlongSegment(p, a, b, s);
    ClampedIsMinimum(Dist2(p, a), Dot(Sub(b, a), Sub(p, a)), Dot(Sub(b, a), Sub(b, a)), best, s);
  }

  /**
   * The clamped projection computes the distance from p to the closed
   * segment [a, b]: no point of the segment is closer, and some point of
   * the segment is exactly that close.
   */
  lemma SegmentDistanceIsMinimum(p: Point, a: Point, b: Point)
    ensures forall s :: 0.0 <= s <= 1.0 ==> PointToSegmentDist2(p, a, b) <= Dist2(p, Lerp(a, b, s))
    ensures exists s :: 0.0 <= s <= 1.0 && PointToSegmentDist2(p, a, b) == Dist2(p, Lerp(a, b, s))
  {
    var best := ClampedParameter(p, a, b);
    forall s | 0.0 <= s <= 1.0
      ensures PointToSegmentDist2(p, a, b) <= Dist2(p, Lerp(a, b, s))
    {
      SegmentDistanceBelow(p, a, b, s);
    }
  }

  /** In particular the result is never more than the distance to either end of the segment. */
  lemma SegmentDistanceBelowEnds(p: Point, a: Point, b: Point)
    ensures PointToSegmentDist2(p, a, b) <= Dist2(p, a)
    ensures PointToSegmentDist2(p, a, b) <= Dist2(p, b)
  {
    SegmentDistanceBelow(p, a, b, 0.0);
    SegmentDistanceBelow(p, a, b, 1.0);
  }
}
