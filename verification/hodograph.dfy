/**
 * The hodograph and the analytic derivatives (script.js:226-269): the
 * hodograph of a degree-n curve has the n control points n·(P[i+1] - P[i]),
 * and `derivative` / `secondDerivative` are Bernstein-weighted sums of the
 * first and second scaled differences.
 */
module Hodograph {
  import opened Geometry
  import opened Bernstein
  import opened Casteljau
  import opened BezierForm

  /** n·(P[i+1] - P[i]), the i-th scaled difference. */
  function Difference(points: seq<Point>, n: real, i: nat): Point
    requires i + 1 < |points|
  {
    Scale(n, Sub(points[i + 1], points[i]))
  }

  /** The n·(P[i+1] - P[i]) for every pair of neighbours, with the factor n given. */
  function ScaledDifferences(points: seq<Point>, n: real): (q: seq<Point>)
    ensures |q| == if |points| == 0 then 0 else |points| - 1
  {
    if |points| == 0 then []
    else seq(|points| - 1, i requires 0 <= i < |points| - 1 => Difference(points, n, i))
  }

  /** `hodographControlPoints`: empty below degree 1. */
  function HodographControlPoints(points: seq<Point>): (q: seq<Point>)
    ensures |q| == if |points| <= 1 then 0 else |points| - 1
    ensures forall i :: 0 <= i < |q| ==> q[i] == Scale((|points| - 1) as real, Sub(points[i + 1], points[i]))
  {
    var n := |points| - 1;
    if n <= 0 then [] else ScaledDifferences(points, n as real)
  }

  /** Rebuild control points from a first point and scaled differences. */
  function Integrate(start: Point, q: seq<Point>, n: real): (ps: seq<Point>)
    requires n != 0.0
    ensures |ps| == |q| + 1 && ps[0] == start
    decreases |q|
  {
    if |q| == 0 then [start]
    else [start] + Integrate(Add(start, Scale(1.0 / n, q[0])), q[1..], n)
  }

  lemma UndoScale(a: real, b: real, n: real)
    requires n != 0.0
    ensures a + (1.0 / n) * (n * (b - a)) == b
  {
    assert (1.0 / n) * n == 1.0;
    assert (1.0 / n) * (n * (b - a)) == ((1.0 / n) * n) * (b - a);
  }

  /** Dropping the first control point drops the first scaled difference. */
  lemma ScaledDifferencesTail(points: seq<Point>, n: real)
    requires |points| >= 2
    ensures ScaledDifferences(points, n)[1..] == ScaledDifferences(points[1..], n)
  {
    var q := ScaledDifferences(points, n);
    var tail := ScaledDifferences(points[1..], n);
    forall j | 0 <= j < |tail|
      ensures q[1..][j] == tail[j]
    {
      assert points[1..][j + 1] == points[j + 2] && points[1..][j] == points[j + 1];
    }
  }

  /** One step of the integration recovers the second control point. */
  lemma IntegrateStep(points: seq<Point>, n: real)
    requires |points| >= 2 && n != 0.0
    ensures Add(points[0], Scale(1.0 / n, ScaledDifferences(points, n)[0])) == points[1]
  {
    UndoScale(points[0].x, points[1].x, n);
    UndoScale(points[0].y, points[1].y, n);
  }

  lemma {:induction false} IntegrateDifferences(points: seq<Point>, n: real)
    requires |points| >= 1 && n != 0.0
    ensures Integrate(points[0], ScaledDifferences(points, n), n) == points
    decreases |points|
  {
    if |points| > 1 {
      var q := ScaledDifferences(points, n);
      ScaledDifferencesTail(points, n);
      IntegrateStep(points, n);
      IntegrateDifferences(points[1..], n);
      assert Integrate(points[0], q, n) == [points[0]] + points[1..];
      assert points == [points[0]] + points[1..];
    }
  }

  /**
   * The hodograph loses nothing but the first control point: from P[0]
   * and the hodograph, the whole control polygon is recovered.
   */
  lemma HodographInverse(points: seq<Point>)
    requires |points| >= 2
    ensures Integrate(points[0], HodographControlPoints(points), (|points| - 1) as real) == points
  {
    IntegrateDifferences(points, (|points| - 1) as real);
  }

  /**
   * The terms of the source's `derivative` loop: n·(P[i+1] - P[i]) weighted
   * by w[i], where the source's weights are w[i] = bern(n - 1, i, t). The
   * source multiplies n·(P[i+1].x - P[i].x)·w[i]; over the reals the order
   * of the factors does not matter.
   */
  function DerivativeTerms(points: seq<Point>, n: real, w: seq<real>): (v: seq<Point>)
    requires |points| >= 1 && |points| - 1 <= |w|
    ensures |v| == |points| - 1
  {
    seq(|points| - 1, i requires 0 <= i < |points| - 1 => Scale(w[i], Difference(points, n, i)))
  }

  /** `derivative`: B'(t), and the zero vector below degree 1. */
  function Derivative(points: seq<Point>, t: real): (d: Point)
    ensures |points| < 2 ==> d == Origin
  {
    var n := |points| - 1;
    if n <= 0 then Origin else SumPoints(DerivativeTerms(points, n as real, BernWeights(n - 1, t)))
  }

  /** The second difference P[i+2] - 2·P[i+1] + P[i]. */
  function SecondDifference(p0: Point, p1: Point, p2: Point): Point
  {
    Point(p2.x - 2.0 * p1.x + p0.x, p2.y - 2.0 * p1.y + p0.y)
  }

  /**
   * The terms of `secondDerivative`: c·(P[i+2] - 2P[i+1] + P[i]) weighted by
   * w[i], where the source has c = n(n - 1) and w[i] = bern(n - 2, i, t).
   */
  function SecondDerivativeTerms(points: seq<Point>, c: real, w: seq<real>): (v: seq<Point>)
    requires |points| >= 2 && |points| - 2 <= |w|
    ensures |v| == |points| - 2
  {
    seq(|points| - 2, i requires 0 <= i < |points| - 2 =>
      Scale(w[i], Scale(c, SecondDifference(points[i], points[i + 1], points[i + 2]))))
  }

  /** The factor n·(n - 1) of the second derivative of a degree-n curve. */
  function DegreeFactor(n: nat): real
  {
    (n as real) * ((n - 1) as real)
  }

  /** `secondDerivative`: B''(t), and the zero vector below degree 2. */
  function SecondDerivative(points: seq<Point>, t: real): (d: Point)
    ensures |points| < 3 ==> d == Origin
  {
    var n := |points| - 1;
    if n <= 1 then Origin
    else SumPoints(SecondDerivativeTerms(points, DegreeFactor(n), BernWeights(n - 2, t)))
  }

  /**
   * Term by term, the derivative's sum is the hodograph's points weighted
   * by the same weights, whatever those weights are.
   */
  lemma DerivativeTermsAreWeighted(points: seq<Point>, n: real, w: seq<real>)
    requires |points| >= 1 && |points| - 1 <= |w|
    ensures DerivativeTerms(points, n, w) == WeightedTerms(ScaledDifferences(points, n), w)
  {
    var u := DerivativeTerms(points, n, w);
    var v := WeightedTerms(ScaledDifferences(points, n), w);
    forall i | 0 <= i < |u|
      ensures u[i] == v[i]
    {
    }
  }

  /**
   * The analytic derivative is the Bézier curve of the hodograph's control
   * points: in Bernstein form, and as the de Casteljau point that the
   * visualiser draws for the hodograph (script.js:394-401).
   */
  lemma DerivativeIsHodographCurve(points: seq<Point>, t: real)
    requires |points| >= 2
    ensures Derivative(points, t) == BezierPoint(HodographControlPoints(points), t)
    ensures Derivative(points, t) == CurvePoint(HodographControlPoints(points), t)
  {
    var n := |points| - 1;
    DerivativeTermsAreWeighted(points, n as real, BernWeights(n - 1, t));
    CasteljauIsBernstein(HodographControlPoints(points), t);
  }

  /**
   * The derivative at the ends of the curve is the first and the last
   * hodograph control point: n·(P1 - P0) and n·(P[n] - P[n-1]).
   */
  lemma DerivativeEndpoints(points: seq<Point>)
    requires |points| >= 2
    ensures Derivative(points, 0.0) == HodographControlPoints(points)[0]
    ensures Derivative(points, 1.0) == HodographControlPoints(points)[|points| - 2]
  {
    DerivativeIsHodographCurve(points, 0.0);
    DerivativeIsHodographCurve(points, 1.0);
    BezierEndpoints(HodographControlPoints(points));
  }

  lemma ScaledSecondDifference(n: real, m: real, a: real, b: real, c: real)
    ensures m * (n * (c - b) - n * (b - a)) == (n * m) * (c - 2.0 * b + a)
  {
    assert n * (c - b) - n * (b - a) == n * (c - 2.0 * b + a);
  }

  /** Differencing the scaled differences again gives the scaled second difference. */
  lemma SecondTerm(points: seq<Point>, n: real, m: real, nm: real, i: nat)
    requires i + 2 < |points| && nm == n * m
    ensures Scale(m, Sub(Difference(points, n, i + 1), Difference(points, n, i)))
         == Scale(nm, SecondDifference(points[i], points[i + 1], points[i + 2]))
  {
    var p0, p1, p2 := points[i], points[i + 1], points[i + 2];
    assert Difference(points, n, i + 1) == Scale(n, Sub(p2, p1));
    ScaledSecondDifference(n, m, p0.x, p1.x, p2.x);
    ScaledSecondDifference(n, m, p0.y, p1.y, p2.y);
  }

  lemma SecondTermAt(points: seq<Point>, k: nat, w: seq<real>, i: nat)
    requires |points| == k + 1 && k >= 1 && k - 1 <= |w| && i + 2 < |points|
    ensures SecondDerivativeTerms(points, DegreeFactor(k), w)[i]
         == DerivativeTerms(ScaledDifferences(points, k as real), (k - 1) as real, w)[i]
  {
    var h := ScaledDifferences(points, k as real);
    assert h[i + 1] == Difference(points, k as real, i + 1);
    SecondTerm(points, k as real, (k - 1) as real, DegreeFactor(k), i);
  }

  /**
   * Term by term, the second derivative's sum of a degree-k curve is the
   * derivative's sum taken over its scaled differences, for any weights.
   */
  lemma SecondTermsAreDerivativeTerms(points: seq<Point>, k: nat, w: seq<real>)
    requires |points| == k + 1 && k >= 1 && k - 1 <= |w|
    ensures SecondDerivativeTerms(points, DegreeFactor(k), w)
         == DerivativeTerms(ScaledDifferences(points, k as real), (k - 1) as real, w)
  {
    var u := SecondDerivativeTerms(points, DegreeFactor(k), w);
    var v := DerivativeTerms(ScaledDifferences(points, k as real), (k - 1) as real, w);
    forall i | 0 <= i < |u|
      ensures u[i] == v[i]
    {
      SecondTermAt(points, k, w, i);
    }
  }

  /** The derivative of the hodograph, written as a sum over the scaled differences. */
  lemma HodographDerivativeSum(points: seq<Point>, t: real)
    requires |points| >= 3
    ensures Derivative(HodographControlPoints(points), t)
         == SumPoints(DerivativeTerms(ScaledDifferences(points, (|points| - 1) as real), (|points| - 2) as real, BernWeights(|points| - 3, t)))
  {
    var h := HodographControlPoints(points);
    assert h == ScaledDifferences(points, (|points| - 1) as real);
    assert |h| - 1 == |points| - 2;
  }

  /** The second derivative, written as the same sum. */
  lemma SecondDerivativeSum(points: seq<Point>, t: real)
    requires |points| >= 3
    ensures SecondDerivative(points, t)
         == SumPoints(DerivativeTerms(ScaledDifferences(points, (|points| - 1) as real), (|points| - 2) as real, BernWeights(|points| - 3, t)))
  {
    SecondTermsAreDerivativeTerms(points, |points| - 1, BernWeights(|points| - 3, t));
  }

  /** The second derivative is the derivative of the hodograph, for every degree. */
  lemma SecondDerivativeIsHodographDerivative(points: seq<Point>, t: real)
    ensures SecondDerivative(points, t) == Derivative(HodographControlPoints(points), t)
  {
    if |points| >= 3 {
      HodographDerivativeSum(points, t);
      SecondDerivativeSum(points, t);
    } else {
      assert |HodographControlPoints(points)| < 2;
    }
  }

  /**
   * At the ends, B'' is the first and last control point of the hodograph
   * of the hodograph: n(n-1)·(P2 - 2P1 + P0) at t = 0.
   */
  lemma SecondDerivativeEndpoints(points: seq<Point>)
    requires |points| >= 3
    ensures SecondDerivative(points, 0.0) == HodographControlPoints(HodographControlPoints(points))[0]
    ensures SecondDerivative(points, 1.0)
            == HodographControlPoints(HodographControlPoints(points))[|points| - 3]
  {
    SecondDerivativeIsHodographDerivative(points, 0.0);
    SecondDerivativeIsHodographDerivative(points, 1.0);
    DerivativeEndpoints(HodographControlPoints(points));
  }
}
