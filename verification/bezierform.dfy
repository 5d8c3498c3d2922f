/**
 * The Bernstein form of a Bézier curve, the sum of bern(m, i, t)·q[i] in
 * which the visualiser's `derivative` and `secondDerivative` are written
 * (script.js:239-269), and its agreement with the de Casteljau
 * construction that draws the curve and the hodograph (script.js:201-209).
 */
module BezierForm {
  import opened Geometry
  import opened Bernstein
  import opened Casteljau

  /** v[0] + v[1] + ... + v[|v|-1], accumulated left to right as the source's loops do. */
  function SumPoints(v: seq<Point>): Point
  {
    if |v| == 0 then Origin else Add(SumPoints(v[..|v| - 1]), v[|v| - 1])
  }

  /** The terms w[i]·q[i] of a weighted sum. */
  function WeightedTerms(q: seq<Point>, w: seq<real>): (v: seq<Point>)
    requires |q| <= |w|
    ensures |v| == |q|
  {
    seq(|q|, i requires 0 <= i < |q| => Scale(w[i], q[i]))
  }

  /** The degree-m Bernstein weights `bern(m, i, t)`, i = 0..m. */
  function BernWeights(m: nat, t: real): (w: seq<real>)
    ensures |w| == m + 1
  {
    seq(m + 1, i requires 0 <= i <= m => Bern(m, i, t))
  }

  /** The Bézier curve of the control points q, in Bernstein form. */
  function BezierPoint(q: seq<Point>, t: real): Point
    requires |q| >= 1
  {
    SumPoints(WeightedTerms(q, BernWeights(|q| - 1, t)))
  }

  /** The weights C(m, i)·t^i·u^(m - i), i = 0..m; with u = 1 - t they are `bern`'s. */
  function ChooseWeights(m: nat, t: real, u: real): (w: seq<real>)
    ensures |w| == m + 1
  {
    seq(m + 1, i requires 0 <= i <= m => Weight(Choose(m, i), m, i, t, u))
  }

  /** The Bernstein form with 1 - t replaced by a free u. */
  function ChooseSum(q: seq<Point>, t: real, u: real): Point
    requires |q| >= 1
  {
    SumPoints(WeightedTerms(q, ChooseWeights(|q| - 1, t, u)))
  }

  /** u·a + t·b, coordinate by coordinate; `lerp` is the case u = 1 - t. */
  function Mix(u: real, a: Point, t: real, b: Point): Point
  {
    Point(u * a.x + t * b.x, u * a.y + t * b.y)
  }

  lemma LerpIsMix(a: Point, b: Point, t: real)
    ensures Lerp(a, b, t) == Mix(1.0 - t, a, t, b)
  {
  }

  /** The last term of a weighted sum is added last. */
  lemma SumLast(q: seq<Point>, w: seq<real>)
    requires 1 <= |q| <= |w|
    ensures SumPoints(WeightedTerms(q, w))
         == Add(SumPoints(WeightedTerms(q[..|q| - 1], w)), Scale(w[|q| - 1], q[|q| - 1]))
  {
    assert WeightedTerms(q, w)[..|q| - 1] == WeightedTerms(q[..|q| - 1], w);
  }

  /** Adding c·p to u·A + t·B, where c = u·a + t·b, adds a·p to A and b·p to B. */
  lemma MixStep(sa: Point, sb: Point, p: Point, a: real, b: real, c: real, u: real, t: real)
    ensures c == Blend(u, a, t, b) ==> Add(Mix(u, sa, t, sb), Scale(c, p)) == Mix(u, Add(sa, Scale(a, p)), t, Add(sb, Scale(b, p)))
  {
    if c == Blend(u, a, t, b) {
      assert c * p.x == u * (a * p.x) + t * (b * p.x);
      assert c * p.y == u * (a * p.y) + t * (b * p.y);
    }
  }

  /** A weighted sum is linear in its weights: weights u·a + t·b give u·(sum with a) + t·(sum with b). */
  lemma {:induction false} SumMix(q: seq<Point>, w: seq<real>, a: seq<real>, b: seq<real>, u: real, t: real)
    requires |q| <= |w| && |q| <= |a| && |q| <= |b|
    requires forall i :: 0 <= i < |q| ==> w[i] == Blend(u, a[i], t, b[i])
    ensures SumPoints(WeightedTerms(q, w)) == Mix(u, SumPoints(WeightedTerms(q, a)), t, SumPoints(WeightedTerms(q, b)))
    decreases |q|
  {
    if |q| == 0 {
      assert Mix(u, Origin, t, Origin) == Origin;
    } else {
      var n := |q|;
      var p := q[..n - 1];
      SumMix(p, w, a, b, u, t);
      SumLast(q, w);
      SumLast(q, a);
      SumLast(q, b);
      MixStep(SumPoints(WeightedTerms(p, a)), SumPoints(WeightedTerms(p, b)), q[n - 1], a[n - 1], b[n - 1], w[n - 1], u, t);
    }
  }

  /** A vanishing last weight drops the last control point from the sum. */
  lemma SumDropLast(q: seq<Point>, w: seq<real>, v: seq<real>)
    requires 1 <= |q| <= |w| && |q| - 1 <= |v|
    requires w[|q| - 1] == 0.0
    requires forall i :: 0 <= i < |q| - 1 ==> w[i] == v[i]
    ensures SumPoints(WeightedTerms(q, w)) == SumPoints(WeightedTerms(q[..|q| - 1], v))
  {
    SumLast(q, w);
    assert WeightedTerms(q[..|q| - 1], w) == WeightedTerms(q[..|q| - 1], v);
  }

  /** A vanishing first weight, the others shifted by one, drops the first control point from the sum. */
  lemma {:induction false} SumDropFirst(q: seq<Point>, w: seq<real>, v: seq<real>)
    requires 1 <= |q| <= |w| && |q| - 1 <= |v|
    requires w[0] == 0.0
    requires forall i :: 1 <= i < |q| ==> w[i] == v[i - 1]
    ensures SumPoints(WeightedTerms(q, w)) == SumPoints(WeightedTerms(q[1..], v))
    decreases |q|
  {
    var n := |q|;
    SumLast(q, w);
    if n > 1 {
      var p := q[..n - 1];
      SumDropFirst(p, w, v);
      SumLast(q[1..], v);
      assert q[1..][..n - 2] == p[1..];
    }
  }

  /** Weights padded with a 0 at the end weigh every control point but the last. */
  lemma SumPadLast(q: seq<Point>, v: seq<real>)
    requires |q| >= 1 && |v| == |q| - 1
    ensures SumPoints(WeightedTerms(q, v + [0.0])) == SumPoints(WeightedTerms(q[..|q| - 1], v))
  {
    SumDropLast(q, v + [0.0], v);
  }

  /** Weights padded with a 0 at the start weigh every control point but the first. */
  lemma SumPadFirst(q: seq<Point>, v: seq<real>)
    requires |q| >= 1 && |v| == |q| - 1
    ensures SumPoints(WeightedTerms(q, [0.0] + v)) == SumPoints(WeightedTerms(q[1..], v))
  {
    SumDropFirst(q, [0.0] + v, v);
  }

  /**
   * The Bernstein recurrence for whole rows: the weights of degree m + 1 mix
   * the weights of degree m padded with a 0 at the end (factor u) and at the
   * start (factor t).
   */
  lemma SplitWeights(m: nat, t: real, u: real)
    ensures forall j :: 0 <= j < m + 2 ==>
      ChooseWeights(m + 1, t, u)[j] == Blend(u, (ChooseWeights(m, t, u) + [0.0])[j], t, ([0.0] + ChooseWeights(m, t, u))[j])
  {
    var v := ChooseWeights(m, t, u);
    forall j | 0 <= j < m + 2
      ensures ChooseWeights(m + 1, t, u)[j] == Blend(u, (v + [0.0])[j], t, ([0.0] + v)[j])
    {
      WeightRecurrence(m + 1, j, t, u);
    }
  }

  /**
   * De Casteljau's recursion in Bernstein form: the sum for k + 1 control
   * points mixes the sums for the first k and for the last k.
   */
  lemma BezierSplit(q: seq<Point>, t: real, u: real)
    requires |q| >= 2
    ensures ChooseSum(q, t, u) == Mix(u, ChooseSum(q[..|q| - 1], t, u), t, ChooseSum(q[1..], t, u))
  {
    var v := ChooseWeights(|q| - 2, t, u);
    var left, right := SumPoints(WeightedTerms(q, v + [0.0])), SumPoints(WeightedTerms(q, [0.0] + v));
    assert ChooseSum(q, t, u) == Mix(u, left, t, right) by {
      SplitWeights(|q| - 2, t, u);
      SumMix(q, ChooseWeights(|q| - 1, t, u), v + [0.0], [0.0] + v, u, t);
    }
    SumPadLast(q, v);
    SumPadFirst(q, v);
  }

  /** One control point: the curve is that point. */
  lemma ChooseSumSingle(q: seq<Point>, t: real, u: real)
    requires |q| == 1
    ensures ChooseSum(q, t, u) == q[0]
  {
    assert ChooseWeights(0, t, u)[0] == 1.0;
    SumLast(q, ChooseWeights(0, t, u));
  }

  /** De Casteljau's construction and the Bernstein form (with u = 1 - t) give the same point. */
  lemma {:induction false} CasteljauIsChooseSum(q: seq<Point>, t: real)
    requires |q| >= 1
    ensures CurvePoint(q, t) == ChooseSum(q, t, 1.0 - t)
    decreases |q|
  {
    if |q| == 1 {
      ChooseSumSingle(q, t, 1.0 - t);
    } else {
      CurveSplit(q, t);
      CasteljauIsChooseSum(q[..|q| - 1], t);
      CasteljauIsChooseSum(q[1..], t);
      BezierSplit(q, t, 1.0 - t);
      LerpIsMix(CurvePoint(q[..|q| - 1], t), CurvePoint(q[1..], t), t);
    }
  }

  /**
   * The Bernstein form with the source's `bern` weights is the curve the
   * visualiser draws with `deCasteljau`, for every control polygon and t.
   */
  lemma CasteljauIsBernstein(q: seq<Point>, t: real)
    requires |q| >= 1
    ensures CurvePoint(q, t) == BezierPoint(q, t)
  {
    var m := |q| - 1;
    forall i | 0 <= i <= m
      ensures BernWeights(m, t)[i] == ChooseWeights(m, t, 1.0 - t)[i]
    {
      BernIsChooseWeight(m, i, t);
    }
    assert BernWeights(m, t) == ChooseWeights(m, t, 1.0 - t);
    CasteljauIsChooseSum(q, t);
  }

  /** A sum all of whose terms after the first vanish is its first term. */
  lemma {:induction false} SumOfFirst(v: seq<Point>)
    requires |v| >= 1
    requires forall i :: 1 <= i < |v| ==> v[i] == Origin
    ensures SumPoints(v) == v[0]
    decreases |v|
  {
    if |v| > 1 {
      var p := v[..|v| - 1];
      assert forall i :: 1 <= i < |p| ==> p[i] == v[i];
      SumOfFirst(p);
    }
  }

  /** A sum of vanishing terms vanishes. */
  lemma {:induction false} SumOfZeros(v: seq<Point>)
    requires forall i :: 0 <= i < |v| ==> v[i] == Origin
    ensures SumPoints(v) == Origin
    decreases |v|
  {
    if |v| > 0 {
      var p := v[..|v| - 1];
      assert forall i :: 0 <= i < |p| ==> p[i] == v[i];
      SumOfZeros(p);
    }
  }

  /** A sum all of whose terms before the last vanish is its last term. */
  lemma SumOfLast(v: seq<Point>)
    requires |v| >= 1
    requires forall i :: 0 <= i < |v| - 1 ==> v[i] == Origin
    ensures SumPoints(v) == v[|v| - 1]
  {
    var p := v[..|v| - 1];
    assert forall i :: 0 <= i < |p| ==> p[i] == v[i];
    SumOfZeros(p);
  }

  /** At t = 0 and t = 1 the Bernstein form interpolates the first and the last control point. */
  lemma BezierEndpoints(q: seq<Point>)
    requires |q| >= 1
    ensures BezierPoint(q, 0.0) == q[0]
    ensures BezierPoint(q, 1.0) == q[|q| - 1]
  {
    var m := |q| - 1;
    var v0 := WeightedTerms(q, BernWeights(m, 0.0));
    var v1 := WeightedTerms(q, BernWeights(m, 1.0));
    forall i | 0 <= i <= m
      ensures v0[i] == if i == 0 then q[0] else Origin
      ensures v1[i] == if i == m then q[m] else Origin
    {
      BernEndpoints(m, i);
    }
    SumOfFirst(v0);
    SumOfLast(v1);
  }
}
