/**
 * De Casteljau evaluation (script.js:201-224). `Level` is the reference
 * definition of the construction's pyramid; the two methods are the two
 * loops of the source, one in place and one keeping every level.
 */
module Casteljau {
  import opened Options
  import opened Geometry

  /** One round of the construction: lerp every pair of neighbours. */
  function NextLevel(cur: seq<Point>, t: real): seq<Point> {
    if |cur| == 0 then []
    else seq(|cur| - 1, i requires 0 <= i < |cur| - 1 => Lerp(cur[i], cur[i + 1], t))
  }

  /** Level r of the pyramid: r rounds applied to the control points. */
  function Level(points: seq<Point>, t: real, r: nat): (lvl: seq<Point>)
    ensures |lvl| == if r <= |points| then |points| - r else 0
  {
    if r == 0 then points else NextLevel(Level(points, t, r - 1), t)
  }

  /** The curve point at t: the single point of the last level. */
  function CurvePoint(points: seq<Point>, t: real): Point
    requires |points| >= 1
  {
    Level(points, t, |points| - 1)[0]
  }

  /** The i-th point of the next round is the lerp of neighbours i and i + 1. */
  lemma NextLevelAt(cur: seq<Point>, t: real, i: nat)
    requires i + 1 < |cur|
    ensures |NextLevel(cur, t)| == |cur| - 1
    ensures NextLevel(cur, t)[i] == Lerp(cur[i], cur[i + 1], t)
  {
  }

  /** A list that agrees pointwise with the next round is the next round. */
  lemma NextLevelFromPoints(cur: seq<Point>, t: real, next: seq<Point>)
    requires |cur| >= 1 && |next| == |cur| - 1
    requires forall j :: 0 <= j < |next| ==> next[j] == Lerp(cur[j], cur[j + 1], t)
    ensures next == NextLevel(cur, t)
  {
  }

  /**
   * `deCasteljau`: works on a copy `tmp` of the points, overwriting
   * tmp[0 .. k-r) with level r in round r. The source returns `tmp[0]`,
   * which is `undefined` for an empty list; that is `None` here.
   */
  method DeCasteljau(points: seq<Point>, t: real) returns (r: Option<Point>)
    ensures r.None? <==> |points| == 0
    ensures r.Some? ==> r.value == CurvePoint(points, t)
    ensures r.Some? && t == 0.0 ==> r.value == points[0]
    ensures r.Some? && t == 1.0 ==> r.value == points[|points| - 1]
  {
    var k := |points|;
    if k == 0 {
      return None;
    }
    var tmp := points;
    ghost var lvl := points;
    var round := 1;
    while round < k
      invariant 1 <= round <= k
      invariant |tmp| == k
      invariant lvl == Level(points, t, round - 1) && |lvl| == k - round + 1
      invariant forall j :: 0 <= j < |lvl| ==> tmp[j] == lvl[j]
    {
      ghost var next := NextLevel(lvl, t);
      var i := 0;
      while i < k - round
        invariant 0 <= i <= k - round
        invariant |tmp| == k
        invariant forall j :: 0 <= j < i ==> tmp[j] == next[j]
        invariant forall j :: i <= j < |lvl| ==> tmp[j] == lvl[j]
      {
        NextLevelAt(lvl, t, i);
        tmp := tmp[i := Lerp(tmp[i], tmp[i + 1], t)];
        i := i + 1;
      }
      lvl := next;
      round := round + 1;
    }
    CurveEndpoints(points);
    return Some(tmp[0]);
  }

  /** Extending the list of the first r levels by level r. */
  lemma AppendLevel(levels: seq<seq<Point>>, points: seq<Point>, t: real, next: seq<Point>)
    requires forall j {:trigger levels[j]} :: 0 <= j < |levels| ==> levels[j] == Level(points, t, j)
    requires next == Level(points, t, |levels|)
    ensures forall j {:trigger (levels + [next])[j]} :: 0 <= j < |levels| + 1 ==> (levels + [next])[j] == Level(points, t, j)
  {
  }

  /**
   * `deCasteljauLevels`: the same rounds, each into a fresh list. The
   * source always pushes level 0, so an empty input yields one empty level.
   */
  method DeCasteljauLevels(points: seq<Point>, t: real) returns (levels: seq<seq<Point>>)
    ensures |levels| == if |points| == 0 then 1 else |points|
    ensures levels[0] == points
    ensures forall r {:trigger levels[r]} :: 0 <= r < |levels| ==> levels[r] == Level(points, t, r)
    ensures |points| >= 1 ==> levels[|levels| - 1] == [CurvePoint(points, t)]
  {
    var cur := points;
    levels := [cur];
    var r := 1;
    while r < |points|
      invariant 1 <= r <= if |points| == 0 then 1 else |points|
      invariant |levels| == r
      invariant forall j {:trigger levels[j]} :: 0 <= j < |levels| ==> levels[j] == Level(points, t, j)
      invariant cur == Level(points, t, r - 1) && |cur| == |points| - r + 1
    {
      var next := [];
      var i := 0;
      while i < |cur| - 1
        invariant 0 <= i <= |cur| - 1
        invariant |next| == i
        invariant forall j :: 0 <= j < i ==> next[j] == Lerp(cur[j], cur[j + 1], t)
      {
        next := next + [Lerp(cur[i], cur[i + 1], t)];
        i := i + 1;
      }
      NextLevelFromPoints(cur, t, next);
      AppendLevel(levels, points, t, next);
      levels := levels + [next];
      cur := next;
      r := r + 1;
    }
    LastLevel(levels, points, t);
  }

  /** With one level per control point, the last level is the one-point list of the curve point. */
  lemma LastLevel(levels: seq<seq<Point>>, points: seq<Point>, t: real)
    requires |points| >= 1 ==> |levels| == |points|
    requires forall j {:trigger levels[j]} :: 0 <= j < |levels| ==> levels[j] == Level(points, t, j)
    ensures |points| >= 1 ==> levels[|levels| - 1] == [CurvePoint(points, t)]
  {
    if |points| >= 1 {
      var last := levels[|levels| - 1];
      assert last == Level(points, t, |points| - 1);
      assert |last| == 1;
      assert last == [last[0]];
    }
  }

  /** At t = 0 every round drops the last point: level r is a prefix. */
  lemma {:induction false} LevelAtZero(points: seq<Point>, r: nat)
    requires r <= |points|
    ensures Level(points, 0.0, r) == points[..|points| - r]
  {
    if r > 0 {
      LevelAtZero(points, r - 1);
      var prev := points[..|points| - r + 1];
      assert NextLevel(prev, 0.0) == prev[..|prev| - 1];
    }
  }

  /** At t = 1 every round drops the first point: level r is a suffix. */
  lemma {:induction false} LevelAtOne(points: seq<Point>, r: nat)
    requires r <= |points|
    ensures Level(points, 1.0, r) == points[r..]
  {
    if r > 0 {
      LevelAtOne(points, r - 1);
      var prev := points[r - 1..];
      assert NextLevel(prev, 1.0) == prev[1..];
    }
  }

  /** Dropping the last point of a list drops the last point of its next round. */
  lemma NextLevelPrefix(cur: seq<Point>, t: real)
    requires |cur| >= 2
    ensures NextLevel(cur[..|cur| - 1], t) == NextLevel(cur, t)[..|cur| - 2]
  {
    var p := cur[..|cur| - 1];
    forall j | 0 <= j < |cur| - 2
      ensures NextLevel(p, t)[j] == NextLevel(cur, t)[j]
    {
      NextLevelAt(p, t, j);
      NextLevelAt(cur, t, j);
    }
  }

  /** Dropping the first point of a list drops the first point of its next round. */
  lemma NextLevelSuffix(cur: seq<Point>, t: real)
    requires |cur| >= 2
    ensures NextLevel(cur[1..], t) == NextLevel(cur, t)[1..]
  {
    var s := cur[1..];
    forall j | 0 <= j < |cur| - 2
      ensures NextLevel(s, t)[j] == NextLevel(cur, t)[j + 1]
    {
      NextLevelAt(s, t, j);
      NextLevelAt(cur, t, j + 1);
    }
  }

  /** The pyramid of the control points without the last one is the left part of every level. */
  lemma {:induction false} LevelPrefix(points: seq<Point>, t: real, r: nat)
    requires r < |points|
    ensures Level(points[..|points| - 1], t, r) == Level(points, t, r)[..|points| - 1 - r]
  {
    if r > 0 {
      LevelPrefix(points, t, r - 1);
      NextLevelPrefix(Level(points, t, r - 1), t);
    }
  }

  /** The pyramid of the control points without the first one is the right part of every level. */
  lemma {:induction false} LevelSuffix(points: seq<Point>, t: real, r: nat)
    requires r < |points|
    ensures Level(points[1..], t, r) == Level(points, t, r)[1..]
  {
    if r > 0 {
      LevelSuffix(points, t, r - 1);
      NextLevelSuffix(Level(points, t, r - 1), t);
    }
  }

  /**
   * De Casteljau's recursion: the curve point of k + 1 control points is the
   * lerp of the curve points of the first k and of the last k.
   */
  lemma CurveSplit(points: seq<Point>, t: real)
    requires |points| >= 2
    ensures CurvePoint(points, t) == Lerp(CurvePoint(points[..|points| - 1], t), CurvePoint(points[1..], t), t)
  {
    var n := |points|;
    var below := Level(points, t, n - 2);
    LevelPrefix(points, t, n - 2);
    LevelSuffix(points, t, n - 2);
    NextLevelAt(below, t, 0);
  }

  /** Endpoint interpolation: the curve starts at the first control point and ends at the last. */
  lemma CurveEndpoints(points: seq<Point>)
    requires |points| >= 1
    ensures CurvePoint(points, 0.0) == points[0]
    ensures CurvePoint(points, 1.0) == points[|points| - 1]
  {
    LevelAtZero(points, |points| - 1);
    LevelAtOne(points, |points| - 1);
  }
}
