/**
 * Editing the control polygons (script.js:68-80, 108-199): picking the point
 * under the cursor, dragging it, inserting and deleting control points, and
 * appending or dropping whole segments. A segment is the control polygon of
 * one Bézier curve; the canvas holds a list of segments.
 *
 * `dist` and `pointToSegmentDistance` (script.js:129, 189-199) are compared
 * only with each other and with HIT_R (script.js:140-181), so the model
 * compares squared distances, against HIT_R², instead.
 */
module Editing {
  import opened Options
  import opened Geometry

  /** The control points of one curve. */
  type Segment = seq<Point>

  /**
   * The point segs[seg][idx]. The source holds the point object itself in
   * `selectedPoint`; the model holds its position in the segment list.
   */
  datatype PointRef = PointRef(seg: nat, idx: nat)

  predicate ValidRef(segs: seq<Segment>, r: PointRef) {
    r.seg < |segs| && r.idx < |segs[r.seg]|
  }

  function At(segs: seq<Segment>, r: PointRef): Point
    requires ValidRef(segs, r)
  {
    segs[r.seg][r.idx]
  }

  /** Segment-then-point order: the order in which the source's nested loops visit points. */
  predicate Before(a: PointRef, b: PointRef) {
    a.seg < b.seg || (a.seg == b.seg && a.idx < b.idx)
  }

  /** The loops have visited point i of segment s once they stand at point vi of segment vs. */
  predicate Visited(s: nat, i: nat, vs: nat, vi: nat) {
    Before(PointRef(s, i), PointRef(vs, vi))
  }

  /** The number of control points over all segments. */
  function TotalPoints(segs: seq<Segment>): nat {
    if |segs| == 0 then 0 else TotalPoints(segs[..|segs| - 1]) + |segs[|segs| - 1]|
  }

  lemma {:induction false} TotalPointsUpdate(segs: seq<Segment>, s: nat, x: Segment)
    requires s < |segs|
    ensures TotalPoints(segs[s := x]) + |segs[s]| == TotalPoints(segs) + |x|
    decreases |segs|
  {
    var n := |segs| - 1;
    var u := segs[s := x];
    if s < n {
      assert u[..n] == segs[..n][s := x];
      TotalPointsUpdate(segs[..n], s, x);
    } else {
      assert u[..n] == segs[..n];
    }
  }

  // ---------------------------------------------------------------------
  // Picking: findClosestPoint (script.js:135-145)
  // ---------------------------------------------------------------------

  /**
   * Among the points visited so far, none is nearer to p than r, and every
   * one visited before r is strictly farther: the source keeps a new best
   * only when it is strictly nearer, so the first of equally near points wins.
   */
  ghost predicate NearestAmongVisited(segs: seq<Segment>, p: Point, r: PointRef, vs: nat, vi: nat)
    requires ValidRef(segs, r)
  {
    forall s, i :: 0 <= s < |segs| && 0 <= i < |segs[s]| && Visited(s, i, vs, vi) ==>
      Dist2(At(segs, r), p) <= Dist2(segs[s][i], p) &&
      (Before(PointRef(s, i), r) ==> Dist2(At(segs, r), p) < Dist2(segs[s][i], p))
  }

  /** Having visited all of segment s is having visited everything before segment s + 1. */
  lemma NearestAtRowEnd(segs: seq<Segment>, p: Point, r: PointRef, s: nat)
    requires ValidRef(segs, r) && s < |segs| && NearestAmongVisited(segs, p, r, s, |segs[s]|)
    ensures NearestAmongVisited(segs, p, r, s + 1, 0)
  {
    forall t, i | 0 <= t < |segs| && 0 <= i < |segs[t]| && Visited(t, i, s + 1, 0)
      ensures Dist2(At(segs, r), p) <= Dist2(segs[t][i], p)
      ensures Before(PointRef(t, i), r) ==> Dist2(At(segs, r), p) < Dist2(segs[t][i], p)
    {
      assert Visited(t, i, s, |segs[s]|);
    }
  }

  /** The first point visited, once every earlier segment proved empty, is the nearest so far. */
  lemma VisitFirst(segs: seq<Segment>, p: Point, s: nat)
    requires s < |segs| && |segs[s]| > 0 && forall t :: 0 <= t < s ==> |segs[t]| == 0
    ensures NearestAmongVisited(segs, p, PointRef(s, 0), s, 1)
  {
    forall t, i | 0 <= t < |segs| && 0 <= i < |segs[t]| && Visited(t, i, s, 1)
      ensures t == s && i == 0
    {
    }
  }

  /**
   * Visiting point i of segment s: it becomes the nearest so far when it is
   * strictly nearer than r, and r stays the nearest so far otherwise.
   */
  lemma VisitPoint(segs: seq<Segment>, p: Point, r: PointRef, s: nat, i: nat)
    requires s < |segs| && i < |segs[s]| && ValidRef(segs, r) && Visited(r.seg, r.idx, s, i)
    requires NearestAmongVisited(segs, p, r, s, i)
    ensures Dist2(segs[s][i], p) < Dist2(At(segs, r), p) ==> NearestAmongVisited(segs, p, PointRef(s, i), s, i + 1)
    ensures Dist2(segs[s][i], p) >= Dist2(At(segs, r), p) ==> NearestAmongVisited(segs, p, r, s, i + 1)
  {
    forall t, j | 0 <= t < |segs| && 0 <= j < |segs[t]| && Visited(t, j, s, i + 1) && (t != s || j != i)
      ensures Visited(t, j, s, i)
    {
    }
  }

  /** r is the first point, in segment-then-point order, of those nearest to p. */
  ghost predicate IsFirstNearest(segs: seq<Segment>, p: Point, r: PointRef) {
    ValidRef(segs, r) && NearestAmongVisited(segs, p, r, |segs|, 0)
  }

  /**
   * The state of `findClosestPoint`'s loops standing at point i of segment
   * s: no best yet while every segment so far was empty, and otherwise the
   * first nearest of the points visited, with its distance.
   */
  ghost predicate ScanState(segs: seq<Segment>, p: Point, best: Option<PointRef>, bestD: real, s: nat, i: nat) {
    && (best.None? ==> i == 0 && forall t :: 0 <= t < |segs| && t < s ==> |segs[t]| == 0)
    && (best.Some? ==>
          && ValidRef(segs, best.value) && Visited(best.value.seg, best.value.idx, s, i)
          && bestD == Dist2(At(segs, best.value), p) && NearestAmongVisited(segs, p, best.value, s, i))
  }

  /** The inner loop of `findClosestPoint`: one pass over segment s. */
  method ScanSegment(segs: seq<Segment>, p: Point, s: nat, best0: Option<PointRef>, bestD0: real)
    returns (best: Option<PointRef>, bestD: real)
    requires s < |segs| && ScanState(segs, p, best0, bestD0, s, 0)
    ensures ScanState(segs, p, best, bestD, s + 1, 0)
  {
    best, bestD := best0, bestD0;
    var i := 0;
    while i < |segs[s]|
      invariant 0 <= i <= |segs[s]|
      invariant ScanState(segs, p, best, bestD, s, i)
    {
      var d := Dist2(segs[s][i], p);
      if best.None? {
        VisitFirst(segs, p, s);
      } else {
        VisitPoint(segs, p, best.value, s, i);
      }
      if best.None? || d < bestD {
        best := Some(PointRef(s, i));
        bestD := d;
      }
      i := i + 1;
    }
    if best.Some? {
      NearestAtRowEnd(segs, p, best.value, s);
    }
  }

  /**
   * `findClosestPoint`: the first nearest point when it lies within HIT_R
   * (inclusive), and nothing when every point is farther or there are none.
   */
  method FindClosestPoint(segs: seq<Segment>, p: Point) returns (sel: Option<PointRef>)
    ensures sel.Some? ==> IsFirstNearest(segs, p, sel.value) && Dist2(At(segs, sel.value), p) <= HitRadius2
    ensures sel.None? ==>
      forall s, i :: 0 <= s < |segs| && 0 <= i < |segs[s]| ==> Dist2(segs[s][i], p) > HitRadius2
  {
    var best: Option<PointRef> := None;
    var bestD := 0.0;
    var s := 0;
    while s < |segs|
      invariant 0 <= s <= |segs|
      invariant ScanState(segs, p, best, bestD, s, 0)
    {
      best, bestD := ScanSegment(segs, p, s, best, bestD);
      s := s + 1;
    }
    if best.Some? && bestD <= HitRadius2 {
      sel := best;
    } else {
      sel := None;
    }
  }

  /** There is at most one first nearest point, so the pick is determined. */
  lemma FirstNearestUnique(segs: seq<Segment>, p: Point, a: PointRef, b: PointRef)
    requires IsFirstNearest(segs, p, a) && IsFirstNearest(segs, p, b)
    ensures a == b
  {
    assert Dist2(At(segs, a), p) <= Dist2(segs[b.seg][b.idx], p);
    assert Dist2(At(segs, b), p) <= Dist2(segs[a.seg][a.idx], p);
  }

  // ---------------------------------------------------------------------
  // Dragging: the onmousemove update (script.js:108-121)
  // ---------------------------------------------------------------------

  /** The selected point takes the cursor's position; nothing else moves. */
  function MovePoint(segs: seq<Segment>, r: PointRef, q: Point): (moved: seq<Segment>)
    requires ValidRef(segs, r)
    ensures |moved| == |segs| && forall s :: 0 <= s < |segs| ==> |moved[s]| == |segs[s]|
    ensures ValidRef(moved, r) && At(moved, r) == q
    ensures forall s, i :: 0 <= s < |segs| && 0 <= i < |segs[s]| && (s, i) != (r.seg, r.idx) ==>
      moved[s][i] == segs[s][i]
  {
    segs[r.seg := segs[r.seg][r.idx := q]]
  }

  /** Dragging a point back to where it was restores every segment. */
  lemma MoveBack(segs: seq<Segment>, r: PointRef, q: Point)
    requires ValidRef(segs, r)
    ensures MovePoint(MovePoint(segs, r, q), r, At(segs, r)) == segs
  {
    var back := MovePoint(MovePoint(segs, r, q), r, At(segs, r));
    forall s | 0 <= s < |segs|
      ensures back[s] == segs[s]
    {
      assert |back[s]| == |segs[s]|;
    }
  }

  /** Two moves of the same point: only the last position counts. */
  lemma MoveTwice(segs: seq<Segment>, r: PointRef, q1: Point, q2: Point)
    requires ValidRef(segs, r)
    ensures MovePoint(MovePoint(segs, r, q1), r, q2) == MovePoint(segs, r, q2)
  {
    var a := MovePoint(MovePoint(segs, r, q1), r, q2);
    var b := MovePoint(segs, r, q2);
    forall s | 0 <= s < |segs|
      ensures a[s] == b[s]
    {
      assert |a[s]| == |b[s]|;
    }
  }

  // ---------------------------------------------------------------------
  // Inserting and deleting one point of a segment
  // ---------------------------------------------------------------------

  /** `seg.splice(i, 0, q)`. */
  function InsertAt(seg: Segment, i: nat, q: Point): (r: Segment)
    requires i <= |seg|
    ensures |r| == |seg| + 1 && r[i] == q
    ensures r[..i] == seg[..i] && r[i + 1..] == seg[i..]
  {
    seg[..i] + [q] + seg[i..]
  }

  /** `seg.splice(i, 1)`. */
  function RemoveAt(seg: Segment, i: nat): (r: Segment)
    requires i < |seg|
    ensures |r| == |seg| - 1
    ensures r[..i] == seg[..i] && r[i..] == seg[i + 1..]
  {
    seg[..i] + seg[i + 1..]
  }

  /** Deleting the point just inserted gives the segment back. */
  lemma RemoveInserted(seg: Segment, i: nat, q: Point)
    requires i <= |seg|
    ensures RemoveAt(InsertAt(seg, i, q), i) == seg
  {
    var r := RemoveAt(InsertAt(seg, i, q), i);
    assert r == r[..i] + r[i..];
    assert seg == seg[..i] + seg[i..];
  }

  /** Putting a deleted point back where it was gives the segment back. */
  lemma InsertRemoved(seg: Segment, i: nat)
    requires i < |seg|
    ensures InsertAt(RemoveAt(seg, i), i, seg[i]) == seg
  {
    var r := InsertAt(RemoveAt(seg, i), i, seg[i]);
    assert r == r[..i] + [r[i]] + r[i + 1..];
    assert seg == seg[..i] + [seg[i]] + seg[i + 1..];
  }

  // ---------------------------------------------------------------------
  // Inserting: addControlPoint (script.js:147-175) with
  // pointToSegmentDistance (script.js:189-199)
  // ---------------------------------------------------------------------

  /**
   * How many distances a segment contributes to the choice of segment: one
   * per edge of its polygon, one for a lone point, none when it is empty.
   */
  function CandidateCount(seg: Segment): (n: nat)
    ensures n <= |seg|
    ensures n == 0 <==> |seg| == 0
  {
    if |seg| >= 2 then |seg| - 1 else |seg|
  }

  /** The j-th of those distances, squared. */
  function CandidateDist2(seg: Segment, j: nat, p: Point): real
    requires j < CandidateCount(seg)
  {
    if |seg| == 1 then Dist2(seg[0], p) else PointToSegmentDist2(p, seg[j], seg[j + 1])
  }

  /**
   * b is the segment the source inserts into: the first segment holding a
   * distance no larger than any other segment's, or segment 0 when every
   * segment is empty.
   */
  ghost predicate IsChosenSegment(segs: seq<Segment>, p: Point, b: nat) {
    if forall s :: 0 <= s < |segs| ==> |segs[s]| == 0 then b == 0
    else
      b < |segs| &&
      exists j :: 0 <= j < CandidateCount(segs[b]) &&
        forall s, k :: 0 <= s < |segs| && 0 <= k < CandidateCount(segs[s]) ==>
          CandidateDist2(segs[b], j, p) <= CandidateDist2(segs[s], k, p) &&
          (s < b ==> CandidateDist2(segs[b], j, p) < CandidateDist2(segs[s], k, p))
  }

  /**
   * The state of the segment-choosing loops before segment s: nothing found
   * while every segment so far was empty, and otherwise the distance bestD
   * of candidate bestK of segment bestSeg, no larger than any candidate so
   * far and strictly smaller than those of earlier segments.
   */
  ghost predicate ChoiceState(segs: seq<Segment>, p: Point, found: bool, bestSeg: nat, bestD: real, bestK: nat, s: nat) {
    && (!found ==> bestSeg == 0 && forall t :: 0 <= t < |segs| && t < s ==> |segs[t]| == 0)
    && (found ==>
          && bestSeg < s && bestSeg < |segs| && bestK < CandidateCount(segs[bestSeg])
          && bestD == CandidateDist2(segs[bestSeg], bestK, p)
          && forall t, k :: 0 <= t < |segs| && t < s && 0 <= k < CandidateCount(segs[t]) ==>
               bestD <= CandidateDist2(segs[t], k, p) && (t < bestSeg ==> bestD < CandidateDist2(segs[t], k, p)))
  }

  /** The inner loops of `addControlPoint`'s segment choice: the candidates of segment s. */
  method ScanCandidates(segs: seq<Segment>, p: Point, s: nat, found0: bool, bestSeg0: nat, bestD0: real, ghost bestK0: nat)
    returns (found: bool, bestSeg: nat, bestD: real, ghost bestK: nat)
    requires s < |segs| && ChoiceState(segs, p, found0, bestSeg0, bestD0, bestK0, s)
    ensures ChoiceState(segs, p, found, bestSeg, bestD, bestK, s + 1)
  {
    found, bestSeg, bestD, bestK := found0, bestSeg0, bestD0, bestK0;
    var seg := segs[s];
    var i := 0;
    while i < |seg| - 1
      invariant 0 <= i <= CandidateCount(seg)
      invariant |seg| >= 2 || i == 0
      invariant !found ==> bestSeg == 0 && (forall t :: 0 <= t < s ==> |segs[t]| == 0) && i == 0
      invariant found ==>
        bestSeg <= s && bestK < CandidateCount(segs[bestSeg]) &&
        bestD == CandidateDist2(segs[bestSeg], bestK, p) &&
        (forall t, k :: 0 <= t < s && 0 <= k < CandidateCount(segs[t]) ==>
          bestD <= CandidateDist2(segs[t], k, p) && (t < bestSeg ==> bestD < CandidateDist2(segs[t], k, p))) &&
        (forall k :: 0 <= k < i ==> bestD <= CandidateDist2(seg, k, p)) &&
        (bestSeg == s ==> i >= 1)
    {
      var d := PointToSegmentDist2(p, seg[i], seg[i + 1]);
      if !found || d < bestD {
        found, bestD, bestSeg, bestK := true, d, s, i;
      }
      i := i + 1;
    }
    if |seg| == 1 {
      var d := Dist2(seg[0], p);
      if !found || d < bestD {
        found, bestD, bestSeg, bestK := true, d, s, 0;
      }
    }
    assert found ==> forall k :: 0 <= k < CandidateCount(seg) ==> bestD <= CandidateDist2(seg, k, p);
    assert !found ==> |seg| == 0;
  }

  /** The segment-choosing loops of `addControlPoint`. */
  method ChooseSegment(segs: seq<Segment>, p: Point) returns (bestSeg: nat)
    ensures IsChosenSegment(segs, p, bestSeg)
  {
    bestSeg := 0;
    var found := false;
    var bestD := 0.0;
    ghost var bestK := 0;
    var s := 0;
    while s < |segs|
      invariant 0 <= s <= |segs|
      invariant ChoiceState(segs, p, found, bestSeg, bestD, bestK, s)
    {
      found, bestSeg, bestD, bestK := ScanCandidates(segs, p, s, found, bestSeg, bestD, bestK);
      s := s + 1;
    }
    if found {
      assert !(forall t :: 0 <= t < |segs| ==> |segs[t]| == 0);
    }
  }

  /** There is at most one chosen segment. */
  lemma ChosenSegmentUnique(segs: seq<Segment>, p: Point, a: nat, b: nat)
    requires IsChosenSegment(segs, p, a) && IsChosenSegment(segs, p, b)
    ensures a == b
  {
    if !(forall s :: 0 <= s < |segs| ==> |segs[s]| == 0) {
      var ja :| 0 <= ja < CandidateCount(segs[a]) &&
        forall s, k :: 0 <= s < |segs| && 0 <= k < CandidateCount(segs[s]) ==>
          CandidateDist2(segs[a], ja, p) <= CandidateDist2(segs[s], k, p) &&
          (s < a ==> CandidateDist2(segs[a], ja, p) < CandidateDist2(segs[s], k, p));
      var jb :| 0 <= jb < CandidateCount(segs[b]) &&
        forall s, k :: 0 <= s < |segs| && 0 <= k < CandidateCount(segs[s]) ==>
          CandidateDist2(segs[b], jb, p) <= CandidateDist2(segs[s], k, p) &&
          (s < b ==> CandidateDist2(segs[b], jb, p) < CandidateDist2(segs[s], k, p));
      assert CandidateDist2(segs[a], ja, p) <= CandidateDist2(segs[b], jb, p);
      assert CandidateDist2(segs[b], jb, p) <= CandidateDist2(segs[a], ja, p);
    }
  }

  /** i is the first of the points of seg nearest to p. */
  ghost predicate IsFirstNearestIn(seg: Segment, p: Point, i: nat) {
    i < |seg| &&
    forall k :: 0 <= k < |seg| ==>
      Dist2(seg[i], p) <= Dist2(seg[k], p) && (k < i ==> Dist2(seg[i], p) < Dist2(seg[k], p))
  }

  /** The nearest-point loop of `addControlPoint`. */
  method NearestIndex(seg: Segment, p: Point) returns (idx: nat)
    requires |seg| >= 1
    ensures IsFirstNearestIn(seg, p, idx)
  {
    idx := 0;
    var bestP := Dist2(seg[0], p);
    var i := 1;
    while i < |seg|
      invariant 1 <= i <= |seg| && idx < i
      invariant bestP == Dist2(seg[idx], p)
      invariant forall k :: 0 <= k < i ==> bestP <= Dist2(seg[k], p) && (k < idx ==> bestP < Dist2(seg[k], p))
    {
      var d := Dist2(seg[i], p);
      if d < bestP {
        bestP := d;
        idx := i;
      }
      i := i + 1;
    }
  }

  /**
   * r is segs with p inserted at `at` as `addControlPoint` places it: in the
   * chosen segment, right after its first nearest point, or at index 0 of an
   * empty segment.
   */
  ghost predicate IsInsertion(segs: seq<Segment>, p: Point, r: seq<Segment>, at: PointRef) {
    && at.seg < |segs| && IsChosenSegment(segs, p, at.seg)
    && (|segs[at.seg]| == 0 ==> at.idx == 0)
    && (|segs[at.seg]| > 0 ==> at.idx >= 1 && IsFirstNearestIn(segs[at.seg], p, at.idx - 1))
    && at.idx <= |segs[at.seg]|
    && r == segs[at.seg := InsertAt(segs[at.seg], at.idx, p)]
  }

  /**
   * `addControlPoint`: inserts p into the chosen segment right after its
   * first nearest point, or as its only point when it is empty. Nothing else
   * changes, and the segment list needs at least one segment, as
   * `segments[bestSeg]` is read unconditionally.
   */
  method AddControlPoint(segs: seq<Segment>, p: Point) returns (r: seq<Segment>, at: PointRef)
    requires |segs| >= 1
    ensures IsInsertion(segs, p, r, at)
    ensures |r| == |segs| && forall s :: 0 <= s < |segs| && s != at.seg ==> r[s] == segs[s]
    ensures at.idx <= |segs[at.seg]| && |r[at.seg]| == |segs[at.seg]| + 1
    ensures r[at.seg][..at.idx] == segs[at.seg][..at.idx] && r[at.seg][at.idx + 1..] == segs[at.seg][at.idx..]
    ensures ValidRef(r, at) && At(r, at) == p
    ensures TotalPoints(r) == TotalPoints(segs) + 1
  {
    var b := ChooseSegment(segs, p);
    var seg := segs[b];
    if |seg| == 0 {
      at := PointRef(b, 0);
    } else {
      var idx := NearestIndex(seg, p);
      at := PointRef(b, idx + 1);
    }
    r := segs[b := InsertAt(seg, at.idx, p)];
    TotalPointsUpdate(segs, b, InsertAt(seg, at.idx, p));
  }

  /**
   * Where a reference lands after p is inserted at `at`: points after the
   * insertion in the same segment move up by one, every other one stays.
   */
  function RefAfterInsert(segs: seq<Segment>, at: PointRef, q: Point, sel: PointRef): (moved: PointRef)
    requires ValidRef(segs, sel) && at.seg < |segs| && at.idx <= |segs[at.seg]|
    ensures ValidRef(segs[at.seg := InsertAt(segs[at.seg], at.idx, q)], moved)
    ensures At(segs[at.seg := InsertAt(segs[at.seg], at.idx, q)], moved) == At(segs, sel)
  {
    if sel.seg == at.seg && sel.idx >= at.idx then PointRef(sel.seg, sel.idx + 1) else sel
  }

  // ---------------------------------------------------------------------
  // Deleting: removePoint (script.js:177-187)
  // ---------------------------------------------------------------------

  /** A point removePoint may delete: strictly within HIT_R, in a segment of more than two points. */
  ghost predicate Removable(segs: seq<Segment>, p: Point, s: nat, i: nat)
    requires s < |segs| && i < |segs[s]|
  {
    |segs[s]| > 2 && Dist2(segs[s][i], p) < HitRadius2
  }

  /**
   * r is segs after `removePoint` at p: unchanged when no point is
   * removable, and otherwise without the first removable point in
   * segment-then-point order, which `removed` names.
   */
  ghost predicate IsRemoval(segs: seq<Segment>, p: Point, r: seq<Segment>, removed: Option<PointRef>) {
    && (removed.None? ==> r == segs)
    && (removed.None? ==>
          forall s, i :: 0 <= s < |segs| && 0 <= i < |segs[s]| ==> !Removable(segs, p, s, i))
    && (removed.Some? ==>
          && ValidRef(segs, removed.value)
          && Removable(segs, p, removed.value.seg, removed.value.idx)
          && (forall s, i :: 0 <= s < |segs| && 0 <= i < |segs[s]| && Before(PointRef(s, i), removed.value) ==>
                !Removable(segs, p, s, i))
          && r == segs[removed.value.seg := RemoveAt(segs[removed.value.seg], removed.value.idx)])
  }

  /**
   * `removePoint`: deletes the first removable point in segment-then-point
   * order, if there is one, and changes nothing else. A segment of two or
   * fewer points is never touched.
   */
  method RemovePoint(segs: seq<Segment>, p: Point) returns (r: seq<Segment>, removed: Option<PointRef>)
    ensures IsRemoval(segs, p, r, removed)
    ensures |r| == |segs|
    ensures removed.Some? ==> TotalPoints(r) + 1 == TotalPoints(segs)
    ensures forall s :: 0 <= s < |segs| && |segs[s]| <= 2 ==> r[s] == segs[s]
  {
    var s := 0;
    while s < |segs|
      invariant 0 <= s <= |segs|
      invariant forall t, j :: 0 <= t < s && 0 <= j < |segs[t]| ==> !Removable(segs, p, t, j)
    {
      var seg := segs[s];
      if |seg| > 2 {
        var i := 0;
        while i < |seg|
          invariant 0 <= i <= |seg|
          invariant forall j :: 0 <= j < i ==> !Removable(segs, p, s, j)
        {
          if Dist2(seg[i], p) < HitRadius2 {
            r := segs[s := RemoveAt(seg, i)];
            removed := Some(PointRef(s, i));
            TotalPointsUpdate(segs, s, RemoveAt(seg, i));
            return;
          }
          i := i + 1;
        }
      }
      s := s + 1;
    }
    r, removed := segs, None;
  }

  /**
   * Where a reference lands after the point at rm is deleted: nowhere if it
   * was the deleted point, one place down if it came after it in the same
   * segment, and unchanged otherwise.
   */
  function RefAfterRemove(segs: seq<Segment>, rm: PointRef, sel: PointRef): (moved: Option<PointRef>)
    requires ValidRef(segs, sel) && ValidRef(segs, rm)
    ensures moved.None? <==> sel == rm
    ensures moved.Some? ==>
      ValidRef(segs[rm.seg := RemoveAt(segs[rm.seg], rm.idx)], moved.value) &&
      At(segs[rm.seg := RemoveAt(segs[rm.seg], rm.idx)], moved.value) == At(segs, sel)
  {
    if sel == rm then None
    else if sel.seg == rm.seg && sel.idx > rm.idx then Some(PointRef(sel.seg, sel.idx - 1))
    else Some(sel)
  }

  // ---------------------------------------------------------------------
  // Whole segments: the button handlers (script.js:68-80) and the defaults
  // (script.js:31-37)
  // ---------------------------------------------------------------------

  /** `DEFAULT_SEGMENTS`: one quadratic curve. */
  const DefaultSegments: seq<Segment> := [[Point(100.0, 300.0), Point(300.0, 100.0), Point(500.0, 300.0)]]

  /** The quadratic curve the "add segment" button appends. */
  const NewSegment: Segment := [Point(150.0, 350.0), Point(350.0, 150.0), Point(600.0, 350.0)]

  /** The "add segment" handler: appends `NewSegment` and keeps every existing segment. */
  function AddSegment(segs: seq<Segment>): (r: seq<Segment>)
    ensures |r| == |segs| + 1 && r[..|segs|] == segs && r[|segs|] == NewSegment
    ensures TotalPoints(r) == TotalPoints(segs) + 3
  {
    var r := segs + [NewSegment];
    assert r[..|segs|] == segs;
    r
  }

  /** The "remove segment" handler: drops the last segment unless it is the only one. */
  function RemoveLastSegment(segs: seq<Segment>): (r: seq<Segment>)
    ensures |segs| >= 1 ==> |r| >= 1
    ensures |segs| > 1 ==> |r| == |segs| - 1
    ensures |r| <= |segs| && r == segs[..|r|]
  {
    if |segs| > 1 then segs[..|segs| - 1] else segs
  }

  /** Removing a segment right after adding one restores the list. */
  lemma RemoveAddedSegment(segs: seq<Segment>)
    requires |segs| >= 1
    ensures RemoveLastSegment(AddSegment(segs)) == segs
  {
  }

  /** The floor: with one segment left, removing does nothing. */
  lemma RemoveKeepsLastSegment(segs: seq<Segment>)
    requires |segs| == 1
    ensures RemoveLastSegment(segs) == segs
  {
  }
}
