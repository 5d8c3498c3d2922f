/**
 * The visualiser's state and the input events that change it
 * (script.js:31-121, 474-480): the segment list, the animation parameter t
 * with its on/off switch and speed, and the point being dragged.
 *
 * The source keeps the dragged point as an object reference. When that
 * point leaves the segment list (it is deleted, its segment is dropped, or
 * the list is reset) the reference still exists but no longer reaches any
 * drawn point, so later moves change nothing that is drawn; the model
 * clears the selection instead, which has the same effect on the segments.
 */
module Session {
  import opened Options
  import opened Geometry
  import opened Editing

  /** How far t advances per animation frame at speed 1 (script.js:476). */
  const TickStep: real := 0.002

  datatype State = State(segments: seq<Segment>, t: real, animate: bool, speed: real, selected: Option<PointRef>)

  datatype Event =
    | MouseDown(button: int, shift: bool, at: Point)
    | MouseMove(at: Point)
    | MouseUp
    | MouseLeave
    | AddSegmentClick
    | RemoveSegmentClick
    | ResetClick
    | Frame

  /**
   * What every reachable state satisfies: at least one segment, every
   * segment a polygon of at least two points, t at most 1, and a selection
   * that names an existing point.
   */
  ghost predicate Wellformed(st: State) {
    |st.segments| >= 1 &&
    (forall s :: 0 <= s < |st.segments| ==> |st.segments[s]| >= 2) &&
    st.t <= 1.0 &&
    (st.selected.Some? ==> ValidRef(st.segments, st.selected.value))
  }

  /** The page as loaded (script.js:31-46). */
  const Initial: State := State(DefaultSegments, 0.0, false, 1.0, None)

  lemma InitialWellformed()
    ensures Wellformed(Initial)
  {
  }

  /**
   * The `t` update of `loop`: when animating, t advances by 0.002·speed and
   * wraps to 0 once it passes 1; otherwise the frame does nothing.
   */
  function Tick(t: real, animate: bool, speed: real): (next: real)
    ensures !animate ==> next == t
    ensures animate ==> next <= 1.0
    ensures animate && t + TickStep * speed > 1.0 ==> next == 0.0
    ensures animate && 0.0 <= t && 0.0 <= speed ==> 0.0 <= next
    ensures animate && 0.0 <= t && 0.0 <= speed ==> next == 0.0 || t <= next
  {
    if !animate then t
    else
      var advanced := t + TickStep * speed;
      if advanced > 1.0 then 0.0 else advanced
  }

  /** From t in [0, 1], a non-negative speed keeps t in [0, 1] on every frame. */
  lemma TickStaysInRange(t: real, animate: bool, speed: real)
    requires 0.0 <= t <= 1.0 && 0.0 <= speed
    ensures 0.0 <= Tick(t, animate, speed) <= 1.0
  {
  }

  /** The selection after the segment list shrinks to its first n segments. */
  function RefAfterTruncate(segs: seq<Segment>, n: nat, sel: PointRef): (kept: Option<PointRef>)
    requires ValidRef(segs, sel) && n <= |segs|
    ensures kept.Some? <==> sel.seg < n
    ensures kept.Some? ==> ValidRef(segs[..n], kept.value) && At(segs[..n], kept.value) == At(segs, sel)
  {
    if sel.seg < n then Some(sel) else None
  }

  /** Shift + left press: `addControlPoint` at the cursor; the selection follows its point. */
  method PressInsert(st: State, at: Point) returns (next: State)
    requires Wellformed(st)
    ensures Wellformed(next)
    ensures next.t == st.t && next.animate == st.animate && next.speed == st.speed
    ensures exists pos :: IsInsertion(st.segments, at, next.segments, pos) && next.selected == SelectionAfterInsert(st, pos, at)
    ensures TotalPoints(next.segments) == TotalPoints(st.segments) + 1
    ensures next.selected.Some? <==> st.selected.Some?
    ensures next.selected.Some? ==> At(next.segments, next.selected.value) == At(st.segments, st.selected.value)
  {
    var segs, pos := AddControlPoint(st.segments, at);
    next := st.(segments := segs, selected := SelectionAfterInsert(st, pos, at));
  }

  /** The selection once q is inserted at pos: it follows its point. */
  function SelectionAfterInsert(st: State, pos: PointRef, q: Point): (sel: Option<PointRef>)
    requires Wellformed(st) && pos.seg < |st.segments| && pos.idx <= |st.segments[pos.seg]|
    ensures sel.Some? <==> st.selected.Some?
    ensures sel.Some? ==>
      ValidRef(st.segments[pos.seg := InsertAt(st.segments[pos.seg], pos.idx, q)], sel.value) &&
      At(st.segments[pos.seg := InsertAt(st.segments[pos.seg], pos.idx, q)], sel.value) == At(st.segments, st.selected.value)
  {
    if st.selected.Some? then Some(RefAfterInsert(st.segments, pos, q, st.selected.value)) else None
  }

  /** The selection once the point at `removed` is deleted: dropped exactly when it was that point. */
  function SelectionAfterRemove(st: State, removed: Option<PointRef>): (sel: Option<PointRef>)
    requires Wellformed(st) && (removed.Some? ==> ValidRef(st.segments, removed.value))
    ensures removed.None? ==> sel == st.selected
    ensures removed.Some? ==> (sel.None? <==> st.selected.None? || st.selected.value == removed.value)
    ensures removed.Some? && sel.Some? ==>
      ValidRef(st.segments[removed.value.seg := RemoveAt(st.segments[removed.value.seg], removed.value.idx)], sel.value) &&
      At(st.segments[removed.value.seg := RemoveAt(st.segments[removed.value.seg], removed.value.idx)], sel.value)
        == At(st.segments, st.selected.value)
  {
    if removed.Some? && st.selected.Some? then RefAfterRemove(st.segments, removed.value, st.selected.value)
    else st.selected
  }

  /** Right press: `removePoint` at the cursor; a selection of the deleted point is dropped. */
  method PressDelete(st: State, at: Point) returns (next: State)
    requires Wellformed(st)
    ensures Wellformed(next)
    ensures next.t == st.t && next.animate == st.animate && next.speed == st.speed
    ensures exists removed :: IsRemoval(st.segments, at, next.segments, removed) && next.selected == SelectionAfterRemove(st, removed)
    ensures TotalPoints(next.segments) <= TotalPoints(st.segments) <= TotalPoints(next.segments) + 1
    ensures next.selected.Some? ==> st.selected.Some? && At(next.segments, next.selected.value) == At(st.segments, st.selected.value)
  {
    var segs, removed := RemovePoint(st.segments, at);
    next := st.(segments := segs, selected := SelectionAfterRemove(st, removed));
  }

  /** Any other press: `findClosestPoint` decides the selection, nothing else changes. */
  method PressPick(st: State, at: Point) returns (next: State)
    requires Wellformed(st)
    ensures Wellformed(next)
    ensures next == st.(selected := next.selected)
    ensures next.selected.Some? ==>
      IsFirstNearest(st.segments, at, next.selected.value) && Dist2(At(st.segments, next.selected.value), at) <= HitRadius2
    ensures next.selected.None? ==>
      forall s, i :: 0 <= s < |st.segments| && 0 <= i < |st.segments[s]| ==> Dist2(st.segments[s][i], at) > HitRadius2
  {
    var sel := FindClosestPoint(st.segments, at);
    next := st.(selected := sel);
  }

  /** The "remove segment" button; a selection in the dropped segment is cleared. */
  function DropSegment(st: State): (next: State)
    requires Wellformed(st)
    ensures Wellformed(next)
    ensures next.segments == RemoveLastSegment(st.segments) && next.t == st.t
    ensures next.selected.Some? ==> st.selected.Some? && At(next.segments, next.selected.value) == At(st.segments, st.selected.value)
    ensures |st.segments| == 1 ==> next == st
    ensures st.selected.Some? && st.selected.value.seg < |next.segments| ==> next.selected == st.selected
    ensures next.selected.Some? ==> next.selected == st.selected
  {
    var segs := RemoveLastSegment(st.segments);
    var sel := if st.selected.Some? then RefAfterTruncate(st.segments, |segs|, st.selected.value) else None;
    st.(segments := segs, selected := sel)
  }

  /**
   * One input event (script.js:68-121, 474-480). A left press with Shift
   * inserts a point, a right press deletes one, any other press picks the
   * point under the cursor; moves drag the picked point; release and leave
   * drop it; the buttons add, remove and reset segments; a frame advances t.
   */
  method Step(st: State, e: Event) returns (next: State)
    requires Wellformed(st)
    ensures Wellformed(next)
    ensures next.speed == st.speed
    ensures !e.Frame? && !e.ResetClick? ==> next.t == st.t && next.animate == st.animate
    ensures e.MouseDown? && e.button == 0 && e.shift ==>
      (exists pos :: IsInsertion(st.segments, e.at, next.segments, pos) && next.selected == SelectionAfterInsert(st, pos, e.at))
    ensures e.MouseDown? && e.button == 0 && e.shift ==>
      TotalPoints(next.segments) == TotalPoints(st.segments) + 1
    ensures e.MouseDown? && e.button == 2 ==>
      (exists removed :: IsRemoval(st.segments, e.at, next.segments, removed) && next.selected == SelectionAfterRemove(st, removed))
    ensures e.MouseDown? && e.button == 2 ==>
      TotalPoints(next.segments) <= TotalPoints(st.segments) <= TotalPoints(next.segments) + 1
    ensures e.MouseDown? && !(e.button == 0 && e.shift) && e.button != 2 ==>
      next == st.(selected := next.selected) &&
      (next.selected.Some? ==>
        IsFirstNearest(st.segments, e.at, next.selected.value) &&
        Dist2(At(st.segments, next.selected.value), e.at) <= HitRadius2) &&
      (next.selected.None? ==>
        forall s, i :: 0 <= s < |st.segments| && 0 <= i < |st.segments[s]| ==>
          Dist2(st.segments[s][i], e.at) > HitRadius2)
    ensures (e.MouseDown? && ((e.button == 0 && e.shift) || e.button == 2)) || e.AddSegmentClick? || e.RemoveSegmentClick? ==>
      next.selected.Some? ==> st.selected.Some? && At(next.segments, next.selected.value) == At(st.segments, st.selected.value)
    ensures e.MouseMove? && st.selected.Some? ==>
      next == st.(segments := MovePoint(st.segments, st.selected.value, e.at))
    ensures e.MouseMove? && st.selected.None? ==> next == st
    ensures e.MouseUp? || e.MouseLeave? ==> next == st.(selected := None)
    ensures e.AddSegmentClick? ==>
      next.segments == st.segments + [NewSegment] && next.selected == st.selected
    ensures e.RemoveSegmentClick? ==>
      next.segments == RemoveLastSegment(st.segments) && (|st.segments| == 1 ==> next == st)
    ensures e.RemoveSegmentClick? ==>
      (st.selected.Some? && st.selected.value.seg < |next.segments| ==> next.selected == st.selected) &&
      (next.selected.Some? ==> next.selected == st.selected)
    ensures e.ResetClick? ==>
      next == State(DefaultSegments, 0.0, false, st.speed, None)
    ensures e.Frame? ==> next == st.(t := Tick(st.t, st.animate, st.speed))
  {
    match e
    case MouseDown(button, shift, at) =>
      if button == 0 && shift {
        next := PressInsert(st, at);
      } else if button == 2 {
        next := PressDelete(st, at);
      } else {
        next := PressPick(st, at);
      }
    case MouseMove(at) =>
      if st.selected.Some? {
        next := st.(segments := MovePoint(st.segments, st.selected.value, at));
      } else {
        next := st;
      }
    case MouseUp =>
      next := st.(selected := None);
    case MouseLeave =>
      next := st.(selected := None);
    case AddSegmentClick =>
      next := st.(segments := AddSegment(st.segments));
    case RemoveSegmentClick =>
      next := DropSegment(st);
    case ResetClick =>
      next := State(DefaultSegments, 0.0, false, st.speed, None);
    case Frame =>
      next := st.(t := Tick(st.t, st.animate, st.speed));
  }

  /** Any sequence of events from a well-formed state ends in a well-formed state. */
  method Run(st: State, events: seq<Event>) returns (last: State)
    requires Wellformed(st)
    ensures Wellformed(last)
  {
    last := st;
    var k := 0;
    while k < |events|
      invariant 0 <= k <= |events|
      invariant Wellformed(last)
    {
      last := Step(last, events[k]);
      k := k + 1;
    }
  }
}
