# Bézier curve visualiser — a Dafny model of its core

The visualiser (`script.js`) edits piecewise Bézier curves. Each segment is the control polygon of one curve. The page draws:
- the curve;
- de Casteljau's construction at a parameter t, which can be animated;
- the hodograph, the curve of the derivative B'(t), drawn from its control points;
- speed and curvature plots.

This project models the logic under the drawing in two parts.

- **Curve maths.**
  - `Geometry` holds points over `real` and `lerp`. It also holds the clamped point-to-segment distance.
  - `Casteljau` holds the in-place `deCasteljau` and the level-keeping `deCasteljauLevels`. Both are proved against one reference definition of the construction's pyramid.
  - `Bernstein` holds the multiplicative `binom` and `bern`. The loop is proved to compute the entries of Pascal's triangle, and the weights satisfy the Bernstein recurrence.
  - `BezierForm` holds the Bernstein form of a curve, the weighted sum in which `derivative` and `secondDerivative` are written. It proves that this sum and the de Casteljau construction give the same point for every control polygon and every t.
  - `Hodograph` holds `hodographControlPoints` and the analytic `derivative` and `secondDerivative`.
- **Editing.**
  - `Editing` holds picking the point under the cursor, dragging it, inserting and removing control points, and appending and dropping segments.
  - `Session` ties these to the page's events. Those are mouse presses, moves and releases, the three buttons, and the animation frame. It proves that every reachable state stays well formed: there is at least one segment, every segment has at least two points, t is at most 1, and the selection names an existing point.

In the modelled code, `dist` and `pointToSegmentDistance` (script.js:129, 189-199) are only ever compared with each other or with `HIT_R` (script.js:140-181). So every distance is modelled as a squared distance, and `HIT_R` becomes `HIT_R² = 100`. The source's object reference to the dragged point becomes a (segment, index) pair, `Editing.PointRef`.

## Model

| member | source | states |
|---|---|---|
| Geometry.Lerp | script.js:131-133 | interpolation returns a at t = 0 and b at t = 1, and returns a when a == b |
| Geometry.Dist2 | script.js:129 | the squared distance is never negative and is 0 from a point to itself |
| Geometry.PointToSegmentDist2 | script.js:189-199 | the three branches give a non-negative squared distance, and a degenerate segment a == b measures the distance to its single point |
| Geometry.SegmentDistanceBelowEnds | script.js:189-199 | the result is never more than the squared distance to either end of the segment |
| Geometry.InsideBranch | script.js:195-198 | when the projection scalar lies strictly between 0 and the squared length, t = c1/c2 lies strictly inside (0, 1), c1 = t·c2, and the projected point is the lerp of the ends at t |
| Geometry.SegmentDistanceIsMinimum | script.js:189-199 | the three-branch clamped projection is the distance from p to the closed segment [a, b]: no point of the segment is closer, and some point of it is exactly that close |
| Geometry.ClampedParameter | script.js:189-199 | each branch measures against a point of the segment: the start when the projection scalar is ≤ 0, the end when it reaches the squared length, and otherwise the projection at c1/c2, which lies in [0, 1] |
| Geometry.SegmentDistanceBelow | script.js:189-199 | the squared distance the branches return is at most the squared distance to the point at any parameter s in [0, 1] |
| Bernstein.BinomIsChoose | script.js:243-247 | for every n and k the multiplicative loop, divisions included, computes the entry C(n, k) of Pascal's triangle, which is 0 past the end of the row |
| Bernstein.Pascal | script.js:243-247 | the loop's values obey Pascal's rule binom(n, k) = binom(n-1, k) + binom(n-1, k-1) |
| Bernstein.Absorption | script.js:243-247 | the identity that one round of the loop relies on: k·C(n, k) = (n + 1 - k)·C(n, k - 1) |
| Bernstein.BinomEnds | script.js:243-247 | binom(m, 0) and binom(m, m) are both 1 |
| Bernstein.BinomBeyond | script.js:243-247 | for k > n the loop reaches the factor 0, so binom(n, k) is 0 |
| Bernstein.Bern | script.js:239-241 | every weight is non-negative for t in [0, 1] |
| Bernstein.BernIsChooseWeight | script.js:239-241 | bern(n, i, t) is C(n, i)·t^i·(1 - t)^(n - i) with C read from Pascal's triangle |
| Bernstein.WeightRecurrence | script.js:239-247 | the Bernstein recurrence: each weight of degree n is u times the weight of degree n - 1 at the same index plus t times the one at the index before, the out-of-range ones being 0; bern has u = 1 - t |
| Bernstein.BernEndpoints | script.js:239-241 | at t = 0 the only non-zero weight is the first one, which is 1; at t = 1 the same holds for the last |
| Casteljau.DeCasteljau | script.js:201-209 | the in-place rounds leave the single point of the pyramid's last level in tmp[0]; an empty list gives no point; t = 0 gives the first control point and t = 1 the last |
| Casteljau.DeCasteljauLevels | script.js:211-224 | the result has one level per control point (one empty level for no points); level r is the pyramid's level r, of k - r points; level 0 is the input; the last level is the single point DeCasteljau computes |
| Casteljau.LevelAtZero | script.js:201-224 | at t = 0 level r of the construction is the first k - r control points |
| Casteljau.LevelAtOne | script.js:201-224 | at t = 1 level r of the construction is the last k - r control points |
| Casteljau.CurveEndpoints | script.js:201-209 | the curve starts at the first control point and ends at the last |
| Casteljau.LevelPrefix | script.js:201-224 | the pyramid built from all control points but the last is the left part of every level of the full pyramid |
| Casteljau.LevelSuffix | script.js:201-224 | the pyramid built from all control points but the first is the right part of every level of the full pyramid |
| Casteljau.CurveSplit | script.js:201-209 | de Casteljau's recursion: the curve point of k + 1 control points is the lerp at t of the curve points of the first k and of the last k |
| BezierForm.SumMix | script.js:249-258 | a weighted sum of control points is linear in its weights: weights u·a + t·b give u times the sum with a plus t times the sum with b |
| BezierForm.SplitWeights | script.js:239-247 | the weights of degree m + 1 are the mix, with factors u and t, of the weights of degree m padded with a 0 at the end and at the start |
| BezierForm.BezierSplit | script.js:239-247 | the Bernstein form obeys de Casteljau's recursion: the sum for k + 1 control points mixes the sums for the first k and the last k |
| BezierForm.CasteljauIsChooseSum | script.js:201-209 | for every control polygon and t, the de Casteljau point equals the Bernstein sum with Pascal's-triangle coefficients and u = 1 - t |
| BezierForm.CasteljauIsBernstein | script.js:201-247 | for every control polygon and t, `deCasteljau` and the weighted sum with the source's `bern` weights give the same point |
| BezierForm.BezierEndpoints | script.js:239-247 | at t = 0 the Bernstein form is the first control point and at t = 1 the last |
| Hodograph.HodographControlPoints | script.js:226-237 | n+1 points give n hodograph points, the i-th being n·(P[i+1] - P[i]); fewer than 2 points give none |
| Hodograph.HodographInverse | script.js:226-237 | the first control point plus the hodograph determine the whole control polygon, so the hodograph loses nothing else |
| Hodograph.Derivative | script.js:249-258 | the derivative is (0, 0) for fewer than 2 control points |
| Hodograph.DerivativeIsHodographCurve | script.js:226-258 | the analytic derivative at t equals the Bernstein form of the hodograph control points at t, and equals the de Casteljau point of those control points, which is what the page draws as the hodograph (script.js:394-401) |
| Hodograph.DerivativeEndpoints | script.js:249-258 | the derivative at t = 0 is the first hodograph point n·(P1 - P0), and at t = 1 it is the last one |
| Hodograph.SecondDerivative | script.js:260-269 | the second derivative is (0, 0) for fewer than 3 control points |
| Hodograph.SecondDerivativeIsHodographDerivative | script.js:226-269 | for every control polygon, the second derivative is the derivative of the hodograph's curve |
| Hodograph.SecondDerivativeEndpoints | script.js:260-269 | at t = 0 the second derivative is the first point of the hodograph's hodograph; at t = 1 it is the last |
| Editing.FindClosestPoint | script.js:135-145 | a returned point is within the hit radius (≤) and is the first nearest point in segment-then-point order over all segments; nothing is returned exactly when every point lies outside the radius |
| Editing.FirstNearestUnique | script.js:135-145 | the first nearest point is unique, so the tie-breaking of the strict `<` is fully determined |
| Editing.MovePoint | script.js:111-119 | a drag sets exactly the selected point to the cursor; every other point of every segment and every segment length is unchanged |
| Editing.MoveBack | script.js:111-119 | dragging a point back to where it was restores the whole segment list |
| Editing.MoveTwice | script.js:111-119 | two moves of the same point are equivalent to the last move alone |
| Editing.InsertAt | script.js:174 | the splice puts the new point at the given index and shifts the rest of the segment up by one, in order |
| Editing.RemoveAt | script.js:182 | the splice drops the point at the index and keeps the rest of the segment in order |
| Editing.RemoveInserted | script.js:174-182 | removing a just-inserted point gives back the segment |
| Editing.InsertRemoved | script.js:174-182 | reinserting a removed point at its index gives back the segment |
| Editing.CandidateCount | script.js:152-159 | a segment has a candidate distance exactly when it is non-empty: one per edge, or one for a single point |
| Editing.ChooseSegment | script.js:148-160 | the chosen segment has a candidate at least as close as every candidate of every segment and strictly closer than those of earlier segments; segment 0 is chosen when every segment is empty |
| Editing.ChosenSegmentUnique | script.js:148-160 | that choice is unique |
| Editing.NearestIndex | script.js:168-173 | the index is the first nearest point of the segment |
| Editing.AddControlPoint | script.js:147-175 | exactly the chosen segment changes; the point goes right after its first nearest point, or is pushed into an empty segment; every original point keeps its order; the total point count grows by exactly 1 |
| Editing.RefAfterInsert | script.js:174 | after an insert the selection still names the same point |
| Editing.RemovePoint | script.js:177-187 | at most one point is removed: the first, in segment-then-point order, of a segment with more than 2 points that lies strictly within the radius; segments of at most 2 points never change; when nothing is removable the list is unchanged |
| Editing.RefAfterRemove | script.js:182 | after a removal the selection is dropped exactly when it was the removed point; otherwise it still names the same point |
| Editing.TotalPointsUpdate | script.js:174-182 | replacing one segment changes the total point count by the difference in that segment's length |
| Editing.AddSegment | script.js:68-75 | the existing segments are kept and the fixed three-point segment is appended; the total grows by 3 |
| Editing.RemoveLastSegment | script.js:77-80 | the result is a prefix of the list that never drops below one segment, and is one shorter whenever there was more than one |
| Editing.RemoveAddedSegment | script.js:68-80 | removing a just-added segment restores the list |
| Editing.RemoveKeepsLastSegment | script.js:77-80 | with a single segment the button changes nothing |
| Session.InitialWellformed | script.js:31-45 | the page's initial state is well formed |
| Session.Tick | script.js:474-477 | without animation t is unchanged; with animation t never exceeds 1 and wraps to 0 when it would; from t ≥ 0 at speed ≥ 0 the result is ≥ 0 and either wraps or does not decrease |
| Session.TickStaysInRange | script.js:474-477 | from t in [0, 1] at a non-negative speed, every frame keeps t in [0, 1] |
| Session.RefAfterTruncate | script.js:77-80 | dropping trailing segments keeps the selection exactly when its segment survives, naming the same point |
| Session.PressInsert | script.js:96-100 | Shift + left press keeps the state well formed; the new segment list is the insertion `addControlPoint` makes (chosen segment, right after its first nearest point); t, animation and speed are unchanged; exactly one point is added; a selection follows its point |
| Session.SelectionAfterInsert | script.js:96-100 | after an insertion the selection exists exactly when it existed before, and names the same point |
| Session.PressDelete | script.js:102-106 | right press keeps the state well formed; the new segment list is the removal `removePoint` makes (the first removable point within the radius, or nothing); t, animation and speed are unchanged; at most one point is removed; any remaining selection names the same point |
| Session.SelectionAfterRemove | script.js:102-106 | after a removal the selection is dropped exactly when it was the removed point, and otherwise names the same point; with nothing removed it is unchanged |
| Session.PressPick | script.js:108 | any other press changes only the selection, to the first nearest point within the radius or to none when no point is within it |
| Session.DropSegment | script.js:77-80 | the remove-segment button keeps the state well formed and never removes the last segment; the selection survives exactly when its segment does, unchanged |
| Session.Step | script.js:68-121 | every event keeps the state well formed, and each event has exactly the effect of its handler: Shift + left press is `addControlPoint`'s insertion, right press is `removePoint`'s removal, any other press picks the first nearest point within the radius, moves drag the selection, release and leave drop it, the buttons append, drop and reset segments (a selection survives a dropped segment exactly when its segment does); reset restores the default segments with t = 0, animation off and no selection; only a frame and reset change t or the animation switch |
| Session.Run | script.js:68-121 | any sequence of events from a well-formed state ends in a well-formed state |

## Left out

- Drawing and page plumbing are left out. This covers `setupHiDPICanvas`, `draw`, `drawPoint`, `drawArrow`, `drawCasteljau`, `drawAnalysis`, `mousePos` and the resize listener. They are rendering and host I/O; cursor positions arrive as event parameters.
- The checkbox and slider handlers (script.js:47-66) are left out. `animate` and `speed` are fields of `Session.State` that no modelled event changes, except that reset turns animation off.
- `requestAnimationFrame` scheduling is left out. A frame is the `Frame` event, and only the two-line t update of `loop` is modelled.
- `curvatureAt` and `approximateLength` are left out. They depend on square roots, cubes and a floating-point epsilon.
- All arithmetic is over `real`, so IEEE-754 rounding is not modelled. `Math.hypot` in `dist` and `pointToSegmentDistance` is modelled by the squared distance. That preserves the comparisons of script.js:140-181, which are the only uses of those two functions. It is not a value the source computes. The other `Math.hypot` calls are all in left-out code. `curvatureAt` (script.js:274-276) and `draw` (script.js:379-380) compare the value with `1e-9` and divide by its cube. `draw` also passes its values to `drawAnalysis`, which divides them by their maximum to plot them (script.js:381, 426, 434-450). `approximateLength` adds it (script.js:327). `draw` computes `vAtT` (script.js:342) and never uses it.
- Casteljau.DeCasteljau: in the source, an empty point list returns `undefined`. Here it returns `None`.
- Bernstein.Bern: requires i ≤ n. Every caller in the source satisfies this. The source would compute other values for i > n, and those are not modelled.
- Hodograph.Derivative: each term is the weight times the scaled difference, while the source multiplies the factors in a different order. Over the reals the product is the same.
- Session.Step: when the dragged point is deleted, its segment is dropped, or the list is reset, the source keeps a reference to an object that is no longer drawn. Later moves then change nothing visible. The model clears the selection instead, which has the same effect on the segments.
- Editing.RemovePoint: removes the first point within the radius, in segment-then-point order, as the code does. It does not remove the globally nearest point within the radius.
