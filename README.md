# Bezier curve editor — a verified model

The system is a browser page for drawing chains of cubic Bezier curves.
The page holds the following state:

- a list of **points**; each point has an id, an anchor (`x`, `y`), three handle
  offsets (left, right and a "grow" handle called top) and the id of the curve
  it belongs to;
- a **curve-id counter**;
- the **drag** in progress, if any;
- a **delete mode** flag;
- two per-segment maps for telling a tap from a double tap.

Consecutive points of a curve are joined by a cubic segment. The segment's
control points are the start's right handle and the end's left handle.

The handlers change this state:

- Dragging moves an anchor or a handle.
- Releasing the grow handle of the last point of a curve appends a new point to that curve.
- "Add curve" appends a one-point curve at the centre of the viewport.
- "Reset" restores the starting point.
- A tap on a segment deletes it in delete mode. Outside delete mode a double
  tap straightens the segment at once. A single tap straightens it when its
  300 ms timer fires.
- Deleting a segment cuts its curve in two. Each part that keeps at least two
  points comes back as a new curve.

The geometry helpers build the segment's control points (`createBezierPath`).
They also estimate its length by sampling 100 points along the curve
(`getBezierLength`).

The model has one module per concern. All files are verified together.

- `types.dfy` (`Types`): the point record and an `Option`.
- `geometry.dfy` (`Geometry`): the segment, its Bernstein evaluation and the
  sampled length. The length loop is a method proved against a polyline-length
  function.
- `curve_model.dfy` (`CurveModel`): id lookup, the points of one curve, "last in
  curve", id allocation, the sort by id, the grouping into curves and the
  invariant `WellFormed`. The invariant says that ids are unique, that ids
  increase along the list within each curve, and that every curve id is below
  the counter.
- `segment_ops.dfy` (`SegmentOps`): the list transforms behind drag, grow,
  add curve, centre, reset and straighten.
- `segment_cut.dfy` (`SegmentCut`): segment deletion, as a function with its
  properties and as the handler's step-by-step method.
- `editor.dfy` (`Editor`): the page component as the class
  `BezierCurveEditor`. It has the page state as fields and one method per
  handler. Every method keeps `Valid()`, which is the invariant together with
  "both tap maps have the same keys", and states its whole new state.

Some of the page's behaviour is worth spelling out:

- The grow commit sets the grown point's right handle to a third of its grow
  handle. The new point's left handle mirrors that. From the starting point
  (grow handle (0, −150)) this gives the right handle (0, −50), and the new
  point (400, 250) with the left handle (0, 50). `SegmentOps.GrowFromInitialPoint`
  proves it.
- Tap bookkeeping is keyed by the ordered pair `${startId}-${endId}`.
- New point ids are one more than the largest id in use, so the id of a
  deleted point that had the largest id is handed out again.
  `CurveModel.NewId`, `SegmentOps.GrowAtShape` and `SegmentOps.AddCurve`
  state this exact value. On an empty list the page's computation goes wrong
  (see Findings). The model gives 1 there instead (see "## Left out").

## Model

| member | source | states |
|---|---|---|
| Geometry.CreateBezierPath | app/components/bezierUtils.ts:3-13 | the path starts at the first anchor and ends at the second; the first control point is offset from the start by its right handle, the second from the end by its left handle |
| Geometry.Blend | app/components/bezierUtils.ts:26-35 | the cubic Bernstein blend of one coordinate gives the first control value at t = 0 and the last at t = 1 |
| Geometry.Eval | app/components/bezierUtils.ts:26-35 | the segment's point at t: the start anchor at t = 0 and the end anchor at t = 1, whatever the control points |
| Geometry.BlendOfConstant | app/components/bezierUtils.ts:26-35 | the four Bernstein weights sum to one, so blending four equal values gives that value |
| Geometry.BlendOfChord | app/components/bezierUtils.ts:26-35 | control values a third and two thirds of the way along make the blend linear in t |
| Geometry.EvalOfChordSegment | app/components/bezierUtils.ts:26-35 | a segment whose control points lie a third in from each anchor along the chord traces the straight line start + t·(end − start) |
| Geometry.SampleAt | app/components/bezierUtils.ts:23-35 | the i-th sample at t = i/segments: sample 0, where the loop's `prev` starts, is the start anchor, and sample `segments` is the end anchor, so the polyline closes on it |
| Geometry.PolylineLength | app/components/bezierUtils.ts:22-38 | the sum of `hypot` over consecutive samples up to k; never negative when `hypot` never is |
| Geometry.CollapsedSampleIsAnchor | app/components/bezierUtils.ts:26-35 | every sample of a segment whose four points coincide is that point |
| Geometry.CollapsedSegmentHasZeroLength | app/components/bezierUtils.ts:22-39 | a segment collapsed to one point has length zero |
| Geometry.GetBezierLength | app/components/bezierUtils.ts:15-40 | the loop returns the length of the polyline through the samples at t = 0, 1/segments, …, 1; it returns 0 when there are no samples, and never a negative length |
| Geometry.GetDefaultBezierLength | app/components/bezierUtils.ts:15-20 | called without `segments`, the length is the polyline through 100 samples (the default), never negative |
| CurveModel.IndexOfId | app/page.tsx:118 | the index returned holds the id and no earlier point has it; none is returned exactly when no point has the id |
| CurveModel.IndexOfIdOfUnique | app/page.tsx:186-187 | with unique ids, looking up the id of the point at index i finds i |
| CurveModel.Filter | app/page.tsx:120 | every point the filter keeps has the curve membership asked for, and it keeps no more points than the list has |
| CurveModel.FilterMembers | app/page.tsx:120 | the filter keeps exactly the points of the list whose membership in the curve is the one asked for |
| CurveModel.FilterAppend | app/page.tsx:199 | filtering distributes over concatenation |
| CurveModel.FilterSplitsLength | app/page.tsx:190-199 | a curve's points and the other points together account for every point |
| CurveModel.FilterOfOneCurve | app/page.tsx:204 | a list whose points all belong to curve c is its own filter for c |
| CurveModel.FilterOutsideCurve | app/page.tsx:199 | dropping curve c leaves every other curve's points as they were, and none of c's |
| CurveModel.WellFormedAppend | app/page.tsx:214 | two well-formed lists concatenate to a well-formed list when their ids differ and rise across a shared curve |
| CurveModel.WellFormedSnoc | app/page.tsx:143 | appending a point with an id above every id and a curve id below the counter keeps the invariant |
| CurveModel.WellFormedTail | app/page.tsx:120 | dropping the first point keeps the invariant |
| CurveModel.FilterWellFormed | app/page.tsx:190-199 | filtering keeps the invariant |
| CurveModel.CurveIsAscending | app/page.tsx:190-192 | in a well-formed list each curve's ids increase strictly in list order |
| CurveModel.MaxId | app/page.tsx:132 | the largest id: no point has a larger id and some point has exactly this one |
| CurveModel.NewId | app/page.tsx:152 | the new id is above every id in use: one more than the largest, or 1 when no point is left |
| CurveModel.NewIdAsWritten | app/page.tsx:152 | the source's computation `Math.max(...ids) + 1` gives negative infinity on an empty list |
| CurveModel.JsMax | app/page.tsx:132 | `Math.max(a, b)` is one of a and b and at least each of them, with negative infinity below every number |
| CurveModel.JsMaxOf | app/page.tsx:152 | `Math.max(...ns)` is at least every element and is one of them; with no arguments it is negative infinity |
| CurveModel.JsAddOne | app/page.tsx:152 | adding one raises a finite number and leaves negative infinity as negative infinity, so the result is no fresh id |
| CurveModel.NewIdAsWrittenRepeatsOnEmpty | app/page.tsx:152 | on an empty list the source hands out negative infinity, and a list holding only that id gives the same id again |
| CurveModel.JsMaxOfIds | app/page.tsx:132 | `Math.max` over the ids of a non-empty list is the largest id |
| CurveModel.NewIdAsWrittenAgrees | app/page.tsx:132 | on a non-empty list the source's computation and `NewId` give the same id |
| CurveModel.FilterEmpty | app/page.tsx:120 | a curve's point list is empty exactly when no point carries its id |
| CurveModel.PositionInCurve | app/page.tsx:121-122 | `curvePoints.indexOf(point)` finds the point: the position is a valid index of the curve's points and holds that point |
| CurveModel.LastInCurveIffNoLaterPoint | app/page.tsx:120-122 | a point is last in its curve by position exactly when no later point of the list is in that curve |
| CurveModel.LastInCurveIffGreatestId | app/page.tsx:379 | with ids rising within curves, "last by position" and "greatest id of the curve" coincide, in both directions |
| CurveModel.InsertById | app/page.tsx:192 | inserting into a list sorted by id keeps it sorted and adds exactly that point (multiset union) |
| CurveModel.SortById | app/page.tsx:190-192 | the sort by id returns a permutation of its input whose ids never decrease |
| CurveModel.SortAscendingIsIdentity | app/page.tsx:190-192 | sorting by id a list whose ids already increase changes nothing |
| CurveModel.CurveIdsSnoc | app/page.tsx:143 | appending a point adds its curve id to the ids in use |
| CurveModel.CurveIdsOutsideCurve | app/page.tsx:199 | removing curve c removes exactly c from the ids in use |
| CurveModel.FilterOfUnusedCurve | app/page.tsx:267-271 | a curve id not in use selects no point |
| CurveModel.GroupCurves | app/page.tsx:267-271 | no entry of the `curves` grouping is empty, and every point of an entry belongs to the entry's curve |
| CurveModel.GroupCurvesIsFilter | app/page.tsx:267-271 | the `curves` grouping has one key per curve id in use, and each entry is that curve's points in list order |
| CurveModel.SameIdsAndCurvesKeeps | app/page.tsx:94-105 | edits that keep ids and curve ids keep the invariant, the curve ids in use and which points are last in their curves |
| CurveModel.CurveCount | app/page.tsx:474 | the displayed curve count is the number of distinct curve ids in use |
| SegmentOps.PointFromHandles | app/page.tsx:5-16 | a point is fixed by its id, its curve and its four coordinate pairs |
| SegmentOps.ShiftHandle | app/page.tsx:96-103 | the dragged pair moves by the delta; the other three pairs, the id and the curve stay |
| SegmentOps.MovePoints | app/page.tsx:94-105 | only points with the dragged id change, and only in the dragged pair; ids and curves stay |
| SegmentOps.MovePointsCompose | app/page.tsx:92-108 | two moves of one handle equal one move by the summed delta |
| SegmentOps.PointerMoveStep | app/page.tsx:92-108 | one move keeps every point's id and curve, keeps the drag on the same handle of the same point, and re-bases it at the pointer |
| SegmentOps.PointerMoves | app/page.tsx:90-109 | a run of moves keeps ids and curves and the dragged handle, and leaves the drag based at the last position |
| SegmentOps.PointerMovesTelescope | app/page.tsx:90-109 | after any run of pointer moves the handle has moved by the last position minus the drag's start, and the drag is re-based at the last position |
| SegmentOps.PointerUpPoints | app/page.tsx:117-147 | a release that is not of a grow handle, or of a point that is not in the list, leaves the list as it is |
| SegmentOps.GrowAt | app/page.tsx:124-143 | the grow commit keeps every existing point's id and curve, and appends one point in the grown point's curve with an id above every id in use |
| SegmentOps.GrowAtShape | app/page.tsx:124-143 | the grown point's right handle becomes a third of its grow handle; one point is appended at the grow handle's tip with id max(id) + 1 (`NewId`), a mirrored left handle, default right and grow handles and the same curve; nothing else changes |
| SegmentOps.GrowAtKeepsInvariant | app/page.tsx:126-143 | a grow keeps the invariant and the curve ids, makes the new point last in its curve and the grown point no longer last |
| SegmentOps.GrowAtLast | app/page.tsx:120-143 | after a grow the new point is last in its curve and the grown point is not |
| SegmentOps.PointerUpGrowsCurve | app/page.tsx:117-143 | releasing the grow handle of the last point of a curve commits the growth at that point |
| SegmentOps.PointerUpChangesIffGrowth | app/page.tsx:117-147 | the release changes the list exactly when it is a grow drag of a point with no later point in its curve |
| SegmentOps.PointerUpKeepsInvariant | app/page.tsx:111-148 | a release keeps the invariant and the curve ids in use |
| SegmentOps.GrowFromInitialPoint | app/page.tsx:124-142 | growing the starting point gives two points in one curve: right handle (0, −50), new point at (400, 250) with left handle (0, 50) and id 2 |
| SegmentOps.InitialPoints | app/page.tsx:19-32 | the starting (and reset, 168-181) point list keeps the invariant with curve counter 2 and shows one curve |
| SegmentOps.AddCurve | app/page.tsx:150-165 | the old points stay as they are; one default point is appended at the viewport centre with id max(id) + 1 (`NewId`), above every id in use, and the counter's curve id; the counter advances by one |
| SegmentOps.AddCurveAddsOneCurve | app/page.tsx:150-165 | adding a curve keeps the invariant, adds the counter's id to the curve ids and raises the displayed curve count by one |
| SegmentOps.AddTwoCurvesToEmpty | app/page.tsx:150-165 | two curves added to an empty list get the distinct ids 1 and 2, and two curves are shown |
| SegmentOps.CenterAll | app/page.tsx:34-42 | every anchor moves to the viewport centre and nothing else of any point changes |
| SegmentOps.Straighten | app/page.tsx:218-232 | ids and curves are kept, and with either id missing the list is unchanged |
| SegmentOps.StraightenSetsChordHandles | app/page.tsx:222-230 | the start's right handle becomes a third of the chord and the end's left handle minus a third; their other fields and every other point stay |
| SegmentOps.StraightenKeepsOthers | app/page.tsx:224-230 | straightening changes no point other than the segment's two |
| SegmentOps.StraightenedSegmentIsChord | app/page.tsx:222-228 | after straightening, the drawn segment is the straight chord: at every t it is start + t·(end − start), at t = 1/2 the midpoint |
| SegmentOps.StraightenHorizontalExample | app/page.tsx:222-228 | straightening (0, 0)–(300, 0) sets the handles (100, 0) and (−100, 0) |
| SegmentCut.Relabel | app/page.tsx:204 | the same points, one for one, each moved to the given curve with everything else kept |
| SegmentCut.SplitCurve | app/page.tsx:197-215 | the counter advances by one for each part that keeps at least two points |
| SegmentCut.CutSegment | app/page.tsx:185-216 | the counter advances by at most two |
| SegmentCut.NoIdBetweenInCurve | app/page.tsx:190-195 | "no id of the curve between two ids" holds of the curve's points read off on their own |
| SegmentCut.CutSegmentLookups | app/page.tsx:186-195 | for consecutive points of a curve of a well-formed list, both lookups succeed, the start's curve is that curve, the sort changes nothing and the points sit at positions s and s + 1 |
| SegmentCut.ListLookup | app/page.tsx:186-187 | looking up a curve point's id finds that point |
| SegmentCut.CutSegmentAt | app/page.tsx:185-216 | deleting the segment between positions s and s + 1 of a curve splits that curve there |
| SegmentCut.AscendingHasNoIdBetween | app/page.tsx:190-195 | in an ascending curve no id lies strictly between neighbours |
| SegmentCut.AscendingNeighbours | app/page.tsx:195 | in an ascending curve two positions with no id between them are neighbours |
| SegmentCut.CutPositionIsSuccessor | app/page.tsx:190-196 | consecutive points of a curve are an id-successor pair |
| SegmentCut.SuccessorIsCutPosition | app/page.tsx:190-196 | an id-successor pair sits at consecutive positions of its curve |
| SegmentCut.NeighboursInCurve | app/page.tsx:193-195 | two points of one curve with no id between them sit at positions a and a + 1 |
| SegmentCut.CutSegmentChangesOnlyAtCutPosition | app/page.tsx:188-196 | when deleting changes anything, the two ids are consecutive points of one curve |
| SegmentCut.FilterRelabel | app/page.tsx:204-210 | a relabelled part lies wholly in its new curve |
| SegmentCut.SplitCurveCurve | app/page.tsx:197-214 | after the split each curve's points are: none for the cut curve, the old ones for the others, and the parts for the fresh ids |
| SegmentCut.FreshCurveIsEmpty | app/page.tsx:201 | the counter and every id above it select no point |
| SegmentCut.CurveInUseIsBelow | app/page.tsx:161 | a curve in use has an id below the counter |
| SegmentCut.SplitCurveRemovesCurve | app/page.tsx:199 | no point keeps the cut curve's id |
| SegmentCut.SplitCurveKeepsOtherCurve | app/page.tsx:199 | every other curve in use keeps exactly its points |
| SegmentCut.SplitCurveFirstPart | app/page.tsx:202-207 | a first part of two points or more becomes curve `nextCurveId` |
| SegmentCut.SplitCurveSecondPart | app/page.tsx:208-213 | a second part of two points or more becomes the next fresh curve id |
| SegmentCut.CurveIdsRelabel | app/page.tsx:204 | a relabelled non-empty part uses exactly one curve id |
| SegmentCut.SplitCurveCurveIds | app/page.tsx:199-214 | the curve ids after the split are those before without the cut one, plus one fresh id per part kept |
| SegmentCut.SplitCurveCount | app/page.tsx:199-215 | the displayed count drops by one and rises by one per part kept, which is how far the counter moved |
| SegmentCut.RelabelSource | app/page.tsx:204 | each relabelled point comes from a point of the part with the same id |
| SegmentCut.RelabelWellFormed | app/page.tsx:204 | relabelling an ascending part to a curve below the counter gives a well-formed list |
| SegmentCut.OutsideAndCurveIdsDiffer | app/page.tsx:199 | a point outside the cut curve and a point of it have different ids |
| SegmentCut.OutsideAndPartDiffer | app/page.tsx:199-214 | the other curves' points and a relabelled part differ in ids and in curve ids |
| SegmentCut.PartsAscend | app/page.tsx:197-198 | every id of the first part is below every id of the second |
| SegmentCut.SplitFrontWellFormed | app/page.tsx:199-207 | the other curves' points followed by the first part are well formed |
| SegmentCut.SplitCurveKeepsInvariant | app/page.tsx:197-215 | the split keeps the invariant with the advanced counter |
| SegmentCut.CutSegmentKeepsInvariant | app/page.tsx:185-216 | deleting any pair of ids keeps the invariant |
| SegmentCut.CutSegmentChangesOnlyIfSuccessor | app/page.tsx:188-196 | a delete that changes the state was on a drawn segment |
| SegmentCut.SuccessorCutChanges | app/page.tsx:190-214 | deleting a drawn segment always changes the state |
| SegmentCut.CutSegmentChangesIffSuccessor | app/page.tsx:185-216 | deleting changes the state exactly when the two points are joined by a drawn segment: one curve, the end's id the next one after the start's |
| SegmentCut.CutSegmentCurveCount | app/page.tsx:185-216 | the displayed count after a delete: the cut curve is gone and one curve is added per part kept, matching the counter's advance |
| SegmentCut.DeleteOnlySegment | app/page.tsx:197-215 | deleting the only segment of a two-point curve removes the curve and both points and hands out no curve id |
| SegmentCut.DeleteCanEmptyTheList | app/page.tsx:185-216 | from the starting state one grow and one delete leave no point at all |
| SegmentCut.CutSegmentInSteps | app/page.tsx:185-196 | the handler's lookups followed by the rebuild compute exactly the cut |
| SegmentCut.SplitCurveInSteps | app/page.tsx:197-215 | the handler's rebuild, with its local counter, computes exactly the split |
| Editor.BezierCurveEditor.constructor | app/page.tsx:19-57 | the first render holds the starting point, counter 2, no drag, delete mode off and no taps, and is valid |
| Editor.BezierCurveEditor.CenterOnViewport | app/page.tsx:34-42 | every point moves to the viewport centre; validity and the curve ids are kept |
| Editor.BezierCurveEditor.PointerDown | app/page.tsx:71-88 | the drag becomes the given handle of the given point at the pointer position; the rest is kept |
| Editor.BezierCurveEditor.PointerMove | app/page.tsx:90-109 | without a drag nothing changes; otherwise one move step is applied and the drag re-based; validity is kept |
| Editor.BezierCurveEditor.PointerUp | app/page.tsx:111-148 | the release commits growth as `PointerUpPoints` says and the drag ends; validity is kept |
| Editor.BezierCurveEditor.AddNewCurve | app/page.tsx:150-165 | the state becomes `AddCurve` of the old one, with one more curve shown; validity is kept |
| Editor.BezierCurveEditor.ResetCanvas | app/page.tsx:167-183 | the points and counter return to the starting ones; validity is kept |
| Editor.BezierCurveEditor.DeleteSegment | app/page.tsx:185-216 | the points and counter become the cut of the segment; validity is kept |
| Editor.BezierCurveEditor.StraightenSegment | app/page.tsx:218-232 | the points become the straightened list; validity is kept |
| Editor.BezierCurveEditor.SegmentPointerUp | app/page.tsx:234-265 | in delete mode: delete, clear the key; on a tap within 300 ms of a recorded one: straighten, clear the key; otherwise: record the time and mark the deferred straighten pending |
| Editor.BezierCurveEditor.TapTimerFires | app/page.tsx:260-264 | a pending deferred straighten straightens the segment and clears its key |
| Editor.BezierCurveEditor.ToggleDeleteMode | app/page.tsx:483 | delete mode flips |

## Left out

- Rendering (JSX, colours, the handle widgets), pointer
  capture and release, and `preventDefault`/`stopPropagation` are left out. They
  do not change the model's state.
- Coordinates are exact reals, not IEEE doubles. `toFixed`, path strings and
  floating-point rounding are not modelled. `CreateBezierPath` returns the four
  points the path string encodes.
- Geometry.GetBezierLength takes `Math.hypot` as a parameter that is assumed
  non-negative. It does not model hypot's rounding. `segments` defaults to 100;
  `Geometry.GetDefaultBezierLength` is the call without it.
- `Date.now()`, `window.innerWidth` and `window.innerHeight` become inputs.
- `setTimeout` and `clearTimeout` become `tapTimers[key]`, which is true while
  the deferred straighten is pending, together with the method
  `TapTimerFires`.
- Editor.BezierCurveEditor.TapTimerFires straightens with the current point
  list. The source's callback closes over the `straightenSegment` of the render
  that scheduled it, and so over that render's points. That stale closure is
  not modelled.
- The model looks a point up in the sorted curve by id. `deleteSegment` uses
  `indexOf` on the point object. The two agree whenever ids are unique, which
  every handler keeps (`WellFormed`).
- React's batching of `setPoints` and `setNextCurveId` is not modelled. Each
  handler is one atomic state change.
- The page has no pan, zoom, pinch, curve-area or volume code, so the model has
  none either.
- SegmentOps.AddCurve (and `Editor.BezierCurveEditor.AddNewCurve` with it)
  departs from app/page.tsx:152 on an empty point list: it gives the new point
  id 1, where the page computes negative infinity. This is the corrected half
  of the Findings row. `CurveModel.NewIdAsWritten` models the page's value.
- The speed-dial menu and the split-out canvas and handle components
  (`app/components/SpeedDial.tsx`, `CurveCanvas.tsx`, `PointHandles.tsx`) and
  `src/App.js` are not part of this model. The page itself implements the
  same editor.

## Findings

| source | as written | input that shows it | evidently intended | confidence | as-written member | corrected member |
|---|---|---|---|---|---|---|
| app/page.tsx:152 | the new id is `Math.max(...ids) + 1`, which is negative infinity when the list is empty, and every later add repeats it | the starting point; grow it (two points, one curve); turn delete mode on and tap the segment (`SegmentCut.DeleteCanEmptyTheList`: no point is left); then press "add curve" twice: both new points get id negative infinity | a fresh id above every id in use, such as 1 on an empty list | high; derived from JavaScript semantics, not executed | CurveModel.NewIdAsWrittenRepeatsOnEmpty | SegmentOps.AddTwoCurvesToEmpty |
