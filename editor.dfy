/** The editor component: its state and the handlers that replace it. */
module Editor {
  import opened Types
  import opened Geometry
  import opened CurveModel
  import opened SegmentOps
  import opened SegmentCut

  /** The tap bookkeeping key of a segment, `${startId}-${endId}`: an
      ordered pair of point ids. */
  datatype SegmentKey = SegmentKey(startId: int, endId: int)

  /** Two taps on one segment closer together than this many milliseconds
      are a double tap. */
  const DoubleTapMs: int := 300

  /** The state of the editor page and its event handlers. `tapTimers[k]`
      is true while a deferred straighten for segment `k` is scheduled;
      `lastTap[k]` is the time of the last single tap on it, 0 for none. */
  class BezierCurveEditor {
    var points: seq<Point>
    var nextCurveId: int
    var dragging: Option<Drag>
    var deleteMode: bool
    var tapTimers: map<SegmentKey, bool>
    var lastTap: map<SegmentKey, int>

    /** The point list keeps the invariant with the curve-id counter, and
        every handler writes both tap entries of a key together. */
    ghost predicate Valid()
      reads this
    {
      WellFormed(points, nextCurveId) && tapTimers.Keys == lastTap.Keys
    }

    /** The first render: one default point, curve counter 2, no drag,
        delete mode off, no tap recorded. */
    constructor ()
      ensures Valid()
      ensures points == InitialPoints() && nextCurveId == InitialNextCurveId
      ensures dragging == None && !deleteMode
      ensures tapTimers == map[] && lastTap == map[]
    {
      points := InitialPoints();
      nextCurveId := InitialNextCurveId;
      dragging := None;
      deleteMode := false;
      tapTimers := map[];
      lastTap := map[];
    }

    /** The mount effect: every point moves to the centre of the viewport. */
    method CenterOnViewport(innerWidth: real, innerHeight: real)
      requires Valid()
      modifies this`points
      ensures Valid()
      ensures points == CenterAll(old(points), innerWidth, innerHeight)
      ensures CurveIds(points) == CurveIds(old(points))
    {
      var centred := CenterAll(points, innerWidth, innerHeight);
      SameIdsAndCurvesKeeps(points, centred, nextCurveId);
      points := centred;
    }

    /** `handlePointerDown`: starts a drag of one handle of one point at the
        pointer position. */
    method PointerDown(pointId: int, kind: HandleKind, clientX: real, clientY: real, pointerId: int)
      requires Valid()
      modifies this`dragging
      ensures Valid()
      ensures dragging == Some(Drag(pointId, kind, clientX, clientY, pointerId))
    {
      dragging := Some(Drag(pointId, kind, clientX, clientY, pointerId));
    }

    /** `handlePointerMove`: with no drag nothing happens; otherwise the
        dragged handle moves by the pointer delta and the drag is re-based
        at the pointer. */
    method PointerMove(clientX: real, clientY: real)
      requires Valid()
      modifies this`points, this`dragging
      ensures Valid()
      ensures old(dragging).None? ==> points == old(points) && dragging == None
      ensures old(dragging).Some? ==>
                var step := PointerMoveStep(old(points), old(dragging).value, clientX, clientY);
                points == step.0 && dragging == Some(step.1)
    {
      if dragging.None? {
        return;
      }
      var step := PointerMoveStep(points, dragging.value, clientX, clientY);
      SameIdsAndCurvesKeeps(points, step.0, nextCurveId);
      points := step.0;
      dragging := Some(step.1);
    }

    /** `handlePointerUp` (also pointer cancel and leave): a drag of the
        grow handle of the last point of a curve commits a new point; the
        drag ends in every case. */
    method PointerUp()
      requires Valid()
      modifies this`points, this`dragging
      ensures Valid()
      ensures points == PointerUpPoints(old(points), old(dragging))
      ensures dragging == None
    {
      PointerUpKeepsInvariant(points, nextCurveId, dragging);
      points := PointerUpPoints(points, dragging);
      dragging := None;
    }

    /** `addNewCurve`: a default point in a fresh curve at the centre of the
        viewport. */
    method AddNewCurve(innerWidth: real, innerHeight: real)
      requires Valid()
      modifies this`points, this`nextCurveId
      ensures Valid()
      ensures (points, nextCurveId) == AddCurve(old(points), old(nextCurveId), innerWidth, innerHeight)
      ensures CurveCount(points) == CurveCount(old(points)) + 1
    {
      var r := AddCurve(points, nextCurveId, innerWidth, innerHeight);
      assert WellFormed(r.0, r.1) && CurveCount(r.0) == CurveCount(points) + 1 by {
        AddCurveAddsOneCurve(points, nextCurveId, innerWidth, innerHeight);
      }
      points, nextCurveId := r.0, r.1;
    }

    /** `resetCanvas`: back to the starting point list and counter. */
    method ResetCanvas()
      requires Valid()
      modifies this`points, this`nextCurveId
      ensures Valid()
      ensures points == InitialPoints() && nextCurveId == InitialNextCurveId
    {
      points := InitialPoints();
      nextCurveId := InitialNextCurveId;
    }

    /** `deleteSegment`: the state becomes the cut of the segment, computed
        step by step by `CutSegmentInSteps`. */
    method DeleteSegment(startId: int, endId: int)
      requires Valid()
      modifies this`points, this`nextCurveId
      ensures Valid()
      ensures (points, nextCurveId) == CutSegment(old(points), old(nextCurveId), startId, endId)
    {
      var rebuilt, counter := CutSegmentInSteps(points, nextCurveId, startId, endId);
      CutSegmentKeepsInvariant(points, nextCurveId, startId, endId);
      points, nextCurveId := rebuilt, counter;
    }

    /** `straightenSegment`: the segment's control points move onto its chord. */
    method StraightenSegment(startId: int, endId: int)
      requires Valid()
      modifies this`points
      ensures Valid()
      ensures points == Straighten(old(points), startId, endId)
    {
      var straightened := Straighten(points, startId, endId);
      SameIdsAndCurvesKeeps(points, straightened, nextCurveId);
      points := straightened;
    }

    /** `handleSegmentPointerUp` at time `now`. In delete mode the segment is
        deleted and its key cleared. Otherwise a tap less than 300 ms after a
        recorded one straightens the segment at once and clears the key; any
        other tap records its time and (re)schedules the deferred straighten. */
    method SegmentPointerUp(startId: int, endId: int, now: int)
      requires Valid()
      modifies this`points, this`nextCurveId, this`tapTimers, this`lastTap
      ensures Valid()
      ensures var key := SegmentKey(startId, endId);
              var previous := if key in old(lastTap) then old(lastTap)[key] else 0;
              if old(deleteMode) then
                && (points, nextCurveId) == CutSegment(old(points), old(nextCurveId), startId, endId)
                && tapTimers == old(tapTimers)[key := false] && lastTap == old(lastTap)[key := 0]
              else if previous != 0 && now - previous < DoubleTapMs then
                && points == Straighten(old(points), startId, endId) && nextCurveId == old(nextCurveId)
                && tapTimers == old(tapTimers)[key := false] && lastTap == old(lastTap)[key := 0]
              else
                && points == old(points) && nextCurveId == old(nextCurveId)
                && tapTimers == old(tapTimers)[key := true] && lastTap == old(lastTap)[key := now]
    {
      var key := SegmentKey(startId, endId);
      if deleteMode {
        DeleteSegment(startId, endId);
        tapTimers := tapTimers[key := false];
        lastTap := lastTap[key := 0];
        return;
      }
      var previous := if key in lastTap then lastTap[key] else 0;
      if previous != 0 && now - previous < DoubleTapMs {
        tapTimers := tapTimers[key := false];
        lastTap := lastTap[key := 0];
        StraightenSegment(startId, endId);
        return;
      }
      lastTap := lastTap[key := now];
      tapTimers := tapTimers[key := true];
    }

    /** The deferred straighten of segment `key` fires: the segment is
        straightened and its key cleared. */
    method TapTimerFires(key: SegmentKey)
      requires Valid() && key in tapTimers && tapTimers[key]
      modifies this`points, this`tapTimers, this`lastTap
      ensures Valid()
      ensures points == Straighten(old(points), key.startId, key.endId)
      ensures tapTimers == old(tapTimers)[key := false] && lastTap == old(lastTap)[key := 0]
    {
      StraightenSegment(key.startId, key.endId);
      tapTimers := tapTimers[key := false];
      lastTap := lastTap[key := 0];
    }

    /** The delete-mode button. */
    method ToggleDeleteMode()
      requires Valid()
      modifies this`deleteMode
      ensures Valid()
      ensures deleteMode == !old(deleteMode)
    {
      deleteMode := !deleteMode;
    }
  }
}
