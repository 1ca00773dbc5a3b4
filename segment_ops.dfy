/** The list transforms behind the editor's handlers: dragging a handle,
    committing the grow handle, adding a curve, resetting and straightening a
    segment. Each takes the point list (and the curve-id counter where it
    matters) and returns the new one. Deleting a segment is in module
    SegmentCut. */
module SegmentOps {
  import opened Types
  import opened Geometry
  import opened CurveModel

  /** The four draggable parts of a point: the anchor itself and the three
      handles. */
  datatype HandleKind = Main | Left | Right | Top

  /** The pair of fields a handle kind names. */
  function HandleOf(p: Point, kind: HandleKind): Vec {
    match kind
    case Main => Vec(p.x, p.y)
    case Left => Vec(p.leftX, p.leftY)
    case Right => Vec(p.rightX, p.rightY)
    case Top => Vec(p.topX, p.topY)
  }

  /** Two points with the same id, curve and four field pairs are equal. */
  lemma PointFromHandles(p: Point, q: Point)
    requires p.id == q.id && p.curveId == q.curveId
    requires forall kind :: HandleOf(p, kind) == HandleOf(q, kind)
    ensures p == q
  {
    assert HandleOf(p, Main) == HandleOf(q, Main);
    assert HandleOf(p, Left) == HandleOf(q, Left);
    assert HandleOf(p, Right) == HandleOf(q, Right);
    assert HandleOf(p, Top) == HandleOf(q, Top);
  }

  /** One point after a drag step: the named pair moves by `d`, nothing
      else of the point changes. */
  function ShiftHandle(p: Point, kind: HandleKind, d: Vec): (q: Point)
    ensures HandleOf(q, kind) == Add(HandleOf(p, kind), d)
    ensures forall other :: other != kind ==> HandleOf(q, other) == HandleOf(p, other)
    ensures q.id == p.id && q.curveId == p.curveId
  {
    match kind
    case Main => p.(x := p.x + d.x, y := p.y + d.y)
    case Left => p.(leftX := p.leftX + d.x, leftY := p.leftY + d.y)
    case Right => p.(rightX := p.rightX + d.x, rightY := p.rightY + d.y)
    case Top => p.(topX := p.topX + d.x, topY := p.topY + d.y)
  }

  /** The `prev.map(...)` of a pointer move: every point with id `pointId`
      has the named pair moved by `d`; every other point is kept. */
  function MovePoints(ps: seq<Point>, pointId: int, kind: HandleKind, d: Vec): (r: seq<Point>)
    ensures |r| == |ps|
    ensures forall k :: 0 <= k < |ps| && ps[k].id != pointId ==> r[k] == ps[k]
    ensures forall k :: 0 <= k < |ps| && ps[k].id == pointId ==>
              HandleOf(r[k], kind) == Add(HandleOf(ps[k], kind), d)
    ensures forall k, other :: 0 <= k < |ps| && ps[k].id == pointId && other != kind ==>
              HandleOf(r[k], other) == HandleOf(ps[k], other)
    ensures SameIdsAndCurves(ps, r)
  {
    seq(|ps|, k requires 0 <= k < |ps| => if ps[k].id == pointId then ShiftHandle(ps[k], kind, d) else ps[k])
  }

  /** Two moves of the same handle add up to one move by the sum. */
  lemma MovePointsCompose(ps: seq<Point>, pointId: int, kind: HandleKind, d1: Vec, d2: Vec)
    ensures MovePoints(MovePoints(ps, pointId, kind, d1), pointId, kind, d2) == MovePoints(ps, pointId, kind, Add(d1, d2))
  {
    var a := MovePoints(MovePoints(ps, pointId, kind, d1), pointId, kind, d2);
    var b := MovePoints(ps, pointId, kind, Add(d1, d2));
    forall k | 0 <= k < |ps| ensures a[k] == b[k] {
      if ps[k].id == pointId {
        forall other ensures HandleOf(a[k], other) == HandleOf(b[k], other) {
        }
        PointFromHandles(a[k], b[k]);
      }
    }
  }

  /** The active drag: which handle of which point, and the pointer
      position the next delta is measured from. */
  datatype Drag = Drag(pointId: int, kind: HandleKind, startX: real, startY: real, pointerId: int)

  /** One pointer move during a drag: the handle moves by the pointer delta
      and the drag is re-based at the pointer position. */
  function PointerMoveStep(ps: seq<Point>, d: Drag, clientX: real, clientY: real): (r: (seq<Point>, Drag))
    ensures SameIdsAndCurves(ps, r.0)
    ensures r.1.pointId == d.pointId && r.1.kind == d.kind
    ensures Vec(r.1.startX, r.1.startY) == Vec(clientX, clientY)
  {
    (MovePoints(ps, d.pointId, d.kind, Vec(clientX - d.startX, clientY - d.startY)),
     d.(startX := clientX, startY := clientY))
  }

  /** A run of pointer moves at the given positions: ids and curves stay,
      the drag stays on the same handle and rests at the last position. */
  function PointerMoves(ps: seq<Point>, d: Drag, positions: seq<Vec>): (r: (seq<Point>, Drag))
    decreases |positions|
    ensures SameIdsAndCurves(ps, r.0)
    ensures r.1.pointId == d.pointId && r.1.kind == d.kind
    ensures |positions| > 0 ==> Vec(r.1.startX, r.1.startY) == positions[|positions| - 1]
  {
    if |positions| == 0 then (ps, d)
    else
      var step := PointerMoveStep(ps, d, positions[0].x, positions[0].y);
      PointerMoves(step.0, step.1, positions[1..])
  }

  /** The incremental deltas of a run of moves add up: the handle ends up
      shifted by the last position minus the position the drag started from. */
  lemma {:induction false} PointerMovesTelescope(ps: seq<Point>, d: Drag, positions: seq<Vec>)
    requires |positions| > 0
    decreases |positions|
    ensures var last := positions[|positions| - 1];
            PointerMoves(ps, d, positions)
            == (MovePoints(ps, d.pointId, d.kind, Sub(last, Vec(d.startX, d.startY))),
                d.(startX := last.x, startY := last.y))
  {
    var first := positions[0];
    var step := PointerMoveStep(ps, d, first.x, first.y);
    if |positions| > 1 {
      var rest := positions[1..];
      var last := positions[|positions| - 1];
      assert rest[|rest| - 1] == last;
      PointerMovesTelescope(step.0, step.1, rest);
      MovePointsCompose(ps, d.pointId, d.kind, Sub(first, Vec(d.startX, d.startY)), Sub(last, first));
      assert Add(Sub(first, Vec(d.startX, d.startY)), Sub(last, first)) == Sub(last, Vec(d.startX, d.startY));
    }
  }

  /** A point with the default handles: left (-80, -80), right (80, -80),
      grow handle (0, -150). */
  function DefaultPoint(id: int, x: real, y: real, curveId: int): Point {
    Point(id, x, y, -80.0, -80.0, 80.0, -80.0, 0.0, -150.0, curveId)
  }

  /** The grow commit for the point at index `i`: its right handle becomes a
      third of its grow handle, and a new point is appended at the tip of the
      grow handle, with a mirrored left handle and default right and grow
      handles, in the same curve. */
  function GrowAt(ps: seq<Point>, i: nat): (r: seq<Point>)
    requires i < |ps|
    ensures |r| == |ps| + 1 && r == r[..|ps|] + [r[|ps|]]
    ensures SameIdsAndCurves(ps, r[..|ps|])
    ensures forall k :: 0 <= k < |ps| ==> ps[k].id < r[|ps|].id
    ensures r[|ps|].curveId == ps[i].curveId
  {
    var point := ps[i];
    var deltaX := point.topX;
    var deltaY := point.topY;
    var updated := seq(|ps|, k requires 0 <= k < |ps| =>
      if ps[k].id == point.id then ps[k].(rightX := deltaX / 3.0, rightY := deltaY / 3.0) else ps[k]);
    var newPoint := Point(
      NewId(ps),
      point.x + point.topX,
      point.y + point.topY,
      (deltaX * 2.0) / 3.0 - deltaX,
      (deltaY * 2.0) / 3.0 - deltaY,
      80.0, -80.0, 0.0, -150.0,
      point.curveId);
    updated + [newPoint]
  }

  /** The point list after the drag ends: a drag of the grow handle of a
      point that is last in its curve commits a new point; anything else
      leaves the list as it is. */
  function PointerUpPoints(ps: seq<Point>, dragging: Option<Drag>): (r: seq<Point>)
    ensures !(dragging.Some? && dragging.value.kind == Top) ==> r == ps
    ensures dragging.Some? && IndexOfId(ps, dragging.value.pointId).None? ==> r == ps
  {
    if dragging.Some? && dragging.value.kind == Top then
      match IndexOfId(ps, dragging.value.pointId)
      case None => ps
      case Some(i) => if IsLastInCurve(ps, i) then GrowAt(ps, i) else ps
    else ps
  }

  /** The drag that ends is on the grow handle of an existing point with no
      later point of its curve in the list. */
  ghost predicate CommitsGrowth(ps: seq<Point>, dragging: Option<Drag>) {
    && dragging.Some? && dragging.value.kind == Top
    && exists i :: 0 <= i < |ps| && ps[i].id == dragging.value.pointId
                   && forall j :: i < j < |ps| ==> ps[j].curveId != ps[i].curveId
  }

  /** The shape of a grow commit at index `i`: that point's right handle
      becomes a third of its grow handle, one point is appended at the tip of
      the grow handle with an id above every id in use, a left handle
      mirroring the new right handle, default right and grow handles and the
      same curve, and no other point changes. */
  lemma GrowAtShape(ps: seq<Point>, i: nat)
    requires UniqueIds(ps) && i < |ps|
    ensures var r := GrowAt(ps, i);
            var p := ps[i];
            var top := HandleOf(p, Top);
            && |r| == |ps| + 1
            && (forall k :: 0 <= k < |ps| && k != i ==> r[k] == ps[k])
            && HandleOf(r[i], Right) == Scale(1.0 / 3.0, top)
            && r[i].(rightX := p.rightX, rightY := p.rightY) == p
            && r[|ps|].id == NewId(ps)
            && Anchor(r[|ps|]) == Add(Anchor(p), top)
            && HandleOf(r[|ps|], Left) == Scale(-1.0, HandleOf(r[i], Right))
            && HandleOf(r[|ps|], Right) == Vec(80.0, -80.0)
            && HandleOf(r[|ps|], Top) == Vec(0.0, -150.0)
            && r[|ps|].curveId == p.curveId
  {
    var r := GrowAt(ps, i);
    var p := ps[i];
    forall k | 0 <= k < |ps| && k != i ensures r[k] == ps[k] {
      assert ps[k].id != p.id;
    }
  }

  /** A grow commit keeps the invariant and the curve ids in use, and makes
      the new point the last of the curve. */
  lemma GrowAtKeepsInvariant(ps: seq<Point>, next: int, i: nat)
    requires WellFormed(ps, next) && i < |ps|
    ensures var r := GrowAt(ps, i);
            && WellFormed(r, next)
            && CurveIds(r) == CurveIds(ps)
            && IsLastInCurve(r, |ps|) && !IsLastInCurve(r, i)
  {
    var r := GrowAt(ps, i);
    var updated := r[..|ps|];
    var newPoint := r[|ps|];
    SameIdsAndCurvesKeeps(ps, updated, next);
    WellFormedSnoc(updated, newPoint, next);
    CurveIdsSnoc(updated, newPoint);
    assert newPoint.curveId in CurveIds(ps) by { assert ps[i] in ps; }
    GrowAtLast(ps, i);
  }

  /** After a grow commit the new point is last in its curve and the point it
      grew from is not. */
  lemma GrowAtLast(ps: seq<Point>, i: nat)
    requires i < |ps|
    ensures IsLastInCurve(GrowAt(ps, i), |ps|) && !IsLastInCurve(GrowAt(ps, i), i)
  {
    var r := GrowAt(ps, i);
    LastInCurveIffNoLaterPoint(r, |ps|);
    LastInCurveIffNoLaterPoint(r, i);
    assert r[|ps|].curveId == r[i].curveId;
  }

  /** Ending a drag on the grow handle of the last point of a curve commits
      the growth at that point. */
  lemma PointerUpGrowsCurve(ps: seq<Point>, next: int, d: Drag, i: nat)
    requires WellFormed(ps, next)
    requires d.kind == Top && i < |ps| && ps[i].id == d.pointId && IsLastInCurve(ps, i)
    ensures PointerUpPoints(ps, Some(d)) == GrowAt(ps, i)
  {
    var j := IndexOfId(ps, d.pointId).value;
    assert j == i;
  }

  /** Ending a drag changes the point list exactly when it commits growth;
      otherwise (no drag, another handle, an unknown point, a point that is
      not last in its curve) the list is left as it is. */
  lemma PointerUpChangesIffGrowth(ps: seq<Point>, next: int, dragging: Option<Drag>)
    requires WellFormed(ps, next)
    ensures PointerUpPoints(ps, dragging) == ps <==> !CommitsGrowth(ps, dragging)
  {
    if dragging.Some? && dragging.value.kind == Top {
      var id := dragging.value.pointId;
      match IndexOfId(ps, id)
      case None =>
      case Some(i) =>
        LastInCurveIffNoLaterPoint(ps, i);
        if IsLastInCurve(ps, i) {
          GrowAtShape(ps, i);
        }
    }
  }

  /** Ending a drag keeps the invariant, whether or not it commits growth. */
  lemma PointerUpKeepsInvariant(ps: seq<Point>, next: int, dragging: Option<Drag>)
    requires WellFormed(ps, next)
    ensures WellFormed(PointerUpPoints(ps, dragging), next)
    ensures CurveIds(PointerUpPoints(ps, dragging)) == CurveIds(ps)
  {
    if dragging.Some? && dragging.value.kind == Top {
      match IndexOfId(ps, dragging.value.pointId)
      case None =>
      case Some(i) =>
        GrowAtKeepsInvariant(ps, next, i);
    }
  }

  /** The starting and reset state: one default point, id 1, curve 1, at
      (400, 400); it keeps the invariant and shows one curve. */
  function InitialPoints(): (ps: seq<Point>)
    ensures WellFormed(ps, InitialNextCurveId)
    ensures CurveCount(ps) == 1
  {
    var ps := [DefaultPoint(1, 400.0, 400.0, 1)];
    assert CurveIds(ps) == {1};
    ps
  }

  /** The curve id allocated next in the starting and reset state. */
  const InitialNextCurveId: int := 2

  /** Dragging the grow handle of the starting point and releasing it without
      moving it: two points in one curve, the first with right handle
      (0, -50), the second at (400, 250) with left handle (0, 50). */
  lemma GrowFromInitialPoint(d: Drag)
    requires d.pointId == 1 && d.kind == Top
    ensures var r := PointerUpPoints(InitialPoints(), Some(d));
            && |r| == 2 && CurveCount(r) == 1
            && HandleOf(r[0], Right) == Vec(0.0, -50.0)
            && Anchor(r[1]) == Vec(400.0, 250.0)
            && HandleOf(r[1], Left) == Vec(0.0, 50.0)
            && r[1].id == 2
  {
    var ps := InitialPoints();
    var r := GrowAt(ps, 0);
    assert PointerUpPoints(ps, Some(d)) == r by {
      LastInCurveIffNoLaterPoint(ps, 0);
      PointerUpGrowsCurve(ps, InitialNextCurveId, d, 0);
    }
    assert r[1].id == 2 by {
      assert MaxId(ps) == 1;
    }
    assert CurveCount(r) == 1 by {
      GrowAtKeepsInvariant(ps, InitialNextCurveId, 0);
      assert CurveIds(r) == {1};
    }
    GrowAtShape(ps, 0);
  }

  /** `addNewCurve`: a default point at the centre of the viewport, with an id
      above every id in use (1 when no point is left) and the next curve id,
      appended after the existing points, which stay as they are; the counter
      advances by one. */
  function AddCurve(ps: seq<Point>, next: int, innerWidth: real, innerHeight: real): (r: (seq<Point>, int))
    ensures |r.0| == |ps| + 1 && r.0[..|ps|] == ps
    ensures r.0[|ps|].id == NewId(ps)
    ensures forall k :: 0 <= k < |ps| ==> ps[k].id < r.0[|ps|].id
    ensures r.0[|ps|] == DefaultPoint(r.0[|ps|].id, innerWidth / 2.0, innerHeight / 2.0, next)
    ensures r.1 == next + 1
  {
    var newPoint := DefaultPoint(NewId(ps), innerWidth / 2.0, innerHeight / 2.0, next);
    (ps + [newPoint], next + 1)
  }

  /** Adding a curve keeps the invariant and shows one more curve. */
  lemma AddCurveAddsOneCurve(ps: seq<Point>, next: int, innerWidth: real, innerHeight: real)
    requires WellFormed(ps, next)
    ensures var r := AddCurve(ps, next, innerWidth, innerHeight);
            && WellFormed(r.0, r.1)
            && CurveIds(r.0) == CurveIds(ps) + {next}
            && CurveCount(r.0) == CurveCount(ps) + 1
  {
    var r := AddCurve(ps, next, innerWidth, innerHeight);
    var newPoint := r.0[|ps|];
    assert r.0 == ps + [newPoint];
    assert WellFormed(ps, r.1);
    WellFormedSnoc(ps, newPoint, r.1);
    CurveIdsSnoc(ps, newPoint);
    assert next !in CurveIds(ps);
  }

  /** Adding two curves to an empty list gives the two new points the ids
      1 and 2: distinct, unlike the source's computation
      (`NewIdAsWrittenRepeatsOnEmpty`). */
  lemma AddTwoCurvesToEmpty(next: int, innerWidth: real, innerHeight: real)
    ensures var r1 := AddCurve([], next, innerWidth, innerHeight);
            var r2 := AddCurve(r1.0, r1.1, innerWidth, innerHeight);
            && |r2.0| == 2 && r2.0[0].id == 1 && r2.0[1].id == 2
            && UniqueIds(r2.0) && CurveCount(r2.0) == 2
  {
    var r1 := AddCurve([], next, innerWidth, innerHeight);
    AddCurveAddsOneCurve([], next, innerWidth, innerHeight);
    AddCurveAddsOneCurve(r1.0, r1.1, innerWidth, innerHeight);
    assert CurveIds([]) == {};
    assert r1.0[..0] == [];
  }

  /** The mount effect: every point moved to the centre of the viewport, all
      else kept. */
  function CenterAll(ps: seq<Point>, innerWidth: real, innerHeight: real): (r: seq<Point>)
    ensures |r| == |ps|
    ensures forall k :: 0 <= k < |ps| ==> Anchor(r[k]) == Vec(innerWidth / 2.0, innerHeight / 2.0)
    ensures forall k :: 0 <= k < |ps| ==> r[k].(x := ps[k].x, y := ps[k].y) == ps[k]
  {
    seq(|ps|, k requires 0 <= k < |ps| => ps[k].(x := innerWidth / 2.0, y := innerHeight / 2.0))
  }

  /** `straightenSegment`: with both points present, the start's right handle
      becomes a third of the chord and the end's left handle minus a third of
      it; every other field is kept. With either id missing nothing changes. */
  function Straighten(ps: seq<Point>, startId: int, endId: int): (r: seq<Point>)
    ensures SameIdsAndCurves(ps, r)
    ensures IndexOfId(ps, startId).None? || IndexOfId(ps, endId).None? ==> r == ps
  {
    match (IndexOfId(ps, startId), IndexOfId(ps, endId))
    case (Some(si), Some(ei)) =>
      var startPoint := ps[si];
      var endPoint := ps[ei];
      var deltaX := endPoint.x - startPoint.x;
      var deltaY := endPoint.y - startPoint.y;
      seq(|ps|, k requires 0 <= k < |ps| =>
        if ps[k].id == startPoint.id then ps[k].(rightX := deltaX / 3.0, rightY := deltaY / 3.0)
        else if ps[k].id == endPoint.id then ps[k].(leftX := -deltaX / 3.0, leftY := -deltaY / 3.0)
        else ps[k])
    case _ => ps
  }

  /** Straightening the segment between the points at `i` and `j`: the start's
      right handle is a third of the chord, the end's left handle minus a
      third; the start's left handle, the end's right handle, both anchors and
      every other point are kept. */
  lemma StraightenSetsChordHandles(ps: seq<Point>, i: nat, j: nat)
    requires UniqueIds(ps) && i < |ps| && j < |ps| && i != j
    ensures var r := Straighten(ps, ps[i].id, ps[j].id);
            var chord := Sub(Anchor(ps[j]), Anchor(ps[i]));
            && |r| == |ps|
            && HandleOf(r[i], Right) == Scale(1.0 / 3.0, chord)
            && HandleOf(r[j], Left) == Scale(-1.0 / 3.0, chord)
            && r[i].(rightX := ps[i].rightX, rightY := ps[i].rightY) == ps[i]
            && r[j].(leftX := ps[j].leftX, leftY := ps[j].leftY) == ps[j]
            && (forall k :: 0 <= k < |ps| && k != i && k != j ==> r[k] == ps[k])
  {
    StraightenKeepsOthers(ps, i, j);
    IndexOfIdOfUnique(ps, i);
    IndexOfIdOfUnique(ps, j);
  }

  /** Straightening the segment between the points at `i` and `j` leaves
      every other point as it was. */
  lemma StraightenKeepsOthers(ps: seq<Point>, i: nat, j: nat)
    requires UniqueIds(ps) && i < |ps| && j < |ps|
    ensures var r := Straighten(ps, ps[i].id, ps[j].id);
            forall k :: 0 <= k < |ps| && k != i && k != j ==> r[k] == ps[k]
  {
    IndexOfIdOfUnique(ps, i);
    IndexOfIdOfUnique(ps, j);
    var r := Straighten(ps, ps[i].id, ps[j].id);
    forall k | 0 <= k < |ps| && k != i && k != j ensures r[k] == ps[k] {
      assert ps[k].id != ps[i].id && ps[k].id != ps[j].id;
    }
  }

  /** After straightening, the segment is the chord: at every t its point is
      start + t * (end - start); at t = 1/2 it is the chord's midpoint. */
  lemma StraightenedSegmentIsChord(ps: seq<Point>, i: nat, j: nat, t: real)
    requires UniqueIds(ps) && i < |ps| && j < |ps| && i != j
    ensures var r := Straighten(ps, ps[i].id, ps[j].id);
            var p0 := Anchor(ps[i]);
            var p3 := Anchor(ps[j]);
            && Eval(CreateBezierPath(r[i], r[j]), t) == Add(p0, Scale(t, Sub(p3, p0)))
            && Eval(CreateBezierPath(r[i], r[j]), 0.5) == Scale(0.5, Add(p0, p3))
  {
    StraightenSetsChordHandles(ps, i, j);
    var r := Straighten(ps, ps[i].id, ps[j].id);
    var p0 := Anchor(ps[i]);
    var p3 := Anchor(ps[j]);
    var d := Sub(p3, p0);
    assert CreateBezierPath(r[i], r[j]) == CubicSegment(p0, Add(p0, Scale(1.0 / 3.0, d)), Add(p3, Scale(-1.0 / 3.0, d)), p3);
    EvalOfChordSegment(p0, p3, t);
    EvalOfChordSegment(p0, p3, 0.5);
  }

  /** Straightening (0, 0) to (300, 0), whatever the handles: the start's right
      handle becomes (100, 0) and the end's left handle (-100, 0). */
  lemma StraightenHorizontalExample(a: Point, b: Point)
    requires a.id != b.id && Anchor(a) == Vec(0.0, 0.0) && Anchor(b) == Vec(300.0, 0.0)
    ensures var r := Straighten([a, b], a.id, b.id);
            HandleOf(r[0], Right) == Vec(100.0, 0.0) && HandleOf(r[1], Left) == Vec(-100.0, 0.0)
  {
    StraightenSetsChordHandles([a, b], 0, 1);
  }
}
