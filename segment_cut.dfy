/** `deleteSegment`: cutting a curve between two consecutive points, with
    the parts that keep at least two points coming back as new curves. */
module SegmentCut {
  import opened Types
  import opened CurveModel
  import opened SegmentOps

  /** `points.map(p => ({ ...p, curveId: c }))`: the same points, moved to curve `c`. */
  function Relabel(s: seq<Point>, c: int): (r: seq<Point>)
    ensures |r| == |s|
    ensures forall k :: 0 <= k < |s| ==> r[k].curveId == c && r[k].(curveId := s[k].curveId) == s[k]
  {
    seq(|s|, k requires 0 <= k < |s| => s[k].(curveId := c))
  }

  /** The cut once the segment is found at positions `s` and `s + 1` of the
      id-sorted points `curvePoints` of curve `c`: the curve's points leave
      the list; the part up to `s` comes back as curve `next` and the part
      from `s + 1` as the following fresh curve id, each only when it keeps
      at least two points; the counter moves past the ids handed out, one
      per part that comes back. */
  function SplitCurve(ps: seq<Point>, next: int, c: int, curvePoints: seq<Point>, s: nat): (r: (seq<Point>, int))
    requires s + 1 < |curvePoints|
    ensures r.1 == next + (if s > 0 then 1 else 0) + (if s + 2 < |curvePoints| then 1 else 0)
  {
    var before := curvePoints[..s + 1];
    var after := curvePoints[s + 1..];
    var updatedPoints := Filter(ps, c, false);
    var first := if |before| > 1 then Relabel(before, next) else [];
    var afterCurveId := if |before| > 1 then next + 1 else next;
    var second := if |after| > 1 then Relabel(after, afterCurveId) else [];
    var nextIdForCurve := if |after| > 1 then afterCurveId + 1 else afterCurveId;
    (updatedPoints + first + second, nextIdForCurve)
  }

  /** The split spelled out part by part, the form the step-by-step
      version of `deleteSegment` builds. */
  lemma SplitCurveParts(ps: seq<Point>, next: int, c: int, curvePoints: seq<Point>, s: nat)
    requires s + 1 < |curvePoints|
    ensures var before := curvePoints[..s + 1];
            var after := curvePoints[s + 1..];
            var afterCurveId := if |before| > 1 then next + 1 else next;
            var first := if |before| > 1 then Relabel(before, next) else [];
            var second := if |after| > 1 then Relabel(after, afterCurveId) else [];
            SplitCurve(ps, next, c, curvePoints, s)
              == (Filter(ps, c, false) + first + second, if |after| > 1 then afterCurveId + 1 else afterCurveId)
  {
  }

  /** `deleteSegment`: when `endId` directly follows `startId` in the
      id-sorted points of start's curve, that curve is cut between them.
      When either id is missing, or `endId` is not the next point, nothing
      changes. Returns the new point list and the new curve-id counter. */
  function CutSegment(ps: seq<Point>, next: int, startId: int, endId: int): (r: (seq<Point>, int))
    ensures next <= r.1 <= next + 2
  {
    var startPoint := IndexOfId(ps, startId);
    var endPoint := IndexOfId(ps, endId);
    if startPoint.None? || endPoint.None? then (ps, next)
    else
      var originalCurveId := ps[startPoint.value].curveId;
      var curvePoints := SortById(Filter(ps, originalCurveId, true));
      var startIndex := IndexOfId(curvePoints, startId);
      var endIndex := IndexOfId(curvePoints, endId);
      if startIndex.None? || endIndex.None? || endIndex.value != startIndex.value + 1 then (ps, next)
      else SplitCurve(ps, next, originalCurveId, curvePoints, startIndex.value)
  }

  /** The points with ids `startId` and `endId` are in one curve, `endId`
      is the larger, and no point of that curve has an id between them: the
      two are joined by a drawn segment. */
  ghost predicate IsIdSuccessor(ps: seq<Point>, startId: int, endId: int) {
    exists i, j :: 0 <= i < |ps| && 0 <= j < |ps| && ps[i].id == startId && ps[j].id == endId
      && ps[i].curveId == ps[j].curveId && startId < endId && NoIdBetween(ps, ps[i].curveId, startId, endId)
  }

  /** No point of curve `c` has an id strictly between `lo` and `hi`. */
  ghost predicate NoIdBetween(ps: seq<Point>, c: int, lo: int, hi: int) {
    forall k :: 0 <= k < |ps| && ps[k].curveId == c ==> !(lo < ps[k].id < hi)
  }

  /** The same, read off the points of curve `c` alone. */
  lemma NoIdBetweenInCurve(ps: seq<Point>, c: int, lo: int, hi: int)
    requires NoIdBetween(ps, c, lo, hi)
    ensures forall m :: 0 <= m < |Filter(ps, c, true)| ==> !(lo < Filter(ps, c, true)[m].id < hi)
  {
    FilterMembers(ps, c, true);
    var curve := Filter(ps, c, true);
    forall m | 0 <= m < |curve| ensures !(lo < curve[m].id < hi) {
      assert curve[m] in curve;
      var k :| 0 <= k < |ps| && ps[k] == curve[m];
    }
  }

  /** `startId` and `endId` sit at positions `s` and `s + 1` of curve `c`. */
  ghost predicate IsCutPosition(ps: seq<Point>, c: int, s: nat, startId: int, endId: int) {
    s + 1 < |Filter(ps, c, true)| && Filter(ps, c, true)[s].id == startId && Filter(ps, c, true)[s + 1].id == endId
  }

  /** The lookups `deleteSegment` makes, for a pair of consecutive points of
      a curve of a well-formed list: both ids are found in the list, the
      start's curve is `c`, sorting the curve changes nothing and the two ids
      sit at positions `s` and `s + 1` of it. */
  lemma CutSegmentLookups(ps: seq<Point>, next: int, c: int, s: nat)
    requires WellFormed(ps, next)
    requires s + 1 < |Filter(ps, c, true)|
    ensures var curve := Filter(ps, c, true);
            && IndexOfId(ps, curve[s].id).Some? && IndexOfId(ps, curve[s + 1].id).Some?
            && ps[IndexOfId(ps, curve[s].id).value].curveId == c
            && SortById(curve) == curve
            && IndexOfId(curve, curve[s].id) == Some(s)
            && IndexOfId(curve, curve[s + 1].id) == Some(s + 1)
  {
    var curve := Filter(ps, c, true);
    CurveIsAscending(ps, c, next);
    SortAscendingIsIdentity(curve);
    IndexOfIdOfUnique(curve, s);
    IndexOfIdOfUnique(curve, s + 1);
    ListLookup(ps, next, c, s);
    ListLookup(ps, next, c, s + 1);
  }

  /** Looking up the id of a point of curve `c` in a well-formed list finds
      that very point. */
  lemma ListLookup(ps: seq<Point>, next: int, c: int, m: nat)
    requires WellFormed(ps, next)
    requires m < |Filter(ps, c, true)|
    ensures var p := Filter(ps, c, true)[m];
            IndexOfId(ps, p.id).Some? && ps[IndexOfId(ps, p.id).value] == p && p.curveId == c
  {
    var curve := Filter(ps, c, true);
    FilterMembers(ps, c, true);
    assert curve[m] in curve;
    var i :| 0 <= i < |ps| && ps[i] == curve[m];
    IndexOfIdOfUnique(ps, i);
  }

  /** Deleting the segment between positions `s` and `s + 1` of curve `c`
      of a well-formed list splits that curve there. */
  lemma CutSegmentAt(ps: seq<Point>, next: int, c: int, s: nat)
    requires WellFormed(ps, next)
    requires s + 1 < |Filter(ps, c, true)|
    ensures var curve := Filter(ps, c, true);
            CutSegment(ps, next, curve[s].id, curve[s + 1].id) == SplitCurve(ps, next, c, curve, s)
  {
    CutSegmentLookups(ps, next, c, s);
  }

  /** In a strictly ascending sequence no id lies strictly between those at
      positions `s` and `s + 1`. */
  lemma AscendingHasNoIdBetween(curve: seq<Point>, s: nat, m: nat)
    requires StrictlyAscending(curve) && s + 1 < |curve| && m < |curve|
    ensures !(curve[s].id < curve[m].id < curve[s + 1].id)
  {
    if m <= s {
      assert m == s || curve[m].id < curve[s].id;
    } else {
      assert m == s + 1 || curve[s + 1].id < curve[m].id;
    }
  }

  /** In a strictly ascending sequence, two positions with no id between
      theirs are neighbours. */
  lemma AscendingNeighbours(curve: seq<Point>, a: nat, b: nat)
    requires StrictlyAscending(curve) && a < |curve| && b < |curve|
    requires curve[a].id < curve[b].id
    requires forall m :: 0 <= m < |curve| ==> !(curve[a].id < curve[m].id < curve[b].id)
    ensures b == a + 1
  {
    assert a < b;
    assert !(curve[a].id < curve[a + 1].id < curve[b].id);
  }

  /** Consecutive points of one curve of a well-formed list are an
      id-successor pair. */
  lemma CutPositionIsSuccessor(ps: seq<Point>, next: int, c: int, s: nat)
    requires WellFormed(ps, next)
    requires s + 1 < |Filter(ps, c, true)|
    ensures IsIdSuccessor(ps, Filter(ps, c, true)[s].id, Filter(ps, c, true)[s + 1].id)
  {
    FilterMembers(ps, c, true);
    var curve := Filter(ps, c, true);
    CurveIsAscending(ps, c, next);
    assert curve[s] in curve && curve[s + 1] in curve;
    var i :| 0 <= i < |ps| && ps[i] == curve[s];
    var j :| 0 <= j < |ps| && ps[j] == curve[s + 1];
    forall k | 0 <= k < |ps| && ps[k].curveId == ps[i].curveId
      ensures !(curve[s].id < ps[k].id < curve[s + 1].id)
    {
      assert ps[k] in curve;
      var m :| 0 <= m < |curve| && curve[m] == ps[k];
      AscendingHasNoIdBetween(curve, s, m);
    }
    assert NoIdBetween(ps, ps[i].curveId, curve[s].id, curve[s + 1].id);
  }

  /** The other way round: an id-successor pair of a well-formed list sits
      at consecutive positions of its curve. */
  lemma SuccessorIsCutPosition(ps: seq<Point>, next: int, startId: int, endId: int)
    requires WellFormed(ps, next)
    requires IsIdSuccessor(ps, startId, endId)
    ensures exists c: int, s: nat :: IsCutPosition(ps, c, s, startId, endId)
  {
    var i, j :| 0 <= i < |ps| && 0 <= j < |ps| && ps[i].id == startId && ps[j].id == endId
      && ps[i].curveId == ps[j].curveId && startId < endId && NoIdBetween(ps, ps[i].curveId, startId, endId);
    var a := NeighboursInCurve(ps, next, i, j);
  }

  /** Two points of one curve with no id of the curve between theirs sit
      at consecutive positions of it; this returns the first position. */
  lemma NeighboursInCurve(ps: seq<Point>, next: int, i: nat, j: nat) returns (a: nat)
    requires WellFormed(ps, next) && i < |ps| && j < |ps|
    requires ps[i].curveId == ps[j].curveId && ps[i].id < ps[j].id
    requires NoIdBetween(ps, ps[i].curveId, ps[i].id, ps[j].id)
    ensures IsCutPosition(ps, ps[i].curveId, a, ps[i].id, ps[j].id)
  {
    var c := ps[i].curveId;
    var curve := Filter(ps, c, true);
    FilterMembers(ps, c, true);
    CurveIsAscending(ps, c, next);
    NoIdBetweenInCurve(ps, c, ps[i].id, ps[j].id);
    assert ps[i] in curve && ps[j] in curve;
    a :| 0 <= a < |curve| && curve[a] == ps[i];
    var b :| 0 <= b < |curve| && curve[b] == ps[j];
    AscendingNeighbours(curve, a, b);
  }

  /** When `deleteSegment` changes anything, the two ids were consecutive
      points of one curve. */
  lemma CutSegmentChangesOnlyAtCutPosition(ps: seq<Point>, next: int, startId: int, endId: int)
    requires WellFormed(ps, next)
    requires CutSegment(ps, next, startId, endId) != (ps, next)
    ensures exists c: int, s: nat :: IsCutPosition(ps, c, s, startId, endId)
  {
    var startPoint := IndexOfId(ps, startId);
    var endPoint := IndexOfId(ps, endId);
    assert startPoint.Some? && endPoint.Some?;
    var c := ps[startPoint.value].curveId;
    var curve := Filter(ps, c, true);
    CurveIsAscending(ps, c, next);
    SortAscendingIsIdentity(curve);
    var startIndex := IndexOfId(curve, startId);
    var endIndex := IndexOfId(curve, endId);
    assert startIndex.Some? && endIndex.Some? && endIndex.value == startIndex.value + 1;
    var s := startIndex.value;
    assert IsCutPosition(ps, c, s, startId, endId);
  }

  /** Every point of a relabelled sequence is in curve `c`. */
  lemma FilterRelabel(x: seq<Point>, c: int, d: int)
    ensures Filter(Relabel(x, c), d, true) == if c == d then Relabel(x, c) else []
  {
    if c == d {
      FilterOfOneCurve(Relabel(x, c), d);
    } else {
      FilterEmpty(Relabel(x, c), d);
    }
  }

  /** The points of every curve after a split at positions `s` and `s + 1`
      of curve `c`: curve `c` is gone, every other curve keeps its points,
      and the new curve ids hold the two parts of curve `c`, each when it has
      at least two points. */
  lemma SplitCurveCurve(ps: seq<Point>, next: int, c: int, s: nat, d: int)
    requires s + 1 < |Filter(ps, c, true)|
    ensures var curve := Filter(ps, c, true);
            var afterCurveId := if s > 0 then next + 1 else next;
            Filter(SplitCurve(ps, next, c, curve, s).0, d, true)
              == (if d == c then [] else Filter(ps, d, true))
                 + (if s > 0 && d == next then Relabel(curve[..s + 1], next) else [])
                 + (if s + 2 < |curve| && d == afterCurveId then Relabel(curve[s + 1..], afterCurveId) else [])
  {
    var curve := Filter(ps, c, true);
    var before := curve[..s + 1];
    var after := curve[s + 1..];
    var afterCurveId := if |before| > 1 then next + 1 else next;
    var first := if |before| > 1 then Relabel(before, next) else [];
    var second := if |after| > 1 then Relabel(after, afterCurveId) else [];
    FilterAppend(Filter(ps, c, false) + first, second, d, true);
    FilterAppend(Filter(ps, c, false), first, d, true);
    FilterOutsideCurve(ps, c, d);
    FilterRelabel(before, next, d);
    FilterRelabel(after, afterCurveId, d);
  }

  /** Every curve id in use is below the counter, so the counter and the
      ids above it select no point. */
  lemma FreshCurveIsEmpty(ps: seq<Point>, next: int, d: int)
    requires WellFormed(ps, next) && d >= next
    ensures Filter(ps, d, true) == []
  {
    FilterEmpty(ps, d);
  }

  /** A curve that is in use has an id below the counter. */
  lemma CurveInUseIsBelow(ps: seq<Point>, next: int, c: int)
    requires WellFormed(ps, next) && |Filter(ps, c, true)| > 0
    ensures c < next
  {
    var curve := Filter(ps, c, true);
    assert curve[0] in curve;
  }

  /** The split removes curve `c`: none of its points keeps its curve id. */
  lemma SplitCurveRemovesCurve(ps: seq<Point>, next: int, c: int, s: nat)
    requires WellFormed(ps, next)
    requires s + 1 < |Filter(ps, c, true)|
    ensures var curve := Filter(ps, c, true);
            Filter(SplitCurve(ps, next, c, curve, s).0, c, true) == []
  {
    CurveInUseIsBelow(ps, next, c);
    SplitCurveCurve(ps, next, c, s, c);
  }

  /** The split leaves every other curve in use as it was. */
  lemma SplitCurveKeepsOtherCurve(ps: seq<Point>, next: int, c: int, s: nat, d: int)
    requires s + 1 < |Filter(ps, c, true)|
    requires d != c && d < next
    ensures var curve := Filter(ps, c, true);
            Filter(SplitCurve(ps, next, c, curve, s).0, d, true) == Filter(ps, d, true)
  {
    SplitCurveCurve(ps, next, c, s, d);
    assert Filter(ps, d, true) + [] + [] == Filter(ps, d, true);
  }

  /** The part of curve `c` up to position `s`, when it has at least two
      points, becomes curve `next`. */
  lemma SplitCurveFirstPart(ps: seq<Point>, next: int, c: int, s: nat)
    requires WellFormed(ps, next)
    requires 0 < s && s + 1 < |Filter(ps, c, true)|
    ensures var curve := Filter(ps, c, true);
            Filter(SplitCurve(ps, next, c, curve, s).0, next, true) == Relabel(curve[..s + 1], next)
  {
    var curve := Filter(ps, c, true);
    var x := Filter(SplitCurve(ps, next, c, curve, s).0, next, true);
    var y := Relabel(curve[..s + 1], next);
    SplitCurveCurve(ps, next, c, s, next);
    assert x == (if next == c then [] else Filter(ps, next, true)) + y + [];
    CurveInUseIsBelow(ps, next, c);
    FreshCurveIsEmpty(ps, next, next);
    assert x == [] + y + [];
    assert [] + y + [] == y;
  }

  /** The part of curve `c` from position `s + 1`, when it has at least two
      points, becomes the next fresh curve: `next + 1` when the first part
      took `next`, `next` otherwise. */
  lemma SplitCurveSecondPart(ps: seq<Point>, next: int, c: int, s: nat)
    requires WellFormed(ps, next)
    requires s + 2 < |Filter(ps, c, true)|
    ensures var curve := Filter(ps, c, true);
            var afterCurveId := if s > 0 then next + 1 else next;
            Filter(SplitCurve(ps, next, c, curve, s).0, afterCurveId, true)
              == Relabel(curve[s + 1..], afterCurveId)
  {
    var curve := Filter(ps, c, true);
    var afterCurveId := if s > 0 then next + 1 else next;
    CurveInUseIsBelow(ps, next, c);
    SplitCurveCurve(ps, next, c, s, afterCurveId);
    FreshCurveIsEmpty(ps, next, afterCurveId);
    var x := Relabel(curve[s + 1..], afterCurveId);
    assert [] + [] + x == x;
  }

  /** A relabelled non-empty sequence uses exactly one curve id. */
  lemma CurveIdsRelabel(x: seq<Point>, d: int)
    requires |x| > 0
    ensures CurveIds(Relabel(x, d)) == {d}
  {
    assert Relabel(x, d)[0] in Relabel(x, d);
  }

  /** The curve ids in use after the split: those before, without `c`, with
      one fresh id for each part that comes back. */
  lemma SplitCurveCurveIds(ps: seq<Point>, next: int, c: int, s: nat)
    requires s + 1 < |Filter(ps, c, true)|
    ensures var curve := Filter(ps, c, true);
            var afterCurveId := if s > 0 then next + 1 else next;
            CurveIds(SplitCurve(ps, next, c, curve, s).0)
              == (CurveIds(ps) - {c})
                 + (if s > 0 then {next} else {})
                 + (if s + 2 < |curve| then {afterCurveId} else {})
  {
    var curve := Filter(ps, c, true);
    var before := curve[..s + 1];
    var after := curve[s + 1..];
    var afterCurveId := if |before| > 1 then next + 1 else next;
    var first := if |before| > 1 then Relabel(before, next) else [];
    var second := if |after| > 1 then Relabel(after, afterCurveId) else [];
    CurveIdsAppend(Filter(ps, c, false) + first, second);
    CurveIdsAppend(Filter(ps, c, false), first);
    CurveIdsOutsideCurve(ps, c);
    if |before| > 1 {
      CurveIdsRelabel(before, next);
    }
    if |after| > 1 {
      CurveIdsRelabel(after, afterCurveId);
    }
  }

  /** The displayed curve count after the split: one curve fewer, plus one
      for each part that comes back, which is what the counter advanced by. */
  lemma SplitCurveCount(ps: seq<Point>, next: int, c: int, s: nat)
    requires WellFormed(ps, next)
    requires s + 1 < |Filter(ps, c, true)|
    ensures var r := SplitCurve(ps, next, c, Filter(ps, c, true), s);
            CurveCount(r.0) + 1 == CurveCount(ps) + (r.1 - next)
  {
    FilterMembers(ps, c, true);
    var curve := Filter(ps, c, true);
    var afterCurveId := if s > 0 then next + 1 else next;
    SplitCurveCurveIds(ps, next, c, s);
    assert curve[0] in curve;
    assert c in CurveIds(ps);
    assert next !in CurveIds(ps) && next + 1 !in CurveIds(ps);
    var rest := CurveIds(ps) - {c};
    assert |rest| + 1 == |CurveIds(ps)|;
    var withFirst := rest + (if s > 0 then {next} else {});
    assert |withFirst| == |rest| + (if s > 0 then 1 else 0);
    assert afterCurveId !in withFirst;
  }

  /** Every point of a relabelled sequence is a point of the original,
      moved to curve `d`: this returns the position it came from. */
  lemma RelabelSource(x: seq<Point>, d: int, q: Point) returns (k: nat)
    requires q in Relabel(x, d)
    ensures k < |x| && x[k].id == q.id && q.curveId == d
  {
    var r := Relabel(x, d);
    k :| 0 <= k < |r| && r[k] == q;
  }

  /** Relabelling points with strictly ascending ids to a curve below the
      counter gives a well-formed list. */
  lemma RelabelWellFormed(x: seq<Point>, d: int, bound: int)
    requires StrictlyAscending(x) && d < bound
    ensures WellFormed(Relabel(x, d), bound)
  {
    var r := Relabel(x, d);
    forall i, j | 0 <= i < j < |r| ensures r[i].id < r[j].id {
      assert r[i].id == x[i].id && r[j].id == x[j].id;
    }
  }

  /** A point outside curve `c` and a point of curve `c` have different ids. */
  lemma OutsideAndCurveIdsDiffer(ps: seq<Point>, next: int, c: int, p: Point, q: Point)
    requires WellFormed(ps, next)
    requires p in Filter(ps, c, false) && q in Filter(ps, c, true)
    ensures p.id != q.id
  {
    FilterMembers(ps, c, false);
    FilterMembers(ps, c, true);
    var i :| 0 <= i < |ps| && ps[i] == p;
    var j :| 0 <= j < |ps| && ps[j] == q;
    assert i != j;
  }

  /** A point outside curve `c` and a point of a part of `c` moved to a
      fresh curve `d` differ in id and in curve id. */
  lemma OutsideAndPartDiffer(ps: seq<Point>, next: int, c: int, x: seq<Point>, d: int)
    requires WellFormed(ps, next) && d >= next
    requires forall k :: 0 <= k < |x| ==> x[k] in Filter(ps, c, true)
    ensures forall p, q :: p in Filter(ps, c, false) && q in Relabel(x, d) ==> p.id != q.id && p.curveId != q.curveId
  {
    FilterMembers(ps, c, false);
    forall p, q | p in Filter(ps, c, false) && q in Relabel(x, d)
      ensures p.id != q.id && p.curveId != q.curveId
    {
      var k := RelabelSource(x, d, q);
      OutsideAndCurveIdsDiffer(ps, next, c, p, x[k]);
    }
  }

  /** Every id of the first part of a strictly ascending curve is below
      every id of the second part, whatever curves they move to. */
  lemma PartsAscend(curve: seq<Point>, s: nat, d1: int, d2: int)
    requires StrictlyAscending(curve) && s + 1 < |curve|
    ensures forall p, q :: p in Relabel(curve[..s + 1], d1) && q in Relabel(curve[s + 1..], d2) ==> p.id < q.id
  {
    var x := curve[..s + 1];
    var y := curve[s + 1..];
    forall p, q | p in Relabel(x, d1) && q in Relabel(y, d2)
      ensures p.id < q.id
    {
      var k := RelabelSource(x, d1, p);
      var m := RelabelSource(y, d2, q);
      assert x[k] == curve[k] && y[m] == curve[s + 1 + m];
    }
  }

  /** The points outside curve `c` followed by the first part of `c`,
      moved to curve `next` when it has at least two points, are well formed
      below any counter past the ids handed out. */
  lemma SplitFrontWellFormed(ps: seq<Point>, next: int, c: int, s: nat, bound: int)
    requires WellFormed(ps, next)
    requires s + 1 < |Filter(ps, c, true)|
    requires bound >= next + (if s > 0 then 1 else 0)
    ensures var curve := Filter(ps, c, true);
            WellFormed(Filter(ps, c, false) + (if s > 0 then Relabel(curve[..s + 1], next) else []), bound)
  {
    var curve := Filter(ps, c, true);
    var before := curve[..s + 1];
    var outside := Filter(ps, c, false);
    FilterWellFormed(ps, c, false, next);
    if s > 0 {
      CurveIsAscending(ps, c, next);
      RelabelWellFormed(before, next, bound);
      assert forall k :: 0 <= k < |before| ==> before[k] == curve[k];
      OutsideAndPartDiffer(ps, next, c, before, next);
      WellFormedAppend(outside, Relabel(before, next), bound);
    } else {
      assert outside + [] == outside;
    }
  }

  /** The split keeps the invariant with the advanced counter: ids stay
      unique, they ascend within each curve, and every curve id in use is
      below the counter. */
  lemma SplitCurveKeepsInvariant(ps: seq<Point>, next: int, c: int, s: nat)
    requires WellFormed(ps, next)
    requires s + 1 < |Filter(ps, c, true)|
    ensures var r := SplitCurve(ps, next, c, Filter(ps, c, true), s);
            WellFormed(r.0, r.1)
  {
    var curve := Filter(ps, c, true);
    var after := curve[s + 1..];
    var afterCurveId := if s > 0 then next + 1 else next;
    var outside := Filter(ps, c, false);
    var first := if s > 0 then Relabel(curve[..s + 1], next) else [];
    var r := SplitCurve(ps, next, c, curve, s);
    SplitFrontWellFormed(ps, next, c, s, r.1);
    if |after| > 1 {
      var second := Relabel(after, afterCurveId);
      assert r.0 == (outside + first) + second;
      CurveIsAscending(ps, c, next);
      RelabelWellFormed(after, afterCurveId, r.1);
      assert forall k :: 0 <= k < |after| ==> after[k] == curve[s + 1 + k];
      OutsideAndPartDiffer(ps, next, c, after, afterCurveId);
      PartsAscend(curve, s, next, afterCurveId);
      WellFormedAppend(outside + first, second, r.1);
    } else {
      assert r.0 == outside + first + [];
      assert outside + first + [] == outside + first;
    }
  }

  /** `deleteSegment` keeps the invariant, whatever the two ids. */
  lemma CutSegmentKeepsInvariant(ps: seq<Point>, next: int, startId: int, endId: int)
    requires WellFormed(ps, next)
    ensures var r := CutSegment(ps, next, startId, endId);
            WellFormed(r.0, r.1)
  {
    if CutSegment(ps, next, startId, endId) != (ps, next) {
      CutSegmentChangesOnlyAtCutPosition(ps, next, startId, endId);
      var c: int, s: nat :| IsCutPosition(ps, c, s, startId, endId);
      CutSegmentAt(ps, next, c, s);
      SplitCurveKeepsInvariant(ps, next, c, s);
    }
  }

  /** When `deleteSegment` changes anything, the two points were joined by
      a drawn segment. */
  lemma CutSegmentChangesOnlyIfSuccessor(ps: seq<Point>, next: int, startId: int, endId: int)
    requires WellFormed(ps, next)
    requires CutSegment(ps, next, startId, endId) != (ps, next)
    ensures IsIdSuccessor(ps, startId, endId)
  {
    CutSegmentChangesOnlyAtCutPosition(ps, next, startId, endId);
    var c: int, s: nat :| IsCutPosition(ps, c, s, startId, endId);
    CutPositionIsSuccessor(ps, next, c, s);
  }

  /** Deleting a drawn segment always changes the editor state: the curve
      it belonged to is gone. */
  lemma SuccessorCutChanges(ps: seq<Point>, next: int, startId: int, endId: int)
    requires WellFormed(ps, next)
    requires IsIdSuccessor(ps, startId, endId)
    ensures CutSegment(ps, next, startId, endId) != (ps, next)
  {
    SuccessorIsCutPosition(ps, next, startId, endId);
    var c: int, s: nat :| IsCutPosition(ps, c, s, startId, endId);
    CutSegmentAt(ps, next, c, s);
    SplitCurveRemovesCurve(ps, next, c, s);
    var curve := Filter(ps, c, true);
    assert curve[0] in curve;
    assert Filter(ps, c, true) != [];
  }

  /** `deleteSegment` changes the editor state exactly when `endId` is the
      id-successor of `startId` in one curve, that is when the two points
      are joined by a drawn segment. */
  lemma CutSegmentChangesIffSuccessor(ps: seq<Point>, next: int, startId: int, endId: int)
    requires WellFormed(ps, next)
    ensures CutSegment(ps, next, startId, endId) != (ps, next) <==> IsIdSuccessor(ps, startId, endId)
  {
    if CutSegment(ps, next, startId, endId) != (ps, next) {
      CutSegmentChangesOnlyIfSuccessor(ps, next, startId, endId);
    }
    if IsIdSuccessor(ps, startId, endId) {
      SuccessorCutChanges(ps, next, startId, endId);
    }
  }

  /** The displayed curve count after `deleteSegment`: unchanged when
      nothing is cut; otherwise the cut curve is gone and each part that
      comes back adds one, which is exactly how far the counter moved. */
  lemma CutSegmentCurveCount(ps: seq<Point>, next: int, startId: int, endId: int)
    requires WellFormed(ps, next)
    ensures var r := CutSegment(ps, next, startId, endId);
            CurveCount(r.0) + (if IsIdSuccessor(ps, startId, endId) then 1 else 0) == CurveCount(ps) + (r.1 - next)
  {
    CutSegmentChangesIffSuccessor(ps, next, startId, endId);
    if CutSegment(ps, next, startId, endId) != (ps, next) {
      CutSegmentChangesOnlyAtCutPosition(ps, next, startId, endId);
      var c: int, s: nat :| IsCutPosition(ps, c, s, startId, endId);
      CutSegmentAt(ps, next, c, s);
      SplitCurveCount(ps, next, c, s);
    }
  }

  /** Deleting the only segment of a two-point curve removes the curve and
      both its points, hands out no curve id, and leaves one curve fewer. */
  lemma DeleteOnlySegment(ps: seq<Point>, next: int, c: int)
    requires WellFormed(ps, next)
    requires |Filter(ps, c, true)| == 2
    ensures var curve := Filter(ps, c, true);
            var r := CutSegment(ps, next, curve[0].id, curve[1].id);
            && r == (Filter(ps, c, false), next)
            && |r.0| == |ps| - 2
            && CurveCount(r.0) + 1 == CurveCount(ps)
  {
    var curve := Filter(ps, c, true);
    CutSegmentAt(ps, next, c, 0);
    assert Filter(ps, c, false) + [] + [] == Filter(ps, c, false);
    FilterSplitsLength(ps, c);
    SplitCurveCount(ps, next, c, 0);
  }

  /** From the starting state, one grow commit and one delete empty the
      point list: the grown curve has two points and its only segment is
      cut. */
  lemma DeleteCanEmptyTheList(d: Drag)
    requires d.pointId == 1 && d.kind == Top
    ensures var grown := PointerUpPoints(InitialPoints(), Some(d));
            CutSegment(grown, InitialNextCurveId, 1, 2) == ([], InitialNextCurveId)
  {
    var ps := InitialPoints();
    var grown := PointerUpPoints(ps, Some(d));
    assert && WellFormed(grown, InitialNextCurveId) && |grown| == 2
           && grown[0].id == 1 && grown[1].id == 2
           && grown[0].curveId == 1 && grown[1].curveId == 1 by {
      GrowFromInitialPoint(d);
      PointerUpKeepsInvariant(ps, InitialNextCurveId, Some(d));
      LastInCurveIffNoLaterPoint(ps, 0);
      PointerUpGrowsCurve(ps, InitialNextCurveId, d, 0);
    }
    assert Filter(grown, 1, true) == grown by {
      FilterOfOneCurve(grown, 1);
    }
    assert Filter(grown, 1, false) == [] by {
      FilterSplitsLength(grown, 1);
    }
    DeleteOnlySegment(grown, InitialNextCurveId, 1);
  }

  /** The delete-segment handler, step by step: find both points, sort the
      start's curve by id and check that the end directly follows the start;
      `SplitCurveInSteps` then rebuilds the list. */
  method CutSegmentInSteps(ps: seq<Point>, next: int, startId: int, endId: int)
    returns (rebuilt: seq<Point>, counter: int)
    ensures (rebuilt, counter) == CutSegment(ps, next, startId, endId)
  {
    var startPoint := IndexOfId(ps, startId);
    var endPoint := IndexOfId(ps, endId);
    if startPoint.None? || endPoint.None? {
      return ps, next;
    }
    var originalCurveId := ps[startPoint.value].curveId;
    var curvePoints := SortById(Filter(ps, originalCurveId, true));
    var startIndex := IndexOfId(curvePoints, startId);
    var endIndex := IndexOfId(curvePoints, endId);
    if startIndex.None? || endIndex.None? || endIndex.value != startIndex.value + 1 {
      return ps, next;
    }
    rebuilt, counter := SplitCurveInSteps(ps, next, originalCurveId, curvePoints, startIndex.value);
  }

  /** The rebuilding half of the handler: the points outside curve `c`,
      then each part of the sorted curve that keeps at least two points,
      relabelled with a counter that starts at `next` and steps once per
      part kept. */
  method SplitCurveInSteps(ps: seq<Point>, next: int, c: int, curvePoints: seq<Point>, s: nat)
    returns (rebuilt: seq<Point>, counter: int)
    requires s + 1 < |curvePoints|
    ensures (rebuilt, counter) == SplitCurve(ps, next, c, curvePoints, s)
  {
    var before := curvePoints[..s + 1];
    var after := curvePoints[s + 1..];
    var updatedPoints := Filter(ps, c, false);
    ghost var first := if |before| > 1 then Relabel(before, next) else [];
    ghost var afterCurveId := if |before| > 1 then next + 1 else next;
    ghost var second := if |after| > 1 then Relabel(after, afterCurveId) else [];
    SplitCurveParts(ps, next, c, curvePoints, s);
    var newPoints: seq<Point> := [];
    var nextIdForCurve := next;
    if |before| > 1 {
      var moved := Relabel(before, nextIdForCurve);
      assert newPoints + moved == moved;
      newPoints := newPoints + moved;
      nextIdForCurve := nextIdForCurve + 1;
    }
    assert newPoints == first && nextIdForCurve == afterCurveId;
    if |after| > 1 {
      var moved := Relabel(after, nextIdForCurve);
      assert moved == second;
      newPoints := newPoints + moved;
      nextIdForCurve := nextIdForCurve + 1;
    } else {
      assert newPoints + second == newPoints;
    }
    assert newPoints == first + second;
    AppendAssociates(updatedPoints, first, second);
    rebuilt, counter := updatedPoints + newPoints, nextIdForCurve;
  }
}
