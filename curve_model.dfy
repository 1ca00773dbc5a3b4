/** The point list and what is derived from it: lookup by id, the points of
    one curve, which point is last in its curve, id allocation, the grouping
    into curves, and the invariant every editing operation keeps. */
module CurveModel {
  import opened Types

  /** `points.find(p => p.id === id)`, as the index of the first match. */
  function IndexOfId(ps: seq<Point>, id: int): (r: Option<nat>)
    ensures r.Some? ==> r.value < |ps| && ps[r.value].id == id
    ensures r.Some? ==> forall k :: 0 <= k < r.value ==> ps[k].id != id
    ensures r.None? <==> forall k :: 0 <= k < |ps| ==> ps[k].id != id
  {
    if |ps| == 0 then None
    else if ps[0].id == id then Some(0)
    else match IndexOfId(ps[1..], id)
      case None => None
      case Some(k) => Some(k + 1)
  }

  /** With unique ids, looking up the id of the point at index `i` finds `i`. */
  lemma IndexOfIdOfUnique(ps: seq<Point>, i: nat)
    requires i < |ps|
    requires forall a, b :: 0 <= a < b < |ps| ==> ps[a].id != ps[b].id
    ensures IndexOfId(ps, ps[i].id) == Some(i)
  {
    var r := IndexOfId(ps, ps[i].id);
    assert r.Some?;
  }

  /** The points whose membership in curve `c` equals `inCurve`, in list
      order: `points.filter(p => p.curveId === c)` when `inCurve` holds,
      `points.filter(p => p.curveId !== c)` otherwise. */
  function Filter(ps: seq<Point>, c: int, inCurve: bool): (r: seq<Point>)
    ensures |r| <= |ps|
    ensures forall k :: 0 <= k < |r| ==> (r[k].curveId == c) == inCurve
  {
    if |ps| == 0 then []
    else (if (ps[0].curveId == c) == inCurve then [ps[0]] else []) + Filter(ps[1..], c, inCurve)
  }

  /** The filter keeps exactly the points of `ps` whose membership in
      curve `c` equals `inCurve`. */
  lemma {:induction false} FilterMembers(ps: seq<Point>, c: int, inCurve: bool)
    ensures forall p :: p in Filter(ps, c, inCurve) <==> p in ps && (p.curveId == c) == inCurve
  {
    if |ps| > 0 {
      FilterMembers(ps[1..], c, inCurve);
      assert ps == [ps[0]] + ps[1..];
    }
  }

  /** One step of the filter: the first point, when it passes, then the
      filter of the rest. */
  lemma FilterCons(p: Point, rest: seq<Point>, c: int, inCurve: bool)
    ensures Filter([p] + rest, c, inCurve) == (if (p.curveId == c) == inCurve then [p] else []) + Filter(rest, c, inCurve)
  {
    assert ([p] + rest)[0] == p && ([p] + rest)[1..] == rest;
  }

  /** Filtering distributes over concatenation. */
  lemma {:induction false} FilterAppend(a: seq<Point>, b: seq<Point>, c: int, inCurve: bool)
    ensures Filter(a + b, c, inCurve) == Filter(a, c, inCurve) + Filter(b, c, inCurve)
  {
    if |a| > 0 {
      var head := if (a[0].curveId == c) == inCurve then [a[0]] else [];
      calc {
        Filter(a + b, c, inCurve);
        { assert a + b == [a[0]] + (a[1..] + b); }
        Filter([a[0]] + (a[1..] + b), c, inCurve);
        { FilterCons(a[0], a[1..] + b, c, inCurve); }
        head + Filter(a[1..] + b, c, inCurve);
        { FilterAppend(a[1..], b, c, inCurve); }
        head + (Filter(a[1..], c, inCurve) + Filter(b, c, inCurve));
        (head + Filter(a[1..], c, inCurve)) + Filter(b, c, inCurve);
        { FilterCons(a[0], a[1..], c, inCurve); assert a == [a[0]] + a[1..]; }
        Filter(a, c, inCurve) + Filter(b, c, inCurve);
      }
    } else {
      assert a + b == b;
    }
  }

  /** A point is in curve `c` or not: the two filters share no point and
      together have every point. */
  lemma {:induction false} FilterSplitsLength(ps: seq<Point>, c: int)
    ensures |Filter(ps, c, true)| + |Filter(ps, c, false)| == |ps|
  {
    if |ps| > 0 {
      FilterSplitsLength(ps[1..], c);
    }
  }

  /** A sequence whose points are all in curve `c` is its own filter. */
  lemma {:induction false} FilterOfOneCurve(s: seq<Point>, c: int)
    requires forall k :: 0 <= k < |s| ==> s[k].curveId == c
    ensures Filter(s, c, true) == s
  {
    if |s| > 0 {
      FilterOfOneCurve(s[1..], c);
      assert s == [s[0]] + s[1..];
    }
  }

  /** Taking the points outside curve `c` first does not change which
      points another curve has, and leaves none of curve `c`. */
  lemma {:induction false} FilterOutsideCurve(ps: seq<Point>, c: int, d: int)
    ensures Filter(Filter(ps, c, false), d, true) == if c == d then [] else Filter(ps, d, true)
  {
    if |ps| > 0 {
      FilterOutsideCurve(ps[1..], c, d);
      var head := if ps[0].curveId != c then [ps[0]] else [];
      assert Filter(ps, c, false) == head + Filter(ps[1..], c, false);
      FilterAppend(head, Filter(ps[1..], c, false), d, true);
    }
  }

  /** Concatenation of point lists is associative. */
  lemma AppendAssociates(a: seq<Point>, b: seq<Point>, c: seq<Point>)
    ensures a + b + c == a + (b + c)
  {
  }

  /** No two points share an id. */
  ghost predicate UniqueIds(ps: seq<Point>) {
    forall i, j :: 0 <= i < j < |ps| ==> ps[i].id != ps[j].id
  }

  /** Within each curve, ids increase along the list. */
  ghost predicate IdsAscendInCurves(ps: seq<Point>) {
    forall i, j :: 0 <= i < j < |ps| && ps[i].curveId == ps[j].curveId ==> ps[i].id < ps[j].id
  }

  /** Every curve id in use is below the next one to be allocated. */
  ghost predicate CurveIdsBelow(ps: seq<Point>, bound: int) {
    forall i :: 0 <= i < |ps| ==> ps[i].curveId < bound
  }

  /** The invariant of the editor's point list and curve-id counter. */
  ghost predicate WellFormed(ps: seq<Point>, nextCurveId: int) {
    UniqueIds(ps) && IdsAscendInCurves(ps) && CurveIdsBelow(ps, nextCurveId)
  }

  /** Ids strictly increase along the whole sequence. */
  ghost predicate StrictlyAscending(s: seq<Point>) {
    forall i, j :: 0 <= i < j < |s| ==> s[i].id < s[j].id
  }

  /** Two well-formed lists make a well-formed list when every id of the
      first differs from every id of the second, and is smaller when both
      points are in the same curve. */
  lemma WellFormedAppend(a: seq<Point>, b: seq<Point>, next: int)
    requires WellFormed(a, next) && WellFormed(b, next)
    requires forall p, q :: p in a && q in b ==> p.id != q.id
    requires forall p, q :: p in a && q in b && p.curveId == q.curveId ==> p.id < q.id
    ensures WellFormed(a + b, next)
  {
    var s := a + b;
    forall i, j | 0 <= i < j < |s|
      ensures s[i].id != s[j].id
      ensures s[i].curveId == s[j].curveId ==> s[i].id < s[j].id
    {
      if j < |a| {
        assert s[i] == a[i] && s[j] == a[j];
      } else if i >= |a| {
        assert s[i] == b[i - |a|] && s[j] == b[j - |a|];
      } else {
        assert s[i] == a[i] && s[j] == b[j - |a|];
        assert a[i] in a && b[j - |a|] in b;
      }
    }
  }

  /** Appending a point with an id above every id in use and a curve id
      below the counter keeps the invariant. */
  lemma WellFormedSnoc(ps: seq<Point>, p: Point, next: int)
    requires WellFormed(ps, next) && p.curveId < next
    requires forall k :: 0 <= k < |ps| ==> ps[k].id < p.id
    ensures WellFormed(ps + [p], next)
  {
    var s := ps + [p];
    forall i, j | 0 <= i < j < |s|
      ensures s[i].id < s[j].id || (s[i].id != s[j].id && s[i].curveId != s[j].curveId)
    {
      assert s[i] == ps[i];
      if j < |ps| {
        assert s[j] == ps[j];
      }
    }
  }

  /** Dropping the first point keeps the invariant. */
  lemma WellFormedTail(ps: seq<Point>, next: int)
    requires |ps| > 0 && WellFormed(ps, next)
    ensures WellFormed(ps[1..], next)
  {
    var t := ps[1..];
    forall i, j | 0 <= i < j < |t|
      ensures t[i].id != t[j].id
      ensures t[i].curveId == t[j].curveId ==> t[i].id < t[j].id
    {
      assert t[i] == ps[i + 1] && t[j] == ps[j + 1];
    }
  }

  /** Filtering keeps the invariant: it keeps a subsequence. */
  lemma {:induction false} FilterWellFormed(ps: seq<Point>, c: int, inCurve: bool, next: int)
    requires WellFormed(ps, next)
    ensures WellFormed(Filter(ps, c, inCurve), next)
  {
    if |ps| > 0 {
      WellFormedTail(ps, next);
      var rest := Filter(ps[1..], c, inCurve);
      FilterWellFormed(ps[1..], c, inCurve, next);
      FilterMembers(ps[1..], c, inCurve);
      if (ps[0].curveId == c) == inCurve {
        forall q | q in rest
          ensures ps[0].id != q.id
          ensures ps[0].curveId == q.curveId ==> ps[0].id < q.id
        {
          var j :| 0 <= j < |ps[1..]| && ps[1..][j] == q;
          assert ps[j + 1] == q;
        }
        WellFormedAppend([ps[0]], rest, next);
      } else {
        assert Filter(ps, c, inCurve) == rest;
      }
    }
  }

  /** The points of one curve of a well-formed list have strictly
      increasing ids in list order. */
  lemma CurveIsAscending(ps: seq<Point>, c: int, next: int)
    requires WellFormed(ps, next)
    ensures StrictlyAscending(Filter(ps, c, true))
  {
    FilterWellFormed(ps, c, true, next);
    FilterMembers(ps, c, true);
    var s := Filter(ps, c, true);
    forall i, j | 0 <= i < j < |s|
      ensures s[i].id < s[j].id
    {
      assert s[i] in s && s[j] in s;
    }
  }

  /** `Math.max(...points.map(p => p.id))` on a non-empty list. */
  function MaxId(ps: seq<Point>): (m: int)
    requires |ps| > 0
    ensures forall k :: 0 <= k < |ps| ==> ps[k].id <= m
    ensures exists k :: 0 <= k < |ps| && ps[k].id == m
  {
    if |ps| == 1 then ps[0].id
    else
      var m := MaxId(ps[1..]);
      assert forall k :: 1 <= k < |ps| ==> ps[k] == ps[1..][k - 1];
      if ps[0].id > m then ps[0].id else m
  }

  /** The id given to a new point: one more than the largest id in use, so
      greater than every id in use; 1, the starting point's id, when no
      point is left. */
  function NewId(ps: seq<Point>): (id: int)
    ensures forall k :: 0 <= k < |ps| ==> ps[k].id < id
    ensures |ps| > 0 ==> exists k :: 0 <= k < |ps| && ps[k].id == id - 1
    ensures |ps| == 0 ==> id == 1
  {
    if |ps| == 0 then 1 else MaxId(ps) + 1
  }

  /** A JavaScript number as `Math.max` and `+ 1` treat an id: a finite
      integer, or negative infinity, which is what `Math.max()` returns for
      no arguments and what adding one to it gives back. */
  datatype JsNumber = NegativeInfinity | Finite(value: int)

  /** `x >= y` between JavaScript numbers, negative infinity below all. */
  predicate JsAtLeast(x: JsNumber, y: JsNumber) {
    y.NegativeInfinity? || (x.Finite? && x.value >= y.value)
  }

  /** `Math.max(a, b)`: one of the two, and at least each of them. */
  function JsMax(a: JsNumber, b: JsNumber): (m: JsNumber)
    ensures m == a || m == b
    ensures JsAtLeast(m, a) && JsAtLeast(m, b)
  {
    if a.NegativeInfinity? then b
    else if b.NegativeInfinity? then a
    else if a.value >= b.value then a
    else b
  }

  /** `Math.max(...ns)`: an upper bound of `ns` that is one of its elements,
      and negative infinity when `ns` is empty. */
  function JsMaxOf(ns: seq<JsNumber>): (m: JsNumber)
    ensures forall k :: 0 <= k < |ns| ==> JsAtLeast(m, ns[k])
    ensures |ns| == 0 ==> m == NegativeInfinity
    ensures |ns| > 0 ==> m in ns
  {
    if |ns| == 0 then NegativeInfinity else JsMax(ns[0], JsMaxOf(ns[1..]))
  }

  /** `n + 1`: above a finite `n`, and negative infinity again when `n` is. */
  function JsAddOne(n: JsNumber): (r: JsNumber)
    ensures n.Finite? ==> r.Finite? && r.value > n.value
    ensures n.NegativeInfinity? ==> r == n
  {
    if n.NegativeInfinity? then NegativeInfinity else Finite(n.value + 1)
  }

  /** The ids of a point list as JavaScript numbers. */
  function Ids(ps: seq<Point>): (ns: seq<JsNumber>)
    ensures |ns| == |ps| && forall k :: 0 <= k < |ps| ==> ns[k] == Finite(ps[k].id)
  {
    seq(|ps|, k requires 0 <= k < |ps| => Finite(ps[k].id))
  }

  /** `Math.max(...points.map(p => p.id)) + 1` as the source computes it,
      on whatever ids the list holds. */
  function NewIdAsWritten(ns: seq<JsNumber>): (id: JsNumber)
    ensures |ns| == 0 ==> id == NegativeInfinity
  {
    JsAddOne(JsMaxOf(ns))
  }

  /** On an empty list the source's id is negative infinity, and a list
      holding only that id yields it again: two curves added one after the
      other to an empty list get the same id. */
  lemma NewIdAsWrittenRepeatsOnEmpty()
    ensures var first := NewIdAsWritten([]);
            first == NegativeInfinity && NewIdAsWritten([first]) == first
  {
    assert [NegativeInfinity][1..] == [];
  }

  /** The largest id as a JavaScript number is the largest id. */
  lemma {:induction false} JsMaxOfIds(ps: seq<Point>)
    requires |ps| > 0
    ensures JsMaxOf(Ids(ps)) == Finite(MaxId(ps))
  {
    assert Ids(ps)[1..] == Ids(ps[1..]);
    if |ps| > 1 {
      JsMaxOfIds(ps[1..]);
    }
  }

  /** On a non-empty list the source's id and `NewId` agree. */
  lemma NewIdAsWrittenAgrees(ps: seq<Point>)
    requires |ps| > 0
    ensures NewIdAsWritten(Ids(ps)) == Finite(NewId(ps))
  {
    JsMaxOfIds(ps);
  }

  /** `curvePoints.indexOf(point)` for the point at list index `i`: the
      number of points of its curve that come before it in the list. */
  function PositionInCurve(ps: seq<Point>, i: nat): (pos: nat)
    requires i < |ps|
    ensures pos < |Filter(ps, ps[i].curveId, true)|
    ensures Filter(ps, ps[i].curveId, true)[pos] == ps[i]
  {
    var c := ps[i].curveId;
    assert ps == ps[..i] + [ps[i]] + ps[i + 1..];
    FilterAppend(ps[..i] + [ps[i]], ps[i + 1..], c, true);
    FilterAppend(ps[..i], [ps[i]], c, true);
    assert Filter([ps[i]], c, true) == [ps[i]];
    |Filter(ps[..i], c, true)|
  }

  /** `curvePoints.indexOf(point) === curvePoints.length - 1`: the point is
      the last of its curve in list order. */
  predicate IsLastInCurve(ps: seq<Point>, i: nat)
    requires i < |ps|
  {
    PositionInCurve(ps, i) == |Filter(ps, ps[i].curveId, true)| - 1
  }

  /** A filter is empty exactly when no point qualifies. */
  lemma FilterEmpty(ps: seq<Point>, c: int)
    ensures Filter(ps, c, true) == [] <==> forall k :: 0 <= k < |ps| ==> ps[k].curveId != c
  {
    FilterMembers(ps, c, true);
    if Filter(ps, c, true) != [] {
      var p := Filter(ps, c, true)[0];
      assert p in Filter(ps, c, true);
    }
    if exists k :: 0 <= k < |ps| && ps[k].curveId == c {
      var k :| 0 <= k < |ps| && ps[k].curveId == c;
      assert ps[k] in ps;
      assert ps[k] in Filter(ps, c, true);
    }
  }

  /** Being last by position means no later point of the list is in the
      same curve. */
  lemma LastInCurveIffNoLaterPoint(ps: seq<Point>, i: nat)
    requires i < |ps|
    ensures IsLastInCurve(ps, i) <==> forall j :: i < j < |ps| ==> ps[j].curveId != ps[i].curveId
  {
    var c := ps[i].curveId;
    assert ps == ps[..i] + [ps[i]] + ps[i + 1..];
    FilterAppend(ps[..i] + [ps[i]], ps[i + 1..], c, true);
    FilterAppend(ps[..i], [ps[i]], c, true);
    assert Filter([ps[i]], c, true) == [ps[i]];
    FilterEmpty(ps[i + 1..], c);
    assert forall j :: i < j < |ps| ==> ps[j] == ps[i + 1..][j - i - 1];
  }

  /** In a list whose ids ascend within curves, the point that is last by
      position is the one with the greatest id of its curve, and the other
      way round: the two notions of "last" agree. */
  lemma LastInCurveIffGreatestId(ps: seq<Point>, i: nat)
    requires i < |ps|
    requires IdsAscendInCurves(ps)
    ensures IsLastInCurve(ps, i) <==>
            forall j :: 0 <= j < |ps| && j != i && ps[j].curveId == ps[i].curveId ==> ps[j].id < ps[i].id
  {
    LastInCurveIffNoLaterPoint(ps, i);
  }

  /** Ids never decrease from one point to the next. */
  predicate SortedById(s: seq<Point>) {
    forall k :: 0 < k < |s| ==> s[k - 1].id <= s[k].id
  }

  /** `[...]` sorted stably by `(a, b) => a.id - b.id`: insertion of one
      point into a sorted list keeps it sorted and adds exactly that point. */
  function InsertById(p: Point, s: seq<Point>): (r: seq<Point>)
    ensures multiset(r) == multiset(s) + multiset{p}
    ensures r[0] == p || (|s| > 0 && r[0] == s[0])
    ensures SortedById(s) ==> SortedById(r)
  {
    if |s| == 0 || p.id <= s[0].id then [p] + s
    else
      assert s == [s[0]] + s[1..];
      var rest := InsertById(p, s[1..]);
      assert SortedById(s) ==> SortedById(s[1..]) && s[0].id <= rest[0].id by {
        if SortedById(s) && |s| > 1 {
          assert s[1..][0] == s[1];
        }
      }
      [s[0]] + rest
  }

  /** `.sort((a, b) => a.id - b.id)`, a stable sort by id: a permutation of
      its input whose ids never decrease. */
  function SortById(s: seq<Point>): (r: seq<Point>)
    ensures multiset(r) == multiset(s)
    ensures SortedById(r)
  {
    if |s| == 0 then []
    else
      assert s == [s[0]] + s[1..];
      InsertById(s[0], SortById(s[1..]))
  }

  /** Sorting a list whose ids already increase changes nothing. */
  lemma {:induction false} SortAscendingIsIdentity(s: seq<Point>)
    requires StrictlyAscending(s)
    ensures SortById(s) == s
  {
    if |s| > 0 {
      SortAscendingIsIdentity(s[1..]);
      assert s == [s[0]] + s[1..];
    }
  }

  /** The set of curve ids in use. */
  function CurveIds(ps: seq<Point>): set<int> {
    set p | p in ps :: p.curveId
  }

  /** The `curves` reduce: every curve id mapped to its points, in list
      order; no entry is empty, and every point of an entry is in its curve. */
  function GroupCurves(ps: seq<Point>): (g: map<int, seq<Point>>)
    ensures forall c :: c in g ==> |g[c]| > 0
    ensures forall c, k :: c in g && 0 <= k < |g[c]| ==> g[c][k].curveId == c
  {
    if |ps| == 0 then map[]
    else
      var acc := GroupCurves(ps[..|ps| - 1]);
      var p := ps[|ps| - 1];
      acc[p.curveId := (if p.curveId in acc then acc[p.curveId] else []) + [p]]
  }

  /** Appending a point adds its curve id to the ids in use. */
  lemma CurveIdsSnoc(front: seq<Point>, p: Point)
    ensures CurveIds(front + [p]) == CurveIds(front) + {p.curveId}
  {
    var ps := front + [p];
    forall c | c in CurveIds(ps) ensures c in CurveIds(front) + {p.curveId} {
      var q :| q in ps && q.curveId == c;
      if q != p {
        var k :| 0 <= k < |ps| && ps[k] == q;
        assert k < |front| && front[k] == q;
      }
    }
    forall c | c in CurveIds(front) ensures c in CurveIds(ps) {
      var q :| q in front && q.curveId == c;
      var k :| 0 <= k < |front| && front[k] == q;
      assert ps[k] == q;
    }
  }

  /** The curve ids of a concatenation are those of its parts. */
  lemma CurveIdsAppend(a: seq<Point>, b: seq<Point>)
    ensures CurveIds(a + b) == CurveIds(a) + CurveIds(b)
  {
  }

  /** Removing curve `c` removes exactly its id from the ids in use. */
  lemma CurveIdsOutsideCurve(ps: seq<Point>, c: int)
    ensures CurveIds(Filter(ps, c, false)) == CurveIds(ps) - {c}
  {
    FilterMembers(ps, c, false);
    forall d | d in CurveIds(ps) - {c} ensures d in CurveIds(Filter(ps, c, false)) {
      var q :| q in ps && q.curveId == d;
      assert q in Filter(ps, c, false);
    }
  }

  /** A curve id that is not in use selects no point. */
  lemma FilterOfUnusedCurve(ps: seq<Point>, c: int)
    requires c !in CurveIds(ps)
    ensures Filter(ps, c, true) == []
  {
    forall k | 0 <= k < |ps| ensures ps[k].curveId != c {
      assert ps[k] in ps;
    }
    FilterEmpty(ps, c);
  }

  /** The grouping has one entry per curve id in use, and that entry is the
      curve's points in list order. */
  lemma {:induction false} GroupCurvesIsFilter(ps: seq<Point>)
    ensures GroupCurves(ps).Keys == CurveIds(ps)
    ensures forall c :: c in GroupCurves(ps) ==> GroupCurves(ps)[c] == Filter(ps, c, true)
  {
    if |ps| > 0 {
      var front := ps[..|ps| - 1];
      var p := ps[|ps| - 1];
      assert ps == front + [p];
      GroupCurvesIsFilter(front);
      CurveIdsSnoc(front, p);
      var acc := GroupCurves(front);
      assert GroupCurves(ps) == acc[p.curveId := (if p.curveId in acc then acc[p.curveId] else []) + [p]];
      forall c | c in GroupCurves(ps)
        ensures GroupCurves(ps)[c] == Filter(ps, c, true)
      {
        FilterAppend(front, [p], c, true);
        if c != p.curveId {
          assert Filter([p], c, true) == [];
        } else {
          assert Filter([p], c, true) == [p];
          if c !in acc {
            FilterOfUnusedCurve(front, c);
          }
        }
      }
    }
  }

  /** Two lists that agree, position by position, on ids and curve ids. */
  ghost predicate SameIdsAndCurves(a: seq<Point>, b: seq<Point>) {
    |a| == |b| && forall k :: 0 <= k < |a| ==> a[k].id == b[k].id && a[k].curveId == b[k].curveId
  }

  /** Editing coordinates and handles only keeps the invariant, the curve
      ids in use and which points are last in their curves. */
  lemma SameIdsAndCurvesKeeps(a: seq<Point>, b: seq<Point>, next: int)
    requires SameIdsAndCurves(a, b)
    ensures WellFormed(a, next) ==> WellFormed(b, next)
    ensures CurveIds(a) == CurveIds(b)
    ensures forall i :: 0 <= i < |a| ==> (IsLastInCurve(a, i) <==> IsLastInCurve(b, i))
  {
    forall c | c in CurveIds(a) ensures c in CurveIds(b) {
      var q :| q in a && q.curveId == c;
      var k :| 0 <= k < |a| && a[k] == q;
      assert b[k] in b;
    }
    forall c | c in CurveIds(b) ensures c in CurveIds(a) {
      var q :| q in b && q.curveId == c;
      var k :| 0 <= k < |b| && b[k] == q;
      assert a[k] in a;
    }
    forall i | 0 <= i < |a| ensures IsLastInCurve(a, i) <==> IsLastInCurve(b, i) {
      LastInCurveIffNoLaterPoint(a, i);
      LastInCurveIffNoLaterPoint(b, i);
    }
  }

  /** `Object.keys(curves).length`, the displayed curve count. */
  function CurveCount(ps: seq<Point>): (n: nat)
    ensures n == |CurveIds(ps)|
  {
    GroupCurvesIsFilter(ps);
    |GroupCurves(ps).Keys|
  }
}
