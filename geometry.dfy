/** Segment geometry: the four control points of a cubic segment, the
    Bernstein evaluation and the sampled polyline length. */
module Geometry {
  import opened Types

  /** A position or an offset in the plane. */
  datatype Vec = Vec(x: real, y: real)

  function Add(a: Vec, b: Vec): Vec { Vec(a.x + b.x, a.y + b.y) }

  function Sub(a: Vec, b: Vec): Vec { Vec(a.x - b.x, a.y - b.y) }

  function Scale(k: real, a: Vec): Vec { Vec(k * a.x, k * a.y) }

  /** The anchor position of a point. */
  function Anchor(p: Point): Vec { Vec(p.x, p.y) }

  /** What the SVG path `M start C cp1, cp2, end` encodes: a start anchor,
      two absolute control points and an end anchor. */
  datatype CubicSegment = CubicSegment(start: Vec, cp1: Vec, cp2: Vec, end: Vec)

  /** The segment from `point` to `nextPoint`: the first control point is the
      start's outgoing (right) handle, the second is the end's incoming (left)
      handle, both made absolute. */
  function CreateBezierPath(point: Point, nextPoint: Point): (s: CubicSegment)
    ensures s.start == Anchor(point) && s.end == Anchor(nextPoint)
    ensures Sub(s.cp1, s.start) == Vec(point.rightX, point.rightY)
    ensures Sub(s.cp2, s.end) == Vec(nextPoint.leftX, nextPoint.leftY)
  {
    CubicSegment(
      Anchor(point),
      Vec(point.x + point.rightX, point.y + point.rightY),
      Vec(nextPoint.x + nextPoint.leftX, nextPoint.y + nextPoint.leftY),
      Anchor(nextPoint))
  }

  /** The cubic Bernstein blend of four coordinates at parameter `t`. */
  function Blend(a0: real, a1: real, a2: real, a3: real, t: real): (r: real)
    ensures t == 0.0 ==> r == a0
    ensures t == 1.0 ==> r == a3
  {
    var u := 1.0 - t;
    u * u * u * a0 + 3.0 * u * u * t * a1 + 3.0 * u * t * t * a2 + t * t * t * a3
  }

  /** The point of segment `s` at parameter `t`, one blend per axis: the
      segment starts at its start anchor and ends at its end anchor,
      whatever its control points. */
  function Eval(s: CubicSegment, t: real): (v: Vec)
    ensures t == 0.0 ==> v == s.start
    ensures t == 1.0 ==> v == s.end
  {
    Vec(Blend(s.start.x, s.cp1.x, s.cp2.x, s.end.x, t),
        Blend(s.start.y, s.cp1.y, s.cp2.y, s.end.y, t))
  }

  /** The four Bernstein weights sum to one, so blending one value gives it back. */
  lemma BlendOfConstant(a: real, t: real)
    ensures Blend(a, a, a, a, t) == a
  {
    var u := 1.0 - t;
    calc {
      u * u * u + 3.0 * u * u * t + 3.0 * u * t * t + t * t * t;
      (u + t) * (u + t) * (u + t);
      1.0;
    }
    assert Blend(a, a, a, a, t) == (u * u * u + 3.0 * u * u * t + 3.0 * u * t * t + t * t * t) * a;
  }

  /** Control points a third and two thirds of the way along the chord make
      the blend move linearly from `a` to `a + d`. */
  lemma BlendOfChord(a: real, d: real, t: real)
    ensures Blend(a, a + d / 3.0, (a + d) - d / 3.0, a + d, t) == a + t * d
  {
    var u := 1.0 - t;
    var w := u * u * u + 3.0 * u * u * t + 3.0 * u * t * t + t * t * t;
    assert w == 1.0 by {
      assert w == (u + t) * (u + t) * (u + t);
    }
    var v := u * u * t + 2.0 * u * t * t + t * t * t;
    assert v == t by {
      assert v == t * (u + t) * (u + t);
    }
    assert Blend(a, a + d / 3.0, (a + d) - d / 3.0, a + d, t) == w * a + v * d;
  }

  /** A segment whose control points lie a third of the way in from each
      anchor along the chord is the straight line from start to end. */
  lemma EvalOfChordSegment(p0: Vec, p3: Vec, t: real)
    ensures var d := Sub(p3, p0);
            Eval(CubicSegment(p0, Add(p0, Scale(1.0 / 3.0, d)), Add(p3, Scale(-1.0 / 3.0, d)), p3), t)
            == Add(p0, Scale(t, d))
  {
    var d := Sub(p3, p0);
    var seg := CubicSegment(p0, Add(p0, Scale(1.0 / 3.0, d)), Add(p3, Scale(-1.0 / 3.0, d)), p3);
    assert p3 == Vec(p0.x + d.x, p0.y + d.y);
    assert seg.cp1 == Vec(p0.x + d.x / 3.0, p0.y + d.y / 3.0);
    assert seg.cp2 == Vec((p0.x + d.x) - d.x / 3.0, (p0.y + d.y) - d.y / 3.0);
    BlendOfChord(p0.x, d.x, t);
    BlendOfChord(p0.y, d.y, t);
  }

  /** The number of samples `getBezierLength` takes when the caller gives none. */
  const DefaultSegments: int := 100

  /** The `i`-th of `segments` uniformly spaced samples, at t = i / segments:
      sample 0, where the length loop's `prev` begins, is the start anchor,
      and the last sample is the end anchor, so the polyline closes on it. */
  function SampleAt(s: CubicSegment, segments: int, i: int): (v: Vec)
    requires segments > 0
    ensures i == 0 ==> v == s.start
    ensures i == segments ==> v == s.end
  {
    assert i == segments ==> i as real / segments as real == 1.0;
    Eval(s, i as real / segments as real)
  }

  /** The distance `Math.hypot` gives: never negative, and zero for a zero offset. */
  ghost predicate IsDistance(hypot: (real, real) -> real) {
    (forall dx, dy :: hypot(dx, dy) >= 0.0) && hypot(0.0, 0.0) == 0.0
  }

  /** The length of the polyline through samples 0..k: a sum of distances,
      so never negative when `hypot` never is. */
  function PolylineLength(s: CubicSegment, segments: int, k: nat, hypot: (real, real) -> real): (len: real)
    requires segments > 0
    ensures (forall dx, dy :: hypot(dx, dy) >= 0.0) ==> len >= 0.0
  {
    if k == 0 then 0.0
    else
      var a := SampleAt(s, segments, k - 1);
      var b := SampleAt(s, segments, k);
      PolylineLength(s, segments, k - 1, hypot) + hypot(b.x - a.x, b.y - a.y)
  }

  /** Every sample of a segment collapsed to one point is that point. */
  lemma CollapsedSampleIsAnchor(s: CubicSegment, segments: int, i: int)
    requires segments > 0
    requires s.cp1 == s.start && s.cp2 == s.start && s.end == s.start
    ensures SampleAt(s, segments, i) == s.start
  {
    var t := i as real / segments as real;
    BlendOfConstant(s.start.x, t);
    BlendOfConstant(s.start.y, t);
  }

  /** A segment collapsed to one point has length zero. */
  lemma {:induction false} CollapsedSegmentHasZeroLength(s: CubicSegment, segments: int, k: nat, hypot: (real, real) -> real)
    requires segments > 0
    requires s.cp1 == s.start && s.cp2 == s.start && s.end == s.start
    requires IsDistance(hypot)
    ensures PolylineLength(s, segments, k, hypot) == 0.0
  {
    if k > 0 {
      CollapsedSegmentHasZeroLength(s, segments, k - 1, hypot);
      CollapsedSampleIsAnchor(s, segments, k - 1);
      CollapsedSampleIsAnchor(s, segments, k);
    }
  }

  /** `getBezierLength`: sums the distances between consecutive samples at
      t = 1/segments, 2/segments, ..., 1, starting from `p0`; `hypot` stands
      for `Math.hypot`. With no samples the loop does not run and the result is 0. */
  method GetBezierLength(p0: Vec, p1: Vec, p2: Vec, p3: Vec, segments: int, hypot: (real, real) -> real)
    returns (length: real)
    requires forall dx, dy :: hypot(dx, dy) >= 0.0
    ensures segments <= 0 ==> length == 0.0
    ensures segments > 0 ==> length == PolylineLength(CubicSegment(p0, p1, p2, p3), segments, segments, hypot)
    ensures length >= 0.0
  {
    ghost var s := CubicSegment(p0, p1, p2, p3);
    length := 0.0;
    var prev := p0;
    var i := 1;
    while i <= segments
      invariant 1 <= i
      invariant segments > 0 ==> i <= segments + 1
      invariant segments > 0 ==> prev == SampleAt(s, segments, i - 1)
      invariant segments > 0 ==> length == PolylineLength(s, segments, i - 1, hypot)
      invariant segments <= 0 ==> length == 0.0
    {
      var t := i as real / segments as real;
      var x := Blend(p0.x, p1.x, p2.x, p3.x, t);
      var y := Blend(p0.y, p1.y, p2.y, p3.y, t);
      length := length + hypot(x - prev.x, y - prev.y);
      prev := Vec(x, y);
      i := i + 1;
    }
  }

  /** `getBezierLength(p0, p1, p2, p3)` with the default number of samples. */
  method GetDefaultBezierLength(p0: Vec, p1: Vec, p2: Vec, p3: Vec, hypot: (real, real) -> real)
    returns (length: real)
    requires forall dx, dy :: hypot(dx, dy) >= 0.0
    ensures length == PolylineLength(CubicSegment(p0, p1, p2, p3), DefaultSegments, DefaultSegments, hypot)
    ensures length >= 0.0
  {
    length := GetBezierLength(p0, p1, p2, p3, DefaultSegments, hypot);
  }
}
