/** One characteristic: the line `{(s0 + k*step, t0 + k*dt)}` through a centre,
    clipped against the frame. This module holds the clipping shared by the
    strict and the tolerant implementation: edge hits (with a transverse
    slack that is `0` in the strict one and `EPS` in the tolerant one), the
    extremes of the stable sort by `s`, the integer offset of a boundary
    node, and the in-frame lattice points between two offsets. */
module Characteristic {
  import opened Common
  import opened Rectangle

  datatype Line = Line(center: Point, dt: real, step: real)

  /** The lattice point at integer offset `k` from the centre. */
  function PointAt(l: Line, k: int): Point {
    (l.center.0 + k as real * l.step, l.center.1 + k as real * l.dt)
  }

  /** Offset 0 is the centre, and the offset is recovered from the point
      along `s` when `step != 0` and along `t` when `dt != 0`. */
  lemma PointAtOffset(l: Line, k: int)
    ensures k == 0 ==> PointAt(l, k) == l.center
    ensures l.step != 0.0 ==> (PointAt(l, k).0 - l.center.0) / l.step == k as real
    ensures l.dt != 0.0 ==> (PointAt(l, k).1 - l.center.1) / l.dt == k as real
  {
    var p := PointAt(l, k);
    assert p.0 - l.center.0 == k as real * l.step;
    assert p.1 - l.center.1 == k as real * l.dt;
  }

  /** Hit with the vertical edge `s = sv`; computed only when `|step| >= EPS`,
      accepted when `t` is within `slack` of `[T0, T1]`. */
  function VerticalHit(l: Line, f: Rect, sv: real, slack: real): (r: Option<Point>)
    ensures r.Some? ==> Abs(l.step) >= EPS && r.value.0 == sv
    ensures r.Some? ==> f.T0 - slack <= r.value.1 <= f.T1 + slack
    ensures r.Some? ==> r.value.1 == l.center.1 + (sv - l.center.0) / l.step * l.dt
  {
    if Abs(l.step) < EPS then None
    else
      var k := (sv - l.center.0) / l.step;
      var t := l.center.1 + k * l.dt;
      if f.T0 - slack <= t <= f.T1 + slack then Some((sv, t)) else None
  }

  /** Hit with the horizontal edge `t = tv`; computed only when `|dt| >= EPS`,
      accepted when `s` is within `slack` of `[S0, S1]`. */
  function HorizontalHit(l: Line, f: Rect, tv: real, slack: real): (r: Option<Point>)
    ensures r.Some? ==> Abs(l.dt) >= EPS && r.value.1 == tv
    ensures r.Some? ==> f.S0 - slack <= r.value.0 <= f.S1 + slack
    ensures r.Some? ==> r.value.0 == l.center.0 + (tv - l.center.1) / l.dt * l.step
  {
    if Abs(l.dt) < EPS then None
    else
      var k := (tv - l.center.1) / l.dt;
      var s := l.center.0 + k * l.step;
      if f.S0 - slack <= s <= f.S1 + slack then Some((s, tv)) else None
  }

  /** A candidate hit survives only if the frame contains it. */
  function Keep(f: Rect, c: Option<Point>): (r: seq<Point>)
    ensures |r| <= 1
    ensures forall p :: p in r <==> c.Some? && c.value == p && ContainsPoint(f, p)
  {
    if c.Some? && ContainsPoint(f, c.value) then [c.value] else []
  }

  /** The four edges of the frame, in the order the source tries them. */
  datatype Edge = LeftEdge | RightEdge | BottomEdge | TopEdge

  const EdgeOrder: seq<Edge> := [LeftEdge, RightEdge, BottomEdge, TopEdge]

  /** The candidate hit of the line with one edge. */
  function EdgeHit(l: Line, f: Rect, e: Edge, slack: real): Option<Point> {
    match e
    case LeftEdge => VerticalHit(l, f, f.S0, slack)
    case RightEdge => VerticalHit(l, f, f.S1, slack)
    case BottomEdge => HorizontalHit(l, f, f.T0, slack)
    case TopEdge => HorizontalHit(l, f, f.T1, slack)
  }

  /** The in-frame hits with the edges `es`, in that order. */
  function HitsAlong(l: Line, f: Rect, slack: real, es: seq<Edge>): (r: seq<Point>)
    ensures |r| <= |es|
    ensures forall p :: p in r ==> ContainsPoint(f, p)
    decreases |es|
  {
    if es == [] then [] else Keep(f, EdgeHit(l, f, es[0], slack)) + HitsAlong(l, f, slack, es[1..])
  }

  /** A candidate the frame contains is among the hits of any edge list that
      includes its edge. */
  lemma {:induction false} HitIn(l: Line, f: Rect, slack: real, es: seq<Edge>, e: Edge, p: Point)
    requires e in es && EdgeHit(l, f, e, slack) == Some(p) && ContainsPoint(f, p)
    ensures p in HitsAlong(l, f, slack, es)
    decreases |es|
  {
    if es[0] != e {
      HitIn(l, f, slack, es[1..], e, p);
    }
  }

  /** Conversely every hit is the candidate of one of the edges. */
  lemma {:induction false} HitFrom(l: Line, f: Rect, slack: real, es: seq<Edge>, p: Point) returns (e: Edge)
    requires p in HitsAlong(l, f, slack, es)
    ensures e in es && EdgeHit(l, f, e, slack) == Some(p)
    decreases |es|
  {
    if p in Keep(f, EdgeHit(l, f, es[0], slack)) {
      e := es[0];
    } else {
      e := HitFrom(l, f, slack, es[1..], p);
    }
  }

  /** `_find_boundary_intersections`: the edges are tried in the order
      S0, S1, T0, T1. */
  function Intersections(l: Line, f: Rect, slack: real): (r: seq<Point>)
    ensures |r| <= 4
    ensures forall p :: p in r ==> ContainsPoint(f, p)
  {
    HitsAlong(l, f, slack, EdgeOrder)
  }

  /** The hit list written out edge by edge. */
  lemma HitsOfEdges(l: Line, f: Rect, slack: real)
    ensures Intersections(l, f, slack)
      == Keep(f, VerticalHit(l, f, f.S0, slack)) + Keep(f, VerticalHit(l, f, f.S1, slack))
       + Keep(f, HorizontalHit(l, f, f.T0, slack)) + Keep(f, HorizontalHit(l, f, f.T1, slack))
  {
    var es := EdgeOrder;
    assert es[1..] == [RightEdge, BottomEdge, TopEdge];
    assert es[1..][1..] == [BottomEdge, TopEdge];
    assert es[1..][1..][1..] == [TopEdge];
    assert es[1..][1..][1..][1..] == [];
    assert HitsAlong(l, f, slack, [TopEdge]) == Keep(f, HorizontalHit(l, f, f.T1, slack));
  }

  /** Every hit lies on an edge of the frame, and exists only because the
      increment along that edge's normal is not degenerate. */
  lemma HitOnEdge(l: Line, f: Rect, slack: real, p: Point)
    requires p in Intersections(l, f, slack)
    ensures p.0 == f.S0 || p.0 == f.S1 || p.1 == f.T0 || p.1 == f.T1
    ensures Abs(l.step) >= EPS || Abs(l.dt) >= EPS
  {
    var e := HitFrom(l, f, slack, EdgeOrder, p);
  }

  /** The `EPS` slack on the transverse coordinate never matters: the
      inclusive containment test that follows it rejects exactly what a
      strict test would. Both implementations therefore find the same hits. */
  lemma SlackAbsorbed(l: Line, f: Rect, slack: real)
    requires slack >= 0.0
    ensures Intersections(l, f, slack) == Intersections(l, f, 0.0)
  {
    SlackAbsorbedAlong(l, f, slack, EdgeOrder);
  }

  lemma {:induction false} SlackAbsorbedAlong(l: Line, f: Rect, slack: real, es: seq<Edge>)
    requires slack >= 0.0
    ensures HitsAlong(l, f, slack, es) == HitsAlong(l, f, 0.0, es)
    decreases |es|
  {
    if es != [] {
      SlackAbsorbedAlong(l, f, slack, es[1..]);
      assert Keep(f, EdgeHit(l, f, es[0], slack)) == Keep(f, EdgeHit(l, f, es[0], 0.0));
    }
  }

  /** Index of the first element of a stable sort by `s`: the earliest of the
      points with the least `s`. */
  function FirstMinIndex(ps: seq<Point>): (r: nat)
    requires |ps| > 0
    ensures r < |ps|
    ensures forall n :: 0 <= n < |ps| ==> ps[r].0 <= ps[n].0
    ensures forall n :: 0 <= n < r ==> ps[n].0 > ps[r].0
    decreases |ps|
  {
    if |ps| == 1 then 0
    else
      var r := FirstMinIndex(ps[..|ps| - 1]);
      if ps[|ps| - 1].0 < ps[r].0 then |ps| - 1 else r
  }

  /** Index of the last element of a stable sort by `s`: the latest of the
      points with the greatest `s`. */
  function LastMaxIndex(ps: seq<Point>): (r: nat)
    requires |ps| > 0
    ensures r < |ps|
    ensures forall n :: 0 <= n < |ps| ==> ps[n].0 <= ps[r].0
    ensures forall n :: r < n < |ps| ==> ps[n].0 < ps[r].0
    decreases |ps|
  {
    if |ps| == 1 then 0
    else
      var r := LastMaxIndex(ps[..|ps| - 1]);
      if ps[|ps| - 1].0 >= ps[r].0 then |ps| - 1 else r
  }

  /** `_set_boundary_nodes`: first and last of the hits sorted by `s`, or
      `(None, None)` when there is no hit. */
  function BoundaryNodes(hits: seq<Point>): (r: Option<(Point, Point)>)
    ensures r.None? <==> |hits| == 0
    ensures r.Some? ==> r.value.0 in hits && r.value.1 in hits
    ensures r.Some? ==> r.value.0.0 <= r.value.1.0
    ensures r.Some? ==> forall p :: p in hits ==> r.value.0.0 <= p.0 <= r.value.1.0
  {
    if |hits| == 0 then None
    else Some((hits[FirstMinIndex(hits)], hits[LastMaxIndex(hits)]))
  }

  /** `_calculate_k` as written: the offset is measured along `s` when
      `|step| > 1e-10` and along `t` otherwise, which divides by zero when
      `|step|` is exactly `EPS` and `dt` is zero. */
  function CalculateKAsWritten(l: Line, p: Point): (r: Result<int>)
    ensures r.Err? <==> Abs(l.step) <= EPS && l.dt == 0.0
  {
    if Abs(l.step) > EPS then Ok(PyRound((p.0 - l.center.0) / l.step))
    else if l.dt == 0.0 then Err(ZeroDivisionError("float division by zero"))
    else Ok(PyRound((p.1 - l.center.1) / l.dt))
  }

  /** `_calculate_k` with the guard of the vertical-edge test (`|step| >= EPS`),
      so that a line whose hits were computed along `s` is measured along `s`. */
  function CalculateK(l: Line, p: Point): (r: int)
    requires Abs(l.step) >= EPS || l.dt != 0.0
  {
    if Abs(l.step) >= EPS then PyRound((p.0 - l.center.0) / l.step)
    else PyRound((p.1 - l.center.1) / l.dt)
  }

  /** Every hit was computed by dividing by a non-degenerate increment, so the
      corrected offset computation always has a divisor. */
  lemma HitsHaveDivisor(l: Line, f: Rect, slack: real)
    requires |Intersections(l, f, slack)| > 0
    ensures Abs(l.step) >= EPS || l.dt != 0.0
  {
    HitOnEdge(l, f, slack, Intersections(l, f, slack)[0]);
  }

  /** A hit lies on the line: when both increments are non-zero, its offset
      measured along `s` equals its offset measured along `t`. */
  lemma HitOnLine(l: Line, f: Rect, slack: real, p: Point)
    requires p in Intersections(l, f, slack) && l.step != 0.0 && l.dt != 0.0
    ensures (p.0 - l.center.0) / l.step == (p.1 - l.center.1) / l.dt
  {
    var e := HitFrom(l, f, slack, EdgeOrder, p);
    match e
    case LeftEdge => VerticalOnLine(l, f, f.S0, slack, p);
    case RightEdge => VerticalOnLine(l, f, f.S1, slack, p);
    case BottomEdge => HorizontalOnLine(l, f, f.T0, slack, p);
    case TopEdge => HorizontalOnLine(l, f, f.T1, slack, p);
  }

  lemma VerticalOnLine(l: Line, f: Rect, sv: real, slack: real, p: Point)
    requires VerticalHit(l, f, sv, slack) == Some(p) && l.dt != 0.0
    ensures (p.0 - l.center.0) / l.step == (p.1 - l.center.1) / l.dt
  {
    var q := (p.0 - l.center.0) / l.step;
    assert p.1 - l.center.1 == q * l.dt;
    QuotientOfProduct(q, l.dt);
  }

  lemma HorizontalOnLine(l: Line, f: Rect, tv: real, slack: real, p: Point)
    requires HorizontalHit(l, f, tv, slack) == Some(p) && l.step != 0.0
    ensures (p.0 - l.center.0) / l.step == (p.1 - l.center.1) / l.dt
  {
    var q := (p.1 - l.center.1) / l.dt;
    assert p.0 - l.center.0 == q * l.step;
    QuotientOfProduct(q, l.step);
  }

  lemma QuotientOfProduct(q: real, d: real)
    requires d != 0.0
    ensures (q * d) / d == q
  {
  }

  /** Wherever the offset as written exists for a hit, it is the corrected
      offset: the two differ only in which coordinate they measure when
      `|step|` is exactly `EPS`, and on the line both give the same ratio. */
  lemma KAsWrittenOnHit(l: Line, f: Rect, slack: real, p: Point)
    requires p in Intersections(l, f, slack) && CalculateKAsWritten(l, p).Ok?
    ensures Abs(l.step) >= EPS || l.dt != 0.0
    ensures CalculateKAsWritten(l, p).value == CalculateK(l, p)
  {
    if Abs(l.step) == EPS {
      HitOnLine(l, f, slack, p);
    }
  }

  /** A horizontal line whose `step` is exactly `EPS`, through the centre of
      `[0,10] x [0,5]`: the vertical-edge test computes its left hit, and the
      offset of that hit, as written, divides by `dt = 0`; the corrected
      offset is measured along `s`. */
  lemma DegenerateStepExample()
    ensures var l, f := Line((5.0, 2.5), 0.0, EPS), Rect(0.0, 10.0, 0.0, 5.0);
      && (0.0, 2.5) in Intersections(l, f, 0.0)
      && CalculateKAsWritten(l, (0.0, 2.5)).Err?
      && CalculateK(l, (0.0, 2.5)) == -50000000000
  {
    var l, f := Line((5.0, 2.5), 0.0, EPS), Rect(0.0, 10.0, 0.0, 5.0);
    assert VerticalHit(l, f, f.S0, 0.0) == Some((0.0, 2.5));
    HitIn(l, f, 0.0, EdgeOrder, LeftEdge, (0.0, 2.5));
    assert (0.0 - 5.0) / EPS == -50000000000.0;
  }

  /** The corrected offset agrees with the source wherever the source does
      not fail. */
  lemma CalculateKAgrees(l: Line, p: Point)
    requires Abs(l.step) != EPS
    requires CalculateKAsWritten(l, p).Ok?
    ensures CalculateKAsWritten(l, p).value == CalculateK(l, p)
  {
  }

  /** The offsets `k` in `[kl, kr]` whose lattice point is in the frame. */
  function InternalNodes(l: Line, f: Rect, kl: int, kr: int): (r: map<int, Point>)
    ensures forall k :: k in r <==> kl <= k <= kr && ContainsPoint(f, PointAt(l, k))
    ensures forall k :: k in r ==> r[k] == PointAt(l, k) && ContainsPoint(f, r[k])
    ensures kr < kl ==> r == map[]
  {
    map k | kl <= k <= kr && ContainsPoint(f, PointAt(l, k)) :: PointAt(l, k)
  }

  /** The least offset in `[lo, hi]` whose point is in the frame (`min(k_array)`). */
  function FirstInside(l: Line, f: Rect, lo: int, hi: int): (r: Option<int>)
    ensures r.Some? ==> lo <= r.value <= hi && ContainsPoint(f, PointAt(l, r.value))
    ensures r.Some? ==> forall k :: lo <= k < r.value ==> !ContainsPoint(f, PointAt(l, k))
    ensures r.None? ==> forall k :: lo <= k <= hi ==> !ContainsPoint(f, PointAt(l, k))
    decreases hi - lo
  {
    if hi < lo then None
    else if ContainsPoint(f, PointAt(l, lo)) then Some(lo)
    else FirstInside(l, f, lo + 1, hi)
  }

  /** The greatest offset in `[lo, hi]` whose point is in the frame (`max(k_array)`). */
  function LastInside(l: Line, f: Rect, lo: int, hi: int): (r: Option<int>)
    ensures r.Some? ==> lo <= r.value <= hi && ContainsPoint(f, PointAt(l, r.value))
    ensures r.Some? ==> forall k :: r.value < k <= hi ==> !ContainsPoint(f, PointAt(l, k))
    ensures r.None? ==> forall k :: lo <= k <= hi ==> !ContainsPoint(f, PointAt(l, k))
    decreases hi - lo
  {
    if hi < lo then None
    else if ContainsPoint(f, PointAt(l, hi)) then Some(hi)
    else LastInside(l, f, lo, hi - 1)
  }

  /** The in-frame offsets of a line form a contiguous run: the frame is
      convex, so the lattice points between two inside points are inside too.
      Hence a characteristic's internal nodes have no gaps. */
  lemma InsideContiguous(l: Line, f: Rect, a: int, k: int, b: int)
    requires ContainsPoint(f, PointAt(l, a)) && ContainsPoint(f, PointAt(l, b))
    requires a <= k <= b
    ensures ContainsPoint(f, PointAt(l, k))
  {
    if a < b {
      var lambda := (k - a) as real / (b - a) as real;
      UnitRatio(a, k, b);
      LatticeInterpolation(l, a, k, b);
      ContainsConvex(f, PointAt(l, a), PointAt(l, b), lambda);
    }
  }

  lemma UnitRatio(a: int, k: int, b: int)
    requires a <= k <= b && a < b
    ensures 0.0 <= (k - a) as real / (b - a) as real <= 1.0
  {
    assert (k - a) as real <= (b - a) as real;
  }

  lemma LatticeInterpolation(l: Line, a: int, k: int, b: int)
    requires a <= k <= b && a < b
    ensures var lambda := (k - a) as real / (b - a) as real;
      && PointAt(l, k).0 == PointAt(l, a).0 + lambda * (PointAt(l, b).0 - PointAt(l, a).0)
      && PointAt(l, k).1 == PointAt(l, a).1 + lambda * (PointAt(l, b).1 - PointAt(l, a).1)
  {
    var lambda := (k - a) as real / (b - a) as real;
    assert lambda * (b - a) as real == (k - a) as real;
    assert PointAt(l, b).0 - PointAt(l, a).0 == (b - a) as real * l.step;
    assert PointAt(l, b).1 - PointAt(l, a).1 == (b - a) as real * l.dt;
    assert lambda * ((b - a) as real * l.step) == (k - a) as real * l.step;
    assert lambda * ((b - a) as real * l.dt) == (k - a) as real * l.dt;
  }
}

