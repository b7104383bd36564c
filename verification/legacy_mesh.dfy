/** The older mesh implementation kept beside the current one: its own
    characteristic class (hits by `_intersection`, a symmetric offset range
    `-count..count`, no rounding of the boundary offsets) and a mesh that
    looks nodes up through the characteristics instead of storing them. */
module LegacyMesh {
  import opened Common
  import opened Rectangle
  import opened Discretization
  import opened Characteristic
  import opened CharacteristicReach
  import opened CharacteristicMesh

  /** `_intersection(x, x0, y0, dx, dy, yl, yr)`: where the line through
      `(x0, y0)` with increments `(dx, dy)` reaches `x`, provided the
      increment `dx` is not degenerate and the crossing is within `[yl, yr]`. */
  function Crossing(x: real, x0: real, y0: real, dx: real, dy: real, yl: real, yr: real): (r: Option<real>)
    ensures Abs(dx) < EPS ==> r.None?
    ensures r.Some? ==> yl <= r.value <= yr
    ensures r.Some? ==> r.value == y0 + (x - x0) / dx * dy
  {
    if Abs(dx) < EPS then None
    else
      var y := y0 + (x - x0) / dx * dy;
      if yl <= y && y <= yr then Some(y) else None
  }

  /** The candidate hit of one edge: the transverse coordinate comes from
      `_intersection`, the other is the edge's own. */
  function LegacyEdgeHit(l: Line, f: Rect, e: Edge): Option<Point> {
    var (s0, t0) := l.center;
    match e
    case LeftEdge =>
      (match Crossing(f.S0, s0, t0, l.step, l.dt, f.T0, f.T1) case None => None case Some(t) => Some((f.S0, t)))
    case RightEdge =>
      (match Crossing(f.S1, s0, t0, l.step, l.dt, f.T0, f.T1) case None => None case Some(t) => Some((f.S1, t)))
    case BottomEdge =>
      (match Crossing(f.T0, t0, s0, l.dt, l.step, f.S0, f.S1) case None => None case Some(s) => Some((s, f.T0)))
    case TopEdge =>
      (match Crossing(f.T1, t0, s0, l.dt, l.step, f.S0, f.S1) case None => None case Some(s) => Some((s, f.T1)))
  }

  /** The value `_intersection` returned for an edge: `t` on the vertical
      edges, `s` on the horizontal ones. */
  function Returned(e: Edge, p: Point): real {
    if e == LeftEdge || e == RightEdge then p.1 else p.0
  }

  /** How a returned value is checked: by Python truthiness, as written, which
      also rejects `0.0`; or against `None`, as intended. */
  datatype Test = Truthiness | NotNone

  predicate Accepted(test: Test, e: Edge, c: Option<Point>) {
    c.Some? && (test == NotNone || Returned(e, c.value) != 0.0)
  }

  /** `_find_boundary_intersections`, edge by edge in the order S0, S1, T0, T1. */
  function LegacyHitsAlong(l: Line, f: Rect, test: Test, es: seq<Edge>): (r: seq<Point>)
    ensures |r| <= |es|
    decreases |es|
  {
    if es == [] then []
    else
      var c := LegacyEdgeHit(l, f, es[0]);
      (if Accepted(test, es[0], c) then [c.value] else []) + LegacyHitsAlong(l, f, test, es[1..])
  }

  function LegacyHits(l: Line, f: Rect, test: Test): seq<Point> {
    LegacyHitsAlong(l, f, test, EdgeOrder)
  }

  /** `_intersection` finds the same candidates as the current implementation
      with no slack. */
  lemma SameCandidates(l: Line, f: Rect, e: Edge)
    ensures LegacyEdgeHit(l, f, e) == EdgeHit(l, f, e, 0.0)
  {
    match e
    case LeftEdge => SameVertical(l, f, f.S0);
    case RightEdge => SameVertical(l, f, f.S1);
    case BottomEdge => SameHorizontal(l, f, f.T0);
    case TopEdge => SameHorizontal(l, f, f.T1);
  }

  lemma SameVertical(l: Line, f: Rect, sv: real)
    ensures VerticalHit(l, f, sv, 0.0) ==
      match Crossing(sv, l.center.0, l.center.1, l.step, l.dt, f.T0, f.T1)
      case None => None
      case Some(t) => Some((sv, t))
  {
    var c := Crossing(sv, l.center.0, l.center.1, l.step, l.dt, f.T0, f.T1);
    var v := VerticalHit(l, f, sv, 0.0);
    if Abs(l.step) >= EPS {
      var t := l.center.1 + (sv - l.center.0) / l.step * l.dt;
      assert c.Some? <==> f.T0 <= t <= f.T1;
      assert v.Some? <==> f.T0 <= t <= f.T1;
      if c.Some? {
        assert v.value.1 == t;
        assert v.value.0 == sv;
        assert c.value == t;
        assert v.value == (sv, c.value);
        assert v == Some((sv, c.value));
      }
    }
  }

  lemma SameHorizontal(l: Line, f: Rect, tv: real)
    ensures HorizontalHit(l, f, tv, 0.0) ==
      match Crossing(tv, l.center.1, l.center.0, l.dt, l.step, f.S0, f.S1)
      case None => None
      case Some(s) => Some((s, tv))
  {
    var c := Crossing(tv, l.center.1, l.center.0, l.dt, l.step, f.S0, f.S1);
    var h := HorizontalHit(l, f, tv, 0.0);
    if Abs(l.dt) >= EPS {
      var s := l.center.0 + (tv - l.center.1) / l.dt * l.step;
      assert c.Some? <==> f.S0 <= s <= f.S1;
      assert h.Some? <==> f.S0 <= s <= f.S1;
      if c.Some? {
        assert h.value.0 == s;
        assert h.value.1 == tv;
        assert c.value == s;
        assert h.value == (c.value, tv);
      }
    }
  }

  /** With the intended test, and a frame whose edges are ordered, the older
      implementation finds exactly the hits of the current one. */
  lemma {:induction false} IntendedHitsAgree(l: Line, f: Rect, es: seq<Edge>)
    requires WellFormed(f)
    ensures LegacyHitsAlong(l, f, NotNone, es) == HitsAlong(l, f, 0.0, es)
    decreases |es|
  {
    if es != [] {
      SameCandidates(l, f, es[0]);
      IntendedHitsAgree(l, f, es[1..]);
    }
  }

  /** The state of the older characteristic. */
  datatype LegacyChar = LegacyChar(left: Option<Point>, right: Option<Point>, internal: map<int, Point>)

  /** The offsets of the boundary nodes, unrounded: along `s` when
      `|step| > 1e-10`, otherwise along `t`, which divides by `dt`. */
  function BoundaryOffsets(l: Line, left: Point, right: Point): (r: Result<(real, real)>)
    ensures r.Err? <==> Abs(l.step) <= EPS && l.dt == 0.0
    ensures r.Ok? && Abs(l.step) > EPS ==>
      r.value.0 * l.step == left.0 - l.center.0 && r.value.1 * l.step == right.0 - l.center.0
  {
    if Abs(l.step) > EPS then
      Ok(((left.0 - l.center.0) / l.step, (right.0 - l.center.0) / l.step))
    else if l.dt == 0.0 then Err(ZeroDivisionError("float division by zero"))
    else Ok(((left.1 - l.center.1) / l.dt, (right.1 - l.center.1) / l.dt))
  }

  /** The in-frame lattice points with offsets in `-count..count`. */
  function SymmetricNodes(l: Line, f: Rect, count: int): (r: map<int, Point>)
    ensures forall k :: k in r <==> -count <= k <= count && ContainsPoint(f, PointAt(l, k))
    ensures forall k :: k in r ==> r[k] == PointAt(l, k)
  {
    map k | -count <= k <= count && ContainsPoint(f, PointAt(l, k)) :: PointAt(l, k)
  }

  /** The constructor of the older characteristic. */
  function Build(l: Line, f: Rect, test: Test): (r: Result<LegacyChar>)
    ensures |LegacyHits(l, f, test)| == 0 ==> r == Ok(LegacyChar(None, None, map[]))
    ensures r.Err? <==> |LegacyHits(l, f, test)| > 0 && Abs(l.step) <= EPS && l.dt == 0.0
    ensures r.Ok? ==> (r.value.left.Some? <==> |LegacyHits(l, f, test)| > 0)
    ensures r.Ok? ==> r.value.left.Some? == r.value.right.Some?
    ensures r.Ok? ==> forall k :: k in r.value.internal ==>
      r.value.internal[k] == PointAt(l, k) && ContainsPoint(f, PointAt(l, k))
    ensures r.Ok? && |LegacyHits(l, f, test)| > 0 ==>
      (r.value.left.value, r.value.right.value) == BoundaryNodes(LegacyHits(l, f, test)).value
    ensures r.Ok? && |LegacyHits(l, f, test)| > 0 ==>
      var b := BoundaryNodes(LegacyHits(l, f, test)).value;
      var o := BoundaryOffsets(l, b.0, b.1);
      && o.Ok?
      && r.value.internal == SymmetricNodes(l, f, Trunc(Max(Abs(o.value.0), Abs(o.value.1))))
  {
    var hits := LegacyHits(l, f, test);
    if |hits| == 0 then Ok(LegacyChar(None, None, map[]))
    else
      var (left, right) := BoundaryNodes(hits).value;
      match BoundaryOffsets(l, left, right)
      case Err(e) => Err(e)
      case Ok((kl, kr)) =>
        Ok(LegacyChar(Some(left), Some(right), SymmetricNodes(l, f, Trunc(Max(Abs(kl), Abs(kr))))))
  }

  /** The counterexample: the line `(5 + k, 5 + k)` through the top edge of
      `[0,10] x [0,5]` meets the left and the bottom edge at the corner
      `(0, 0)`. Both calls of `_intersection` return `0.0`, which the
      truthiness test throws away, so the offsets `-5..-1` are lost although
      their points are in the frame. */
  lemma TruthinessDropsNodes()
    ensures var l, f := Line((5.0, 5.0), 1.0, 1.0), Rect(0.0, 10.0, 0.0, 5.0);
      && ContainsPoint(f, PointAt(l, -5))
      && Build(l, f, Truthiness) == Ok(LegacyChar(Some((5.0, 5.0)), Some((5.0, 5.0)), map[0 := (5.0, 5.0)]))
      && -5 in Build(l, f, NotNone).value.internal
  {
    var l, f := Line((5.0, 5.0), 1.0, 1.0), Rect(0.0, 10.0, 0.0, 5.0);
    ExampleHits();
    assert SymmetricNodes(l, f, 0) == map[0 := (5.0, 5.0)];
    IntendedEmitsLatticePoint(l, f, -5);
  }

  lemma ExampleCandidates()
    ensures var l, f := Line((5.0, 5.0), 1.0, 1.0), Rect(0.0, 10.0, 0.0, 5.0);
      && LegacyEdgeHit(l, f, LeftEdge) == Some((0.0, 0.0))
      && LegacyEdgeHit(l, f, RightEdge) == None
      && LegacyEdgeHit(l, f, BottomEdge) == Some((0.0, 0.0))
      && LegacyEdgeHit(l, f, TopEdge) == Some((5.0, 5.0))
  {
  }

  /** Of the three candidates of the example only the one off zero survives
      the truthiness test. */
  lemma ExampleHits()
    ensures var l, f := Line((5.0, 5.0), 1.0, 1.0), Rect(0.0, 10.0, 0.0, 5.0);
      LegacyHits(l, f, Truthiness) == [(5.0, 5.0)]
  {
    var l, f := Line((5.0, 5.0), 1.0, 1.0), Rect(0.0, 10.0, 0.0, 5.0);
    ExampleCandidates();
    HitsWritten(l, f, Truthiness);
  }

  /** The hit list written out edge by edge. */
  lemma HitsWritten(l: Line, f: Rect, test: Test)
    ensures LegacyHits(l, f, test)
      == (if Accepted(test, LeftEdge, LegacyEdgeHit(l, f, LeftEdge)) then [LegacyEdgeHit(l, f, LeftEdge).value] else [])
       + (if Accepted(test, RightEdge, LegacyEdgeHit(l, f, RightEdge)) then [LegacyEdgeHit(l, f, RightEdge).value] else [])
       + (if Accepted(test, BottomEdge, LegacyEdgeHit(l, f, BottomEdge)) then [LegacyEdgeHit(l, f, BottomEdge).value] else [])
       + (if Accepted(test, TopEdge, LegacyEdgeHit(l, f, TopEdge)) then [LegacyEdgeHit(l, f, TopEdge).value] else [])
  {
    var es := EdgeOrder;
    assert es[1..] == [RightEdge, BottomEdge, TopEdge];
    assert es[1..][1..] == [BottomEdge, TopEdge];
    assert es[1..][1..][1..] == [TopEdge];
    assert es[1..][1..][1..][1..] == [];
  }

  /** With the intended test, every in-frame lattice point of a line moving
      right by more than `EPS` per offset (and whose time increment is zero
      or not degenerate) is an internal node. */
  lemma IntendedEmitsLatticePoint(l: Line, f: Rect, k: int)
    requires WellFormed(f)
    requires l.step > EPS
    requires Abs(l.dt) >= EPS || l.dt == 0.0
    requires ContainsPoint(f, PointAt(l, k))
    ensures Build(l, f, NotNone).Ok?
    ensures k in Build(l, f, NotNone).value.internal
  {
    var count := IntendedCount(l, f, k);
    assert k in SymmetricNodes(l, f, count);
  }

  /** The count the constructor computes covers the offset of every in-frame
      lattice point. */
  lemma IntendedCount(l: Line, f: Rect, k: int) returns (count: int)
    requires WellFormed(f)
    requires l.step > EPS
    requires Abs(l.dt) >= EPS || l.dt == 0.0
    requires ContainsPoint(f, PointAt(l, k))
    ensures Build(l, f, NotNone).Ok?
    ensures Build(l, f, NotNone).value.internal == SymmetricNodes(l, f, count)
    ensures -count <= k <= count
  {
    IntendedBoundsEnclose(l, f, k);
    var bn := BoundaryNodes(LegacyHits(l, f, NotNone)).value;
    OffsetsEnclose(l, k, bn.0, bn.1);
    var ks := BoundaryOffsets(l, bn.0, bn.1).value;
    WithinCount(k, ks.0, ks.1);
    count := Trunc(Max(Abs(ks.0), Abs(ks.1)));
  }

  lemma IntendedBoundsEnclose(l: Line, f: Rect, k: int)
    requires WellFormed(f)
    requires l.step >= EPS
    requires Abs(l.dt) >= EPS || l.dt == 0.0
    requires ContainsPoint(f, PointAt(l, k))
    ensures BoundaryNodes(LegacyHits(l, f, NotNone)).Some?
    ensures BoundaryNodes(LegacyHits(l, f, NotNone)).value.0.0 <= PointAt(l, k).0
    ensures PointAt(l, k).0 <= BoundaryNodes(LegacyHits(l, f, NotNone)).value.1.0
  {
    IntendedHitsAgree(l, f, EdgeOrder);
    var hl, hr := HitsAround(l, f, 0.0, k);
    EncloseBetween(LegacyHits(l, f, NotNone), hl, hr, PointAt(l, k).0);
  }

  lemma OffsetsEnclose(l: Line, k: int, left: Point, right: Point)
    requires l.step > EPS
    requires left.0 <= PointAt(l, k).0 <= right.0
    ensures BoundaryOffsets(l, left, right).Ok?
    ensures BoundaryOffsets(l, left, right).value.0 <= k as real <= BoundaryOffsets(l, left, right).value.1
  {
    var x := k as real;
    var s0 := l.center.0;
    assert PointAt(l, k).0 - s0 == x * l.step;
    assert left.0 - s0 <= x * l.step && right.0 - s0 >= x * l.step;
    DivLeOfMulLe(left.0 - s0, x, l.step);
    DivGeOfMulGe(right.0 - s0, x, l.step);
    assert BoundaryOffsets(l, left, right) == Ok(((left.0 - s0) / l.step, (right.0 - s0) / l.step));
  }

  /** An integer between two reals lies in the symmetric range of the
      truncated larger magnitude. */
  lemma WithinCount(k: int, kl: real, kr: real)
    requires kl <= k as real <= kr
    ensures -Trunc(Max(Abs(kl), Abs(kr))) <= k <= Trunc(Max(Abs(kl), Abs(kr)))
  {
  }

  /** The steps of the older mesh: `m` first, then `h`; with neither, `ds`
      is never assigned and reading it raises. Every quantity is a numpy
      `float64`, so a vanishing step reaches the index ranges as numpy
      division by zero. */
  function LegacySetup(cfg: Config): (r: Result<Steps>)
    requires ValidSpeeds(cfg)
    ensures cfg.m.None? && cfg.h.None? <==> r == Err(UnboundLocalError("local variable 'ds' referenced before assignment"))
    ensures cfg.m.Some? || cfg.h.Some? ==> (r.Ok? <==> Setup(cfg).Ok?)
    ensures r.Ok? ==> r.value == Setup(cfg).value.(numpy := true)
  {
    if cfg.m.None? && cfg.h.None? then Err(UnboundLocalError("local variable 'ds' referenced before assignment"))
    else
      match Setup(cfg)
      case Ok(st) => Ok(st.(numpy := true))
      case Err(e) => Err(e)
  }

  /** A characteristic is kept if it has internal nodes or a left boundary node. */
  predicate Kept(c: LegacyChar) {
    |c.internal| > 0 || c.left.Some?
  }

  /** The constructor's result for a line whose time increment is not zero,
      which cannot fail. */
  function CharOf(l: Line, f: Rect, test: Test): (r: LegacyChar)
    requires l.dt != 0.0
    ensures Build(l, f, test) == Ok(r)
  {
    Build(l, f, test).value
  }

  datatype Legacy = Legacy(
    frame: Rect, center: Point, steps: Steps, ranges: Ranges,
    negative: map<int, LegacyChar>, positive: map<int, LegacyChar>)

  /** The older mesh's constructor: steps, ranges, then the negative and the
      positive family, with the hit test as a parameter. */
  function Make(cfg: Config, test: Test): (r: Result<Legacy>)
    requires ValidSpeeds(cfg)
    ensures r.Err? <==> LegacySetup(cfg).Err? || IndexRanges(FrameOf(cfg), LegacySetup(cfg).value).Err?
    ensures r.Ok? ==> r.value.frame == FrameOf(cfg) && r.value.center == Center(FrameOf(cfg))
    ensures r.Ok? ==> r.value.steps.ds != 0.0 && r.value.steps.dt1 != 0.0 && r.value.steps.dt2 != 0.0
    ensures r.Ok? ==> forall j :: j in r.value.negative ==>
      Build(NegativeLine(r.value.center, r.value.steps, j), r.value.frame, test) == Ok(r.value.negative[j])
      && Kept(r.value.negative[j])
    ensures r.Ok? ==> forall i :: i in r.value.positive ==>
      Build(PositiveLine(r.value.center, r.value.steps, i), r.value.frame, test) == Ok(r.value.positive[i])
      && Kept(r.value.positive[i])
    ensures r.Ok? ==> forall j ::
      (&& r.value.ranges.jMin <= j <= r.value.ranges.jMax
       && Kept(CharOf(NegativeLine(r.value.center, r.value.steps, j), r.value.frame, test)))
      ==> j in r.value.negative
    ensures r.Ok? ==> forall i ::
      (&& r.value.ranges.iMin <= i <= r.value.ranges.iMax
       && Kept(CharOf(PositiveLine(r.value.center, r.value.steps, i), r.value.frame, test)))
      ==> i in r.value.positive
  {
    var f := FrameOf(cfg);
    var c := Center(f);
    match LegacySetup(cfg)
    case Err(e) => Err(e)
    case Ok(st) =>
      match IndexRanges(f, st)
      case Err(e) => Err(e)
      case Ok(rg) =>
        LegacyStepsNonZero(cfg);
        Ok(Assemble(f, c, st, rg, test))
  }

  /** The ranges of the older mesh exist only for non-zero steps. */
  lemma LegacyStepsNonZero(cfg: Config)
    requires ValidSpeeds(cfg) && LegacySetup(cfg).Ok?
    requires IndexRanges(FrameOf(cfg), LegacySetup(cfg).value).Ok?
    ensures var st := LegacySetup(cfg).value; st.ds != 0.0 && st.dt1 != 0.0 && st.dt2 != 0.0
  {
    StepsVanishTogether(cfg);
  }

  /** The mesh from its steps and ranges: both families over the ranges. */
  function Assemble(f: Rect, c: Point, st: Steps, rg: Ranges, test: Test): (r: Legacy)
    requires st.ds != 0.0 && st.dt1 != 0.0 && st.dt2 != 0.0
    ensures r.frame == f && r.center == c && r.steps == st && r.ranges == rg
    ensures forall j :: j in r.negative ==>
      Build(NegativeLine(c, st, j), f, test) == Ok(r.negative[j]) && Kept(r.negative[j])
    ensures forall i :: i in r.positive ==>
      Build(PositiveLine(c, st, i), f, test) == Ok(r.positive[i]) && Kept(r.positive[i])
    ensures forall j :: rg.jMin <= j <= rg.jMax && Kept(CharOf(NegativeLine(c, st, j), f, test)) ==> j in r.negative
    ensures forall i :: rg.iMin <= i <= rg.iMax && Kept(CharOf(PositiveLine(c, st, i), f, test)) ==> i in r.positive
  {
    Legacy(f, c, st, rg, NegativeChars(f, c, st, rg.jMin, rg.jMax, test),
           PositiveChars(f, c, st, rg.iMin, rg.iMax, test))
  }

  function NegativeChars(f: Rect, c: Point, st: Steps, lo: int, hi: int, test: Test): (r: map<int, LegacyChar>)
    requires st.dt1 != 0.0
    ensures forall j :: j in r ==> Build(NegativeLine(c, st, j), f, test) == Ok(r[j]) && Kept(r[j])
    ensures forall j :: lo <= j <= hi && Kept(CharOf(NegativeLine(c, st, j), f, test)) ==> j in r
  {
    map j | lo <= j <= hi && Kept(CharOf(NegativeLine(c, st, j), f, test)) :: CharOf(NegativeLine(c, st, j), f, test)
  }

  function PositiveChars(f: Rect, c: Point, st: Steps, lo: int, hi: int, test: Test): (r: map<int, LegacyChar>)
    requires st.dt2 != 0.0
    ensures forall i :: i in r ==> Build(PositiveLine(c, st, i), f, test) == Ok(r[i]) && Kept(r[i])
    ensures forall i :: lo <= i <= hi && Kept(CharOf(PositiveLine(c, st, i), f, test)) ==> i in r
  {
    map i | lo <= i <= hi && Kept(CharOf(PositiveLine(c, st, i), f, test)) :: CharOf(PositiveLine(c, st, i), f, test)
  }

  /** The disjunct on internal nodes adds nothing: a characteristic is kept
      exactly when it has a left boundary node. */
  lemma KeptIffHit(l: Line, f: Rect, test: Test)
    requires Build(l, f, test).Ok?
    ensures Kept(Build(l, f, test).value) <==> Build(l, f, test).value.left.Some?
  {
  }

  /** `get_node(i, j)`: negative characteristic `j` at offset `i`, else
      positive characteristic `i` at offset `j`. A missing characteristic is
      a dictionary lookup that raises. */
  function GetNode(m: Legacy, i: int, j: int): (r: Result<Option<Point>>)
    ensures r.Err? <==> j !in m.negative || (i !in m.negative[j].internal && i !in m.positive)
    ensures r.Ok? && r.value.None? ==> i !in m.negative[j].internal && j !in m.positive[i].internal
  {
    if j !in m.negative then Err(KeyError("negative_chars has no key j"))
    else if i in m.negative[j].internal then Ok(Some(m.negative[j].internal[i]))
    else if i !in m.positive then Err(KeyError("positive_chars has no key i"))
    else if j in m.positive[i].internal then Ok(Some(m.positive[i].internal[j]))
    else Ok(None)
  }

  /** Whichever family answers, the node is the mesh's node `(i, j)`, and
      it lies in the frame. */
  lemma NodeIsLatticeNode(cfg: Config, test: Test, i: int, j: int)
    requires ValidSpeeds(cfg) && Make(cfg, test).Ok?
    requires GetNode(Make(cfg, test).value, i, j).Ok? && GetNode(Make(cfg, test).value, i, j).value.Some?
    ensures var m := Make(cfg, test).value; var p := GetNode(m, i, j).value.value;
      p == NodeAt(m.center, m.steps, i, j) && ContainsPoint(m.frame, p)
  {
    var m := Make(cfg, test).value;
    OnNegative(m.center, m.steps, i, j);
    OnPositive(m.center, m.steps, i, j);
  }

  /** `get_preceding_nodes`: the three lookups in the order left, right,
      centre; the first that raises decides the error. */
  function GetPreceding(m: Legacy, i: int, j: int): (r: Result<Preceding>)
    ensures r.Ok? <==> GetNode(m, i - 1, j).Ok? && GetNode(m, i, j - 1).Ok? && GetNode(m, i - 1, j - 1).Ok?
    ensures r.Ok? ==> r.value == Preceding(GetNode(m, i - 1, j).value, GetNode(m, i, j - 1).value,
                                           GetNode(m, i - 1, j - 1).value)
  {
    match GetNode(m, i - 1, j)
    case Err(e) => Err(e)
    case Ok(left) =>
      match GetNode(m, i, j - 1)
      case Err(e) => Err(e)
      case Ok(right) =>
        match GetNode(m, i - 1, j - 1)
        case Err(e) => Err(e)
        case Ok(center) => Ok(Preceding(left, right, center))
  }

  /** The boundary nodes of each characteristic, left then right, with no
      de-duplication. */
  function Flatten(chars: seq<LegacyChar>): (r: seq<Point>)
    ensures |r| <= 2 * |chars|
    ensures (forall n :: 0 <= n < |chars| ==> chars[n].left.Some? && chars[n].right.Some?) ==> |r| == 2 * |chars|
    ensures forall c :: c in chars && c.left.Some? ==> c.left.value in r
    ensures forall c :: c in chars && c.right.Some? ==> c.right.value in r
  {
    if |chars| == 0 then []
    else
      var c := chars[0];
      (if c.left.Some? then [c.left.value] else []) + (if c.right.Some? then [c.right.value] else [])
        + Flatten(chars[1..])
  }

  /** `get_boundary_nodes`: positive characteristics first, then negative. */
  function GetBoundaryNodes(m: Legacy): (r: seq<Point>)
    ensures forall i :: m.ranges.iMin <= i <= m.ranges.iMax && i in m.positive ==>
      (m.positive[i].left.Some? ==> m.positive[i].left.value in r)
      && (m.positive[i].right.Some? ==> m.positive[i].right.value in r)
    ensures forall j :: m.ranges.jMin <= j <= m.ranges.jMax && j in m.negative ==>
      (m.negative[j].left.Some? ==> m.negative[j].left.value in r)
      && (m.negative[j].right.Some? ==> m.negative[j].right.value in r)
  {
    var pos := InOrder(m.positive, Range(m.ranges.iMin, m.ranges.iMax));
    var neg := InOrder(m.negative, Range(m.ranges.jMin, m.ranges.jMax));
    RangeCovers(m.ranges.iMin, m.ranges.iMax);
    RangeCovers(m.ranges.jMin, m.ranges.jMax);
    assert forall c :: c in pos || c in neg ==> c in pos + neg;
    Flatten(pos + neg)
  }

  /** Every kept characteristic contributes both of its boundary nodes, even
      when another one has already listed them. */
  lemma BoundaryNodesNotDeduplicated(cfg: Config, test: Test)
    requires ValidSpeeds(cfg) && Make(cfg, test).Ok?
    ensures var m := Make(cfg, test).value;
      var chars := InOrder(m.positive, Range(m.ranges.iMin, m.ranges.iMax))
                 + InOrder(m.negative, Range(m.ranges.jMin, m.ranges.jMax));
      |GetBoundaryNodes(m)| == 2 * |chars|
  {
    var m := Make(cfg, test).value;
    var chars := InOrder(m.positive, Range(m.ranges.iMin, m.ranges.iMax))
               + InOrder(m.negative, Range(m.ranges.jMin, m.ranges.jMax));
    forall n | 0 <= n < |chars|
      ensures chars[n].left.Some? && chars[n].right.Some?
    {
      assert chars[n] in chars;
      assert chars[n] in m.positive.Values || chars[n] in m.negative.Values;
    }
  }
}
