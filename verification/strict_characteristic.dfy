/** The strict characteristic: edge hits without slack, internal nodes at
    every in-frame offset between the boundary offsets, and a `get_node` that
    answers only for internal nodes. Construction fails, as written, only
    for a horizontal line whose `|step|` is exactly `EPS`: its hits are
    computed along `s` but `_calculate_k` then measures along `t` and
    divides by `dt = 0`. `BuildIntended` measures along `s` there. */
module StrictCharacteristic {
  import opened Common
  import opened Rectangle
  import opened Characteristic
  import opened CharacteristicReach

  /** The state after construction: `boundary_nodes` (absent as a pair when
      there is no hit) and `internal_nodes`. */
  datatype Nodes = Nodes(bounds: Option<(Point, Point)>, internal: map<int, Point>)

  /** The constructor as written: the offsets of the two boundary nodes come
      from `_calculate_k`, whose division by zero propagates. */
  function Build(l: Line, f: Rect): (r: Result<Nodes>)
    ensures r.Err? <==> |Intersections(l, f, 0.0)| > 0 && Abs(l.step) <= EPS && l.dt == 0.0
    ensures r.Err? ==> r.error.ZeroDivisionError?
    ensures r.Ok? ==> r.value.bounds == BoundaryNodes(Intersections(l, f, 0.0))
    ensures r.Ok? && r.value.bounds.None? ==> r.value.internal == map[]
    ensures r.Ok? ==> forall k :: k in r.value.internal ==>
      r.value.internal[k] == PointAt(l, k) && ContainsPoint(f, PointAt(l, k))
    ensures r.Ok? && r.value.bounds.Some? ==>
      && CalculateKAsWritten(l, r.value.bounds.value.0).Ok?
      && CalculateKAsWritten(l, r.value.bounds.value.1).Ok?
      && forall k :: k in r.value.internal ==>
           CalculateKAsWritten(l, r.value.bounds.value.0).value <= k
           <= CalculateKAsWritten(l, r.value.bounds.value.1).value
  {
    var hits := Intersections(l, f, 0.0);
    if |hits| == 0 then Ok(Nodes(None, map[]))
    else
      var (left, right) := BoundaryNodes(hits).value;
      match (CalculateKAsWritten(l, left), CalculateKAsWritten(l, right))
      case (Ok(kl), Ok(kr)) => Ok(Nodes(Some((left, right)), InternalNodes(l, f, kl, kr)))
      case (Err(e), _) => Err(e)
      case (_, Err(e)) => Err(e)
  }

  /** The constructor with the corrected offset, which cannot fail. */
  function BuildIntended(l: Line, f: Rect): (r: Nodes)
    ensures r.bounds == BoundaryNodes(Intersections(l, f, 0.0))
    ensures r.bounds.None? ==> r.internal == map[]
    ensures forall k :: k in r.internal ==>
      r.internal[k] == PointAt(l, k) && ContainsPoint(f, PointAt(l, k))
    ensures r.bounds.Some? ==> forall k :: k in r.internal ==>
      CalculateK(l, r.bounds.value.0) <= k <= CalculateK(l, r.bounds.value.1)
  {
    var hits := Intersections(l, f, 0.0);
    if |hits| == 0 then Nodes(None, map[])
    else
      HitsHaveDivisor(l, f, 0.0);
      var (left, right) := BoundaryNodes(hits).value;
      Nodes(Some((left, right)), InternalNodes(l, f, CalculateK(l, left), CalculateK(l, right)))
  }

  /** Wherever the constructor as written succeeds it builds what the
      corrected one builds. */
  lemma BuildAgrees(l: Line, f: Rect)
    requires Build(l, f).Ok?
    ensures Build(l, f).value == BuildIntended(l, f)
  {
    var hits := Intersections(l, f, 0.0);
    if |hits| > 0 {
      var (left, right) := BoundaryNodes(hits).value;
      KAsWrittenOnHit(l, f, 0.0, left);
      KAsWrittenOnHit(l, f, 0.0, right);
    }
  }

  /** `get_node`: the internal node at offset `k`, if any; never clamps. */
  function GetNode(c: Nodes, k: int): (r: Option<Point>)
    ensures r.Some? <==> k in c.internal
    ensures r.Some? ==> r.value == c.internal[k]
  {
    if k in c.internal then Some(c.internal[k]) else None
  }

  /** A line that misses the frame has no boundary nodes and no internal ones. */
  lemma MissYieldsNothing(l: Line, f: Rect)
    requires |Intersections(l, f, 0.0)| == 0
    ensures Build(l, f) == Ok(Nodes(None, map[]))
  {
  }

  /** A horizontal line (`dt = 0`) crossing the frame runs from `(S0, t0)` to
      `(S1, t0)` when `|step|` exceeds `EPS`. */
  lemma HorizontalLineBounds(l: Line, f: Rect)
    requires l.dt == 0.0 && Abs(l.step) > EPS
    requires WellFormed(f) && f.T0 <= l.center.1 <= f.T1
    ensures Build(l, f).Ok?
    ensures Build(l, f).value.bounds == Some(((f.S0, l.center.1), (f.S1, l.center.1)))
  {
    HorizontalHits(l, f);
  }

  /** The same line with `|step|` exactly `EPS` makes the constructor divide
      by zero. */
  lemma HorizontalLineAtEps(l: Line, f: Rect)
    requires l.dt == 0.0 && Abs(l.step) == EPS
    requires WellFormed(f) && f.T0 <= l.center.1 <= f.T1
    ensures Build(l, f).Err? && Build(l, f).error.ZeroDivisionError?
  {
    HorizontalHits(l, f);
  }

  lemma HorizontalHits(l: Line, f: Rect)
    requires l.dt == 0.0 && Abs(l.step) >= EPS
    requires WellFormed(f) && f.T0 <= l.center.1 <= f.T1
    ensures Intersections(l, f, 0.0) == [(f.S0, l.center.1), (f.S1, l.center.1)]
  {
    var t0 := l.center.1;
    assert VerticalHit(l, f, f.S0, 0.0) == Some((f.S0, t0));
    assert VerticalHit(l, f, f.S1, 0.0) == Some((f.S1, t0));
    assert HorizontalHit(l, f, f.T0, 0.0) == None;
    assert HorizontalHit(l, f, f.T1, 0.0) == None;
    HitsOfEdges(l, f, 0.0);
  }

  /** A vertical line (`step = 0`) crossing the frame runs from `(s0, T0)` to
      `(s0, T1)`: the stable sort keeps the bottom hit first. */
  lemma VerticalLineBounds(l: Line, f: Rect)
    requires l.step == 0.0 && Abs(l.dt) >= EPS
    requires WellFormed(f) && f.S0 <= l.center.0 <= f.S1
    ensures Build(l, f).Ok?
    ensures Build(l, f).value.bounds == Some(((l.center.0, f.T0), (l.center.0, f.T1)))
  {
    var s0 := l.center.0;
    assert VerticalHit(l, f, f.S0, 0.0) == None;
    assert VerticalHit(l, f, f.S1, 0.0) == None;
    assert HorizontalHit(l, f, f.T0, 0.0) == Some((s0, f.T0));
    assert HorizontalHit(l, f, f.T1, 0.0) == Some((s0, f.T1));
    var hits := Intersections(l, f, 0.0);
    assert hits == [(s0, f.T0), (s0, f.T1)] by {
      HitsOfEdges(l, f, 0.0);
    }
  }

  /** Completeness of the corrected constructor: every in-frame lattice point
      of a rightward line whose time increment is zero or not degenerate is
      an internal node. */
  lemma IntendedEmitsLatticePoint(l: Line, f: Rect, k: int)
    requires l.step >= EPS
    requires Abs(l.dt) >= EPS || l.dt == 0.0
    requires ContainsPoint(f, PointAt(l, k))
    ensures k in BuildIntended(l, f).internal && BuildIntended(l, f).internal[k] == PointAt(l, k)
  {
    LatticePointBetweenBounds(l, f, 0.0, k);
  }

  /** Completeness as written, wherever the source constructor succeeds:
      every in-frame lattice point is an internal node. */
  lemma BuildEmitsLatticePoint(l: Line, f: Rect, k: int)
    requires l.step >= EPS
    requires Abs(l.dt) >= EPS || l.dt == 0.0
    requires l.step > EPS || l.dt != 0.0
    requires ContainsPoint(f, PointAt(l, k))
    ensures Build(l, f).Ok?
    ensures k in Build(l, f).value.internal && Build(l, f).value.internal[k] == PointAt(l, k)
  {
    IntendedEmitsLatticePoint(l, f, k);
    BuildAgrees(l, f);
  }
}
