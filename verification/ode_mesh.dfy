/** The boundary mesh of a concentrated block: a vertical line of nodes
    `(boundary_position, t)` over the time interval of the frame, with the
    time nodes given by a step `dt`, by a count `num_points`, or explicitly. */
module OdeMesh {
  import opened Common
  import opened Rectangle

  /** The configuration keys the mesh reads; the three discretisation keys
      are present or absent independently. */
  datatype Config = Config(
    S0: real, S1: real, T0: real, T1: real,
    boundaryPosition: real, boundarySide: Option<string>,
    dt: Option<real>, numPoints: Option<int>, mesh: Option<seq<real>>)

  datatype Mesh = Mesh(
    frame: Rect, position: real, side: string,
    dt: Option<real>, timeNodes: seq<real>, nodes: seq<Point>)

  /** `_build_nodes_with_dt`: `T0 + i*dt` for `i` in `range(int((T1 - T0)/dt) + 1)`. */
  function StepTimes(T0: real, T1: real, dt: real): (r: Result<seq<real>>)
    ensures r.Err? <==> dt == 0.0
    ensures r.Ok? ==> |r.value| == (if Trunc((T1 - T0) / dt) + 1 > 0 then Trunc((T1 - T0) / dt) + 1 else 0)
    ensures r.Ok? ==> forall i :: 0 <= i < |r.value| ==> r.value[i] == T0 + i as real * dt
  {
    if dt == 0.0 then Err(ZeroDivisionError("float division by zero"))
    else
      var n := Trunc((T1 - T0) / dt) + 1;
      Ok(seq(if n > 0 then n else 0, i => T0 + i as real * dt))
  }

  /** `_build_grid`: the time nodes inside `[T0, T1]`, in order, at the
      boundary position. */
  function Grid(f: Rect, position: real, times: seq<real>): (r: seq<Point>)
    ensures |r| <= |times|
    ensures forall p :: p in r ==> p.0 == position && f.T0 <= p.1 <= f.T1 && p.1 in times
    ensures forall t :: t in times && f.T0 <= t <= f.T1 ==> (position, t) in r
  {
    if |times| == 0 then []
    else
      (if f.T0 <= times[0] <= f.T1 then [(position, times[0])] else []) + Grid(f, position, times[1..])
  }

  /** The constructor: `dt` is consulted first, then `num_points`, then an
      explicit `mesh`; with none of them the configuration is rejected. */
  function Make(c: Config): (r: Result<Mesh>)
    ensures c.dt.None? && c.numPoints.None? && c.mesh.None? ==> r == Err(Exception("no mesh"))
    ensures c.dt.Some? ==> (r.Err? <==> c.dt.value == 0.0)
    ensures c.dt.None? && c.numPoints.Some? ==> (r.Err? <==> c.numPoints.value == 0 || c.T1 == c.T0)
    ensures c.dt.None? && c.numPoints.None? && c.mesh.Some? ==> r.Ok? && r.value.timeNodes == c.mesh.value
    ensures r.Ok? ==> r.value.nodes == Grid(r.value.frame, c.boundaryPosition, r.value.timeNodes)
    ensures r.Ok? ==> r.value.side == c.boundarySide.GetOr("left")
  {
    var f := Rect(c.S0, c.S1, c.T0, c.T1);
    var side := c.boundarySide.GetOr("left");
    var times: Result<(Option<real>, seq<real>)> :=
      if c.dt.Some? then
        match StepTimes(c.T0, c.T1, c.dt.value)
        case Ok(ts) => Ok((c.dt, ts))
        case Err(e) => Err(e)
      else if c.numPoints.Some? then
        if c.numPoints.value == 0 then Err(ZeroDivisionError("float division by zero"))
        else
          var dt := (c.T1 - c.T0) / c.numPoints.value as real;
          match StepTimes(c.T0, c.T1, dt)
          case Ok(ts) => Ok((Some(dt), ts))
          case Err(e) => Err(e)
      else if c.mesh.Some? then Ok((None, c.mesh.value))
      else Err(Exception("no mesh"));
    match times
    case Err(e) => Err(e)
    case Ok((dt, ts)) => Ok(Mesh(f, c.boundaryPosition, side, dt, ts, Grid(f, c.boundaryPosition, ts)))
  }

  /** `get_node`: the node at a valid index, `None` otherwise. */
  function GetNode(m: Mesh, k: int): (r: Option<Point>)
    ensures r.Some? <==> 0 <= k < |m.nodes|
    ensures r.Some? ==> r.value == m.nodes[k]
  {
    if 0 <= k < |m.nodes| then Some(m.nodes[k]) else None
  }

  /** Python list indexing: negative indices count from the end. */
  function PyIndex<T>(s: seq<T>, k: int): (r: Result<T>)
    ensures r.Ok? <==> -|s| <= k < |s|
    ensures r.Ok? && k >= 0 ==> r.value == s[k]
    ensures r.Ok? && k < 0 ==> r.value == s[|s| + k]
  {
    if 0 <= k < |s| then Ok(s[k])
    else if -|s| <= k < 0 then Ok(s[|s| + k])
    else Err(IndexError("list index out of range"))
  }

  datatype Preceding = Preceding(previous: Option<Point>, current: Point)

  /** `get_preceding_nodes`: index 0 has no predecessor; any other index
      reads the list at `k - 1` and `k` with Python's indexing. */
  function GetPreceding(m: Mesh, k: int): (r: Result<Preceding>)
    ensures k == 0 ==> (r.Ok? <==> |m.nodes| > 0)
    ensures k == 0 && r.Ok? ==> r.value == Preceding(None, m.nodes[0])
    ensures k != 0 ==> (r.Ok? <==> -|m.nodes| <= k - 1 && k < |m.nodes|)
  {
    if k == 0 then
      match PyIndex(m.nodes, 0)
      case Ok(cur) => Ok(Preceding(None, cur))
      case Err(e) => Err(e)
    else
      match PyIndex(m.nodes, k - 1)
      case Err(e) => Err(e)
      case Ok(prev) =>
        match PyIndex(m.nodes, k)
        case Err(e) => Err(e)
        case Ok(cur) => Ok(Preceding(Some(prev), cur))
  }

  /** `get_boundary_nodes`: the whole node list. */
  function GetBoundaryNodes(m: Mesh): (r: seq<Point>)
    ensures forall k :: GetNode(m, k).Some? <==> 0 <= k < |r|
    ensures forall k :: 0 <= k < |r| ==> GetNode(m, k) == Some(r[k])
  {
    m.nodes
  }

  /** Every boundary node of a constructed mesh lies on the boundary line
      within the frame's time interval, and the list is the one `get_node`
      indexes. */
  lemma BoundaryNodesOnLine(c: Config)
    requires Make(c).Ok?
    ensures forall p :: p in GetBoundaryNodes(Make(c).value) ==> p.0 == c.boundaryPosition && c.T0 <= p.1 <= c.T1
    ensures forall k :: 0 <= k < |GetBoundaryNodes(Make(c).value)| ==>
      GetNode(Make(c).value, k) == Some(GetBoundaryNodes(Make(c).value)[k])
  {
  }

  /** Inside the list the predecessor pair agrees with `get_node`. */
  lemma PrecedingAgreesWithGetNode(m: Mesh, k: int)
    requires 0 < k < |m.nodes|
    ensures GetPreceding(m, k) == Ok(Preceding(GetNode(m, k - 1), GetNode(m, k).value))
  {
  }

  /** Python's negative indexing lets `get_preceding_nodes(-1)` return the
      last two nodes instead of rejecting the index. */
  lemma NegativeIndexWraps(m: Mesh)
    requires |m.nodes| >= 2
    ensures GetPreceding(m, -1) == Ok(Preceding(Some(m.nodes[|m.nodes| - 2]), m.nodes[|m.nodes| - 1]))
    ensures GetNode(m, -1).None?
  {
  }

  /** The `n` points `(position, T0 + i*dt)`, `i = 0 .. n - 1`. */
  function SteppedLine(position: real, T0: real, dt: real, n: nat): seq<Point> {
    seq(n, i => (position, T0 + i as real * dt))
  }

  /** With a positive step and `T0 <= T1` no time node is filtered out: the
      nodes are `(position, T0 + i*dt)` for `i = 0 .. int((T1 - T0)/dt)`,
      all within the frame. */
  lemma StepNodesInFrame(c: Config)
    requires c.dt.Some? && c.dt.value > 0.0 && c.T0 <= c.T1
    ensures Make(c).Ok?
    ensures Trunc((c.T1 - c.T0) / c.dt.value) >= 0
    ensures Make(c).value.nodes == SteppedLine(c.boundaryPosition, c.T0, c.dt.value, Trunc((c.T1 - c.T0) / c.dt.value) + 1)
  {
    SteppedNodes(c, c.dt.value);
  }

  /** The grid of a stepped time list over the same interval keeps every
      time. */
  lemma {:induction false} GridOfSteps(f: Rect, position: real, dt: real)
    requires dt > 0.0 && f.T0 <= f.T1
    ensures Trunc((f.T1 - f.T0) / dt) >= 0
    ensures Grid(f, position, StepTimes(f.T0, f.T1, dt).value) == SteppedLine(position, f.T0, dt, Trunc((f.T1 - f.T0) / dt) + 1)
  {
    var ts := StepTimes(f.T0, f.T1, dt).value;
    StepTimesInFrame(f.T0, f.T1, dt);
    GridKeepsAll(f, position, ts);
  }

  /** The stepped node list in either step-driven mode. */
  lemma SteppedNodes(c: Config, dt: real)
    requires dt > 0.0 && c.T0 <= c.T1
    requires c.dt == Some(dt) || (c.dt.None? && c.numPoints.Some? && c.numPoints.value != 0
                                  && dt == (c.T1 - c.T0) / c.numPoints.value as real)
    ensures Make(c).Ok?
    ensures Trunc((c.T1 - c.T0) / dt) >= 0
    ensures Make(c).value.nodes == SteppedLine(c.boundaryPosition, c.T0, dt, Trunc((c.T1 - c.T0) / dt) + 1)
  {
    MakeByStep(c, dt);
    GridOfSteps(Rect(c.S0, c.S1, c.T0, c.T1), c.boundaryPosition, dt);
  }

  /** `Make` in the two step-driven modes, unfolded once. */
  lemma MakeByStep(c: Config, dt: real)
    requires dt != 0.0
    requires c.dt == Some(dt) || (c.dt.None? && c.numPoints.Some? && c.numPoints.value != 0
                                  && dt == (c.T1 - c.T0) / c.numPoints.value as real)
    ensures Make(c).Ok?
    ensures Make(c).value.nodes == Grid(Rect(c.S0, c.S1, c.T0, c.T1), c.boundaryPosition, StepTimes(c.T0, c.T1, dt).value)
  {
  }

  /** Every stepped time lies in `[T0, T1]`. */
  lemma StepTimesInFrame(T0: real, T1: real, dt: real)
    requires dt > 0.0 && T0 <= T1
    ensures forall i :: 0 <= i < |StepTimes(T0, T1, dt).value| ==> T0 <= StepTimes(T0, T1, dt).value[i] <= T1
  {
    var n := Trunc((T1 - T0) / dt);
    forall i | 0 <= i < |StepTimes(T0, T1, dt).value|
      ensures T0 <= StepTimes(T0, T1, dt).value[i] <= T1
    {
      TimeWithin(T0, T1, dt, i, n);
    }
  }

  lemma TimeWithin(T0: real, T1: real, dt: real, i: int, n: int)
    requires dt > 0.0 && T0 <= T1 && n == Trunc((T1 - T0) / dt) && 0 <= i <= n
    ensures T0 <= T0 + i as real * dt <= T1
  {
    assert i as real <= (T1 - T0) / dt;
    assert i as real * dt <= (T1 - T0) / dt * dt;
  }

  /** When every time lies in the frame, the grid keeps all of them in order. */
  lemma {:induction false} GridKeepsAll(f: Rect, position: real, times: seq<real>)
    requires forall i :: 0 <= i < |times| ==> f.T0 <= times[i] <= f.T1
    ensures |Grid(f, position, times)| == |times|
    ensures forall i :: 0 <= i < |times| ==> Grid(f, position, times)[i] == (position, times[i])
  {
    if |times| > 0 {
      GridKeepsAll(f, position, times[1..]);
    }
  }

  /** `num_points` divides the interval exactly: `int((T1 - T0)/dt)` is `n`. */
  lemma CountStep(T0: real, T1: real, n: int)
    requires n > 0 && T0 < T1
    ensures (T1 - T0) / n as real > 0.0
    ensures Trunc((T1 - T0) / ((T1 - T0) / n as real)) == n
    ensures T0 + n as real * ((T1 - T0) / n as real) == T1
  {
    var dt := (T1 - T0) / n as real;
    assert dt * n as real == T1 - T0;
    assert (T1 - T0) / dt == n as real;
  }

  /** With `num_points = n > 0` over a non-degenerate interval the nodes
      are the `n + 1` points `T0 + i*(T1 - T0)/n`; by `CountStep` and
      `LineEnd` the last of them is at `T1`. */
  lemma {:induction false} CountNodes(c: Config, n: int)
    requires c.dt.None? && c.numPoints == Some(n) && n > 0 && c.T0 < c.T1
    ensures Make(c).Ok?
    ensures Make(c).value.nodes == SteppedLine(c.boundaryPosition, c.T0, (c.T1 - c.T0) / n as real, n + 1)
  {
    CountStep(c.T0, c.T1, n);
    SteppedNodes(c, (c.T1 - c.T0) / n as real);
  }

  /** The last of `n + 1` stepped points lands on `T1` when `n` steps span
      the interval. */
  lemma LineEnd(position: real, T0: real, T1: real, dt: real, n: nat)
    requires T0 + n as real * dt == T1
    ensures |SteppedLine(position, T0, dt, n + 1)| == n + 1
    ensures SteppedLine(position, T0, dt, n + 1)[n] == (position, T1)
  {
    var p := SteppedLine(position, T0, dt, n + 1)[n];
    assert p.0 == position && p.1 == T0 + n as real * dt;
  }
}
