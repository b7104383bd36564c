/** The node solver of the hyperbolic block: a 2x2 first-order system
    `x_t + C1 x_s = B11 x + B12 y + F1`, `y_t - C2 y_s = B21 x + B22 y + F2`
    integrated along the characteristic lattice. A solution maps node
    indices `(i, j)` to the pair `(x, y)`. Every node of a step is computed
    from the previous solution only: interior nodes by a trapezoidal 2x2
    solve between the left and right predecessors, nodes on `s = S0` and
    `s = S1` by the boundary rules, and the remaining nodes by averaging
    their solved neighbours. */
module HyperbolicSolver {
  import opened Common
  import opened Rectangle
  import opened Discretization
  import opened CharacteristicMesh

  type Key = (int, int)
  type Value = (real, real)
  type Solution = map<Key, Value>

  /** A coefficient callable `f(s, t)`. */
  type Field = (real, real) -> real

  datatype Coefficients = Coefficients(B11: Field, B12: Field, B21: Field, B22: Field, F1: Field, F2: Field)

  /** An `initial_x` or `initial_y` entry as the solver tests it: a callable,
      a truthy value that is not callable, or a falsy value. An absent entry
      defaults to the callable `lambda s: 0.0`. */
  datatype Initial = Callable(f: real -> real) | NotCallable | Falsy

  /** The default initial entry `lambda s: 0.0`. */
  function ZeroProfile(s: real): real {
    0.0
  }

  /** The configuration entries the solver reads. A boundary function is
      `None` when it is absent, falsy or not callable, the three cases the
      source treats alike. */
  datatype Problem = Problem(
    coeffs: Coefficients,
    left: Option<real -> real>, right: Option<real -> real>,
    initialX: Initial, initialY: Initial)

  /** Some initial entry is truthy, the condition under which an initial
      solution is built. */
  predicate HasInitial(p: Problem) {
    !p.initialX.Falsy? || !p.initialY.Falsy?
  }

  /** The default coefficient `lambda s, t: 0.0`. */
  function Zero(s: real, t: real): real {
    0.0
  }

  /** Every coefficient vanishes everywhere, as with the defaults. */
  ghost predicate Vanishing(co: Coefficients) {
    && (forall s, t :: co.B11(s, t) == 0.0) && (forall s, t :: co.B12(s, t) == 0.0)
    && (forall s, t :: co.B21(s, t) == 0.0) && (forall s, t :: co.B22(s, t) == 0.0)
    && (forall s, t :: co.F1(s, t) == 0.0) && (forall s, t :: co.F2(s, t) == 0.0)
  }

  /** `f(v)` for a callable, `0.0` otherwise. */
  function CallOr0(f: Option<real -> real>, v: real): real {
    match f
    case Some(g) => g(v)
    case None => 0.0
  }

  /** An initial entry's value at `s`: the call for a callable, `0.0`
      otherwise. */
  function InitialAt(e: Initial, s: real): real {
    match e
    case Callable(g) => g(s)
    case _ => 0.0
  }

  /** `solution.get(k, (0.0, 0.0))`. */
  function Lookup(sol: Solution, k: Key): Value {
    if k in sol then sol[k] else (0.0, 0.0)
  }

  /** Both coordinates agree within the tolerance. */
  predicate Near(p: Point, s: real, t: real) {
    Abs(p.0 - s) < EPS && Abs(p.1 - t) < EPS
  }

  // ---------------------------------------------------------------------
  // Reverse lookup of a node by its coordinates
  // ---------------------------------------------------------------------

  function Row(i: int, js: seq<int>): (r: seq<Key>)
    ensures |r| == |js|
    ensures forall n :: 0 <= n < |js| ==> r[n] == (i, js[n])
  {
    seq(|js|, n requires 0 <= n < |js| => (i, js[n]))
  }

  /** The index pairs in the order of the nested `for i ... for j` loops. */
  function Grid(ii: seq<int>, js: seq<int>): (r: seq<Key>)
    ensures forall k :: k in r <==> k.0 in ii && k.1 in js
  {
    if |ii| == 0 then [] else Row(ii[0], js) + Grid(ii[1..], js)
  }

  /** The insertion order of the mesh's node dictionary. */
  function NodeOrder(m: Mesh): seq<Key> {
    Grid(Range(m.ranges.iMin, m.ranges.iMax), Range(m.ranges.jMin, m.ranges.jMax))
  }

  /** The first key of `order` whose node lies within the tolerance of `(s, t)`. */
  function FirstNear(nodes: map<Key, Point>, order: seq<Key>, s: real, t: real): (r: Option<Key>)
    ensures r.Some? ==> r.value in nodes && Near(nodes[r.value], s, t)
    ensures r.None? <==> forall n :: 0 <= n < |order| && order[n] in nodes ==> !Near(nodes[order[n]], s, t)
    ensures r.Some? ==> exists n :: (0 <= n < |order| && order[n] == r.value
      && forall q :: 0 <= q < n && order[q] in nodes ==> !Near(nodes[order[q]], s, t))
  {
    if |order| == 0 then None
    else if order[0] in nodes && Near(nodes[order[0]], s, t) then Some(order[0])
    else
      var r := FirstNear(nodes, order[1..], s, t);
      assert forall n :: 1 <= n < |order| ==> order[n] == order[1..][n - 1];
      r
  }

  /** `_find_node_index`: the first node, in dictionary order, within the
      tolerance of `(s, t)` in both coordinates. */
  function FindNodeIndex(m: Mesh, s: real, t: real): (r: Option<Key>)
    ensures r.Some? ==> r.value in m.nodes && Near(m.nodes[r.value], s, t)
    ensures r.None? <==> forall k :: k in NodeOrder(m) && k in m.nodes ==> !Near(m.nodes[k], s, t)
  {
    var r := FirstNear(m.nodes, NodeOrder(m), s, t);
    assert r.None? <==> forall k :: k in NodeOrder(m) && k in m.nodes ==> !Near(m.nodes[k], s, t) by {
      if r.Some? {
        var n :| 0 <= n < |NodeOrder(m)| && NodeOrder(m)[n] == r.value;
      }
    }
    r
  }

  /** Every node of the mesh sits at its lattice position and within the
      index ranges, as the constructor builds it. */
  predicate Lattice(m: Mesh) {
    forall k :: k in m.nodes ==>
      m.nodes[k] == NodeAt(m.center, m.steps, k.0, k.1)
      && m.ranges.iMin <= k.0 <= m.ranges.iMax && m.ranges.jMin <= k.1 <= m.ranges.jMax
  }

  /** Steps large enough that distinct lattice nodes are farther apart than
      the tolerance. */
  predicate Separated(st: Steps) {
    st.ds >= EPS && st.dt1 + st.dt2 >= EPS
  }

  lemma MakeIsLattice(cfg: Config)
    requires ValidSpeeds(cfg) && Make(cfg).Ok?
    ensures Lattice(Make(cfg).value)
  {
  }

  /** A non-zero integer multiple of a positive step is at least the step. */
  lemma MultipleAtLeastStep(n: int, d: real)
    requires d > 0.0 && n != 0
    ensures Abs(n as real * d) >= d
  {
    if n >= 1 {
      assert n as real * d >= 1.0 * d;
    } else {
      assert (-n) as real * d >= 1.0 * d;
      assert n as real * d == -((-n) as real * d);
    }
  }

  /** An integer multiple of a step `d >= EPS` that is smaller than the
      tolerance is the zero multiple. */
  lemma SmallMultipleIsZero(n: int, d: real)
    requires d >= EPS && Abs(n as real * d) < EPS
    ensures n == 0
  {
    if n != 0 {
      MultipleAtLeastStep(n, d);
    }
  }

  /** Two lattice nodes within the tolerance of each other are the same node. */
  lemma {:induction false} LatticeSeparated(c: Point, st: Steps, i: int, j: int, i2: int, j2: int)
    requires Separated(st)
    requires Near(NodeAt(c, st, i, j), NodeAt(c, st, i2, j2).0, NodeAt(c, st, i2, j2).1)
    ensures i == i2 && j == j2
  {
    var p, p2 := NodeAt(c, st, i, j), NodeAt(c, st, i2, j2);
    var a := (i + j) - (i2 + j2);
    SpaceDifference(c, st, i, j, i2, j2);
    assert Abs(a as real * st.ds) < EPS;
    SmallMultipleIsZero(a, st.ds);
    TimeDifference(c, st, i, j, i2, j2);
    var b, d := i2 - i, st.dt1 + st.dt2;
    assert p.1 - p2.1 == b as real * d;
    assert Abs(b as real * d) < EPS;
    SmallMultipleIsZero(b, d);
  }

  lemma SpaceDifference(c: Point, st: Steps, i: int, j: int, i2: int, j2: int)
    ensures NodeAt(c, st, i, j).0 - NodeAt(c, st, i2, j2).0 == ((i + j) - (i2 + j2)) as real * st.ds
  {
  }

  /** Two nodes on the same anti-diagonal `i + j` differ in time by a
      multiple of `dt1 + dt2`. */
  lemma TimeDifference(c: Point, st: Steps, i: int, j: int, i2: int, j2: int)
    requires i + j == i2 + j2
    ensures NodeAt(c, st, i, j).1 - NodeAt(c, st, i2, j2).1 == (i2 - i) as real * (st.dt1 + st.dt2)
  {
    var b := i2 - i;
    assert j - j2 == b;
    var dT := NodeAt(c, st, i, j).1 - NodeAt(c, st, i2, j2).1;
    assert dT == -(i as real) * st.dt1 + j as real * st.dt2 + i2 as real * st.dt1 - j2 as real * st.dt2;
    assert dT == b as real * (st.dt1 + st.dt2);
  }

  /** The reverse lookup inverts `get_node`: the coordinates of node `k`
      lead back to `k`. */
  lemma {:induction false} FindNodeIndexInverts(m: Mesh, k: Key)
    requires Lattice(m) && Separated(m.steps) && k in m.nodes
    ensures FindNodeIndex(m, m.nodes[k].0, m.nodes[k].1) == Some(k)
  {
    var p := m.nodes[k];
    InRange(m.ranges.iMin, m.ranges.iMax, k.0);
    InRange(m.ranges.jMin, m.ranges.jMax, k.1);
    assert k in NodeOrder(m);
    assert Near(p, p.0, p.1);
    var r := FindNodeIndex(m, p.0, p.1);
    assert r.Some?;
    var k2 := r.value;
    assert m.nodes[k2] == NodeAt(m.center, m.steps, k2.0, k2.1);
    assert p == NodeAt(m.center, m.steps, k.0, k.1);
    LatticeSeparated(m.center, m.steps, k2.0, k2.1, k.0, k.1);
  }

  // ---------------------------------------------------------------------
  // Values read from predecessors
  // ---------------------------------------------------------------------

  /** The value of the previous solution at a predecessor point, found by
      reverse lookup; `(0, 0)` when there is no predecessor, no matching node
      or no stored value. */
  function ReadAt(m: Mesh, sol: Solution, q: Option<Point>): Value {
    match q
    case None => (0.0, 0.0)
    case Some(p) =>
      match FindNodeIndex(m, p.0, p.1)
      case None => (0.0, 0.0)
      case Some(k) => Lookup(sol, k)
  }

  /** On a lattice mesh the read through coordinates is the read by index:
      the predecessor's own entry of the previous solution, or `(0, 0)`. */
  lemma ReadAtIndex(m: Mesh, sol: Solution, k: Key)
    requires Lattice(m) && Separated(m.steps)
    ensures ReadAt(m, sol, GetNode(m, k.0, k.1)) == if k in m.nodes then Lookup(sol, k) else (0.0, 0.0)
  {
    if k in m.nodes {
      FindNodeIndexInverts(m, k);
    }
  }

  // ---------------------------------------------------------------------
  // The interior solve
  // ---------------------------------------------------------------------

  /** A linear system `[[a11, a12], [a21, a22]] * (x, y) = (b1, b2)`. */
  datatype System = System(a11: real, a12: real, a21: real, a22: real, b1: real, b2: real)

  function Det(sys: System): real {
    sys.a11 * sys.a22 - sys.a12 * sys.a21
  }

  predicate Solves(sys: System, v: Value) {
    sys.a11 * v.0 + sys.a12 * v.1 == sys.b1 && sys.a21 * v.0 + sys.a22 * v.1 == sys.b2
  }

  /** `np.linalg.solve` for a 2x2 system: the solution by Cramer's rule, or
      `None` (a `LinAlgError`) when the matrix is singular. */
  function Cramer(sys: System): (r: Option<Value>)
    ensures r.Some? <==> Det(sys) != 0.0
    ensures r.Some? ==> Solves(sys, r.value)
  {
    var d := Det(sys);
    if d == 0.0 then None
    else
      var x := (sys.b1 * sys.a22 - sys.a12 * sys.b2) / d;
      var y := (sys.a11 * sys.b2 - sys.a21 * sys.b1) / d;
      CramerSolves(sys, d, x, y);
      Some((x, y))
  }

  lemma CramerSolves(sys: System, d: real, x: real, y: real)
    requires d == Det(sys) && d != 0.0
    requires x * d == sys.b1 * sys.a22 - sys.a12 * sys.b2
    requires y * d == sys.a11 * sys.b2 - sys.a21 * sys.b1
    ensures Solves(sys, (x, y))
  {
    assert (sys.a11 * x + sys.a12 * y) * d == sys.b1 * d by {
      assert (sys.a11 * x + sys.a12 * y) * d == sys.a11 * (x * d) + sys.a12 * (y * d);
    }
    assert (sys.a21 * x + sys.a22 * y) * d == sys.b2 * d by {
      assert (sys.a21 * x + sys.a22 * y) * d == sys.a21 * (x * d) + sys.a22 * (y * d);
    }
    CancelFactor(sys.a11 * x + sys.a12 * y, sys.b1, d);
    CancelFactor(sys.a21 * x + sys.a22 * y, sys.b2, d);
  }

  lemma CancelFactor(u: real, v: real, d: real)
    requires d != 0.0 && u * d == v * d
    ensures u == v
  {
    assert (u - v) * d == 0.0;
  }

  /** A non-singular system has exactly one solution, the one Cramer's rule
      returns. */
  lemma {:induction false} CramerUnique(sys: System, v: Value)
    requires Det(sys) != 0.0 && Solves(sys, v)
    ensures Cramer(sys) == Some(v)
  {
    var d := Det(sys);
    var w := Cramer(sys).value;
    assert (v.0 - w.0) * d == 0.0 by {
      assert (v.0 - w.0) * d
          == sys.a22 * (sys.a11 * (v.0 - w.0) + sys.a12 * (v.1 - w.1))
           - sys.a12 * (sys.a21 * (v.0 - w.0) + sys.a22 * (v.1 - w.1));
    }
    assert (v.1 - w.1) * d == 0.0 by {
      assert (v.1 - w.1) * d
          == sys.a11 * (sys.a21 * (v.0 - w.0) + sys.a22 * (v.1 - w.1))
           - sys.a21 * (sys.a11 * (v.0 - w.0) + sys.a12 * (v.1 - w.1));
    }
    CancelFactor(v.0 - w.0, 0.0, d);
    CancelFactor(v.1 - w.1, 0.0, d);
    assert w.0 == v.0 && w.1 == v.1;
  }

  /** A predecessor: its coordinates and its value in the previous solution. */
  datatype Sample = Sample(s: real, t: real, x: real, y: real)

  /** The trapezoidal system at node `(s, t)`: `hl = t - tl` and `hr = t - tr`
      are the time lags to the left and right predecessors; the coefficients
      of the matrix are taken at the node, those of the right-hand side at
      the predecessor the equation runs along. */
  function CenterSystem(co: Coefficients, s: real, t: real, l: Sample, r: Sample): System {
    var hl := t - l.t;
    var hr := t - r.t;
    System(
      1.0 - hr / 2.0 * co.B11(s, t), -hr / 2.0 * co.B12(s, t),
      -hl / 2.0 * co.B21(s, t), 1.0 - hl / 2.0 * co.B22(s, t),
      r.x + hr / 2.0 * (co.B11(r.s, r.t) * r.x + co.B12(r.s, r.t) * r.y + co.F1(s, t) + co.F1(r.s, r.t)),
      l.y + hl / 2.0 * (co.B21(l.s, l.t) * l.x + co.B22(l.s, l.t) * l.y + co.F2(s, t) + co.F2(l.s, l.t)))
  }

  /** `_center_solve`: the unique solution of the trapezoidal system, or the
      midpoint of the two predecessors' values when it is singular. */
  function CenterSolve(co: Coefficients, s: real, t: real, l: Sample, r: Sample): (v: Value)
    ensures Det(CenterSystem(co, s, t, l, r)) != 0.0 ==> Solves(CenterSystem(co, s, t, l, r), v)
    ensures Det(CenterSystem(co, s, t, l, r)) == 0.0 ==> v == ((l.x + r.x) / 2.0, (l.y + r.y) / 2.0)
  {
    match Cramer(CenterSystem(co, s, t, l, r))
    case Some(v) => v
    case None => ((l.x + r.x) / 2.0, (l.y + r.y) / 2.0)
  }

  /** With every `B` and `F` zero the system is the identity: `x` is carried
      along the positive characteristic from the right predecessor and `y`
      along the negative one from the left predecessor. */
  lemma {:induction false} CenterSolveTransport(co: Coefficients, s: real, t: real, l: Sample, r: Sample)
    requires Vanishing(co)
    ensures CenterSolve(co, s, t, l, r) == (r.x, l.y)
  {
    var sys := CenterSystem(co, s, t, l, r);
    assert sys == System(1.0, 0.0, 0.0, 1.0, r.x, l.y);
    assert Solves(sys, (r.x, l.y));
    CramerUnique(sys, (r.x, l.y));
  }

  // ---------------------------------------------------------------------
  // Node rules
  // ---------------------------------------------------------------------

  function SampleOf(m: Mesh, sol: Solution, p: Point): Sample {
    var v := ReadAt(m, sol, Some(p));
    Sample(p.0, p.1, v.0, v.1)
  }

  /** `_solve_center_node`: both predecessors exist. */
  function CenterNode(m: Mesh, co: Coefficients, sol: Solution, i: int, j: int): (v: Value)
    requires (i, j) in m.nodes
    requires GetPreceding(m, i, j).left.Some? && GetPreceding(m, i, j).right.Some?
    ensures var l, r := SampleOf(m, sol, GetPreceding(m, i, j).left.value), SampleOf(m, sol, GetPreceding(m, i, j).right.value);
      var sys := CenterSystem(co, m.nodes[(i, j)].0, m.nodes[(i, j)].1, l, r);
      && (Det(sys) != 0.0 ==> Solves(sys, v))
      && (Det(sys) == 0.0 ==> v == ((l.x + r.x) / 2.0, (l.y + r.y) / 2.0))
  {
    var p := m.nodes[(i, j)];
    CenterSolve(co, p.0, p.1,
      SampleOf(m, sol, GetPreceding(m, i, j).left.value),
      SampleOf(m, sol, GetPreceding(m, i, j).right.value))
  }

  /** `_solve_left_boundary`: `y` is the left boundary value at the node's
      time, `x` is copied from the right predecessor. */
  function LeftEdge(m: Mesh, p: Problem, sol: Solution, i: int, j: int): (v: Value)
    requires (i, j) in m.nodes
    ensures v.1 == (if p.left.Some? then p.left.value(m.nodes[(i, j)].1) else 0.0)
    ensures !Found(m, GetNode(m, i, j - 1)) ==> v.0 == 0.0
    ensures Found(m, GetNode(m, i, j - 1)) ==>
      v.0 == Lookup(sol, FindNodeIndex(m, GetNode(m, i, j - 1).value.0, GetNode(m, i, j - 1).value.1).value).0
  {
    (ReadAt(m, sol, GetPreceding(m, i, j).right).0, CallOr0(p.left, m.nodes[(i, j)].1))
  }

  /** `_solve_right_boundary`: `x` is the right boundary value at the node's
      time, `y` is copied from the left predecessor. */
  function RightEdge(m: Mesh, p: Problem, sol: Solution, i: int, j: int): (v: Value)
    requires (i, j) in m.nodes
    ensures v.0 == (if p.right.Some? then p.right.value(m.nodes[(i, j)].1) else 0.0)
    ensures !Found(m, GetNode(m, i - 1, j)) ==> v.1 == 0.0
    ensures Found(m, GetNode(m, i - 1, j)) ==>
      v.1 == Lookup(sol, FindNodeIndex(m, GetNode(m, i - 1, j).value.0, GetNode(m, i - 1, j).value.1).value).1
  {
    (CallOr0(p.right, m.nodes[(i, j)].1), ReadAt(m, sol, GetPreceding(m, i, j).left).1)
  }

  /** The eight neighbour offsets in the order of the two nested loops. */
  const Offsets: seq<Key> := [(-1, -1), (-1, 0), (-1, 1), (0, -1), (0, 1), (1, -1), (1, 0), (1, 1)]

  function Shift(i: int, j: int, o: Key): Key {
    (i + o.0, j + o.1)
  }

  /** A node of the mesh that holds a value in the solution. */
  predicate Solved(m: Mesh, sol: Solution, k: Key) {
    k in m.nodes && k in sol
  }

  /** The values of the neighbours that are mesh nodes and already hold a
      value, in loop order. */
  function Contributions(m: Mesh, sol: Solution, i: int, j: int, offs: seq<Key>): (r: seq<Value>)
    ensures |r| <= |offs|
  {
    if |offs| == 0 then []
    else
      var k := Shift(i, j, offs[0]);
      (if Solved(m, sol, k) then [sol[k]] else []) + Contributions(m, sol, i, j, offs[1..])
  }

  /** The contributions are exactly the values of the solved neighbours. */
  lemma {:induction false} ContributionsAreSolvedNeighbours(m: Mesh, sol: Solution, i: int, j: int, offs: seq<Key>)
    ensures forall v :: v in Contributions(m, sol, i, j, offs) ==>
      (exists o :: o in offs && Solved(m, sol, Shift(i, j, o)) && sol[Shift(i, j, o)] == v)
    ensures forall o :: o in offs && Solved(m, sol, Shift(i, j, o)) ==>
      sol[Shift(i, j, o)] in Contributions(m, sol, i, j, offs)
  {
    if |offs| > 0 {
      ContributionsAreSolvedNeighbours(m, sol, i, j, offs[1..]);
      assert forall o :: o in offs[1..] ==> o in offs;
      assert forall o :: o in offs ==> o == offs[0] || o in offs[1..];
    }
  }

  function SumX(vs: seq<Value>): real {
    if |vs| == 0 then 0.0 else vs[0].0 + SumX(vs[1..])
  }

  function SumY(vs: seq<Value>): real {
    if |vs| == 0 then 0.0 else vs[0].1 + SumY(vs[1..])
  }

  /** The componentwise mean of a non-empty list of values. */
  function Mean(c: seq<Value>): (v: Value)
    requires |c| > 0
    ensures v.0 * |c| as real == SumX(c) && v.1 * |c| as real == SumY(c)
  {
    (SumX(c) / |c| as real, SumY(c) / |c| as real)
  }

  /** `_interpolate_node`: the mean of the solved neighbours, `(0, 0)` when
      there are none. */
  function Interpolate(m: Mesh, sol: Solution, i: int, j: int): (v: Value)
    ensures |Contributions(m, sol, i, j, Offsets)| == 0 ==> v == (0.0, 0.0)
    ensures |Contributions(m, sol, i, j, Offsets)| > 0 ==> v == Mean(Contributions(m, sol, i, j, Offsets))
  {
    var c := Contributions(m, sol, i, j, Offsets);
    if |c| > 0 then Mean(c) else (0.0, 0.0)
  }

  lemma {:induction false} SumXBounds(vs: seq<Value>, lo: real, hi: real)
    requires forall n :: 0 <= n < |vs| ==> lo <= vs[n].0 <= hi
    ensures lo * |vs| as real <= SumX(vs) <= hi * |vs| as real
  {
    if |vs| > 0 {
      SumXBounds(vs[1..], lo, hi);
      assert lo * |vs| as real == lo + lo * |vs[1..]| as real;
      assert hi * |vs| as real == hi + hi * |vs[1..]| as real;
    }
  }

  lemma {:induction false} SumYBounds(vs: seq<Value>, lo: real, hi: real)
    requires forall n :: 0 <= n < |vs| ==> lo <= vs[n].1 <= hi
    ensures lo * |vs| as real <= SumY(vs) <= hi * |vs| as real
  {
    if |vs| > 0 {
      SumYBounds(vs[1..], lo, hi);
      assert lo * |vs| as real == lo + lo * |vs[1..]| as real;
      assert hi * |vs| as real == hi + hi * |vs[1..]| as real;
    }
  }

  lemma DivideOut(v: real, n: real, sum: real, lo: real, hi: real)
    requires n > 0.0 && v * n == sum && lo * n <= sum <= hi * n
    ensures lo <= v <= hi
  {
  }

  /** A mean lies between the least and the greatest of its values, in each
      component. */
  lemma MeanWithin(c: seq<Value>, lo0: real, hi0: real, lo1: real, hi1: real)
    requires |c| > 0
    requires forall n :: 0 <= n < |c| ==> lo0 <= c[n].0 <= hi0 && lo1 <= c[n].1 <= hi1
    ensures lo0 <= Mean(c).0 <= hi0 && lo1 <= Mean(c).1 <= hi1
  {
    MeanXWithin(c, lo0, hi0);
    MeanYWithin(c, lo1, hi1);
  }

  lemma MeanXWithin(c: seq<Value>, lo: real, hi: real)
    requires |c| > 0
    requires forall n :: 0 <= n < |c| ==> lo <= c[n].0 <= hi
    ensures lo <= Mean(c).0 <= hi
  {
    SumXBounds(c, lo, hi);
    DivideOut(Mean(c).0, |c| as real, SumX(c), lo, hi);
  }

  lemma MeanYWithin(c: seq<Value>, lo: real, hi: real)
    requires |c| > 0
    requires forall n :: 0 <= n < |c| ==> lo <= c[n].1 <= hi
    ensures lo <= Mean(c).1 <= hi
  {
    SumYBounds(c, lo, hi);
    DivideOut(Mean(c).1, |c| as real, SumY(c), lo, hi);
  }

  /** The interpolated value is an average: when every solved neighbour's
      value lies in the box `[lo0, hi0] x [lo1, hi1]`, so does the result. */
  lemma InterpolateWithin(m: Mesh, sol: Solution, i: int, j: int, lo0: real, hi0: real, lo1: real, hi1: real)
    requires forall v :: v in Contributions(m, sol, i, j, Offsets) ==> lo0 <= v.0 <= hi0 && lo1 <= v.1 <= hi1
    requires |Contributions(m, sol, i, j, Offsets)| > 0
    ensures lo0 <= Interpolate(m, sol, i, j).0 <= hi0 && lo1 <= Interpolate(m, sol, i, j).1 <= hi1
  {
    var c := Contributions(m, sol, i, j, Offsets);
    assert forall n :: 0 <= n < |c| ==> c[n] in c;
    MeanWithin(c, lo0, hi0, lo1, hi1);
  }

  /** Neighbours that all hold the same value interpolate to that value. */
  lemma InterpolateConstant(m: Mesh, sol: Solution, i: int, j: int, w: Value)
    requires forall v :: v in Contributions(m, sol, i, j, Offsets) ==> v == w
    requires |Contributions(m, sol, i, j, Offsets)| > 0
    ensures Interpolate(m, sol, i, j) == w
  {
    InterpolateWithin(m, sol, i, j, w.0, w.0, w.1, w.1);
    var v := Interpolate(m, sol, i, j);
    assert v.0 == w.0 && v.1 == w.1;
  }

  /** Which rule `_solve_node` applies. */
  datatype Rule = Center | LeftBoundary | RightBoundary | Interpolation

  /** The dispatch of `_solve_node` and `_solve_boundary_node`: the interior
      solve when both predecessors exist, otherwise the `S0` rule, the `S1`
      rule or interpolation, tried in that order. */
  function RuleAt(m: Mesh, i: int, j: int): (r: Rule)
    requires (i, j) in m.nodes
    ensures r == Center <==> (i - 1, j) in m.nodes && (i, j - 1) in m.nodes
    ensures r == LeftBoundary <==>
      !((i - 1, j) in m.nodes && (i, j - 1) in m.nodes) && Abs(m.nodes[(i, j)].0 - m.frame.S0) < EPS
    ensures r == RightBoundary <==>
      !((i - 1, j) in m.nodes && (i, j - 1) in m.nodes) && Abs(m.nodes[(i, j)].0 - m.frame.S0) >= EPS
      && Abs(m.nodes[(i, j)].0 - m.frame.S1) < EPS
  {
    var pr := GetPreceding(m, i, j);
    var s := m.nodes[(i, j)].0;
    if pr.left.Some? && pr.right.Some? then Center
    else if Abs(s - m.frame.S0) < EPS then LeftBoundary
    else if Abs(s - m.frame.S1) < EPS then RightBoundary
    else Interpolation
  }

  /** `_solve_node`. */
  function SolveNode(m: Mesh, p: Problem, sol: Solution, i: int, j: int): (v: Value)
    requires (i, j) in m.nodes
    ensures RuleAt(m, i, j) == LeftBoundary ==> v.1 == CallOr0(p.left, m.nodes[(i, j)].1)
    ensures RuleAt(m, i, j) == RightBoundary ==> v.0 == CallOr0(p.right, m.nodes[(i, j)].1)
    ensures RuleAt(m, i, j) == Interpolation && |Contributions(m, sol, i, j, Offsets)| == 0 ==> v == (0.0, 0.0)
  {
    match RuleAt(m, i, j)
    case Center => CenterNode(m, p.coeffs, sol, i, j)
    case LeftBoundary => LeftEdge(m, p, sol, i, j)
    case RightBoundary => RightEdge(m, p, sol, i, j)
    case Interpolation => Interpolate(m, sol, i, j)
  }

  /** On a lattice mesh a node on `s = S0` lacking a predecessor takes its
      `y` from the left boundary function at its own time and its `x` from
      the previous value at `(i, j - 1)`. */
  lemma {:induction false} LeftEdgeByIndex(m: Mesh, p: Problem, sol: Solution, i: int, j: int)
    requires Lattice(m) && Separated(m.steps) && (i, j) in m.nodes
    requires RuleAt(m, i, j) == LeftBoundary
    ensures SolveNode(m, p, sol, i, j) == (
      (if (i, j - 1) in m.nodes then Lookup(sol, (i, j - 1)).0 else 0.0),
      CallOr0(p.left, m.nodes[(i, j)].1))
  {
    ReadAtIndex(m, sol, (i, j - 1));
  }

  /** The mirror image at `s = S1`: `x` from the right boundary function,
      `y` from the previous value at `(i - 1, j)`. */
  lemma {:induction false} RightEdgeByIndex(m: Mesh, p: Problem, sol: Solution, i: int, j: int)
    requires Lattice(m) && Separated(m.steps) && (i, j) in m.nodes
    requires RuleAt(m, i, j) == RightBoundary
    ensures SolveNode(m, p, sol, i, j) == (
      CallOr0(p.right, m.nodes[(i, j)].1),
      (if (i - 1, j) in m.nodes then Lookup(sol, (i - 1, j)).1 else 0.0))
  {
    ReadAtIndex(m, sol, (i - 1, j));
  }

  /** On a lattice mesh with zero coefficients an interior node transports
      `x` from `(i, j - 1)` and `y` from `(i - 1, j)` of the previous
      solution: the exact solution of the decoupled transport equations. */
  lemma {:induction false} CenterTransport(m: Mesh, p: Problem, sol: Solution, i: int, j: int)
    requires Lattice(m) && Separated(m.steps) && (i, j) in m.nodes
    requires RuleAt(m, i, j) == Center
    requires Vanishing(p.coeffs)
    ensures SolveNode(m, p, sol, i, j) == (Lookup(sol, (i, j - 1)).0, Lookup(sol, (i - 1, j)).1)
  {
    var pr := GetPreceding(m, i, j);
    ReadAtIndex(m, sol, (i - 1, j));
    ReadAtIndex(m, sol, (i, j - 1));
    var l := SampleOf(m, sol, pr.left.value);
    var r := SampleOf(m, sol, pr.right.value);
    CenterSolveTransport(p.coeffs, m.nodes[(i, j)].0, m.nodes[(i, j)].1, l, r);
  }

  // ---------------------------------------------------------------------
  // Solution-level operations
  // ---------------------------------------------------------------------

  predicate OnInitialSlice(m: Mesh, k: Key)
    requires k in m.nodes
  {
    Abs(m.nodes[k].1 - m.frame.T0) < EPS
  }

  /** `_initialize_solution`: only when some initial entry is truthy; then
      every mesh node gets an entry, the initial entries' values on the
      slice `t = T0` and zero elsewhere. */
  function InitialSolution(m: Mesh, p: Problem): (r: Option<Solution>)
    ensures r.None? <==> p.initialX.Falsy? && p.initialY.Falsy?
    ensures r.Some? ==> r.value.Keys == m.nodes.Keys
    ensures r.Some? ==> forall k :: k in r.value && !OnInitialSlice(m, k) ==> r.value[k] == (0.0, 0.0)
    ensures r.Some? ==> forall k :: k in r.value && OnInitialSlice(m, k) ==>
      && r.value[k].0 == (if p.initialX.Callable? then p.initialX.f(m.nodes[k].0) else 0.0)
      && r.value[k].1 == (if p.initialY.Callable? then p.initialY.f(m.nodes[k].0) else 0.0)
  {
    if !HasInitial(p) then None
    else
      Some(map k | k in m.nodes ::
        if OnInitialSlice(m, k) then (InitialAt(p.initialX, m.nodes[k].0), InitialAt(p.initialY, m.nodes[k].0))
        else (0.0, 0.0))
  }

  /** With both initial entries absent (the defaults `lambda s: 0.0`) the
      initial solution exists and is zero at every node. */
  lemma DefaultsStartAtZero(m: Mesh, p: Problem)
    requires p.initialX == Callable(ZeroProfile) && p.initialY == Callable(ZeroProfile)
    ensures InitialSolution(m, p).Some?
    ensures forall k :: k in InitialSolution(m, p).value ==> InitialSolution(m, p).value[k] == (0.0, 0.0)
  {
  }

  /** A node on the left edge at time `t`. */
  predicate AtLeft(m: Mesh, k: Key, t: real) {
    k in m.nodes && Abs(m.nodes[k].0 - m.frame.S0) < EPS && Abs(m.nodes[k].1 - t) < EPS
  }

  predicate AtRight(m: Mesh, k: Key, t: real) {
    k in m.nodes && Abs(m.nodes[k].0 - m.frame.S1) < EPS && Abs(m.nodes[k].1 - t) < EPS
  }

  function LeftKeys(m: Mesh, t: real): set<Key> {
    set k | k in m.nodes && AtLeft(m, k, t)
  }

  function RightKeys(m: Mesh, t: real): set<Key> {
    set k | k in m.nodes && AtRight(m, k, t)
  }

  /** The left loop of `_apply_boundary_conditions`. */
  function OverwriteLeft(m: Mesh, f: real -> real, sol: Solution, t: real): Solution {
    map k | k in sol.Keys + LeftKeys(m, t) :: if AtLeft(m, k, t) then (Lookup(sol, k).0, f(t)) else sol[k]
  }

  /** The right loop of `_apply_boundary_conditions`. */
  function OverwriteRight(m: Mesh, f: real -> real, sol: Solution, t: real): Solution {
    map k | k in sol.Keys + RightKeys(m, t) :: if AtRight(m, k, t) then (f(t), Lookup(sol, k).1) else sol[k]
  }

  /** `_apply_boundary_conditions(t)`: a missing or empty solution is left
      alone; otherwise nodes on `s = S0` at time `t` get `y = left(t)` and
      then nodes on `s = S1` at time `t` get `x = right(t)`, each keeping the
      other component; every other entry is unchanged. */
  function ApplyBoundary(m: Mesh, p: Problem, sol: Option<Solution>, t: real): (r: Option<Solution>)
    ensures sol.None? || |sol.value| == 0 ==> r == sol
    ensures r.Some? <==> sol.Some?
    ensures sol.Some? && |sol.value| > 0 ==> (r.value.Keys ==
      sol.value.Keys + (if p.left.Some? then LeftKeys(m, t) else {}) + (if p.right.Some? then RightKeys(m, t) else {}))
    ensures sol.Some? && |sol.value| > 0 ==> forall k :: k in r.value ==>
      && r.value[k].0 == (if p.right.Some? && AtRight(m, k, t) then p.right.value(t) else Lookup(sol.value, k).0)
      && r.value[k].1 == (if p.left.Some? && AtLeft(m, k, t) then p.left.value(t) else Lookup(sol.value, k).1)
  {
    if sol.None? || |sol.value| == 0 then sol
    else
      OverwriteKeys(m, p, sol.value, t);
      OverwriteValues(m, p, sol.value, t);
      Some(Overwrite(m, p, sol.value, t))
  }

  /** The left loop followed by the right loop, for the boundary functions
      that are given. */
  function Overwrite(m: Mesh, p: Problem, sol: Solution, t: real): Solution {
    var s1 := if p.left.Some? then OverwriteLeft(m, p.left.value, sol, t) else sol;
    if p.right.Some? then OverwriteRight(m, p.right.value, s1, t) else s1
  }

  lemma OverwriteKeys(m: Mesh, p: Problem, sol: Solution, t: real)
    ensures Overwrite(m, p, sol, t).Keys ==
      sol.Keys + (if p.left.Some? then LeftKeys(m, t) else {}) + (if p.right.Some? then RightKeys(m, t) else {})
  {
  }

  lemma OverwriteValues(m: Mesh, p: Problem, sol: Solution, t: real)
    ensures forall k :: k in Overwrite(m, p, sol, t) ==>
      && Overwrite(m, p, sol, t)[k].0 == (if p.right.Some? && AtRight(m, k, t) then p.right.value(t) else Lookup(sol, k).0)
      && Overwrite(m, p, sol, t)[k].1 == (if p.left.Some? && AtLeft(m, k, t) then p.left.value(t) else Lookup(sol, k).1)
  {
    forall k | k in Overwrite(m, p, sol, t)
      ensures Overwrite(m, p, sol, t)[k].0 == (if p.right.Some? && AtRight(m, k, t) then p.right.value(t) else Lookup(sol, k).0)
      ensures Overwrite(m, p, sol, t)[k].1 == (if p.left.Some? && AtLeft(m, k, t) then p.left.value(t) else Lookup(sol, k).1)
    {
      OverwriteAt(m, p, sol, t, k);
    }
  }

  lemma OverwriteAt(m: Mesh, p: Problem, sol: Solution, t: real, k: Key)
    requires k in Overwrite(m, p, sol, t)
    ensures Overwrite(m, p, sol, t)[k].0 == (if p.right.Some? && AtRight(m, k, t) then p.right.value(t) else Lookup(sol, k).0)
    ensures Overwrite(m, p, sol, t)[k].1 == (if p.left.Some? && AtLeft(m, k, t) then p.left.value(t) else Lookup(sol, k).1)
  {
    var s1 := if p.left.Some? then OverwriteLeft(m, p.left.value, sol, t) else sol;
    assert Lookup(s1, k).1 == (if p.left.Some? && AtLeft(m, k, t) then p.left.value(t) else Lookup(sol, k).1);
    assert Lookup(s1, k).0 == Lookup(sol, k).0;
  }

  /** Boundary conditions are idempotent at a fixed time: applying them twice
      is applying them once. */
  lemma {:induction false} ApplyBoundaryIdempotent(m: Mesh, p: Problem, sol: Option<Solution>, t: real)
    ensures ApplyBoundary(m, p, ApplyBoundary(m, p, sol, t), t) == ApplyBoundary(m, p, sol, t)
  {
    if sol.Some? && |sol.value| > 0 {
      var once := Overwrite(m, p, sol.value, t);
      OnceNonEmpty(m, p, sol.value, t);
      SecondPassKeeps(m, p, sol.value, once, Overwrite(m, p, once, t), t);
      assert ApplyBoundary(m, p, Some(once), t) == Some(Overwrite(m, p, once, t));
    }
  }

  lemma OnceNonEmpty(m: Mesh, p: Problem, sol: Solution, t: real)
    requires |sol| > 0
    ensures |Overwrite(m, p, sol, t)| > 0
  {
    var k :| k in sol;
    OverwriteKeys(m, p, sol, t);
    assert k in Overwrite(m, p, sol, t);
  }

  lemma SecondPassKeeps(m: Mesh, p: Problem, sol: Solution, once: Solution, twice: Solution, t: real)
    requires once == Overwrite(m, p, sol, t) && twice == Overwrite(m, p, once, t)
    ensures twice == once
  {
    var L := if p.left.Some? then LeftKeys(m, t) else {};
    var R := if p.right.Some? then RightKeys(m, t) else {};
    OverwriteKeys(m, p, sol, t);
    OverwriteKeys(m, p, once, t);
    UnionAbsorbs(sol.Keys, L, R);
    assert twice.Keys == once.Keys;
    forall k | k in twice
      ensures twice[k] == once[k]
    {
      SecondPassAt(m, p, sol, once, twice, t, k);
    }
    SameMap(twice, once);
  }

  lemma UnionAbsorbs(a: set<Key>, b: set<Key>, c: set<Key>)
    ensures (a + b + c) + b + c == a + b + c
  {
  }

  lemma SameMap(x: Solution, y: Solution)
    requires x.Keys == y.Keys && forall k :: k in x ==> x[k] == y[k]
    ensures x == y
  {
  }

  lemma SecondPassAt(m: Mesh, p: Problem, sol: Solution, once: Solution, twice: Solution, t: real, k: Key)
    requires once == Overwrite(m, p, sol, t) && twice == Overwrite(m, p, once, t)
    requires k in twice && k in once
    ensures twice[k] == once[k]
  {
    OverwriteAt(m, p, sol, t, k);
    OverwriteAt(m, p, once, t, k);
    assert twice[k].0 == once[k].0;
    assert twice[k].1 == once[k].1;
  }

  /** The domain of a step: the mesh nodes no later than `t + dt`. */
  function StepDomain(m: Mesh, t: real, dt: real): (r: set<Key>)
    ensures r <= m.nodes.Keys
    ensures forall k :: k in m.nodes ==> (k in r <==> m.nodes[k].1 <= t + dt)
  {
    set k | k in m.nodes && m.nodes[k].1 <= t + dt
  }

  /** `_solve_step(t, dt)`: every node no later than `t + dt` is solved once,
      from the previous solution. */
  function SolveStep(m: Mesh, p: Problem, sol: Solution, t: real, dt: real): (r: Solution)
    ensures r.Keys == StepDomain(m, t, dt)
  {
    map k | k in StepDomain(m, t, dt) :: SolveNode(m, p, sol, k.0, k.1)
  }

  /** The loop of `_solve_step` over the nodes in any visiting order (the
      source sorts them by time): skipping late and already-solved nodes
      yields the same dictionary, since every node reads only the previous
      solution. */
  method RunStep(m: Mesh, p: Problem, sol: Solution, t: real, dt: real, order: seq<Key>)
    returns (next: Solution)
    requires forall n :: 0 <= n < |order| ==> order[n] in m.nodes
    requires forall k :: k in m.nodes ==> k in order
    ensures next == SolveStep(m, p, sol, t, dt)
  {
    next := map[];
    var n := 0;
    while n < |order|
      invariant 0 <= n <= |order|
      invariant forall k :: k in next <==> k in order[..n] && m.nodes[k].1 <= t + dt
      invariant forall k :: k in next ==> k in m.nodes && next[k] == SolveNode(m, p, sol, k.0, k.1)
    {
      var k := order[n];
      if m.nodes[k].1 <= t + dt && k !in next {
        next := next[k := SolveNode(m, p, sol, k.0, k.1)];
      }
      assert order[..n + 1] == order[..n] + [k];
      n := n + 1;
    }
    assert order[..n] == order;
    assert next.Keys == StepDomain(m, t, dt);
  }

  /** A step never solves a node the initial solution lacks. */
  lemma StepWithinInitial(m: Mesh, p: Problem, sol: Solution, t: real, dt: real)
    requires InitialSolution(m, p).Some?
    ensures SolveStep(m, p, sol, t, dt).Keys <= InitialSolution(m, p).value.Keys
  {
  }

  // ---------------------------------------------------------------------
  // A step without a solution
  // ---------------------------------------------------------------------

  /** A predecessor that exists and is found again by reverse lookup: the
      point at which a rule reads the previous solution. */
  predicate Found(m: Mesh, q: Option<Point>) {
    q.Some? && FindNodeIndex(m, q.value.0, q.value.1).Some?
  }

  /** What node `(i, j)` raises when the previous solution is `None`, or
      `None` when its rule never touches the solution: the interior and
      boundary rules call `.get` on it once a predecessor is found again,
      interpolation tests membership in it once a neighbour is a mesh node. */
  function MissingSolutionError(m: Mesh, i: int, j: int): (r: Option<Error>)
    requires (i, j) in m.nodes
    ensures r.Some? ==> r.value.AttributeError? || r.value.TypeError?
    ensures r.Some? && r.value.TypeError? <==> RuleAt(m, i, j) == Interpolation && r.Some?
  {
    var pr := GetPreceding(m, i, j);
    var noGet := Some(AttributeError("'NoneType' object has no attribute 'get'"));
    match RuleAt(m, i, j)
    case Center => if Found(m, pr.left) || Found(m, pr.right) then noGet else None
    case LeftBoundary => if Found(m, pr.right) then noGet else None
    case RightBoundary => if Found(m, pr.left) then noGet else None
    case Interpolation =>
      if exists o :: o in Offsets && Shift(i, j, o) in m.nodes
      then Some(TypeError("argument of type 'NoneType' is not iterable"))
      else None
  }

  lemma {:induction false} NoNeighboursNoContributions(m: Mesh, sol: Solution, i: int, j: int, offs: seq<Key>)
    requires forall o :: o in offs ==> Shift(i, j, o) !in m.nodes
    ensures Contributions(m, sol, i, j, offs) == []
  {
    if |offs| > 0 {
      assert offs[0] in offs;
      assert forall o :: o in offs[1..] ==> o in offs;
      NoNeighboursNoContributions(m, sol, i, j, offs[1..]);
    }
  }

  /** A node that never touches the solution computes the same value from
      any previous solution. */
  lemma {:induction false} SilentNodeIgnoresSolution(m: Mesh, p: Problem, sol: Solution, sol2: Solution, i: int, j: int)
    requires (i, j) in m.nodes && MissingSolutionError(m, i, j).None?
    ensures SolveNode(m, p, sol, i, j) == SolveNode(m, p, sol2, i, j)
  {
    if RuleAt(m, i, j) == Interpolation {
      NoNeighboursNoContributions(m, sol, i, j, Offsets);
      NoNeighboursNoContributions(m, sol2, i, j, Offsets);
    }
  }

  /** A node of the step's domain that raises when the solution is missing. */
  predicate FailsWithout(m: Mesh, t: real, dt: real, k: Key) {
    k in m.nodes && m.nodes[k].1 <= t + dt && MissingSolutionError(m, k.0, k.1).Some?
  }

  /** The first raising node of `_solve_step`'s loop, which visits the nodes
      sorted by time, ties kept in dictionary order `order`: a raising node of
      least time, and among those the earliest in `order`. */
  function EarliestFailure(m: Mesh, order: seq<Key>, t: real, dt: real): (r: Option<Key>)
    ensures r.Some? ==> r.value in order && FailsWithout(m, t, dt, r.value)
    ensures r.None? <==> forall n :: 0 <= n < |order| ==> !FailsWithout(m, t, dt, order[n])
    ensures r.Some? ==> forall n :: 0 <= n < |order| && FailsWithout(m, t, dt, order[n]) ==>
      m.nodes[r.value].1 <= m.nodes[order[n]].1
    ensures r.Some? ==> exists n :: (0 <= n < |order| && order[n] == r.value
      && forall q :: 0 <= q < n && FailsWithout(m, t, dt, order[q]) ==> m.nodes[order[q]].1 > m.nodes[r.value].1)
  {
    if |order| == 0 then None
    else
      var rest := EarliestFailure(m, order[1..], t, dt);
      var k := order[0];
      assert forall n :: 1 <= n < |order| ==> order[n] == order[1..][n - 1];
      if FailsWithout(m, t, dt, k) && (rest.None? || m.nodes[k].1 <= m.nodes[rest.value].1) then
        Some(k)
      else if rest.Some? then
        LaterWitness(m, order, t, dt, rest.value);
        rest
      else rest
  }

  /** A witness in the tail, shifted by one, is a witness in the whole
      order when the head does not come first. */
  lemma LaterWitness(m: Mesh, order: seq<Key>, t: real, dt: real, r: Key)
    requires |order| > 0 && r in m.nodes
    requires !FailsWithout(m, t, dt, order[0]) || m.nodes[order[0]].1 > m.nodes[r].1
    requires exists n :: (0 <= n < |order[1..]| && order[1..][n] == r
      && forall q :: 0 <= q < n && FailsWithout(m, t, dt, order[1..][q]) ==> m.nodes[order[1..][q]].1 > m.nodes[r].1)
    ensures exists n :: (0 <= n < |order| && order[n] == r
      && forall q :: 0 <= q < n && FailsWithout(m, t, dt, order[q]) ==> m.nodes[order[q]].1 > m.nodes[r].1)
  {
    var n :| 0 <= n < |order[1..]| && order[1..][n] == r
      && forall q :: 0 <= q < n && FailsWithout(m, t, dt, order[1..][q]) ==> m.nodes[order[1..][q]].1 > m.nodes[r].1;
    forall q | 0 <= q < n + 1 && FailsWithout(m, t, dt, order[q])
      ensures m.nodes[order[q]].1 > m.nodes[r].1
    {
      if q > 0 {
        assert order[q] == order[1..][q - 1];
      }
    }
    assert order[n + 1] == r;
  }

  /** Every node of a lattice mesh appears in the dictionary order. */
  lemma NodeOrdered(m: Mesh, k: Key)
    requires Lattice(m) && k in m.nodes
    ensures k in NodeOrder(m)
  {
    InRange(m.ranges.iMin, m.ranges.iMax, k.0);
    InRange(m.ranges.jMin, m.ranges.jMax, k.1);
  }

  /** When no node of the step touches the solution, the step's result does
      not depend on it. */
  lemma SilentStepIgnoresSolution(m: Mesh, p: Problem, sol: Solution, sol2: Solution, t: real, dt: real)
    requires forall k :: k in StepDomain(m, t, dt) ==> MissingSolutionError(m, k.0, k.1).None?
    ensures SolveStep(m, p, sol, t, dt) == SolveStep(m, p, sol2, t, dt)
  {
    forall k | k in StepDomain(m, t, dt)
      ensures SolveNode(m, p, sol, k.0, k.1) == SolveNode(m, p, sol2, k.0, k.1)
    {
      SilentNodeIgnoresSolution(m, p, sol, sol2, k.0, k.1);
    }
  }
}
