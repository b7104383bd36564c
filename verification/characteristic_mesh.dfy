/** The characteristic mesh: node `(i, j)` sits at
    `(s0 + (i + j)*ds, t0 - i*dt1 + j*dt2)` relative to the frame's centre
    and is kept when it lies in the frame. Negative characteristic `j`
    (slope `(ds, -dt1)`) and positive characteristic `i` (slope `(ds, dt2)`)
    run through the nodes; each is kept only if it has internal nodes. */
module CharacteristicMesh {
  import opened Common
  import opened Rectangle
  import opened Discretization
  import opened Characteristic
  import opened CharacteristicReach
  import opened StrictCharacteristic

  datatype Mesh = Mesh(
    frame: Rect, center: Point, steps: Steps, ranges: Ranges,
    negative: map<int, Nodes>, positive: map<int, Nodes>,
    nodes: map<(int, int), Point>)

  /** `_calculate_node`. */
  function NodeAt(c: Point, st: Steps, i: int, j: int): Point {
    (c.0 + (i + j) as real * st.ds, c.1 - i as real * st.dt1 + j as real * st.dt2)
  }

  /** Negative characteristic `j`: centre `(s0 + j*ds, t0 + j*dt2)`, time
      increment `-dt1`, step `ds`. */
  function NegativeLine(c: Point, st: Steps, j: int): Line {
    Line((c.0 + j as real * st.ds, c.1 + j as real * st.dt2), -st.dt1, st.ds)
  }

  /** Positive characteristic `i`: centre `(s0 + i*ds, t0 - i*dt1)`, time
      increment `dt2`, step `ds`. */
  function PositiveLine(c: Point, st: Steps, i: int): Line {
    Line((c.0 + i as real * st.ds, c.1 - i as real * st.dt1), st.dt2, st.ds)
  }

  /** The kept negative characteristics. Their time increment `-dt1` is not
      zero in a constructed mesh, so no constructor in the loop raises. */
  function NegativeFamily(f: Rect, c: Point, st: Steps, lo: int, hi: int): (r: map<int, Nodes>)
    requires st.dt1 != 0.0
    ensures forall j :: j in r <==> lo <= j <= hi && |Build(NegativeLine(c, st, j), f).value.internal| > 0
    ensures forall j :: j in r ==> r[j] == Build(NegativeLine(c, st, j), f).value
  {
    map j | lo <= j <= hi && |Build(NegativeLine(c, st, j), f).value.internal| > 0
      :: Build(NegativeLine(c, st, j), f).value
  }

  function PositiveFamily(f: Rect, c: Point, st: Steps, lo: int, hi: int): (r: map<int, Nodes>)
    requires st.dt2 != 0.0
    ensures forall i :: i in r <==> lo <= i <= hi && |Build(PositiveLine(c, st, i), f).value.internal| > 0
    ensures forall i :: i in r ==> r[i] == Build(PositiveLine(c, st, i), f).value
  {
    map i | lo <= i <= hi && |Build(PositiveLine(c, st, i), f).value.internal| > 0
      :: Build(PositiveLine(c, st, i), f).value
  }

  /** `_build_nodes`: every index pair of the ranges whose node is in the frame. */
  function MeshNodes(f: Rect, c: Point, st: Steps, rg: Ranges): map<(int, int), Point> {
    map i, j | rg.iMin <= i <= rg.iMax && rg.jMin <= j <= rg.jMax
                 && ContainsPoint(f, NodeAt(c, st, i, j))
      :: (i, j) := NodeAt(c, st, i, j)
  }

  /** The constructor: frame and centre, steps, index ranges, both families,
      then the nodes. A configuration without `m` or `h`, or one giving a
      zero step, is rejected. */
  function Make(cfg: Config): (r: Result<Mesh>)
    requires ValidSpeeds(cfg)
    ensures r.Err? <==> Setup(cfg).Err? || IndexRanges(FrameOf(cfg), Setup(cfg).value).Err?
    ensures r.Ok? ==> r.value.frame == FrameOf(cfg) && r.value.center == Center(FrameOf(cfg))
    ensures r.Ok? ==> forall key :: key in r.value.nodes ==>
      r.value.nodes[key] == NodeAt(r.value.center, r.value.steps, key.0, key.1)
      && ContainsPoint(r.value.frame, r.value.nodes[key])
    ensures r.Ok? ==> forall j :: j in r.value.negative ==>
      |r.value.negative[j].internal| > 0 && r.value.negative[j].bounds.Some?
    ensures r.Ok? ==> forall i :: i in r.value.positive ==>
      |r.value.positive[i].internal| > 0 && r.value.positive[i].bounds.Some?
    ensures r.Ok? ==> forall j :: r.value.ranges.jMin <= j <= r.value.ranges.jMax ==>
      Build(NegativeLine(r.value.center, r.value.steps, j), r.value.frame).Ok?
    ensures r.Ok? ==> forall i :: r.value.ranges.iMin <= i <= r.value.ranges.iMax ==>
      Build(PositiveLine(r.value.center, r.value.steps, i), r.value.frame).Ok?
    ensures r.Ok? ==> forall j :: j in r.value.negative <==>
      (&& r.value.ranges.jMin <= j <= r.value.ranges.jMax
       && |Build(NegativeLine(r.value.center, r.value.steps, j), r.value.frame).value.internal| > 0)
    ensures r.Ok? ==> forall j :: j in r.value.negative ==>
      r.value.negative[j] == Build(NegativeLine(r.value.center, r.value.steps, j), r.value.frame).value
    ensures r.Ok? ==> forall i :: i in r.value.positive <==>
      (&& r.value.ranges.iMin <= i <= r.value.ranges.iMax
       && |Build(PositiveLine(r.value.center, r.value.steps, i), r.value.frame).value.internal| > 0)
    ensures r.Ok? ==> forall i :: i in r.value.positive ==>
      r.value.positive[i] == Build(PositiveLine(r.value.center, r.value.steps, i), r.value.frame).value
  {
    var f := FrameOf(cfg);
    var c := Center(f);
    match Setup(cfg)
    case Err(e) => Err(e)
    case Ok(st) =>
      match IndexRanges(f, st)
      case Err(e) => Err(e)
      case Ok(rg) =>
        ZeroStepRejected(cfg);
        StepsVanishTogether(cfg);
        Ok(Mesh(f, c, st, rg,
                NegativeFamily(f, c, st, rg.jMin, rg.jMax),
                PositiveFamily(f, c, st, rg.iMin, rg.iMax),
                MeshNodes(f, c, st, rg)))
  }

  /** `get_node`. */
  function GetNode(m: Mesh, i: int, j: int): (r: Option<Point>)
    ensures r.Some? <==> (i, j) in m.nodes
    ensures r.Some? ==> r.value == m.nodes[(i, j)]
  {
    if (i, j) in m.nodes then Some(m.nodes[(i, j)]) else None
  }

  datatype Preceding = Preceding(left: Option<Point>, right: Option<Point>, center: Option<Point>)

  /** `get_preceding_nodes`. */
  function GetPreceding(m: Mesh, i: int, j: int): (r: Preceding)
    ensures r.left == GetNode(m, i - 1, j)
    ensures r.right == GetNode(m, i, j - 1)
    ensures r.center == GetNode(m, i - 1, j - 1)
  {
    Preceding(GetNode(m, i - 1, j), GetNode(m, i, j - 1), GetNode(m, i - 1, j - 1))
  }

  predicate Distinct(ps: seq<Point>) {
    forall a, b :: 0 <= a < b < |ps| ==> ps[a] != ps[b]
  }

  /** A bound of one of the characteristics. */
  predicate BoundOf(chars: seq<Nodes>, p: Point) {
    exists c :: c in chars && c.bounds.Some? && (p == c.bounds.value.0 || p == c.bounds.value.1)
  }

  /** Appending a node unless already listed. */
  function AppendNew(acc: seq<Point>, p: Point): (r: seq<Point>)
    ensures acc <= r
    ensures Distinct(acc) ==> Distinct(r)
    ensures forall x :: x in r <==> x in acc || x == p
  {
    if p in acc then acc else acc + [p]
  }

  /** One iteration of the loop of `get_boundary_nodes`: the left and then the
      right node, each unless already listed. */
  function AddBounds(acc: seq<Point>, c: Nodes): (r: seq<Point>)
    ensures acc <= r
    ensures Distinct(acc) ==> Distinct(r)
    ensures forall x :: x in r <==>
      (x in acc || (c.bounds.Some? && (x == c.bounds.value.0 || x == c.bounds.value.1)))
  {
    if c.bounds.Some? then AppendNew(AppendNew(acc, c.bounds.value.0), c.bounds.value.1) else acc
  }

  /** The loop of `get_boundary_nodes`. */
  function Collect(chars: seq<Nodes>, acc: seq<Point>): (r: seq<Point>)
    ensures acc <= r
    ensures Distinct(acc) ==> Distinct(r)
    ensures forall c :: c in chars && c.bounds.Some? ==>
      c.bounds.value.0 in r && c.bounds.value.1 in r
    ensures forall p :: p in r ==> p in acc || BoundOf(chars, p)
  {
    if |chars| == 0 then acc
    else
      var r := Collect(chars[1..], AddBounds(acc, chars[0]));
      BoundOfTail(chars);
      r
  }

  lemma BoundOfTail(chars: seq<Nodes>)
    requires |chars| > 0
    ensures forall p :: BoundOf(chars[1..], p) ==> BoundOf(chars, p)
    ensures forall p ::
      (chars[0].bounds.Some? && (p == chars[0].bounds.value.0 || p == chars[0].bounds.value.1)) ==> BoundOf(chars, p)
  {
    forall p | BoundOf(chars[1..], p) ensures BoundOf(chars, p) {
      var d :| d in chars[1..] && d.bounds.Some? && (p == d.bounds.value.0 || p == d.bounds.value.1);
      assert d in chars;
    }
  }

  /** Collecting over two lists is collecting over the first, then the second. */
  lemma {:induction false} CollectAppend(a: seq<Nodes>, b: seq<Nodes>, acc: seq<Point>)
    ensures Collect(a + b, acc) == Collect(b, Collect(a, acc))
    decreases |a|
  {
    if |a| == 0 {
      assert a + b == b;
    } else {
      assert (a + b)[1..] == a[1..] + b;
      CollectAppend(a[1..], b, AddBounds(acc, a[0]));
    }
  }

  function PositiveInOrder(m: Mesh): seq<Nodes> {
    InOrder(m.positive, Range(m.ranges.iMin, m.ranges.iMax))
  }

  function NegativeInOrder(m: Mesh): seq<Nodes> {
    InOrder(m.negative, Range(m.ranges.jMin, m.ranges.jMax))
  }

  /** `get_boundary_nodes`: the boundary nodes of the positive
      characteristics, then of the negative ones, without repetition. */
  function GetBoundaryNodes(m: Mesh): (r: seq<Point>)
    ensures Distinct(r)
    ensures forall p :: p in r ==> BoundOf(PositiveInOrder(m) + NegativeInOrder(m), p)
  {
    Collect(PositiveInOrder(m) + NegativeInOrder(m), [])
  }

  /** Every boundary node of every kept characteristic is listed, and those
      of the positive family come first. */
  lemma BoundaryNodesComplete(cfg: Config)
    requires ValidSpeeds(cfg) && Make(cfg).Ok?
    ensures var m := Make(cfg).value;
      forall k :: k in m.positive ==>
        m.positive[k].bounds.value.0 in GetBoundaryNodes(m) && m.positive[k].bounds.value.1 in GetBoundaryNodes(m)
    ensures var m := Make(cfg).value;
      forall k :: k in m.negative ==>
        m.negative[k].bounds.value.0 in GetBoundaryNodes(m) && m.negative[k].bounds.value.1 in GetBoundaryNodes(m)
    ensures var m := Make(cfg).value;
      Collect(PositiveInOrder(m), []) <= GetBoundaryNodes(m)
  {
    var m := Make(cfg).value;
    CollectAppend(PositiveInOrder(m), NegativeInOrder(m), []);
    forall k | k in m.positive
      ensures m.positive[k] in PositiveInOrder(m) + NegativeInOrder(m)
    {
      InRange(m.ranges.iMin, m.ranges.iMax, k);
    }
    forall k | k in m.negative
      ensures m.negative[k] in PositiveInOrder(m) + NegativeInOrder(m)
    {
      InRange(m.ranges.jMin, m.ranges.jMax, k);
    }
  }

  lemma InRange(lo: int, hi: int, k: int)
    requires lo <= k <= hi
    ensures k in Range(lo, hi)
  {
    assert Range(lo, hi)[k - lo] == k;
  }

  /** The mesh built with strictly positive steps. */
  predicate Forward(cfg: Config) {
    ValidSpeeds(cfg) && Make(cfg).Ok? && Make(cfg).value.steps.ds > 0.0
  }

  lemma ForwardSteps(cfg: Config)
    requires Forward(cfg)
    ensures var st := Make(cfg).value.steps;
      st.dt1 > 0.0 && st.dt2 > 0.0 && st.dt1 * cfg.C1 == st.ds && st.dt2 * cfg.C2 == st.ds
  {
    var st := Make(cfg).value.steps;
    assert st == Setup(cfg).value;
    PositiveFactor(st.dt1, cfg.C1);
    PositiveFactor(st.dt2, cfg.C2);
  }

  lemma PositiveFactor(x: real, c: real)
    requires c > 0.0 && x * c > 0.0
    ensures x > 0.0
  {
  }

  /** The lattice identity: node `(i, j)` is offset `i` on negative
      characteristic `j` and offset `j` on positive characteristic `i`. */
  lemma LatticeIdentity(c: Point, st: Steps, i: int, j: int)
    ensures PointAt(NegativeLine(c, st, j), i) == NodeAt(c, st, i, j)
    ensures PointAt(PositiveLine(c, st, i), j) == NodeAt(c, st, i, j)
  {
    OnNegative(c, st, i, j);
    OnPositive(c, st, i, j);
  }

  lemma OnNegative(c: Point, st: Steps, i: int, j: int)
    ensures PointAt(NegativeLine(c, st, j), i) == NodeAt(c, st, i, j)
  {
    var x, y := i as real, j as real;
    var a, b := PointAt(NegativeLine(c, st, j), i), NodeAt(c, st, i, j);
    assert (i + j) as real == x + y;
    Distribute(x, y, st.ds);
    assert a.0 == c.0 + y * st.ds + x * st.ds;
    assert b.0 == c.0 + (x + y) * st.ds;
    assert a.0 == b.0;
    Negate(x, st.dt1);
    assert a.1 == c.1 + y * st.dt2 + x * -st.dt1;
    assert b.1 == c.1 - x * st.dt1 + y * st.dt2;
    assert a.1 == b.1;
  }

  lemma OnPositive(c: Point, st: Steps, i: int, j: int)
    ensures PointAt(PositiveLine(c, st, i), j) == NodeAt(c, st, i, j)
  {
    var x, y := i as real, j as real;
    var a, b := PointAt(PositiveLine(c, st, i), j), NodeAt(c, st, i, j);
    assert (i + j) as real == x + y;
    Distribute(x, y, st.ds);
    assert a.0 == c.0 + x * st.ds + y * st.ds;
    assert b.0 == c.0 + (x + y) * st.ds;
    assert a.0 == b.0;
    assert a.1 == c.1 - x * st.dt1 + y * st.dt2;
    assert b.1 == c.1 - x * st.dt1 + y * st.dt2;
    assert a.1 == b.1;
  }

  lemma Distribute(x: real, y: real, d: real)
    ensures (x + y) * d == x * d + y * d
  {
  }

  lemma Negate(x: real, d: real)
    ensures x * -d == -(x * d)
  {
  }

  /** Every stored node is offset `i` of the kept negative characteristic
      `j` and offset `j` of the kept positive characteristic `i`, once the
      steps exceed the tolerance. */
  lemma NodeOnBothFamilies(cfg: Config, i: int, j: int)
    requires ValidSpeeds(cfg) && Make(cfg).Ok?
    requires var st := Make(cfg).value.steps; st.ds >= EPS && st.dt1 >= EPS && st.dt2 >= EPS
    requires (i, j) in Make(cfg).value.nodes
    ensures var m := Make(cfg).value;
      && j in m.negative && i in m.negative[j].internal
      && m.negative[j].internal[i] == m.nodes[(i, j)]
      && i in m.positive && j in m.positive[i].internal
      && m.positive[i].internal[j] == m.nodes[(i, j)]
  {
    var m := Make(cfg).value;
    assert m.negative == NegativeFamily(m.frame, m.center, m.steps, m.ranges.jMin, m.ranges.jMax);
    assert m.positive == PositiveFamily(m.frame, m.center, m.steps, m.ranges.iMin, m.ranges.iMax);
    assert m.ranges.iMin <= i <= m.ranges.iMax && m.ranges.jMin <= j <= m.ranges.jMax;
    NegativeKeeps(m.frame, m.center, m.steps, m.ranges.jMin, m.ranges.jMax, i, j);
    PositiveKeeps(m.frame, m.center, m.steps, m.ranges.iMin, m.ranges.iMax, i, j);
  }

  lemma NegativeKeeps(f: Rect, c: Point, st: Steps, lo: int, hi: int, i: int, j: int)
    requires st.ds >= EPS && st.dt1 >= EPS && lo <= j <= hi
    requires ContainsPoint(f, NodeAt(c, st, i, j))
    ensures var fam := NegativeFamily(f, c, st, lo, hi);
      j in fam && i in fam[j].internal && fam[j].internal[i] == NodeAt(c, st, i, j)
  {
    OnNegative(c, st, i, j);
    BuildEmitsLatticePoint(NegativeLine(c, st, j), f, i);
  }

  lemma PositiveKeeps(f: Rect, c: Point, st: Steps, lo: int, hi: int, i: int, j: int)
    requires st.ds >= EPS && st.dt2 >= EPS && lo <= i <= hi
    requires ContainsPoint(f, NodeAt(c, st, i, j))
    ensures var fam := PositiveFamily(f, c, st, lo, hi);
      i in fam && j in fam[i].internal && fam[i].internal[j] == NodeAt(c, st, i, j)
  {
    OnPositive(c, st, i, j);
    BuildEmitsLatticePoint(PositiveLine(c, st, i), f, j);
  }

  /** Conversely, every internal node of a kept characteristic is a stored
      node at the matching indices. */
  lemma FamiliesInsideMesh(cfg: Config, i: int, j: int)
    requires Forward(cfg)
    ensures var m := Make(cfg).value;
      j in m.negative && i in m.negative[j].internal ==>
        (i, j) in m.nodes && m.nodes[(i, j)] == m.negative[j].internal[i]
    ensures var m := Make(cfg).value;
      i in m.positive && j in m.positive[i].internal ==>
        (i, j) in m.nodes && m.nodes[(i, j)] == m.positive[i].internal[j]
  {
    var m := Make(cfg).value;
    LatticeIdentity(m.center, m.steps, i, j);
    RangesCover(cfg, i, j);
  }

  /** The left predecessor is the previous offset on the same negative
      characteristic, the right one the previous offset on the same
      positive characteristic. */
  lemma PrecedingAlongCharacteristics(cfg: Config, i: int, j: int)
    requires ValidSpeeds(cfg) && Make(cfg).Ok?
    ensures var m := Make(cfg).value; var pr := GetPreceding(m, i, j);
      && (pr.left.Some? ==> pr.left.value == PointAt(NegativeLine(m.center, m.steps, j), i - 1))
      && (pr.right.Some? ==> pr.right.value == PointAt(PositiveLine(m.center, m.steps, i), j - 1))
      && (pr.center.Some? ==> pr.center.value == NodeAt(m.center, m.steps, i - 1, j - 1))
  {
    var m := Make(cfg).value;
    LatticeIdentity(m.center, m.steps, i - 1, j);
    LatticeIdentity(m.center, m.steps, i, j - 1);
  }

  /** The centre node `(0, 0)` is the frame's centre. */
  lemma CenterNode(cfg: Config)
    requires Forward(cfg)
    requires WellFormed(FrameOf(cfg))
    ensures GetNode(Make(cfg).value, 0, 0) == Some(Center(FrameOf(cfg)))
  {
    var m := Make(cfg).value;
    NodeAtOrigin(m.center, m.steps);
    CenterInside(m.frame);
    RangesCover(cfg, 0, 0);
  }

  lemma NodeAtOrigin(c: Point, st: Steps)
    ensures NodeAt(c, st, 0, 0) == c
  {
    var p := NodeAt(c, st, 0, 0);
    assert p.0 == c.0 && p.1 == c.1;
  }

  /** The index ranges are wide enough: a node is stored exactly when it lies
      in the frame, whatever its indices. */
  lemma RangesCover(cfg: Config, i: int, j: int)
    requires Forward(cfg)
    ensures var m := Make(cfg).value;
      (i, j) in m.nodes <==> ContainsPoint(m.frame, NodeAt(m.center, m.steps, i, j))
  {
    var m := Make(cfg).value;
    if ContainsPoint(m.frame, NodeAt(m.center, m.steps, i, j)) {
      ForwardSteps(cfg);
      IndicesInRange(m.frame, m.steps, i, j);
      assert m.ranges == IndexRanges(m.frame, m.steps).value;
    }
  }

  /** An in-frame node's indices lie within the symmetric ranges. */
  lemma IndicesInRange(f: Rect, st: Steps, i: int, j: int)
    requires st.ds > 0.0 && st.dt1 > 0.0 && st.dt2 > 0.0
    requires ContainsPoint(f, NodeAt(Center(f), st, i, j))
    ensures IndexRanges(f, st).Ok?
    ensures var rg := IndexRanges(f, st).value;
      rg.iMin <= i <= rg.iMax && rg.jMin <= j <= rg.jMax
  {
    NodeOffsets(f, st, i, j);
    FirstIndexInRange(f, st, i, j);
    SecondIndexInRange(f, st, i, j);
  }

  lemma FirstIndexInRange(f: Rect, st: Steps, i: int, j: int)
    requires st.ds > 0.0 && st.dt1 > 0.0 && st.dt2 > 0.0
    requires -(f.S1 - f.S0) / 2.0 <= (i as real + j as real) * st.ds <= (f.S1 - f.S0) / 2.0
    requires -(f.T1 - f.T0) / 2.0 <= j as real * st.dt2 - i as real * st.dt1 <= (f.T1 - f.T0) / 2.0
    ensures IndexRanges(f, st).Ok?
    ensures IndexRanges(f, st).value.iMin <= i <= IndexRanges(f, st).value.iMax
  {
    var ir := IndexBound(i as real, j as real, st.ds, st.dt1, st.dt2, (f.S1 - f.S0) / 2.0, (f.T1 - f.T0) / 2.0);
    RangesValue(f, st);
  }

  lemma SecondIndexInRange(f: Rect, st: Steps, i: int, j: int)
    requires st.ds > 0.0 && st.dt1 > 0.0 && st.dt2 > 0.0
    requires -(f.S1 - f.S0) / 2.0 <= (i as real + j as real) * st.ds <= (f.S1 - f.S0) / 2.0
    requires -(f.T1 - f.T0) / 2.0 <= j as real * st.dt2 - i as real * st.dt1 <= (f.T1 - f.T0) / 2.0
    ensures IndexRanges(f, st).Ok?
    ensures IndexRanges(f, st).value.jMin <= j <= IndexRanges(f, st).value.jMax
  {
    var jr := OtherIndexBound(i as real, j as real, st.ds, st.dt1, st.dt2, (f.S1 - f.S0) / 2.0, (f.T1 - f.T0) / 2.0);
    RangesValue(f, st);
  }

  lemma RangesValue(f: Rect, st: Steps)
    requires st.ds > 0.0 && st.dt1 > 0.0 && st.dt2 > 0.0
    ensures var RS, RT := (f.S1 - f.S0) / 2.0, (f.T1 - f.T0) / 2.0;
      var ir, jr := Ceil(Max(RS / st.ds, RT / st.dt1)), Ceil(Max(RS / st.ds, RT / st.dt2));
      IndexRanges(f, st) == Ok(Ranges(-ir, ir, -jr, jr))
  {
    FiniteRanges(f, st);
  }

  /** An in-frame node lies within half the width and half the height of
      the centre. */
  lemma NodeOffsets(f: Rect, st: Steps, i: int, j: int)
    requires ContainsPoint(f, NodeAt(Center(f), st, i, j))
    ensures -(f.S1 - f.S0) / 2.0 <= (i as real + j as real) * st.ds <= (f.S1 - f.S0) / 2.0
    ensures -(f.T1 - f.T0) / 2.0 <= j as real * st.dt2 - i as real * st.dt1 <= (f.T1 - f.T0) / 2.0
  {
    assert (i + j) as real == i as real + j as real;
  }

  /** The bound behind `ceil(max(RS/ds, RT/dt1))`: with `|(x + y)*ds| <= RS`
      and `|y*q - x*p| <= RT`, `|x|` is at most the ceiling. */
  lemma IndexBound(x: real, y: real, ds: real, p: real, q: real, RS: real, RT: real) returns (n: int)
    requires ds > 0.0 && p > 0.0 && q > 0.0
    requires -RS <= (x + y) * ds <= RS
    requires -RT <= y * q - x * p <= RT
    ensures n == Ceil(Max(RS / ds, RT / p))
    ensures -(n as real) <= x <= n as real
  {
    n := Ceil(Max(RS / ds, RT / p));
    var M := Max(RS / ds, RT / p);
    var a := x + y;
    var b := y * q - x * p;
    ScaledWithin(a, ds, RS, M);
    MulBounds(a, M, q);
    DivLeToMul(RT, p, M);
    assert x * (p + q) == a * q + -b;
    WeightedBound(x, a, -b, p, q, M);
  }

  /** The same bound for the other index, against `ceil(max(RS/ds, RT/dt2))`. */
  lemma OtherIndexBound(x: real, y: real, ds: real, p: real, q: real, RS: real, RT: real) returns (n: int)
    requires ds > 0.0 && p > 0.0 && q > 0.0
    requires -RS <= (x + y) * ds <= RS
    requires -RT <= y * q - x * p <= RT
    ensures n == Ceil(Max(RS / ds, RT / q))
    ensures -(n as real) <= y <= n as real
  {
    n := Ceil(Max(RS / ds, RT / q));
    var M := Max(RS / ds, RT / q);
    var a := x + y;
    var b := y * q - x * p;
    ScaledWithin(a, ds, RS, M);
    MulBounds(a, M, p);
    DivLeToMul(RT, q, M);
    assert y * (q + p) == a * p + b;
    WeightedBound(y, a, b, q, p, M);
  }

  /** `|x*d| <= R` and `R/d <= M` give `|x| <= M`. */
  lemma ScaledWithin(x: real, d: real, R: real, M: real)
    requires d > 0.0 && -R <= x * d <= R && R / d <= M
    ensures -M <= x <= M
  {
    DivLeOfMulLe(x * d, R / d, d) by { assert R / d * d == R; }
    DivGeOfMulGe(x * d, -(R / d), d) by { assert -(R / d) * d == -R; }
    assert x * d / d == x;
  }

  lemma MulBounds(x: real, M: real, d: real)
    requires d > 0.0 && -M <= x <= M
    ensures -M * d <= x * d <= M * d
  {
    MulMonoLe(x, M, d);
    MulMonoLe(-M, x, d);
  }

  lemma DivLeToMul(R: real, d: real, M: real)
    requires d > 0.0 && R / d <= M
    ensures R <= M * d
  {
    MulMonoLe(R / d, M, d);
    assert R / d * d == R;
  }

  /** `i*(dt1 + dt2) = (i + j)*dt2 - (j*dt2 - i*dt1)` and symmetrically for `j`. */
  lemma SplitIdentity(x: real, y: real, p: real, q: real)
    ensures x * (p + q) == (x + y) * q + -(y * q - x * p)
    ensures y * (q + p) == (x + y) * p + (y * q - x * p)
  {
  }

  /** `x*(p + q) = a*q + b` with `|a*q| <= M*q` and `|b| <= M*p` gives `|x| <= M`. */
  lemma WeightedBound(x: real, a: real, b: real, p: real, q: real, M: real)
    requires p > 0.0 && q > 0.0
    requires x * (p + q) == a * q + b
    requires -M * q <= a * q <= M * q
    requires -M * p <= b <= M * p
    ensures -M <= x <= M
  {
    assert x * (p + q) <= M * (p + q);
    assert -M * (p + q) <= x * (p + q);
    if x > M { MulMonoLe(M, x, p + q); }
    if x < -M { MulMonoLe(x, -M, p + q); }
  }
}
