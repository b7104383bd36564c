/** The hyperbolic block's public face: a characteristic mesh over
    `[S0, S1] x [T0, T1]`, built from either a time step `h` or a node count
    `m`, and a table of values stored by node index.

    The block hands its configuration to the characteristic mesh; the mesh
    is the one of `CharacteristicMesh`. The coordinate-to-index lookup of
    that mesh is a parameter. */
module HypBlock {
  import opened Common
  import Discretization
  import CharacteristicMesh

  type Index = (int, int)

  datatype Block<V> = Block(
    name: string,
    config: Discretization.Config,
    mesher: CharacteristicMesh.Mesh,
    rez: map<Index, V>)

  /** The configuration dictionary: frame and speeds, plus `h` when it is
      given and non-zero, otherwise `m` (absent when `m` was not given). */
  function ConfigOf(S0: real, S1: real, T0: real, T1: real, C1: real, C2: real,
                    h: Option<real>, m: Option<int>): (r: Result<Discretization.Config>)
    ensures r.Ok? <==> h.Some? != m.Some?
    ensures r.Err? ==> r.error.Exception?
    ensures r.Ok? ==> (r.value.S0 == S0 && r.value.S1 == S1 && r.value.T0 == T0 && r.value.T1 == T1
      && r.value.C1 == C1 && r.value.C2 == C2)
    ensures r.Ok? && h.Some? && h.value != 0.0 ==> r.value.h == h && r.value.m.None?
    ensures r.Ok? && m.Some? ==> r.value.m == m && r.value.h.None?
  {
    if h.Some? == m.Some? then Err(Exception("give either h or m"))
    else if h.Some? && h.value != 0.0 then Ok(Discretization.Config(S0, S1, T0, T1, C1, C2, None, h))
    else Ok(Discretization.Config(S0, S1, T0, T1, C1, C2, m, None))
  }

  /** The constructor: the configuration check, then the mesh; no values
      stored yet. */
  function New<V>(name: string, S0: real, S1: real, T0: real, T1: real, C1: real, C2: real,
                  h: Option<real>, m: Option<int>): (r: Result<Block<V>>)
    requires C1 > 0.0 && C2 > 0.0
    ensures h.Some? == m.Some? ==> r.Err? && r.error.Exception?
    ensures r.Ok? ==> r.value.rez == map[] && r.value.name == name
    ensures r.Ok? ==> ConfigOf(S0, S1, T0, T1, C1, C2, h, m) == Ok(r.value.config)
    ensures r.Ok? ==> CharacteristicMesh.Make(r.value.config) == Ok(r.value.mesher)
  {
    match ConfigOf(S0, S1, T0, T1, C1, C2, h, m)
    case Err(e) => Err(e)
    case Ok(cfg) =>
      match CharacteristicMesh.Make(cfg)
      case Err(e) => Err(e)
      case Ok(mesh) => Ok(Block(name, cfg, mesh, map[]))
  }

  /** `add_index_val`: store `val` under `index`, replacing any earlier
      value. */
  function AddIndexVal<V>(b: Block<V>, index: Index, val: V): (r: Block<V>)
    ensures r.rez.Keys == b.rez.Keys + {index}
    ensures r.rez[index] == val
    ensures forall k :: k in b.rez && k != index ==> r.rez[k] == b.rez[k]
    ensures r.name == b.name && r.config == b.config && r.mesher == b.mesher
  {
    b.(rez := b.rez[index := val])
  }

  /** What a call answers: the node at an index, or the index of a
      coordinate. */
  datatype Answer = NodeAnswer(node: Option<Point>) | IndexAnswer(index: Index)

  /** `__call__`: exactly one of an index pair and a coordinate pair; the
      index path asks the mesh for the node. */
  function Call<V>(b: Block<V>, index: Option<Index>, coord: Option<Point>, getIndexes: Point -> Index): (r: Result<Answer>)
    ensures index.Some? == coord.Some? ==> r.Err? && r.error.Exception?
    ensures index.Some? && coord.None? ==>
      r == Ok(NodeAnswer(CharacteristicMesh.GetNode(b.mesher, index.value.0, index.value.1)))
    ensures coord.Some? && index.None? ==> r == Ok(IndexAnswer(getIndexes(coord.value)))
  {
    if index.Some? == coord.Some? then Err(Exception("give either a node index or its coordinate"))
    else if index.Some? then Ok(NodeAnswer(CharacteristicMesh.GetNode(b.mesher, index.value.0, index.value.1)))
    else Ok(IndexAnswer(getIndexes(coord.value)))
  }

  datatype Record<V> = Record(s: real, t: real, ind: Index, x: Option<V>, name: string)

  /** The node part of `get_mesh`: one record per mesh node, carrying the
      stored value or nothing (Python's `[None, None]`). */
  function NodeRecords<V>(b: Block<V>): (r: map<Index, Record<V>>)
    ensures r.Keys == b.mesher.nodes.Keys
    ensures forall ind :: ind in r ==>
      && r[ind].ind == ind
      && (r[ind].s, r[ind].t) == b.mesher.nodes[ind]
      && (r[ind].x.Some? <==> ind in b.rez)
      && (ind in b.rez ==> r[ind].x.value == b.rez[ind])
  {
    map ind | ind in b.mesher.nodes ::
      Record(b.mesher.nodes[ind].0, b.mesher.nodes[ind].1, ind,
             if ind in b.rez then Some(b.rez[ind]) else None, b.name)
  }

  // ---------------------------------------------------------------------
  // Properties

  /** Storing a value and then listing the mesh shows that value at that
      node, leaves every other node's record as it was, and a later store
      at the same index overrides it. */
  lemma AddThenList<V>(b: Block<V>, index: Index, val: V, other: V)
    ensures var r := NodeRecords(AddIndexVal(b, index, val));
      index in b.mesher.nodes ==> r[index].x == Some(val)
    ensures forall k :: k in b.mesher.nodes && k != index ==>
      NodeRecords(AddIndexVal(b, index, val))[k] == NodeRecords(b)[k]
    ensures AddIndexVal(AddIndexVal(b, index, val), index, other) == AddIndexVal(b, index, other)
  {
    var b1 := AddIndexVal(b, index, val);
    forall k | k in b.mesher.nodes && k != index
      ensures NodeRecords(b1)[k] == NodeRecords(b)[k]
    {
      assert (k in b1.rez) == (k in b.rez);
    }
    assert b1.rez[index := other] == b.rez[index := other];
  }

  /** The index path of a call finds exactly the stored mesh nodes, each at
      the lattice position of its index. */
  lemma CallFindsMeshNodes<V>(b: Block<V>, i: int, j: int, getIndexes: Point -> Index)
    requires Discretization.ValidSpeeds(b.config)
    requires CharacteristicMesh.Make(b.config) == Ok(b.mesher)
    ensures var r := Call(b, Some((i, j)), None, getIndexes);
      && r.Ok? && r.value.NodeAnswer?
      && (r.value.node.Some? <==> (i, j) in b.mesher.nodes)
      && (r.value.node.Some? ==>
            r.value.node.value == CharacteristicMesh.NodeAt(b.mesher.center, b.mesher.steps, i, j))
  {
  }

  /** A freshly built block lists every mesh node, with no value stored. */
  lemma FreshListsNodes<V>(name: string, S0: real, S1: real, T0: real, T1: real, C1: real, C2: real,
                           h: Option<real>, m: Option<int>)
    requires C1 > 0.0 && C2 > 0.0
    requires New<V>(name, S0, S1, T0, T1, C1, C2, h, m).Ok?
    ensures var b := New<V>(name, S0, S1, T0, T1, C1, C2, h, m).value;
      && NodeRecords(b).Keys == b.mesher.nodes.Keys
      && forall ind :: ind in NodeRecords(b) ==> NodeRecords(b)[ind].x.None?
  {
  }

  /** A block built from a given `h` hands exactly that `h` to the mesh,
      and one built from `m` hands that `m`. */
  lemma ConfigChoosesOne(S0: real, S1: real, T0: real, T1: real, C1: real, C2: real, h: real, m: int)
    ensures h != 0.0 ==> ConfigOf(S0, S1, T0, T1, C1, C2, Some(h), None).value.h == Some(h)
    ensures ConfigOf(S0, S1, T0, T1, C1, C2, None, Some(m)).value.m == Some(m)
    ensures ConfigOf(S0, S1, T0, T1, C1, C2, Some(h), Some(m)).Err?
    ensures ConfigOf(S0, S1, T0, T1, C1, C2, None, None).Err?
  {
  }
}
