/** The tabulated function block: a function evaluated once on a
    one-dimensional mesh lying either along `s` (at a fixed `t`) or along `t`
    (at a fixed `s`), looked up afterwards by node index or by the node's
    coordinate.

    The mesh is a Python dictionary from node index to coordinate; it is
    modelled as its items in insertion order, with distinct indices. */
module FunBlock {
  import opened Common

  const ON_S: int := 0
  const ON_T: int := 1

  type Items = seq<(int, real)>

  predicate DistinctKeys(items: Items) {
    forall i, j :: 0 <= i < j < |items| ==> items[i].0 != items[j].0
  }

  function Keys(items: Items): (r: set<int>)
    ensures forall k :: k in r <==> exists j :: 0 <= j < |items| && items[j].0 == k
  {
    if |items| == 0 then {}
    else Keys(items[..|items| - 1]) + {items[|items| - 1].0}
  }

  datatype Block<V> = Block(
    name: string,
    kind: int,
    mesh: Items,
    hashMesh: map<real, int>,
    rez: map<int, V>,
    otherCoord: real)

  /** The coordinate-to-index map, built over the items in order so that of
      two nodes at the same coordinate the later one wins. */
  function HashMesh(items: Items): (r: map<real, int>)
    ensures forall v :: v in r ==> r[v] in Keys(items)
  {
    if |items| == 0 then map[]
    else
      var last := items[|items| - 1];
      HashMesh(items[..|items| - 1])[last.1 := last.0]
  }

  /** The position of the last item at coordinate `v`, if any. */
  function LastAt(items: Items, v: real): (r: Option<nat>)
    ensures r.Some? ==> r.value < |items| && items[r.value].1 == v
    ensures r.Some? ==> forall j :: r.value < j < |items| ==> items[j].1 != v
    ensures r.None? <==> forall j :: 0 <= j < |items| ==> items[j].1 != v
  {
    if |items| == 0 then None
    else if items[|items| - 1].1 == v then Some(|items| - 1)
    else LastAt(items[..|items| - 1], v)
  }

  /** The function's value at every node index. */
  function Tabulate<V>(items: Items, fun: real -> V): (r: map<int, V>)
    requires DistinctKeys(items)
    ensures r.Keys == Keys(items)
    ensures forall j :: 0 <= j < |items| ==> r[items[j].0] == fun(items[j].1)
  {
    map j | 0 <= j < |items| :: items[j].0 := fun(items[j].1)
  }

  /** The constructor: the kind must be `ON_S` or `ON_T`. */
  function New<V>(name: string, kind: int, fun: real -> V, mesh: Items, otherCoord: real): (r: Result<Block<V>>)
    requires DistinctKeys(mesh)
    ensures r.Ok? <==> kind == ON_S || kind == ON_T
    ensures r.Err? ==> r.error.Exception?
    ensures r.Ok? ==> r.value.mesh == mesh && r.value.kind == kind && r.value.otherCoord == otherCoord
    ensures r.Ok? ==> r.value.hashMesh == HashMesh(mesh) && r.value.rez == Tabulate(mesh, fun)
  {
    if kind != ON_S && kind != ON_T then Err(Exception("no such block type (ON_S = 0 or ON_T = 1)"))
    else Ok(Block(name, kind, mesh, HashMesh(mesh), Tabulate(mesh, fun), otherCoord))
  }

  /** `__call__`: exactly one of a node index and a coordinate. An unknown
      index raises `KeyError`; an unknown coordinate raises, since there is
      no interpolation. */
  function Call<V>(b: Block<V>, index: Option<int>, coord: Option<real>): (r: Result<V>)
    ensures index.Some? == coord.Some? ==> r.Err? && r.error.Exception?
    ensures index.Some? && coord.None? ==> (r.Ok? <==> index.value in b.rez)
    ensures index.Some? && coord.None? && r.Ok? ==> r.value == b.rez[index.value]
    ensures coord.Some? && index.None? && coord.value !in b.hashMesh ==> r.Err? && r.error.Exception?
  {
    if index.Some? == coord.Some? then Err(Exception("give either a node index or its coordinate"))
    else if index.Some? then
      if index.value in b.rez then Ok(b.rez[index.value]) else Err(KeyError("unknown node index"))
    else if coord.value !in b.hashMesh then Err(Exception("interpolation is not built in yet"))
    else
      var i := b.hashMesh[coord.value];
      if i in b.rez then Ok(b.rez[i]) else Err(KeyError("unknown node index"))
  }

  datatype Record<V> = Record(s: real, t: real, ind: int, x: V, name: string)

  /** `get_mesh`: one record per node, in the mesh's order, placing the node
      coordinate on the block's axis and the fixed coordinate on the other. */
  function GetMesh<V>(b: Block<V>): (r: seq<Record<V>>)
    requires Keys(b.mesh) <= b.rez.Keys
    ensures |r| == |b.mesh|
    ensures forall k :: 0 <= k < |r| ==> r[k].ind == b.mesh[k].0 && r[k].x == b.rez[b.mesh[k].0] && r[k].name == b.name
    ensures forall k :: 0 <= k < |r| ==>
      (b.kind == ON_S ==> r[k].s == b.mesh[k].1 && r[k].t == b.otherCoord)
      && (b.kind == ON_T ==> r[k].t == b.mesh[k].1 && r[k].s == b.otherCoord)
  {
    seq(|b.mesh|, k requires 0 <= k < |b.mesh| =>
      var (ind, cord) := b.mesh[k];
      assert ind in Keys(b.mesh);
      Record(if b.kind == ON_S then cord else b.otherCoord,
             if b.kind == ON_T then cord else b.otherCoord,
             ind, b.rez[ind], b.name))
  }

  // ---------------------------------------------------------------------
  // Properties

  /** The coordinate map inverts the mesh with the last node winning: a
      coordinate is known exactly when some node has it, and it maps to the
      index of the last such node. */
  lemma {:induction false} HashMeshLastWins(items: Items, v: real)
    ensures v in HashMesh(items) <==> LastAt(items, v).Some?
    ensures v in HashMesh(items) ==> HashMesh(items)[v] == items[LastAt(items, v).value].0
  {
    if |items| > 0 {
      var init := items[..|items| - 1];
      HashMeshLastWins(init, v);
      if items[|items| - 1].1 != v {
        assert LastAt(items, v) == LastAt(init, v);
        if LastAt(init, v).Some? {
          assert items[LastAt(init, v).value] == init[LastAt(init, v).value];
        }
      }
    }
  }

  /** Two nodes at one coordinate: the later index is found. */
  lemma DuplicateCoordinateExample()
    ensures HashMesh([(0, 1.5), (1, 1.5)]) == map[1.5 := 1]
  {
    var items: Items := [(0, 1.5), (1, 1.5)];
    assert items[..1] == [(0, 1.5)];
    assert items[..1][..0] == [];
  }

  /** Looking up a constructed block by index gives the function at that
      node's coordinate. */
  lemma CallByIndex<V>(name: string, kind: int, fun: real -> V, mesh: Items, otherCoord: real, k: int)
    requires DistinctKeys(mesh) && New(name, kind, fun, mesh, otherCoord).Ok?
    requires 0 <= k < |mesh|
    ensures Call(New(name, kind, fun, mesh, otherCoord).value, Some(mesh[k].0), None) == Ok(fun(mesh[k].1))
  {
  }

  /** Looking up by a coordinate that is on the mesh gives the function at
      that coordinate, whichever of its nodes the map points to; a
      coordinate off the mesh raises. */
  lemma CallByCoordinate<V>(name: string, kind: int, fun: real -> V, mesh: Items, otherCoord: real, v: real)
    requires DistinctKeys(mesh) && New(name, kind, fun, mesh, otherCoord).Ok?
    ensures var r := Call(New(name, kind, fun, mesh, otherCoord).value, None, Some(v));
      && (r.Ok? <==> exists j :: 0 <= j < |mesh| && mesh[j].1 == v)
      && (r.Ok? ==> r.value == fun(v))
  {
    HashMeshLastWins(mesh, v);
    var b := New(name, kind, fun, mesh, otherCoord).value;
    if LastAt(mesh, v).Some? {
      var j := LastAt(mesh, v).value;
      assert b.hashMesh[v] == mesh[j].0;
      assert b.rez[mesh[j].0] == fun(mesh[j].1);
    }
  }

  /** Every record of `get_mesh` agrees with a lookup of the same node, by
      index and by coordinate. */
  lemma GetMeshAgreesWithCall<V>(name: string, kind: int, fun: real -> V, mesh: Items, otherCoord: real, k: int)
    requires DistinctKeys(mesh) && New(name, kind, fun, mesh, otherCoord).Ok?
    requires 0 <= k < |mesh|
    ensures var b := New(name, kind, fun, mesh, otherCoord).value;
      var rec := GetMesh(b)[k];
      && Call(b, Some(rec.ind), None) == Ok(rec.x)
      && Call(b, None, Some(mesh[k].1)) == Ok(rec.x)
  {
    var b := New(name, kind, fun, mesh, otherCoord).value;
    CallByIndex(name, kind, fun, mesh, otherCoord, k);
    CallByCoordinate(name, kind, fun, mesh, otherCoord, mesh[k].1);
  }
}
