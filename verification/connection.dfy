/** Boundary connections between blocks and the manager that creates them.
    A connection is a shared mutable object: the manager's list and the
    target block's list hold the same object, so marking it ready through
    one is seen through the other. The model keeps every connection once in
    a store and lets both lists hold indices into it. */
module Connection {
  import opened Common

  type BlockId = nat
  type Inputs = map<string, real>

  datatype Connection = Connection(
    source: BlockId, sourceBoundary: string,
    target: BlockId, targetBoundary: string,
    readyUntil: real)

  /** All connections, the manager's list and each block's own list. */
  datatype Network = Network(
    store: seq<Connection>,
    managed: seq<nat>,
    attached: map<BlockId, seq<nat>>)

  /** Every list entry names a stored connection. */
  ghost predicate Valid(n: Network) {
    && (forall i :: 0 <= i < |n.managed| ==> n.managed[i] < |n.store|)
    && (forall b :: b in n.attached ==> forall i :: 0 <= i < |n.attached[b]| ==> n.attached[b][i] < |n.store|)
  }

  /** A block's connection list; a block never connected has none. */
  function Attached(n: Network, b: BlockId): (r: seq<nat>)
    ensures b !in n.attached ==> r == []
    ensures b in n.attached ==> r == n.attached[b]
  {
    if b in n.attached then n.attached[b] else []
  }

  /** A new connection is ready until time 0. */
  function NewConnection(source: BlockId, sourceBoundary: string,
                         target: BlockId, targetBoundary: string): (c: Connection)
    ensures c.readyUntil == 0.0
    ensures c.source == source && c.target == target
    ensures c.sourceBoundary == sourceBoundary && c.targetBoundary == targetBoundary
  {
    Connection(source, sourceBoundary, target, targetBoundary, 0.0)
  }

  /** Data is ready up to and including `readyUntil`. */
  predicate IsReady(c: Connection, t: real) {
    t <= c.readyUntil
  }

  /** `mark_ready` overwrites the bound; it does not take the maximum. */
  function MarkReady(n: Network, id: nat, until: real): (r: Network)
    requires id < |n.store|
    ensures |r.store| == |n.store| && r.managed == n.managed && r.attached == n.attached
    ensures r.store[id].readyUntil == until
    ensures forall j :: 0 <= j < |n.store| && j != id ==> r.store[j] == n.store[j]
    ensures r.store[id] == n.store[id].(readyUntil := until)
  {
    n.(store := n.store[id := n.store[id].(readyUntil := until)])
  }

  /** `connect_blocks`: create the connection, append it to the manager's
      list and to the target block's list, and return it. */
  function ConnectBlocks(n: Network, source: BlockId, sourceBoundary: string,
                         target: BlockId, targetBoundary: string): (r: (Network, nat))
    ensures r.1 == |n.store|
    ensures r.0.store == n.store + [NewConnection(source, sourceBoundary, target, targetBoundary)]
    ensures r.0.managed == n.managed + [r.1]
    ensures Attached(r.0, target) == Attached(n, target) + [r.1]
    ensures forall b :: b != target ==> Attached(r.0, b) == Attached(n, b)
  {
    var id := |n.store|;
    var c := NewConnection(source, sourceBoundary, target, targetBoundary);
    (Network(n.store + [c], n.managed + [id], n.attached[target := Attached(n, target) + [id]]), id)
  }

  /** `get_connections_for_block`: the manager's connections that have the
      block at either end, in the manager's order. */
  function ConnectionsFor(n: Network, ids: seq<nat>, b: BlockId): (r: seq<nat>)
    requires forall i :: 0 <= i < |ids| ==> ids[i] < |n.store|
    ensures |r| <= |ids|
    ensures forall i :: 0 <= i < |r| ==> r[i] < |n.store|
  {
    if |ids| == 0 then []
    else
      var c := n.store[ids[0]];
      (if c.source == b || c.target == b then [ids[0]] else []) + ConnectionsFor(n, ids[1..], b)
  }

  /** Every two entries of `r` occur in `ids` in the same order. */
  ghost predicate KeepsOrder(r: seq<nat>, ids: seq<nat>) {
    forall p, q :: 0 <= p < q < |r| ==> PairInOrder(r, ids, p, q)
  }

  /** Entries `p` and `q` of `r` occur in `ids` in that order. */
  ghost predicate PairInOrder(r: seq<nat>, ids: seq<nat>, p: nat, q: nat)
    requires p < q < |r|
  {
    exists a, c :: 0 <= a < c < |ids| && ids[a] == r[p] && ids[c] == r[q]
  }

  function GetConnectionsForBlock(n: Network, b: BlockId): (r: seq<nat>)
    requires Valid(n)
    ensures forall id :: id in r <==> id in n.managed && (n.store[id].source == b || n.store[id].target == b)
    ensures KeepsOrder(r, n.managed)
  {
    ConnectionsForAll(n, n.managed, b);
    ConnectionsForOrdered(n, n.managed, b);
    ConnectionsFor(n, n.managed, b)
  }

  /** `is_ready` of a block: every connection in its own list is ready
      (vacuously so with none). */
  predicate BlockReady(n: Network, b: BlockId, t: real)
    requires Valid(n)
    ensures |Attached(n, b)| == 0 ==> BlockReady(n, b, t)
    ensures BlockReady(n, b, t) <==> forall id :: id in Attached(n, b) ==> t <= n.store[id].readyUntil
  {
    forall i :: 0 <= i < |Attached(n, b)| ==> IsReady(n.store[Attached(n, b)[i]], t)
  }

  /** `get_boundary_value`: the first connection in the block's list whose
      source boundary has that name answers through `read`; with none the
      answer is `None`. */
  function BoundaryValue(n: Network, ids: seq<nat>, name: string, t: real,
                         read: (Connection, real) -> Option<real>): (r: Option<real>)
    requires forall i :: 0 <= i < |ids| ==> ids[i] < |n.store|
    ensures (forall i :: 0 <= i < |ids| ==> n.store[ids[i]].sourceBoundary != name) ==> r.None?
  {
    if |ids| == 0 then None
    else if n.store[ids[0]].sourceBoundary == name then read(n.store[ids[0]], t)
    else BoundaryValue(n, ids[1..], name, t, read)
  }

  function GetBoundaryValue(n: Network, b: BlockId, name: string, t: real,
                            read: (Connection, real) -> Option<real>): (r: Option<real>)
    requires Valid(n)
    ensures (forall id :: id in Attached(n, b) ==> n.store[id].sourceBoundary != name) ==> r.None?
    ensures forall k ::
      (0 <= k < |Attached(n, b)| && n.store[Attached(n, b)[k]].sourceBoundary == name
       && (forall i :: 0 <= i < k ==> n.store[Attached(n, b)[i]].sourceBoundary != name)) ==>
      r == read(n.store[Attached(n, b)[k]], t)
  {
    BoundaryValueFirstMatchAll(n, Attached(n, b), name, t, read);
    BoundaryValue(n, Attached(n, b), name, t, read)
  }

  /** The connection's own `get_value`: a placeholder that answers `None`. */
  function StubRead(c: Connection, t: real): (r: Option<real>)
    ensures r.None?
  {
    None
  }

  /** `_collect_inputs` of a concentrated block: every reading of its
      connections, in list order; a reading that raised (`Err`) or answered
      `None` is skipped, later ones overwrite earlier ones with the same
      source boundary. */
  function CollectInputs(readings: seq<(string, Result<Option<real>>)>): (r: Inputs)
    ensures forall k :: k in r ==> exists i :: 0 <= i < |readings| && readings[i].0 == k
  {
    if |readings| == 0 then map[]
    else
      var last := readings[|readings| - 1];
      var rest := CollectInputs(readings[..|readings| - 1]);
      match last.1
      case Ok(Some(v)) => rest[last.0 := v]
      case _ => rest
  }

  /** The last usable reading for boundary `k`, searched from the end. */
  function LastReading(readings: seq<(string, Result<Option<real>>)>, k: string): Option<real> {
    if |readings| == 0 then None
    else
      var last := readings[|readings| - 1];
      if last.0 == k && last.1.Ok? && last.1.value.Some? then Some(last.1.value.value)
      else LastReading(readings[..|readings| - 1], k)
  }

  // ---------------------------------------------------------------------------
  // Properties
  // ---------------------------------------------------------------------------

  /** Connecting keeps the network well formed. */
  lemma ConnectKeepsValid(n: Network, source: BlockId, sourceBoundary: string,
                          target: BlockId, targetBoundary: string)
    requires Valid(n)
    ensures Valid(ConnectBlocks(n, source, sourceBoundary, target, targetBoundary).0)
  {
    var r := ConnectBlocks(n, source, sourceBoundary, target, targetBoundary).0;
    forall b | b in r.attached
      ensures forall i :: 0 <= i < |r.attached[b]| ==> r.attached[b][i] < |r.store|
    {
      assert r.attached[b] == Attached(r, b);
    }
  }

  /** A connection is found for a block exactly when the block is one of
      its two ends. */
  lemma {:induction false} ConnectionsForMembers(n: Network, ids: seq<nat>, b: BlockId, id: nat)
    requires forall i :: 0 <= i < |ids| ==> ids[i] < |n.store|
    ensures id in ConnectionsFor(n, ids, b) <==>
      id in ids && (n.store[id].source == b || n.store[id].target == b)
  {
    if |ids| > 0 {
      ConnectionsForMembers(n, ids[1..], b, id);
      assert ids == [ids[0]] + ids[1..];
    }
  }

  /** The filter keeps the manager's order: it drops entries, it never
      moves one. */
  lemma {:induction false} ConnectionsForOrdered(n: Network, ids: seq<nat>, b: BlockId)
    requires forall i :: 0 <= i < |ids| ==> ids[i] < |n.store|
    ensures KeepsOrder(ConnectionsFor(n, ids, b), ids)
  {
    if |ids| > 0 {
      var tail := ids[1..];
      var rest := ConnectionsFor(n, tail, b);
      ConnectionsForOrdered(n, tail, b);
      assert ids == [ids[0]] + tail;
      if n.store[ids[0]].source == b || n.store[ids[0]].target == b {
        forall k | 0 <= k < |rest| ensures rest[k] in tail {
          ConnectionsForMembers(n, tail, b, rest[k]);
        }
        OrderCons(ids[0], rest, tail);
        assert ConnectionsFor(n, ids, b) == [ids[0]] + rest;
      } else {
        OrderDrop(ids[0], rest, tail);
        assert ConnectionsFor(n, ids, b) == rest;
      }
    }
  }

  lemma OrderCons(x: nat, rest: seq<nat>, tail: seq<nat>)
    requires KeepsOrder(rest, tail)
    requires forall k :: 0 <= k < |rest| ==> rest[k] in tail
    ensures KeepsOrder([x] + rest, [x] + tail)
  {
    var r, ids := [x] + rest, [x] + tail;
    forall p, q | 0 <= p < q < |r|
      ensures PairInOrder(r, ids, p, q)
    {
      if p == 0 {
        assert rest[q - 1] in tail;
        var c' :| 0 <= c' < |tail| && tail[c'] == rest[q - 1];
        assert ids[0] == r[p] && ids[c' + 1] == r[q];
      } else {
        assert PairInOrder(rest, tail, p - 1, q - 1);
        var a', c' :| 0 <= a' < c' < |tail| && tail[a'] == rest[p - 1] && tail[c'] == rest[q - 1];
        assert ids[a' + 1] == r[p] && ids[c' + 1] == r[q];
      }
    }
    assert KeepsOrder(r, ids);
  }

  lemma OrderDrop(x: nat, rest: seq<nat>, tail: seq<nat>)
    requires KeepsOrder(rest, tail)
    ensures KeepsOrder(rest, [x] + tail)
  {
    var ids := [x] + tail;
    forall p, q | 0 <= p < q < |rest|
      ensures PairInOrder(rest, ids, p, q)
    {
      assert PairInOrder(rest, tail, p, q);
      var a', c' :| 0 <= a' < c' < |tail| && tail[a'] == rest[p] && tail[c'] == rest[q];
      assert ids[a' + 1] == rest[p] && ids[c' + 1] == rest[q];
    }
    assert KeepsOrder(rest, ids);
  }

  lemma ConnectionsForAll(n: Network, ids: seq<nat>, b: BlockId)
    requires forall i :: 0 <= i < |ids| ==> ids[i] < |n.store|
    ensures forall id :: id in ConnectionsFor(n, ids, b) <==>
      id in ids && (n.store[id].source == b || n.store[id].target == b)
  {
    forall id {
      ConnectionsForMembers(n, ids, b, id);
    }
  }

  lemma BoundaryValueFirstMatchAll(n: Network, ids: seq<nat>, name: string, t: real,
                                   read: (Connection, real) -> Option<real>)
    requires forall i :: 0 <= i < |ids| ==> ids[i] < |n.store|
    ensures forall k ::
      (0 <= k < |ids| && n.store[ids[k]].sourceBoundary == name
       && (forall i :: 0 <= i < k ==> n.store[ids[i]].sourceBoundary != name)) ==>
      BoundaryValue(n, ids, name, t, read) == read(n.store[ids[k]], t)
  {
    forall k | 0 <= k < |ids| && n.store[ids[k]].sourceBoundary == name
      && (forall i :: 0 <= i < k ==> n.store[ids[i]].sourceBoundary != name)
    {
      BoundaryValueFirstMatch(n, ids, name, t, read, k);
    }
  }

  /** Readiness of a block is monotone in time: ready at `t`, ready at
      every earlier time. */
  lemma BlockReadyMonotone(n: Network, b: BlockId, t: real, u: real)
    requires Valid(n) && BlockReady(n, b, t) && u <= t
    ensures BlockReady(n, b, u)
  {
  }

  /** A connection ready at `t` is ready at every earlier time. */
  lemma ReadyMonotone(c: Connection, t: real, u: real)
    requires IsReady(c, t) && u <= t
    ensures IsReady(c, u)
  {
  }

  /** A block without connections is always ready. */
  lemma UnconnectedReady(n: Network, b: BlockId, t: real)
    requires Valid(n) && |Attached(n, b)| == 0
    ensures BlockReady(n, b, t)
  {
  }

  /** A freshly connected target is not ready for any positive time, and
      every other block's readiness is unchanged. */
  lemma ConnectBlocksReadiness(n: Network, source: BlockId, sourceBoundary: string,
                               target: BlockId, targetBoundary: string, t: real)
    requires Valid(n)
    ensures Valid(ConnectBlocks(n, source, sourceBoundary, target, targetBoundary).0)
    ensures t > 0.0 ==> !BlockReady(ConnectBlocks(n, source, sourceBoundary, target, targetBoundary).0, target, t)
    ensures forall b :: b != target ==>
      (BlockReady(ConnectBlocks(n, source, sourceBoundary, target, targetBoundary).0, b, t) <==> BlockReady(n, b, t))
  {
    ConnectKeepsValid(n, source, sourceBoundary, target, targetBoundary);
    var r := ConnectBlocks(n, source, sourceBoundary, target, targetBoundary);
    var last := |Attached(r.0, target)| - 1;
    assert Attached(r.0, target)[last] == r.1;
    assert r.0.store[r.1].readyUntil == 0.0;
    forall b | b != target
      ensures BlockReady(r.0, b, t) <==> BlockReady(n, b, t)
    {
      assert Attached(r.0, b) == Attached(n, b);
      assert forall i :: 0 <= i < |Attached(n, b)| ==> r.0.store[Attached(n, b)[i]] == n.store[Attached(n, b)[i]];
    }
  }

  /** Marking a connection ready through the manager is seen by the block
      holding the same connection: with every one of the block's connections
      marked up to `u`, the block is ready exactly up to `u`. */
  lemma MarkReadyShared(n: Network, b: BlockId, id: nat, u: real, t: real)
    requires Valid(n) && id < |n.store|
    requires Attached(n, b) == [id]
    ensures Valid(MarkReady(n, id, u))
    ensures BlockReady(MarkReady(n, id, u), b, t) <==> t <= u
  {
    var r := MarkReady(n, id, u);
    assert Attached(r, b)[0] == id;
  }

  /** Marking can move the bound backwards: the last mark wins. */
  lemma MarkReadyOverwrites(n: Network, id: nat, u1: real, u2: real)
    requires id < |n.store|
    ensures MarkReady(MarkReady(n, id, u1), id, u2).store[id].readyUntil == u2
    ensures u2 < u1 ==> (IsReady(MarkReady(n, id, u1).store[id], u1)
      && !IsReady(MarkReady(MarkReady(n, id, u1), id, u2).store[id], u1))
  {
  }

  /** The boundary value comes from the first connection with that source
      boundary; with the placeholder reader it is always `None`. */
  lemma {:induction false} BoundaryValueFirstMatch(n: Network, ids: seq<nat>, name: string, t: real,
                                                   read: (Connection, real) -> Option<real>, k: int)
    requires forall i :: 0 <= i < |ids| ==> ids[i] < |n.store|
    requires 0 <= k < |ids| && n.store[ids[k]].sourceBoundary == name
    requires forall i :: 0 <= i < k ==> n.store[ids[i]].sourceBoundary != name
    ensures BoundaryValue(n, ids, name, t, read) == read(n.store[ids[k]], t)
    ensures BoundaryValue(n, ids, name, t, StubRead).None?
  {
    if k > 0 {
      BoundaryValueFirstMatch(n, ids[1..], name, t, read, k - 1);
    }
  }

  /** A boundary appears among the collected inputs exactly when some
      reading for it succeeded with a value, and the value is the last such. */
  lemma {:induction false} CollectInputsLastWins(readings: seq<(string, Result<Option<real>>)>, k: string)
    ensures k in CollectInputs(readings) <==> LastReading(readings, k).Some?
    ensures k in CollectInputs(readings) ==> CollectInputs(readings)[k] == LastReading(readings, k).value
  {
    if |readings| > 0 {
      CollectInputsLastWins(readings[..|readings| - 1], k);
    }
  }

  /** With the placeholder reader every reading is `None`, so nothing is
      collected. */
  lemma {:induction false} CollectNothing(readings: seq<(string, Result<Option<real>>)>)
    requires forall i :: 0 <= i < |readings| ==> readings[i].1 == Ok(None)
    ensures CollectInputs(readings) == map[]
  {
    if |readings| > 0 {
      CollectNothing(readings[..|readings| - 1]);
    }
  }
}
