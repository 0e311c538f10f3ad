/** The reference state store: rows, holds, and the fencing that decides who may write what. */
module Store {
  import opened Graphs
  import opened Values
  import opened Ir
  import Text

  /** An acquisition: whose it is, which nodes it covers, when it lapses, and its place in the sequence of acquisitions. */
  datatype Lease = Lease(owner: string, expiresAt: real, scope: set<Id>, fence: nat)
  {
    predicate Blocks(asking: string, now: real) {
      owner != asking && expiresAt > now
    }
  }

  type Holds = map<Id, Lease>

  // ------------------------------------------------------------------- judgements

  datatype WriteRefusal =
    | OutsideScope(node: Id)
    | HeldByAnother(node: Id, holder: string)
    | Superseded(node: Id, fence: nat, newer: nat)
    | LeaseExpired(node: Id)

  /** Why one node may not be written under `lease`. */
  function Objection(lease: Lease, held: Holds, now: real, id: Id): Option<WriteRefusal> {
    if id !in held then if id !in lease.scope then Some(OutsideScope(id)) else None
    else
      var current := held[id];
      if current.owner != lease.owner then Some(HeldByAnother(id, current.owner))
      else if current.fence > lease.fence then Some(Superseded(id, lease.fence, current.fence))
      else if current.expiresAt <= now then Some(LeaseExpired(id))
      else None
  }

  function FirstObjection(lease: Lease, held: Holds, now: real, ids: seq<Id>): Option<WriteRefusal> {
    if ids == [] then None
    else if Objection(lease, held, now, ids[0]).Some? then Objection(lease, held, now, ids[0])
    else FirstObjection(lease, held, now, ids[1..])
  }

  /** The error barring a write, or `None`; a write outside any run is unfenced. */
  function FenceViolation(lease: Option<Lease>, held: Holds, now: real, touched: set<Id>): Option<WriteRefusal> {
    if lease.None? then None else FirstObjection(lease.value, held, now, Text.Sorted(touched))
  }

  lemma {:induction false} FirstObjectionMeans(lease: Lease, held: Holds, now: real, ids: seq<Id>)
    ensures FirstObjection(lease, held, now, ids).None? <==> forall id :: id in ids ==> Objection(lease, held, now, id).None?
    ensures FirstObjection(lease, held, now, ids).Some? ==>
              exists k :: 0 <= k < |ids| && FirstObjection(lease, held, now, ids) == Objection(lease, held, now, ids[k]) &&
                          forall j :: 0 <= j < k ==> Objection(lease, held, now, ids[j]).None?
  {
    hide Objection;
    if ids != [] {
      FirstObjectionMeans(lease, held, now, ids[1..]);
      assert forall id :: id in ids <==> id == ids[0] || id in ids[1..];
      if Objection(lease, held, now, ids[0]).None? && FirstObjection(lease, held, now, ids).Some? {
        var k :| 0 <= k < |ids[1..]| && FirstObjection(lease, held, now, ids[1..]) == Objection(lease, held, now, ids[1..][k]) &&
                 forall j :: 0 <= j < k ==> Objection(lease, held, now, ids[1..][j]).None?;
        assert ids[k + 1] == ids[1..][k];
        forall j | 0 <= j < k + 1 ensures Objection(lease, held, now, ids[j]).None? {
          if j > 0 { assert ids[j] == ids[1..][j - 1]; }
        }
      }
    }
  }

  /** The write may land on the node: the hold is the writer's own, no newer and unexpired, or there is none and
   * the node is in the lease's scope. */
  predicate MayWrite(lease: Lease, held: Holds, now: real, id: Id) {
    if id in held then held[id].owner == lease.owner && held[id].fence <= lease.fence && now < held[id].expiresAt
    else id in lease.scope
  }

  /** Which refusal a node earns: a foreign hold comes before a newer fence of the owner's own, and that before expiry. */
  lemma ObjectionExactly(lease: Lease, held: Holds, now: real, id: Id)
    ensures var o := Objection(lease, held, now, id);
            && (o == Some(OutsideScope(id)) <==> id !in held && id !in lease.scope)
            && (id in held ==>
                && (o == Some(HeldByAnother(id, held[id].owner)) <==> held[id].owner != lease.owner)
                && (o == Some(Superseded(id, lease.fence, held[id].fence)) <==>
                    held[id].owner == lease.owner && lease.fence < held[id].fence)
                && (o == Some(LeaseExpired(id)) <==>
                    held[id].owner == lease.owner && held[id].fence <= lease.fence && held[id].expiresAt <= now))
  {}

  /** Main result on one write: it is accepted exactly when every node it touches may be written. */
  lemma AcceptedExactly(lease: Lease, held: Holds, now: real, touched: set<Id>)
    ensures FenceViolation(Some(lease), held, now, touched).None? <==> forall id :: id in touched ==> MayWrite(lease, held, now, id)
  {
    FirstObjectionMeans(lease, held, now, Text.Sorted(touched));
    forall id | id in touched ensures Objection(lease, held, now, id).None? <==> MayWrite(lease, held, now, id) {}
    forall id ensures id in touched <==> id in Text.Sorted(touched) {}
  }

  datatype LockRefusal = Locked(node: Id, holder: string, until: real)

  function FirstBlocking(held: Holds, owner: string, now: real, ids: seq<Id>): Option<LockRefusal> {
    if ids == [] then None
    else if ids[0] in held && held[ids[0]].Blocks(owner, now) then Some(Locked(ids[0], held[ids[0]].owner, held[ids[0]].expiresAt))
    else FirstBlocking(held, owner, now, ids[1..])
  }

  /** The first hold of another owner in the way of an acquisition. */
  function ScopeConflict(held: Holds, owner: string, now: real, scope: set<Id>): Option<LockRefusal> {
    FirstBlocking(held, owner, now, Text.Sorted(scope))
  }

  lemma {:induction false} FirstBlockingMeans(held: Holds, owner: string, now: real, ids: seq<Id>)
    ensures FirstBlocking(held, owner, now, ids).None? <==>
            forall id :: id in ids && id in held ==> !held[id].Blocks(owner, now)
  {
    if ids != [] {
      FirstBlockingMeans(held, owner, now, ids[1..]);
      assert forall id :: id in ids <==> id == ids[0] || id in ids[1..];
    }
  }

  /** The refusal tells of a node asked for, and of whose unexpired hold on it is in the way. */
  lemma {:induction false} BlockingMeans(held: Holds, owner: string, now: real, ids: seq<Id>)
    ensures var r := FirstBlocking(held, owner, now, ids);
            r.Some? ==> exists k ::
              && 0 <= k < |ids| && ids[k] in held && r.value == Locked(ids[k], held[ids[k]].owner, held[ids[k]].expiresAt)
              && held[ids[k]].owner != owner && now < held[ids[k]].expiresAt
              && forall j :: 0 <= j < k && ids[j] in held ==>
                   held[ids[j]].owner == owner || held[ids[j]].expiresAt <= now
  {
    if ids != [] && !(ids[0] in held && held[ids[0]].Blocks(owner, now)) {
      BlockingMeans(held, owner, now, ids[1..]);
      if FirstBlocking(held, owner, now, ids[1..]).Some? {
        var k :| 0 <= k < |ids[1..]| && ids[1..][k] in held &&
                 FirstBlocking(held, owner, now, ids[1..]).value ==
                   Locked(ids[1..][k], held[ids[1..][k]].owner, held[ids[1..][k]].expiresAt) &&
                 held[ids[1..][k]].owner != owner && now < held[ids[1..][k]].expiresAt &&
                 forall j :: 0 <= j < k && ids[1..][j] in held ==>
                   held[ids[1..][j]].owner == owner || held[ids[1..][j]].expiresAt <= now;
        assert ids[k + 1] == ids[1..][k];
        forall j | 0 <= j < k + 1 && ids[j] in held ensures held[ids[j]].owner == owner || held[ids[j]].expiresAt <= now {
          if j > 0 { assert ids[j] == ids[1..][j - 1]; }
        }
      }
    }
  }

  /** An acquisition succeeds exactly when no other owner holds, unexpired, any node asked for. */
  lemma AcquirableExactly(held: Holds, owner: string, now: real, scope: set<Id>)
    ensures ScopeConflict(held, owner, now, scope).None? <==>
            forall id :: id in scope && id in held ==> held[id].owner == owner || held[id].expiresAt <= now
  {
    FirstBlockingMeans(held, owner, now, Text.Sorted(scope));
    forall id | id in held ensures held[id].Blocks(owner, now) <==> !(held[id].owner == owner || held[id].expiresAt <= now) {}
    forall id ensures id in scope <==> id in Text.Sorted(scope) {}
  }

  // ----------------------------------------------------------------- store contents

  datatype Contents = Contents(nodes: StateGraph, holds: Holds, serial: nat, fence: nat, outputs: map<string, Value>)

  function Stored(s: Contents, node: StateNode): Contents {
    s.(nodes := s.nodes[node.id := node], serial := s.serial + 1)
  }

  function Dropped(s: Contents, id: Id): Contents {
    if id in s.nodes then s.(nodes := s.nodes - {id}, serial := s.serial + 1) else s
  }

  function DroppedAll(s: Contents, ids: seq<Id>): Contents {
    if ids == [] then s else Dropped(DroppedAll(s, ids[..|ids| - 1]), ids[|ids| - 1])
  }

  function StoredAll(s: Contents, nodes: seq<StateNode>): Contents {
    if nodes == [] then s else Stored(StoredAll(s, nodes[..|nodes| - 1]), nodes[|nodes| - 1])
  }

  function RowIds(nodes: seq<StateNode>): set<Id> {
    set n | n in nodes :: n.id
  }

  /** A batch that passed the fencing check: deletes first, then upserts. */
  function Written(s: Contents, deleteIds: seq<Id>, nodes: seq<StateNode>): Contents {
    StoredAll(DroppedAll(s, deleteIds), nodes)
  }

  function AcquiredLease(s: Contents, owner: string, ttl: real, scope: set<Id>, now: real): Lease {
    Lease(owner, now + ttl, scope, s.fence + 1)
  }

  function Acquired(s: Contents, owner: string, ttl: real, scope: set<Id>, now: real): Contents {
    var lease := AcquiredLease(s, owner, ttl, scope, now);
    s.(fence := s.fence + 1, holds := s.holds + map id | id in scope :: lease)
  }

  function Released(s: Contents, owner: string): Contents {
    s.(holds := map id | id in s.holds && s.holds[id].owner != owner :: s.holds[id])
  }

  function Unlocked(s: Contents, ids: set<Id>): Contents {
    s.(holds := s.holds - ids)
  }

  lemma {:induction false} DroppedMeans(s: Contents, ids: seq<Id>)
    ensures var r := DroppedAll(s, ids);
            r.nodes == s.nodes - Elems(ids) && r.holds == s.holds && r.fence == s.fence && r.outputs == s.outputs &&
            s.serial <= r.serial && (r.serial == s.serial <==> Elems(ids) !! s.nodes.Keys)
  {
    if ids != [] {
      DroppedMeans(s, ids[..|ids| - 1]);
      assert ids == ids[..|ids| - 1] + [ids[|ids| - 1]];
      ElemsSnoc(ids[..|ids| - 1], ids[|ids| - 1]);
    }
  }

  lemma {:induction false} StoredMeans(s: Contents, nodes: seq<StateNode>)
    ensures var r := StoredAll(s, nodes);
            && r.holds == s.holds && r.fence == s.fence && r.outputs == s.outputs && r.serial == s.serial + |nodes|
            && (forall id :: id !in RowIds(nodes) ==>
                  (id in r.nodes <==> id in s.nodes) && (id in r.nodes ==> r.nodes[id] == s.nodes[id]))
            && (forall k :: 0 <= k < |nodes| && (forall j :: k < j < |nodes| ==> nodes[j].id != nodes[k].id) ==>
                  nodes[k].id in r.nodes && r.nodes[nodes[k].id] == nodes[k])
  {
    if nodes != [] {
      var rest, last := nodes[..|nodes| - 1], nodes[|nodes| - 1];
      StoredMeans(s, rest);
      assert forall n :: n in nodes <==> n in rest || n == last;
      forall k | 0 <= k < |nodes| && (forall j :: k < j < |nodes| ==> nodes[j].id != nodes[k].id)
        ensures nodes[k].id in StoredAll(s, nodes).nodes && StoredAll(s, nodes).nodes[nodes[k].id] == nodes[k]
      {
        if k < |nodes| - 1 {
          assert rest[k] == nodes[k] && forall j :: k < j < |rest| ==> rest[j].id != rest[k].id;
          assert nodes[|nodes| - 1].id != nodes[k].id;
        }
      }
    }
  }

  /** Main result on one batch: a deleted row is gone, an upserted row is there in its last version, no other row,
   * hold, fence or output changes, and the serial moves exactly when something was written. */
  lemma WrittenMeans(s: Contents, deleteIds: seq<Id>, nodes: seq<StateNode>)
    ensures var r := Written(s, deleteIds, nodes);
            && r.holds == s.holds && r.fence == s.fence && r.outputs == s.outputs
            && (forall id :: id !in Elems(deleteIds) && id !in RowIds(nodes) ==>
                  (id in r.nodes <==> id in s.nodes) && (id in r.nodes ==> r.nodes[id] == s.nodes[id]))
            && (forall id :: id in Elems(deleteIds) && id !in RowIds(nodes) ==> id !in r.nodes)
            && (forall k :: 0 <= k < |nodes| && (forall j :: k < j < |nodes| ==> nodes[j].id != nodes[k].id) ==>
                  nodes[k].id in r.nodes && r.nodes[nodes[k].id] == nodes[k])
            && (r.serial == s.serial <==> nodes == [] && Elems(deleteIds) !! s.nodes.Keys)
  {
    DroppedMeans(s, deleteIds);
    StoredMeans(DroppedAll(s, deleteIds), nodes);
  }

  // ---------------------------------------------------------------------- the class

  /** The volatile backend. The clock is a parameter of each call that reads it. */
  class MemoryStateBackend {
    var nodes: StateGraph
    var outputs: map<string, Value>
    var serial: nat
    var holds: Holds
    var fence: nat
    /** Under which lease writes are checked, if any. */
    var lease: Option<Lease>

    ghost function State(): Contents
      reads this
    {
      Contents(nodes, holds, serial, fence, outputs)
    }

    constructor ()
      ensures State() == Contents(map[], map[], 0, 0, map[]) && lease == None
    {
      nodes, outputs, serial, holds, fence, lease := map[], map[], 0, map[], 0, None;
    }

    method Store(node: StateNode)
      modifies this`nodes, this`serial
      ensures State() == Stored(old(State()), node)
    {
      nodes := nodes[node.id := node];
      serial := serial + 1;
    }

    method Drop(id: Id)
      modifies this`nodes, this`serial
      ensures State() == Dropped(old(State()), id)
    {
      if id in nodes {
        nodes := nodes - {id};
        serial := serial + 1;
      }
    }

    method Put(node: StateNode, now: real) returns (refused: Option<WriteRefusal>)
      modifies this`nodes, this`serial
      ensures refused == FenceViolation(lease, old(holds), now, {node.id})
      ensures State() == if refused.None? then Written(old(State()), [], [node]) else old(State())
    {
      refused := FenceViolation(lease, holds, now, {node.id});
      if refused.None? {
        assert StoredAll(State(), [node][..0]) == State();
        Store(node);
      }
    }

    method Delete(id: Id, now: real) returns (refused: Option<WriteRefusal>)
      modifies this`nodes, this`serial
      ensures refused == FenceViolation(lease, old(holds), now, {id})
      ensures State() == if refused.None? then Written(old(State()), [id], []) else old(State())
    {
      refused := FenceViolation(lease, holds, now, {id});
      if refused.None? {
        assert DroppedAll(State(), [id][..0]) == State();
        Drop(id);
      }
    }

    method StoreEach(listed: seq<StateNode>)
      modifies this`nodes, this`serial
      ensures State() == StoredAll(old(State()), listed)
    {
      for i := 0 to |listed|
        invariant State() == StoredAll(old(State()), listed[..i])
      {
        Store(listed[i]);
        assert listed[..i + 1][..i] == listed[..i];
      }
      assert listed[..|listed|] == listed;
    }

    /** The whole batch is checked before any of it is written. */
    method PutMany(listed: seq<StateNode>, now: real) returns (refused: Option<WriteRefusal>)
      modifies this`nodes, this`serial
      ensures refused == FenceViolation(lease, old(holds), now, RowIds(listed))
      ensures State() == if refused.None? then Written(old(State()), [], listed) else old(State())
    {
      refused := FenceViolation(lease, holds, now, RowIds(listed));
      if refused.None? { StoreEach(listed); }
    }

    method ReplaceMany(deleteIds: seq<Id>, listed: seq<StateNode>, now: real) returns (refused: Option<WriteRefusal>)
      modifies this`nodes, this`serial
      ensures refused == FenceViolation(lease, old(holds), now, Elems(deleteIds) + RowIds(listed))
      ensures State() == if refused.None? then Written(old(State()), deleteIds, listed) else old(State())
    {
      refused := FenceViolation(lease, holds, now, Elems(deleteIds) + RowIds(listed));
      if refused.None? {
        for i := 0 to |deleteIds|
          invariant State() == DroppedAll(old(State()), deleteIds[..i])
        {
          Drop(deleteIds[i]);
          assert deleteIds[..i + 1][..i] == deleteIds[..i];
        }
        assert deleteIds[..|deleteIds|] == deleteIds;
        StoreEach(listed);
      }
    }

    method AcquireLock(owner: string, ttl: real, scope: set<Id>, now: real) returns (r: Result<Lease, LockRefusal>)
      modifies this`fence, this`holds
      ensures r.Failure? <==> ScopeConflict(old(holds), owner, now, scope).Some?
      ensures r.Failure? ==> State() == old(State()) && Some(r.error) == ScopeConflict(old(holds), owner, now, scope)
      ensures r.Success? ==> r.value == AcquiredLease(old(State()), owner, ttl, scope, now) &&
                             State() == Acquired(old(State()), owner, ttl, scope, now)
    {
      var conflict := ScopeConflict(holds, owner, now, scope);
      if conflict.Some? { return Failure(conflict.value); }
      fence := fence + 1;
      var minted := Lease(owner, now + ttl, scope, fence);
      holds := holds + map id | id in scope :: minted;
      r := Success(minted);
    }

    method ReleaseLock(owner: string)
      modifies this`holds
      ensures State() == Released(old(State()), owner)
    {
      holds := map id | id in holds && holds[id].owner != owner :: holds[id];
    }

    /** Holds dropped whoever owns them; how many went. */
    method ForceUnlock(ids: set<Id>) returns (broken: nat)
      modifies this`holds
      ensures State() == Unlocked(old(State()), ids)
      ensures broken == |ids * old(holds).Keys|
    {
      broken := |ids * holds.Keys|;
      holds := holds - ids;
    }

    /** Fence every later mutation against `bound`. */
    method BindLease(bound: Option<Lease>)
      modifies this`lease
      ensures lease == bound
    {
      lease := bound;
    }

    /** Removal before overlay; the overlay wins. */
    method SetOutputs(declared: map<string, Value>, remove: set<string>)
      modifies this`outputs
      ensures forall k :: k in outputs <==> k in declared || (k in old(outputs) && k !in remove)
      ensures forall k :: k in outputs ==> outputs[k] == if k in declared then declared[k] else old(outputs)[k]
      ensures State() == old(State()).(outputs := outputs)
    {
      outputs := (outputs - remove) + declared;
    }
  }

  datatype Result<T, E> = Success(value: T) | Failure(error: E)
}
