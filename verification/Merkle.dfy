/** Merkle input hashes over the dependency graph. */
module Merkle {
  import opened Graphs
  import opened Values
  import opened Ir
  import opened Order
  import Text

  type Hashes = map<Id, Hash>

  /** The fields that enter the hash: all but the ignored ones. */
  function Kept(n: IRNode): Properties {
    map k | k in n.properties && k !in n.Ignored() :: n.properties[k]
  }

  /** `sorted(node.dependencies)`; lowering never lists an id twice. */
  function SortedDeps(n: IRNode): seq<Id> {
    Text.Sorted(Elems(n.dependencies))
  }

  function HashesOf(h: Hashes, ids: seq<Id>): seq<Hash>
    requires forall d :: d in ids ==> d in h
  {
    seq(|ids|, i requires 0 <= i < |ids| => assert ids[i] in ids; h[ids[i]])
  }

  ghost predicate HashedAt(n: IRNode, h: Hashes) {
    && n.id in h && (forall d :: d in SortedDeps(n) ==> d in h)
    && h[n.id] == Sha(n.typ, Kept(n), HashesOf(h, SortedDeps(n)))
  }

  /** Every node's digest is that of its type, kept properties, and dependencies' digests. */
  ghost predicate IsHashing(ir: IRGraph, h: Hashes) {
    h.Keys == Ids(ir) && forall n :: n in ir ==> HashedAt(n, h)
  }

  /** The config's ids, each once, dependencies before dependents. */
  ghost predicate DependenciesFirst(byId: map<Id, IRNode>, order: seq<Id>) {
    && Elems(order) == byId.Keys && Distinct(order)
    && forall k, d :: 0 <= k < |order| && order[k] in byId && d in byId[order[k]].dependencies ==> d in order[..k]
  }

  /** Any topological order of the config's edges will do. */
  lemma TopologicalSuffices(ir: IRGraph, order: seq<Id>)
    requires UniqueIds(ir) && IsTopological(EdgesOf(ir), order)
    ensures DependenciesFirst(ById(ir), order)
  {
    var byId := ById(ir);
    forall k, d | 0 <= k < |order| && order[k] in byId && d in byId[order[k]].dependencies ensures d in order[..k] {
      ByIdUnique(ir, byId[order[k]]);
      EdgesOfStep(ir, byId[order[k]], d);
    }
  }

  /** The nodes hashed so far. */
  ghost predicate HashedSoFar(byId: map<Id, IRNode>, done: seq<Id>, h: Hashes) {
    h.Keys == Elems(done) && forall k :: k in done ==> k in byId && HashedAt(byId[k], h)
  }

  lemma HashNext(byId: map<Id, IRNode>, done: seq<Id>, h: Hashes, n: IRNode)
    requires HashedSoFar(byId, done, h) && n.id in byId && byId[n.id] == n && n.id !in done
    requires forall d :: d in SortedDeps(n) ==> d in h
    ensures HashedSoFar(byId, done + [n.id], h[n.id := Sha(n.typ, Kept(n), HashesOf(h, SortedDeps(n)))])
  {
    hide HashesOf, SortedDeps, HashedAt;
    var digest := Sha(n.typ, Kept(n), HashesOf(h, SortedDeps(n)));
    var after := h[n.id := digest];
    HashedHere(n, h, digest);
    ElemsSnoc(done, n.id);
    forall k | k in done + [n.id] ensures k in byId && HashedAt(byId[k], after) {
      if k != n.id { HashedStays(byId[k], h, n.id, digest); }
    }
  }

  lemma HashedStays(n: IRNode, h: Hashes, id: Id, digest: Hash)
    requires HashedAt(n, h) && id !in h
    ensures HashedAt(n, h[id := digest])
  {
    assert HashesOf(h[id := digest], SortedDeps(n)) == HashesOf(h, SortedDeps(n));
  }

  lemma HashedHere(n: IRNode, h: Hashes, digest: Hash)
    requires n.id !in h && (forall d :: d in SortedDeps(n) ==> d in h)
    requires digest == Sha(n.typ, Kept(n), HashesOf(h, SortedDeps(n)))
    ensures HashedAt(n, h[n.id := digest])
  {
    assert HashesOf(h[n.id := digest], SortedDeps(n)) == HashesOf(h, SortedDeps(n));
  }

  lemma HashedAll(ir: IRGraph, order: seq<Id>, h: Hashes)
    requires UniqueIds(ir) && Elems(order) == Ids(ir) && HashedSoFar(ById(ir), order, h)
    ensures IsHashing(ir, h)
  {
    hide HashedAt;
    forall n | n in ir ensures HashedAt(n, h) {
      ByIdUnique(ir, n);
      assert n.id in Elems(order);
    }
  }

  /** What the loop needs to know about its next node. */
  lemma NextNode(byId: map<Id, IRNode>, order: seq<Id>, i: nat, h: Hashes)
    requires DependenciesFirst(byId, order) && i < |order| && HashedSoFar(byId, order[..i], h)
    requires forall k :: k in byId ==> byId[k].id == k
    ensures order[i] in byId && byId[order[i]].id == order[i] && order[i] !in order[..i]
    ensures forall d :: d in SortedDeps(byId[order[i]]) ==> d in h
  {
    hide HashedAt;
    assert order[i] in Elems(order);
  }

  /** One loop over the order fills the table. */
  method MerkleHashes(ir: IRGraph, order: seq<Id>) returns (hashes: Hashes)
    requires UniqueIds(ir) && DependenciesFirst(ById(ir), order)
    ensures IsHashing(ir, hashes)
  {
    hide HashedSoFar, DependenciesFirst, HashesOf, Kept, SortedDeps, Elems, IsHashing, Ids, UniqueIds;
    var byId := ById(ir);
    hashes := map[];
    HashedNone(byId);
    for i := 0 to |order|
      invariant HashedSoFar(byId, order[..i], hashes)
    {
      NextNode(byId, order, i, hashes);
      var node := byId[order[i]];
      HashNext(byId, order[..i], hashes, node);
      assert order[..i + 1] == order[..i] + [order[i]];
      hashes := hashes[order[i] := Sha(node.typ, Kept(node), HashesOf(hashes, SortedDeps(node)))];
    }
    assert order[..|order|] == order;
    OrderCovers(ir, order);
    HashedAll(ir, order, hashes);
  }

  lemma HashedNone(byId: map<Id, IRNode>)
    ensures HashedSoFar(byId, [], map[])
  {}

  lemma OrderCovers(ir: IRGraph, order: seq<Id>)
    requires DependenciesFirst(ById(ir), order)
    ensures Elems(order) == Ids(ir)
  {}

  // ---------------------------------------------------------------- propagation

  /** The graph of value references, which is what the hash folds in. */
  function DepGraph(ir: IRGraph): Edges {
    var byId := ById(ir);
    map k | k in byId :: byId[k].dependencies
  }

  /** Two nodes look the same to the hash, dependencies' digests aside. */
  predicate SameToHash(a: IRNode, b: IRNode) {
    a.typ == b.typ && Kept(a) == Kept(b)
  }

  /** That is, their types agree, and so does every field that is present and not ignored. */
  lemma SameToHashExactly(a: IRNode, b: IRNode)
    ensures SameToHash(a, b) <==>
            a.typ == b.typ &&
            forall f :: (f in a.properties && f !in a.ignoreChanges <==> f in b.properties && f !in b.ignoreChanges) &&
                        (f in a.properties && f !in a.ignoreChanges && f in b.properties ==> a.properties[f] == b.properties[f])
  {
    if SameToHash(a, b) {
      forall f
        ensures f in a.properties && f !in a.ignoreChanges <==> f in b.properties && f !in b.ignoreChanges
        ensures f in a.properties && f !in a.ignoreChanges && f in b.properties ==> a.properties[f] == b.properties[f]
      {
        assert f in Kept(a) <==> f in Kept(b);
      }
    }
  }

  /** The same ids with the same references; anything else may differ. */
  ghost predicate SameShape(ir1: IRGraph, ir2: IRGraph) {
    && UniqueIds(ir1) && UniqueIds(ir2) && Ids(ir1) == Ids(ir2)
    && forall k :: k in ById(ir1) ==> k in ById(ir2) && Elems(ById(ir1)[k].dependencies) == Elems(ById(ir2)[k].dependencies)
  }

  /** No edit moves a reference behind the hash's back: a node that looks the same to the hash has the same
   * dependencies. Only an ignored field that refers can break this. */
  ghost predicate RefsShow(ir1: IRGraph, ir2: IRGraph) {
    forall k :: k in ById(ir1) && k in ById(ir2) && SameToHash(ById(ir1)[k], ById(ir2)[k]) ==>
      Elems(ById(ir1)[k].dependencies) == Elems(ById(ir2)[k].dependencies)
  }

  lemma HashAt(ir: IRGraph, h: Hashes, k: Id)
    requires IsHashing(ir, h) && k in h
    ensures k in ById(ir) && var n := ById(ir)[k];
            (forall d :: d in SortedDeps(n) <==> d in n.dependencies) && (forall d :: d in SortedDeps(n) ==> d in h) &&
            h[k] == Sha(n.typ, Kept(n), HashesOf(h, SortedDeps(n)))
  {
    assert HashedAt(ById(ir)[k], h);
  }

  /** Equal digests mean equal dependencies' digests, and the other way round given the rest. */
  lemma HashesAgree(h1: Hashes, h2: Hashes, ids: seq<Id>)
    requires forall d :: d in ids ==> d in h1 && d in h2
    ensures HashesOf(h1, ids) == HashesOf(h2, ids) <==> forall d :: d in ids ==> h1[d] == h2[d]
  {
    if HashesOf(h1, ids) == HashesOf(h2, ids) {
      forall d | d in ids ensures h1[d] == h2[d] {
        var i :| 0 <= i < |ids| && ids[i] == d;
        assert HashesOf(h1, ids)[i] == HashesOf(h2, ids)[i];
      }
    }
  }

  lemma EqualAlong(ir1: IRGraph, h1: Hashes, ir2: IRGraph, h2: Hashes, n: Id, p: seq<Id>, m: Id)
    requires RefsShow(ir1, ir2) && IsHashing(ir1, h1) && IsHashing(ir2, h2)
    requires n in h1 && n in h2 && h1[n] == h2[n] && Via(DepGraph(ir1), n, p, m)
    ensures m in h1 && m in h2 && h1[m] == h2[m]
    decreases |p|
  {
    hide HashesOf, IsHashing, Kept, Text.Sorted;
    if p != [] {
      HashAt(ir1, h1, n);
      HashAt(ir2, h2, n);
      SameDeps(ir1, ir2, n);
      HashesAgree(h1, h2, SortedDeps(ById(ir1)[n]));
      EqualAlong(ir1, h1, ir2, h2, p[0], p[1..], m);
    }
  }

  lemma {:induction false} EqualBelow(ir1: IRGraph, h1: Hashes, ir2: IRGraph, h2: Hashes, n: Id)
    requires RefsShow(ir1, ir2) && IsHashing(ir1, h1) && IsHashing(ir2, h2) && n in h1 && n in h2
    requires forall m :: Reach(DepGraph(ir1), n, m) ==> m in ById(ir1) && m in ById(ir2) && SameToHash(ById(ir1)[m], ById(ir2)[m])
    ensures h1[n] == h2[n]
    decreases h1[n]
  {
    hide HashesOf, Reach, SameToHash, IsHashing, RefsShow;
    HashAt(ir1, h1, n);
    HashAt(ir2, h2, n);
    ReachSelf(DepGraph(ir1), n);
    var ids := SortedDeps(ById(ir1)[n]);
    SameDeps(ir1, ir2, n);
    forall d | d in ids ensures h1[d] == h2[d] {
      assert Step(DepGraph(ir1), n, d);
      forall m | Reach(DepGraph(ir1), d, m)
        ensures m in ById(ir1) && m in ById(ir2) && SameToHash(ById(ir1)[m], ById(ir2)[m])
      {
        ReachCons(DepGraph(ir1), n, d, m);
      }
      DepIsSmaller(h1, ids, d);
      EqualBelow(ir1, h1, ir2, h2, d);
    }
    HashesAgree(h1, h2, ids);
    SameToHashMeans(ById(ir1)[n], ById(ir2)[n]);
  }

  lemma SameToHashMeans(a: IRNode, b: IRNode)
    requires SameToHash(a, b)
    ensures a.typ == b.typ && Kept(a) == Kept(b)
  {}

  lemma SameDeps(ir1: IRGraph, ir2: IRGraph, n: Id)
    requires RefsShow(ir1, ir2) && n in ById(ir1) && n in ById(ir2) && SameToHash(ById(ir1)[n], ById(ir2)[n])
    ensures SortedDeps(ById(ir1)[n]) == SortedDeps(ById(ir2)[n])
  {}

  lemma DepIsSmaller(h: Hashes, ids: seq<Id>, d: Id)
    requires (forall x :: x in ids ==> x in h) && d in ids
    ensures h[d] in HashesOf(h, ids)
  {
    var i :| 0 <= i < |ids| && ids[i] == d;
    assert HashesOf(h, ids)[i] == h[d];
  }

  /** Main result: a digest changes exactly when the type or a kept property changes somewhere below it. Nodes may
   * come and go, and references may move in any field the hash reads. */
  lemma PropagationIsExact(ir1: IRGraph, h1: Hashes, ir2: IRGraph, h2: Hashes, n: Id)
    requires RefsShow(ir1, ir2) && IsHashing(ir1, h1) && IsHashing(ir2, h2) && n in h1 && n in h2
    ensures h1[n] == h2[n] <==>
            forall m :: Reach(DepGraph(ir1), n, m) ==>
              m in ById(ir1) && m in ById(ir2) && SameToHash(ById(ir1)[m], ById(ir2)[m])
  {
    hide RefsShow, HashesOf, SortedDeps, Kept, IsHashing;
    if h1[n] == h2[n] {
      forall m | Reach(DepGraph(ir1), n, m)
        ensures m in ById(ir1) && m in ById(ir2) && SameToHash(ById(ir1)[m], ById(ir2)[m])
      {
        var p :| Via(DepGraph(ir1), n, p, m);
        EqualAlong(ir1, h1, ir2, h2, n, p, m);
        HashAt(ir1, h1, m);
        HashAt(ir2, h2, m);
      }
    } else if forall m :: Reach(DepGraph(ir1), n, m) ==>
                m in ById(ir1) && m in ById(ir2) && SameToHash(ById(ir1)[m], ById(ir2)[m]) {
      EqualBelow(ir1, h1, ir2, h2, n);
    }
  }

  // ------------------------------------------------------- editing a single node

  /** Only `changed` was edited: any other node the configs share is as it was. */
  ghost predicate OnlyEdited(ir1: IRGraph, ir2: IRGraph, changed: Id) {
    forall m :: m in ById(ir1) && m in ById(ir2) && m != changed ==>
      SameToHash(ById(ir1)[m], ById(ir2)[m]) && Elems(ById(ir1)[m].dependencies) == Elems(ById(ir2)[m].dependencies)
  }

  /** Away from the edit a digest moves exactly when a dependency's does. */
  lemma UneditedAt(ir1: IRGraph, h1: Hashes, ir2: IRGraph, h2: Hashes, changed: Id, n: Id)
    requires OnlyEdited(ir1, ir2, changed) && IsHashing(ir1, h1) && IsHashing(ir2, h2)
    requires n in h1 && n in h2 && n != changed
    ensures n in ById(ir1)
    ensures forall d :: Step(DepGraph(ir1), n, d) ==> d in h1 && d in h2
    ensures h1[n] == h2[n] <==> forall d :: Step(DepGraph(ir1), n, d) ==> h1[d] == h2[d]
  {
    hide HashesOf, Kept, Text.Sorted, IsHashing;
    HashAt(ir1, h1, n);
    HashAt(ir2, h2, n);
    HashesAgree(h1, h2, SortedDeps(ById(ir1)[n]));
  }

  lemma {:induction false} MovedReaches(ir1: IRGraph, h1: Hashes, ir2: IRGraph, h2: Hashes, changed: Id, n: Id)
    requires OnlyEdited(ir1, ir2, changed) && IsHashing(ir1, h1) && IsHashing(ir2, h2)
    requires changed in h1 && changed in h2 && n in h1 && n in h2 && h1[n] != h2[n]
    ensures Reach(DepGraph(ir1), n, changed) && h1[changed] != h2[changed]
    decreases h1[n]
  {
    hide OnlyEdited, IsHashing, HashesOf, Reach, Kept;
    if n == changed {
      ReachSelf(DepGraph(ir1), n);
    } else {
      UneditedAt(ir1, h1, ir2, h2, changed, n);
      HashAt(ir1, h1, n);
      var d :| Step(DepGraph(ir1), n, d) && h1[d] != h2[d];
      DepIsSmaller(h1, SortedDeps(ById(ir1)[n]), d);
      MovedReaches(ir1, h1, ir2, h2, changed, d);
      ReachCons(DepGraph(ir1), n, d, changed);
    }
  }

  lemma {:induction false} ReachesMoved(ir1: IRGraph, h1: Hashes, ir2: IRGraph, h2: Hashes, changed: Id, n: Id, p: seq<Id>)
    requires OnlyEdited(ir1, ir2, changed) && IsHashing(ir1, h1) && IsHashing(ir2, h2)
    requires changed in h1 && changed in h2 && n in h1 && n in h2
    requires Via(DepGraph(ir1), n, p, changed) && h1[changed] != h2[changed]
    ensures h1[n] != h2[n]
    decreases |p|
  {
    hide OnlyEdited, IsHashing;
    if n != changed {
      UneditedAt(ir1, h1, ir2, h2, changed, n);
      ReachesMoved(ir1, h1, ir2, h2, changed, p[0], p[1..]);
    }
  }

  /** Main result on one edit, whatever it does: it moves exactly the digests of the node and its transitive
   * dependents, provided it moves the node's own. */
  lemma OneEditPropagates(ir1: IRGraph, h1: Hashes, ir2: IRGraph, h2: Hashes, changed: Id, n: Id)
    requires OnlyEdited(ir1, ir2, changed) && IsHashing(ir1, h1) && IsHashing(ir2, h2)
    requires changed in h1 && changed in h2 && n in h1 && n in h2
    ensures h1[n] != h2[n] <==> Reach(DepGraph(ir1), n, changed) && h1[changed] != h2[changed]
  {
    hide OnlyEdited, IsHashing, DepGraph;
    if h1[n] != h2[n] { MovedReaches(ir1, h1, ir2, h2, changed, n); }
    if Reach(DepGraph(ir1), n, changed) && h1[changed] != h2[changed] {
      var p :| Via(DepGraph(ir1), n, p, changed);
      ReachesMoved(ir1, h1, ir2, h2, changed, n, p);
    }
  }

  /** Changing one node's type or kept properties, its references among them, moves its own digest and those of its
   * transitive dependents, and no other. */
  lemma OneChangePropagates(ir1: IRGraph, h1: Hashes, ir2: IRGraph, h2: Hashes, changed: Id, n: Id)
    requires OnlyEdited(ir1, ir2, changed) && IsHashing(ir1, h1) && IsHashing(ir2, h2)
    requires changed in h1 && changed in h2 && n in h1 && n in h2
    requires changed in ById(ir1) && changed in ById(ir2) && !SameToHash(ById(ir1)[changed], ById(ir2)[changed])
    ensures h1[n] != h2[n] <==> Reach(DepGraph(ir1), n, changed)
  {
    hide OnlyEdited, IsHashing, Reach, Kept, HashesOf, DepGraph;
    HashAt(ir1, h1, changed);
    HashAt(ir2, h2, changed);
    OneEditPropagates(ir1, h1, ir2, h2, changed, n);
  }

  /** A config that can be hashed has no cycle of references. */
  lemma {:induction false} HashingIsAcyclic(ir: IRGraph, h: Hashes, a: Id)
    requires IsHashing(ir, h) && a in h
    ensures !ReachPlus(DepGraph(ir), a, a)
    decreases h[a]
  {
    hide IsHashing, HashesOf, Reach, Kept;
    if ReachPlus(DepGraph(ir), a, a) {
      var d :| Step(DepGraph(ir), a, d) && Reach(DepGraph(ir), d, a);
      HashAt(ir, h, a);
      DepIsSmaller(h, SortedDeps(ById(ir)[a]), d);
      ReachSelf(DepGraph(ir), d);
      ReachReachPlus(DepGraph(ir), d, a, d);
      HashingIsAcyclic(ir, h, d);
    }
  }

  lemma EditedBothWays(ir1: IRGraph, ir2: IRGraph, changed: Id)
    requires OnlyEdited(ir1, ir2, changed)
    ensures OnlyEdited(ir2, ir1, changed)
  {}

  /** What the edited node now refers to did not move itself. */
  lemma NewDepsStay(ir1: IRGraph, h1: Hashes, ir2: IRGraph, h2: Hashes, changed: Id, d: Id)
    requires OnlyEdited(ir1, ir2, changed) && IsHashing(ir1, h1) && IsHashing(ir2, h2)
    requires changed in h1 && changed in h2 && d in h1 && d in h2 && Step(DepGraph(ir2), changed, d)
    ensures h1[d] == h2[d]
  {
    hide OnlyEdited, IsHashing, Reach, DepGraph;
    if h1[d] != h2[d] {
      EditedBothWays(ir1, ir2, changed);
      MovedReaches(ir2, h2, ir1, h1, changed, d);
      assert ReachPlus(DepGraph(ir2), changed, changed);
      HashingIsAcyclic(ir2, h2, changed);
    }
  }

  /** When an edit keeps every digest: it changes nothing the hash reads, and its new dependencies had the digests of
   * the old ones. The right-hand side reads the old digests alone. */
  lemma EditKeepsDigestExactly(ir1: IRGraph, h1: Hashes, ir2: IRGraph, h2: Hashes, changed: Id)
    requires OnlyEdited(ir1, ir2, changed) && IsHashing(ir1, h1) && IsHashing(ir2, h2)
    requires changed in h1 && changed in h2 && changed in ById(ir1) && changed in ById(ir2)
    requires forall d :: d in SortedDeps(ById(ir2)[changed]) ==> d in h1
    ensures (forall d :: d in SortedDeps(ById(ir1)[changed]) ==> d in h1)
    ensures h1[changed] == h2[changed] <==>
            SameToHash(ById(ir1)[changed], ById(ir2)[changed]) &&
            HashesOf(h1, SortedDeps(ById(ir1)[changed])) == HashesOf(h1, SortedDeps(ById(ir2)[changed]))
  {
    hide OnlyEdited, IsHashing, Kept, HashesOf, Text.Sorted;
    HashAt(ir1, h1, changed);
    HashAt(ir2, h2, changed);
    var deps := SortedDeps(ById(ir2)[changed]);
    forall d | d in deps ensures h1[d] == h2[d] { NewDepsStay(ir1, h1, ir2, h2, changed, d); }
    HashesAgree(h1, h2, deps);
  }

  // -------------------------------------------------------- editing what is ignored

  /** Every node of both configs looks the same to the hash: only ignored fields were edited. */
  ghost predicate OnlyIgnoredEdited(ir1: IRGraph, ir2: IRGraph) {
    Ids(ir1) == Ids(ir2) &&
    forall k :: k in ById(ir1) && k in ById(ir2) ==> SameToHash(ById(ir1)[k], ById(ir2)[k])
  }

  /** A node's dependencies had, before the edit, the digests of the dependencies it has after it. */
  ghost predicate DepsLookAlike(ir1: IRGraph, h1: Hashes, ir2: IRGraph, k: Id)
    requires k in ById(ir1) && k in ById(ir2)
  {
    && (forall d :: d in SortedDeps(ById(ir1)[k]) ==> d in h1) && (forall d :: d in SortedDeps(ById(ir2)[k]) ==> d in h1)
    && HashesOf(h1, SortedDeps(ById(ir1)[k])) == HashesOf(h1, SortedDeps(ById(ir2)[k]))
  }

  /** The digest of one node, with what both configs say of its dependencies. */
  lemma IgnoredAt(ir1: IRGraph, h1: Hashes, ir2: IRGraph, h2: Hashes, k: Id)
    requires OnlyIgnoredEdited(ir1, ir2) && IsHashing(ir1, h1) && IsHashing(ir2, h2) && k in h2
    ensures k in h1 && k in ById(ir1) && k in ById(ir2)
    ensures var a, b := SortedDeps(ById(ir1)[k]), SortedDeps(ById(ir2)[k]);
            && (forall d :: d in a ==> d in h1) && (forall d :: d in b ==> d in h1 && d in h2)
            && (h1[k] == h2[k] <==> HashesOf(h1, a) == HashesOf(h2, b))
            && h2[k] == Sha(ById(ir2)[k].typ, Kept(ById(ir2)[k]), HashesOf(h2, b))
  {
    hide Kept, HashesOf, Text.Sorted;
    HashAt(ir1, h1, k);
    HashAt(ir2, h2, k);
  }

  lemma {:induction false} LookAlikeKeeps(ir1: IRGraph, h1: Hashes, ir2: IRGraph, h2: Hashes, k: Id)
    requires OnlyIgnoredEdited(ir1, ir2) && IsHashing(ir1, h1) && IsHashing(ir2, h2) && k in h2
    requires forall m :: m in ById(ir1) && m in ById(ir2) ==> DepsLookAlike(ir1, h1, ir2, m)
    ensures k in h1 && h1[k] == h2[k]
    decreases h2[k]
  {
    hide OnlyIgnoredEdited, IsHashing, Kept, HashesOf, SortedDeps;
    IgnoredAt(ir1, h1, ir2, h2, k);
    assert DepsLookAlike(ir1, h1, ir2, k);
    var deps := SortedDeps(ById(ir2)[k]);
    forall d | d in deps ensures h1[d] == h2[d] {
      DepIsSmaller(h2, deps, d);
      LookAlikeKeeps(ir1, h1, ir2, h2, d);
    }
    HashesAgree(h1, h2, deps);
  }

  /** When editing ignored fields changes no digest: exactly when every dependency they moved had the digest of the
   * one it replaced. */
  lemma IgnoredEditsExactly(ir1: IRGraph, h1: Hashes, ir2: IRGraph, h2: Hashes)
    requires OnlyIgnoredEdited(ir1, ir2) && IsHashing(ir1, h1) && IsHashing(ir2, h2)
    ensures h1 == h2 <==> forall k :: k in ById(ir1) && k in ById(ir2) ==> DepsLookAlike(ir1, h1, ir2, k)
  {
    hide HashedAt, SameToHash, HashesOf, SortedDeps;
    HashingCovers(ir1, h1);
    HashingCovers(ir2, h2);
    if h1 == h2 {
      forall k | k in ById(ir1) && k in ById(ir2) ensures DepsLookAlike(ir1, h1, ir2, k) { IgnoredAt(ir1, h1, ir2, h2, k); }
    }
    if forall k :: k in ById(ir1) && k in ById(ir2) ==> DepsLookAlike(ir1, h1, ir2, k) {
      forall k | k in h2 ensures k in h1 && h1[k] == h2[k] { LookAlikeKeeps(ir1, h1, ir2, h2, k); }
    }
  }

  // ------------------------------------------------------------------ one hashing

  lemma ReachStaysHashed(ir: IRGraph, h: Hashes, n: Id, m: Id)
    requires IsHashing(ir, h) && n in h && Reach(DepGraph(ir), n, m)
    ensures m in h
  {
    hide HashesOf;
    forall x, y | x in h.Keys && Step(DepGraph(ir), x, y) ensures y in h.Keys { HashAt(ir, h, x); }
    ClosedUnder(DepGraph(ir), h.Keys, n, m);
  }

  /** A config has one hashing, so the order the loop took does not show. */
  lemma OrderDoesNotShow(ir: IRGraph, h1: Hashes, h2: Hashes)
    requires UniqueIds(ir) && IsHashing(ir, h1) && IsHashing(ir, h2)
    ensures h1 == h2
  {
    hide HashedAt;
    forall n | n in h1 ensures h1[n] == h2[n] {
      forall m | Reach(DepGraph(ir), n, m) ensures m in ById(ir) {
        ReachStaysHashed(ir, h1, n, m);
        HashAt(ir, h1, m);
      }
      EqualBelow(ir, h1, ir, h2, n);
    }
  }

  /** Configs that look the same to the hash everywhere have the same digests. */
  lemma SameDigests(ir1: IRGraph, h1: Hashes, ir2: IRGraph, h2: Hashes)
    requires SameShape(ir1, ir2) && IsHashing(ir1, h1) && IsHashing(ir2, h2)
    requires forall m :: m in ById(ir1) && m in ById(ir2) ==> SameToHash(ById(ir1)[m], ById(ir2)[m])
    ensures h1 == h2
  {
    hide SameToHash, HashedAt, Reach, ById, IsHashing, SameShape, RefsShow, DepGraph;
    ShapeShowsRefs(ir1, ir2);
    HashingCovers(ir1, h1);
    HashingCovers(ir2, h2);
    ShapeIds(ir1, ir2);
    forall n | n in h1 ensures h1[n] == h2[n] {
      forall m | Reach(DepGraph(ir1), n, m) ensures m in ById(ir1) { ReachStaysHashed(ir1, h1, n, m); }
      EqualBelow(ir1, h1, ir2, h2, n);
    }
  }

  lemma ShapeShowsRefs(ir1: IRGraph, ir2: IRGraph)
    requires SameShape(ir1, ir2)
    ensures RefsShow(ir1, ir2)
  {}

  lemma ShapeIds(ir1: IRGraph, ir2: IRGraph)
    requires SameShape(ir1, ir2)
    ensures ById(ir1).Keys == ById(ir2).Keys
  {}

  lemma HashingCovers(ir: IRGraph, h: Hashes)
    requires IsHashing(ir, h)
    ensures h.Keys == ById(ir).Keys
  {}
}
