/** The `prevent_destroy` guard over a changeset. */
module Guards {
  import opened Graphs
  import opened Values
  import opened Ir
  import opened Staleness

  /** The ids the guard protects: the config's flag where it declares the node, the stored flag where it does not. */
  function ProtectedIds(prior: StateGraph, ir: IRGraph): set<Id> {
    var declared := ById(ir);
    (set k | k in prior && prior[k].preventDestroy && prior[k].id !in declared :: prior[k].id)
    + (set k | k in declared && declared[k].preventDestroy)
  }

  /** What is protected: a declared node by its own flag alone, any other row by the flag stored with it. */
  lemma ProtectedExactly(prior: StateGraph, ir: IRGraph, id: Id)
    requires UniqueIds(ir) && Keyed(prior)
    ensures id in ProtectedIds(prior, ir) <==>
            (exists node :: node in ir && node.id == id && node.preventDestroy) ||
            (id in prior && prior[id].preventDestroy && forall node :: node in ir ==> node.id != id)
  {
    forall node | node in ir ensures node.id in ById(ir) && ById(ir)[node.id] == node { ByIdUnique(ir, node); }
    if id in ById(ir) { assert ById(ir)[id] in ir; }
  }

  /** What the changed fields of a change refer to. */
  function Referenced(c: Change): set<Id> {
    if c.desired.None? then {}
    else set f, t | f in c.changedFields && t in Targets(c.desired.value.Field(f)) :: t
  }

  /** A protected conditional REPLACE whose references all keep their identity this run. */
  predicate Deferred(c: Change, cs: ChangeSet, protected: set<Id>) {
    c.nodeId in protected && c.action == Replace && c.conditional && Referenced(c) !! Recreated(cs)
  }

  function DeferredToApply(cs: ChangeSet, protected: set<Id>): set<Id> {
    set c | c in cs && Deferred(c, cs, protected) :: c.nodeId
  }

  predicate Destructive(a: Action) {
    a == Delete || a == Replace
  }

  /** The protected ids a changeset would destroy: it passes when there are none. */
  function Blocked(cs: ChangeSet, protected: set<Id>): set<Id> {
    set c | c in cs && Destructive(c.action) && c.nodeId in protected && c.nodeId !in DeferredToApply(cs, protected) :: c.nodeId
  }

  /** What passing means: protected nodes are never deleted, and replaced only if the apply confirms it. */
  lemma PassedExactly(cs: ChangeSet, protected: set<Id>)
    requires DistinctChanges(cs)
    ensures Blocked(cs, protected) == {} <==>
            forall c :: c in cs && c.nodeId in protected && Destructive(c.action) ==> Deferred(c, cs, protected)
  {
    forall c | c in cs && c.nodeId in protected && c.nodeId in DeferredToApply(cs, protected)
      ensures Deferred(c, cs, protected)
    {
      var d :| d in cs && Deferred(d, cs, protected) && d.nodeId == c.nodeId;
      var i, j :| 0 <= i < |cs| && 0 <= j < |cs| && cs[i] == c && cs[j] == d;
    }
    forall c | c in cs && c.nodeId in protected && Destructive(c.action) && Blocked(cs, protected) == {}
      ensures c.nodeId in DeferredToApply(cs, protected)
    {
      assert c.nodeId !in Blocked(cs, protected);
    }
  }

  /** No protected node is deleted, and none is replaced before the apply judged it. */
  ghost predicate Guarded(cs: ChangeSet, protected: set<Id>) {
    forall c :: c in cs && c.nodeId in protected ==> c.action != Delete && (c.action == Replace ==> c.conditional)
  }
}
