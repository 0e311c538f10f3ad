/** The state an apply commits, and why planning the same config over it changes nothing. */
module Convergence {
  import opened Graphs
  import opened Values
  import opened Ir
  import opened Classify
  import opened Ordering
  import opened Staleness
  import opened Diffing
  import opened Cbd
  import opened Planner
  import opened Guards

  /** `rows.get(id)`. */
  function At(rows: StateGraph, id: Id): Option<StateNode> {
    if id in rows then Some(rows[id]) else None
  }

  /** What is stored for a node once it is applied. */
  function CommittedRow(node: IRNode, hash: Hash): StateNode {
    StateNode(node.id, node.typ, node.provider, node.providerVersion, hash, node.properties, node.dependencies, node.dependsOn,
              node.preventDestroy, Created)
  }

  /** A node's row once `c` is applied over `row`; `None` when no row is left. */
  function RowAfter(c: Change, row: Option<StateNode>, hashes: map<Id, Hash>): Option<StateNode>
    requires c.action != Delete && c.action != Noop ==> c.desired.Some? && c.nodeId in hashes
  {
    match c.action
    case Delete => None
    case Noop =>
      if row.Some? && c.stateOnly && c.desired.Some? then Some(row.value.(preventDestroy := c.desired.value.preventDestroy))
      else row
    case _ => Some(CommittedRow(c.desired.value, hashes[c.nodeId]))
  }

  ghost predicate Applicable(cs: ChangeSet, hashes: map<Id, Hash>) {
    forall c :: c in cs && c.action != Delete && c.action != Noop ==> c.desired.Some? && c.nodeId in hashes
  }

  /** Each change rewrote its own row and nothing else moved. */
  ghost predicate IsCommitted(cs: ChangeSet, prior: StateGraph, hashes: map<Id, Hash>, after: StateGraph)
    requires Applicable(cs, hashes)
  {
    && (forall c :: c in cs ==> At(after, c.nodeId) == RowAfter(c, At(prior, c.nodeId), hashes))
    && (forall id :: id !in AllIds(cs) ==> At(after, id) == At(prior, id))
  }

  /** `Plan.committed`: the rows rewritten change by change. */
  method Commit(cs: ChangeSet, prior: StateGraph, hashes: map<Id, Hash>) returns (rows: StateGraph)
    requires DistinctChanges(cs) && Applicable(cs, hashes)
    ensures IsCommitted(cs, prior, hashes, rows)
  {
    hide RowAfter;
    rows := prior;
    for i := 0 to |cs|
      invariant forall j :: 0 <= j < i ==> At(rows, cs[j].nodeId) == RowAfter(cs[j], At(prior, cs[j].nodeId), hashes)
      invariant forall id :: id !in AllIds(cs[..i]) ==> At(rows, id) == At(prior, id)
    {
      var c := cs[i];
      assert c in cs && cs[..i + 1] == cs[..i] + [c];
      assert c.nodeId !in AllIds(cs[..i]);
      var row := RowAfter(c, At(rows, c.nodeId), hashes);
      rows := if row.None? then rows - {c.nodeId} else rows[c.nodeId := row.value];
    }
    assert cs[..|cs|] == cs;
  }

  /** A row an apply wrote differs from its node in no field. */
  lemma CommittedRowMatches(node: IRNode, hash: Hash)
    ensures ChangedFields(node, CommittedRow(node, hash), {}, {}) == {}
    ensures var row := CommittedRow(node, hash);
            && row.id == node.id && row.typ == node.typ && row.provider == node.provider
            && row.providerVersion == node.providerVersion && row.properties == node.properties
            && row.dependencies == node.dependencies && row.dependsOn == node.dependsOn
            && row.preventDestroy == node.preventDestroy && row.inputHash == hash && row.status == Created
  {}

  /** What committing does to the row of one change: a DELETE drops it, a NOOP moves at most its flag and only to where the
   * config has it, and any other change leaves the row of its node, confirmed, under the config's digest.
   */
  lemma CommitMeans(cs: ChangeSet, prior: StateGraph, hashes: map<Id, Hash>, after: StateGraph, c: Change)
    requires Applicable(cs, hashes) && IsCommitted(cs, prior, hashes, after) && c in cs
    ensures c.action == Delete ==> c.nodeId !in after
    ensures c.action == Noop ==> (c.nodeId in after <==> c.nodeId in prior)
    ensures c.action == Noop && c.nodeId in after ==>
              var was, now := prior[c.nodeId], after[c.nodeId];
              now == if c.stateOnly && c.desired.Some? then was.(preventDestroy := c.desired.value.preventDestroy) else was
    ensures c.action == Create || c.action == Update || c.action == Replace ==>
              && c.nodeId in after && after[c.nodeId].inputHash == hashes[c.nodeId] && after[c.nodeId].status == Created
              && after[c.nodeId].properties == c.desired.value.properties && after[c.nodeId].id == c.desired.value.id
              && after[c.nodeId].dependencies == c.desired.value.dependencies &&
                 after[c.nodeId].dependsOn == c.desired.value.dependsOn
  {
    hide CommittedRow;
    assert At(after, c.nodeId) == RowAfter(c, At(prior, c.nodeId), hashes);
    if c.desired.Some? && c.nodeId in hashes { CommittedRowMatches(c.desired.value, hashes[c.nodeId]); }
  }

  /** Committing a restricted changeset leaves every row outside the selection as it was. */
  lemma RestrictedLeavesRows(cs: ChangeSet, selected: set<Id>, prior: StateGraph, hashes: map<Id, Hash>, after: StateGraph, id: Id)
    requires Applicable(Restrict(cs, Some(selected)), hashes)
    requires IsCommitted(Restrict(cs, Some(selected)), prior, hashes, after) && id !in selected
    ensures At(after, id) == At(prior, id)
  {
    var r := Restrict(cs, Some(selected));
    if id in AllIds(r) {
      var c :| c in r && c.nodeId == id;
      var i :| 0 <= i < |r| && r[i] == c;
    }
  }

  // -------------------------------------------------------------- convergence

  /** Every desired node has the row its own apply would write, flag included; nothing else has one. */
  ghost predicate Settles(inp: DiffInputs, rows: StateGraph) {
    && rows.Keys == inp.desired.Keys
    && forall id :: id in rows && id in inp.hashes ==>
         rows[id].status == Created && rows[id].inputHash == inp.hashes[id] &&
         rows[id].preventDestroy == inp.desired[id].preventDestroy
  }

  lemma FinalKeepsSides(ir: IRGraph, inp: DiffInputs, replace: set<Id>, c: Change)
    requires inp.Complete() && c in Diff(ir, inp, replace)
    ensures c.nodeId in inp.Nodes()
    ensures c.desired == (if c.nodeId in inp.desired then Some(inp.desired[c.nodeId]) else None)
  {
    hide Diff, StaleIn, FirstPass, Moving, EffectiveCbd, DiffInputs.First, DiffInputs.Refine, DiffInputs.Complete, DiffInputs.Nodes;
    DiffComesFrom(ir, inp, replace, c);
    var stale := StaleIn(ir, inp, replace);
    RefineKeepsId(inp, replace, c.nodeId, stale, Moving(FirstPass(inp, replace), stale));
    FirstKeepsId(inp, replace, c.nodeId);
  }

  lemma RefineDeletes(inp: DiffInputs, replace: set<Id>, id: Id, stale: set<Id>, moved: set<Id>)
    requires inp.Complete() && id in inp.Nodes()
    ensures inp.Refine(inp.First(replace, id), stale, moved).action == Delete <==> id !in inp.desired
  {
    hide DiffInputs.Judge, DiffInputs.First, DiffInputs.Complete;
    FirstKeepsId(inp, replace, id);
    FirstDeletes(inp, replace, id);
    if id in inp.desired && id in inp.prior { JudgeShape(inp, inp.desired[id], inp.prior[id], moved) by { CompleteAt(inp, id); } }
  }

  lemma CompleteAt(inp: DiffInputs, id: Id)
    requires inp.Complete() && id in inp.desired
    ensures inp.desired[id].id == id && id in inp.hashes && inp.hashes[id].Sha?
  {}

  lemma FirstDeletes(inp: DiffInputs, replace: set<Id>, id: Id)
    requires inp.Complete() && id in inp.Nodes()
    ensures inp.First(replace, id).action == Delete <==> id !in inp.desired
  {
    hide DiffInputs.Judge, Settled;
    if id in inp.desired && id in inp.prior { JudgeShape(inp, inp.desired[id], inp.prior[id], {}); }
  }

  lemma FinalDeletes(ir: IRGraph, inp: DiffInputs, replace: set<Id>, c: Change)
    requires inp.Complete() && c in Diff(ir, inp, replace)
    ensures c.action == Delete <==> c.nodeId !in inp.desired
  {
    hide Diff, StaleIn, FirstPass, Moving, EffectiveCbd, DiffInputs.First, DiffInputs.Refine, DiffInputs.Complete, DiffInputs.Nodes;
    DiffComesFrom(ir, inp, replace, c);
    var stale := StaleIn(ir, inp, replace);
    RefineDeletes(inp, replace, c.nodeId, stale, Moving(FirstPass(inp, replace), stale));
  }

  lemma DiffIsApplicable(ir: IRGraph, inp: DiffInputs, replace: set<Id>)
    requires Wellformed(ir, inp)
    ensures Applicable(Diff(ir, inp, replace), inp.hashes)
  {
    hide Diff;
    forall c | c in Diff(ir, inp, replace) && c.action != Delete ensures c.desired.Some? && c.nodeId in inp.hashes {
      FinalKeepsSides(ir, inp, replace, c);
      FinalDeletes(ir, inp, replace, c);
    }
  }

  lemma NoopRow(inp: DiffInputs, replace: set<Id>, id: Id)
    requires inp.Complete() && id in inp.Nodes() && inp.First(replace, id).action == Noop
    ensures id in inp.desired && id in inp.prior && id in inp.hashes
    ensures var have := inp.prior[id];
            have.status == Created && have.inputHash == inp.hashes[id] &&
            (inp.First(replace, id).stateOnly <==> inp.desired[id].preventDestroy != have.preventDestroy)
  {
    hide DiffInputs.Judge, Settled;
    if id in inp.desired && id in inp.prior { JudgeShape(inp, inp.desired[id], inp.prior[id], {}); }
  }

  /** A row that planning its own node again leaves alone: none for an id the config lacks. */
  ghost predicate RowSettles(inp: DiffInputs, id: Id, row: Option<StateNode>) {
    && (row.Some? <==> id in inp.desired)
    && (row.Some? && id in inp.desired && id in inp.hashes ==>
        row.value.status == Created && row.value.inputHash == inp.hashes[id] &&
        row.value.preventDestroy == inp.desired[id].preventDestroy)
  }

  lemma CommittedAt(ir: IRGraph, inp: DiffInputs, replace: set<Id>, c: Change)
    requires Wellformed(ir, inp) && c in Diff(ir, inp, replace)
    requires c.action != Delete && c.action != Noop ==> c.desired.Some? && c.nodeId in inp.hashes
    ensures RowSettles(inp, c.nodeId, RowAfter(c, At(inp.prior, c.nodeId), inp.hashes))
  {
    hide Diff, DiffInputs.First, StaleIn, ById;
    FinalKeepsSides(ir, inp, replace, c);
    FinalDeletes(ir, inp, replace, c);
    if c.action == Noop {
      NoopExactly(ir, inp, replace, c);
      NoopRow(inp, replace, c.nodeId);
    }
  }

  /** A later pass may upgrade a NOOP to a re-apply; what it writes is otherwise what the diff's change writes. */
  ghost predicate WritesAlike(c: Change, d: Change) {
    && d.nodeId == c.nodeId && d.desired == c.desired
    && ((d.action == c.action && d.stateOnly == c.stateOnly) ||
        (c.action == Noop && c.desired.Some? && (d.action == Update || d.action == Replace)))
  }

  ghost predicate AllWriteAlike(cs: ChangeSet, ds: ChangeSet) {
    |ds| == |cs| && forall i :: 0 <= i < |cs| ==> WritesAlike(cs[i], ds[i])
  }

  lemma WrittenAlikeAt(ir: IRGraph, inp: DiffInputs, replace: set<Id>, c: Change, d: Change)
    requires Wellformed(ir, inp) && c in Diff(ir, inp, replace) && WritesAlike(c, d)
    ensures d.action != Delete && d.action != Noop ==> d.desired.Some? && d.nodeId in inp.hashes
    ensures RowSettles(inp, d.nodeId, RowAfter(d, At(inp.prior, d.nodeId), inp.hashes))
  {
    hide Diff, RowSettles, ById;
    FinalKeepsSides(ir, inp, replace, c);
    FinalDeletes(ir, inp, replace, c);
    CommittedAt(ir, inp, replace, c);
    if d.action != c.action { RewrittenSettles(inp, c, d); }
  }

  lemma RewrittenSettles(inp: DiffInputs, c: Change, d: Change)
    requires inp.Complete() && WritesAlike(c, d) && c.action == Noop && (d.action == Update || d.action == Replace)
    requires c.nodeId in inp.desired && c.desired == Some(inp.desired[c.nodeId])
    ensures RowSettles(inp, d.nodeId, RowAfter(d, At(inp.prior, d.nodeId), inp.hashes))
  {}

  /** Where some change acts on every id, the commit of changes that write alike settles every row. */
  lemma CommittedSettles(ir: IRGraph, inp: DiffInputs, replace: set<Id>, ds: ChangeSet, after: StateGraph)
    requires Wellformed(ir, inp) && AllWriteAlike(Diff(ir, inp, replace), ds) && Applicable(ds, inp.hashes)
    requires IsCommitted(ds, inp.prior, inp.hashes, after)
    ensures Settles(inp, after)
  {
    hide Diff, RowAfter, ById, WritesAlike, RowSettles, Settles;
    forall id ensures RowSettles(inp, id, At(after, id)) {
      if id in inp.Nodes() {
        var c := DiffHas(ir, inp, replace, id);
        var i :| 0 <= i < |ds| && Diff(ir, inp, replace)[i] == c;
        WrittenAlikeAt(ir, inp, replace, c, ds[i]);
        AlikeIds(c, ds[i]);
        assert ds[i] in ds;
      } else {
        UnknownUntouched(ir, inp, replace, ds, id);
        UnknownSettles(inp, after, id);
      }
    }
    RowsSettle(inp, after);
  }

  lemma RowsSettle(inp: DiffInputs, rows: StateGraph)
    requires forall id :: RowSettles(inp, id, At(rows, id))
    ensures Settles(inp, rows)
  {
    forall id ensures id in rows <==> id in inp.desired
      ensures id in rows && id in inp.hashes ==>
                rows[id].status == Created && rows[id].inputHash == inp.hashes[id] &&
                id in inp.desired && rows[id].preventDestroy == inp.desired[id].preventDestroy
    {
      assert RowSettles(inp, id, At(rows, id));
    }
  }

  lemma UnknownSettles(inp: DiffInputs, rows: StateGraph, id: Id)
    requires id !in inp.Nodes() && At(rows, id) == At(inp.prior, id)
    ensures RowSettles(inp, id, At(rows, id))
  {}

  lemma AlikeIds(c: Change, d: Change)
    requires WritesAlike(c, d)
    ensures c.nodeId == d.nodeId
  {}

  lemma UnknownUntouched(ir: IRGraph, inp: DiffInputs, replace: set<Id>, ds: ChangeSet, id: Id)
    requires inp.Complete() && AllWriteAlike(Diff(ir, inp, replace), ds) && id !in inp.Nodes()
    ensures id !in AllIds(ds)
  {
    hide Diff, WritesAlike;
    if id in AllIds(ds) {
      var d :| d in ds && d.nodeId == id;
      var i :| 0 <= i < |ds| && ds[i] == d;
      var c := Diff(ir, inp, replace)[i];
      AlikeIds(c, d);
      FinalKeepsSides(ir, inp, replace, c);
    }
  }

  lemma SettledFirst(inp: DiffInputs, id: Id)
    requires inp.Complete() && Settles(inp, inp.prior) && inp.verdicts == map[] && id in inp.Nodes()
    ensures id in inp.desired && id in inp.prior
    ensures inp.First({}, id) == Plain(id, Noop, Some(inp.desired[id]), Some(inp.prior[id]))
  {
    hide DiffInputs.Judge;
    assert Settled(inp.desired[id], map[], {}) == {};
  }

  lemma SettledPlansNothing(ir: IRGraph, inp: DiffInputs, c: Change)
    requires Wellformed(ir, inp) && Settles(inp, inp.prior) && inp.verdicts == map[]
    requires c in Diff(ir, inp, {})
    ensures c.nodeId in inp.desired && c.nodeId in inp.prior
    ensures c == Plain(c.nodeId, Noop, Some(inp.desired[c.nodeId]), Some(inp.prior[c.nodeId]))
  {
    hide Diff, DiffInputs.First, EdgesOf, ById, Settles;
    forall d | d in FirstPass(inp, {}) ensures !Reidentifies(d.action) {
      PassIsFirst(inp, {}, d);
      SettledFirst(inp, d.nodeId);
    }
    assert Recreated(FirstPass(inp, {})) == {};
    NoopExactly(ir, inp, {}, c);
    SettledFirst(inp, c.nodeId);
  }

  /** Over the state a whole diff commits, whatever state it started from and whatever replacements were forced,
   * planning the same config again gives only plain NOOPs. */
  lemma DiffConverges(ir: IRGraph, inp: DiffInputs, replace: set<Id>, after: StateGraph, c: Change)
    requires Wellformed(ir, inp) && Applicable(Diff(ir, inp, replace), inp.hashes)
    requires IsCommitted(Diff(ir, inp, replace), inp.prior, inp.hashes, after)
    requires c in Diff(ir, inp.(prior := after, verdicts := map[]), {})
    ensures c.nodeId in inp.desired && c.nodeId in after
    ensures c == Plain(c.nodeId, Noop, Some(inp.desired[c.nodeId]), Some(after[c.nodeId]))
  {
    hide Diff, IsCommitted;
    CommittedSettles(ir, inp, replace, Diff(ir, inp, replace), after);
    SettledPlansNothing(ir, inp.(prior := after, verdicts := map[]), c);
  }

  /** The passes after the audit touch no more than two flags of a change. */
  lemma SettledWritesAlike(c: Change, cs: ChangeSet, i: nat, names: map<string, string>, mutability: TypeMutability)
    requires ReplacesComplete(cs) && i < |cs| && WritesAlike(c, cs[i])
    ensures WritesAlike(c, Finalized(cs, names, mutability)[i])
  {
    hide IsPinned, CbdCollides;
    assert cs[i] in cs;
  }

  lemma AuditWritesAlike(cs: ChangeSet, i: nat, prior: StateGraph, misses: Misses, mutability: TypeMutability, cbd: set<Id>)
    requires i < |cs|
    ensures WritesAlike(cs[i], AppliedTo(cs, prior, misses, mutability, cbd)[i])
  {
    hide IsPinned, Upgraded, WritesAlike, Rotated;
    UpgradeWritesAlike(cs[i], prior, misses, mutability, cbd);
    AlikeItself(cs[i], Upgraded(cs[i], prior, misses, mutability, cbd));
  }

  lemma AlikeItself(c: Change, d: Change)
    ensures WritesAlike(c, c) && (WritesAlike(c, d) ==> WritesAlike(c, Unconditional(d)))
  {}

  /** The passes after the diff leave what each change writes alone, but for the NOOPs a rotation re-applies. */
  lemma PlanWritesAlike(ir: IRGraph, inp: DiffInputs, replace: set<Id>, misses: Misses, names: map<string, string>, r: PlanResult)
    requires Wellformed(ir, inp) && IsPlan(ir, inp, replace, None, misses, names, r) && r.Planned?
    ensures AllWriteAlike(Diff(ir, inp, replace), r.changes)
  {
    hide Diff, AppliedTo, Finalized, EffectiveCbd, Blocked, ProtectedIds, WritesAlike;
    var cs, audited := Diff(ir, inp, replace), AuditedChanges(ir, inp, replace, None, misses);
    forall i | 0 <= i < |cs| ensures WritesAlike(cs[i], r.changes[i]) {
      AuditWritesAlike(cs, i, inp.prior, misses, inp.mutability, EffectiveCbd(ir));
      SettledWritesAlike(cs[i], audited, i, names, inp.mutability);
    }
  }

  lemma UpgradeWritesAlike(c: Change, prior: StateGraph, misses: Misses, mutability: TypeMutability, cbd: set<Id>)
    ensures WritesAlike(c, Upgraded(c, prior, misses, mutability, cbd))
  {
    hide ImmutableAmong, IsSecretMarker;
  }

  /** Main result: over the state a successful plan of the whole config commits, whatever state it started from,
   * whatever replacements were forced and whatever secrets rotated, planning the same config again gives only plain
   * NOOPs, none of them state-only. */
  lemma PlanConverges(ir: IRGraph, inp: DiffInputs, replace: set<Id>, misses: Misses, names: map<string, string>, r: PlanResult,
                      after: StateGraph, c: Change)
    requires Wellformed(ir, inp) && IsPlan(ir, inp, replace, None, misses, names, r) && r.Planned?
    requires Applicable(r.changes, inp.hashes) && IsCommitted(r.changes, inp.prior, inp.hashes, after)
    requires c in Diff(ir, inp.(prior := after, verdicts := map[]), {})
    ensures c.nodeId in inp.desired && c.nodeId in after
    ensures c == Plain(c.nodeId, Noop, Some(inp.desired[c.nodeId]), Some(after[c.nodeId]))
  {
    hide Diff, IsCommitted, IsPlan, Applicable, AllWriteAlike, ById, DiffInputs.Nodes;
    PlanWritesAlike(ir, inp, replace, misses, names, r);
    CommittedSettles(ir, inp, replace, r.changes, after);
    SettledPlansNothing(ir, inp.(prior := after, verdicts := map[]), c);
  }

  /** Such a plan can be committed: every change it acts with has its node and digest, and its ids are distinct. */
  lemma PlanIsApplicable(ir: IRGraph, inp: DiffInputs, replace: set<Id>, misses: Misses, names: map<string, string>, r: PlanResult)
    requires Wellformed(ir, inp) && IsPlan(ir, inp, replace, None, misses, names, r) && r.Planned?
    ensures Applicable(r.changes, inp.hashes) && DistinctChanges(r.changes)
  {
    hide Diff, IsPlan, WritesAlike, RowSettles, RowAfter, ById, DiffInputs.Nodes, DiffInputs.Complete;
    PlanWritesAlike(ir, inp, replace, misses, names, r);
    DiffListsEveryId(ir, inp, replace);
    var cs := Diff(ir, inp, replace);
    forall i | 0 <= i < |cs|
      ensures r.changes[i].nodeId == cs[i].nodeId
      ensures r.changes[i].action != Delete && r.changes[i].action != Noop ==>
                r.changes[i].desired.Some? && r.changes[i].nodeId in inp.hashes
    {
      assert cs[i] in cs;
      AlikeIds(cs[i], r.changes[i]);
      WrittenAlikeAt(ir, inp, replace, cs[i], r.changes[i]);
    }
  }
}
