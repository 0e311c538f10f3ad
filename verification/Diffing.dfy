/** Desired config against stored state: one change per node. */
module Diffing {
  import opened Graphs
  import opened Values
  import opened Ir
  import opened Cbd
  import opened Classify
  import opened Ordering
  import opened Staleness
  import Text

  /** Everything a diff is computed from. */
  datatype DiffInputs = DiffInputs(
    desired: map<Id, IRNode>,
    hashes: map<Id, Hash>,
    prior: StateGraph,
    mutability: TypeMutability,
    verdicts: map<Id, Verdicts>)
  {
    /** Every desired node has a digest. */
    ghost predicate Complete() {
      forall k :: k in desired ==> desired[k].id == k && k in hashes && hashes[k].Sha?
    }

    /** Every id in the config, the state, or both. */
    function Nodes(): set<Id> {
      desired.Keys + prior.Keys
    }

    function VerdictsOf(id: Id): Verdicts {
      if id in verdicts then verdicts[id] else map[]
    }

    /** A node with a row, judged knowing which ids move. */
    function Judge(want: IRNode, have: StateNode, moved: set<Id>): Change
      requires want.id in hashes
    {
      ClassifyNode(want, have, FieldsOf(mutability, want.typ), moved, VerdictsOf(want.id),
                   have.inputHash != hashes[want.id] && have.inputHash != NoInputHash)
    }

    function ChangeFor(id: Id): Change
      requires Complete() && id in Nodes()
    {
      if id !in desired then Plain(id, Delete, None, Some(prior[id]))
      else if id !in prior then Plain(id, Create, Some(desired[id]), None)
      else
        var want, have := desired[id], prior[id];
        if have.status != Created then Plain(id, Create, Some(want), Some(have))
        else if hashes[id] != have.inputHash || Settled(want, VerdictsOf(id), {}) - want.Ignored() != {} then
          Judge(want, have, {})
        else Plain(id, Noop, Some(want), Some(have)).(stateOnly := want.preventDestroy != have.preventDestroy)
    }

    /** The first pass: the node's own classification, or a forced REPLACE. */
    function First(replace: set<Id>, id: Id): Change
      requires Complete() && id in Nodes()
    {
      if id in replace then Forced(ChangeFor(id)) else ChangeFor(id)
    }

    /** The second look at a change, knowing which upstreams move this run. */
    function Refine(c: Change, stale: set<Id>, moved: set<Id>): Change
      requires Complete()
    {
      if c.nodeId !in desired || c.nodeId !in prior then c
      else if c.action == Noop then
        if c.nodeId in stale then Judge(desired[c.nodeId], prior[c.nodeId], moved) else c
      else if (c.action == Update || c.action == Replace) && FORCED_FIELD !in c.changedFields then
        Judge(desired[c.nodeId], prior[c.nodeId], moved)
      else c
    }
  }

  function FirstPass(inp: DiffInputs, replace: set<Id>): (cs: ChangeSet)
    requires inp.Complete()
    ensures |cs| == |Text.Sorted(inp.Nodes())|
  {
    var ids := Text.Sorted(inp.Nodes());
    seq(|ids|, i requires 0 <= i < |ids| => assert ids[i] in ids; inp.First(replace, ids[i]))
  }

  /** The ids whose outputs the run may change: all it acts on, and all that is stale. */
  function Moving(cs: ChangeSet, stale: set<Id>): set<Id> {
    (set c | c in cs && c.action != Noop :: c.nodeId) + stale
  }

  function SecondPass(inp: DiffInputs, cs: ChangeSet, stale: set<Id>, cbd: set<Id>): ChangeSet
    requires inp.Complete()
  {
    var moved := Moving(cs, stale);
    seq(|cs|, i requires 0 <= i < |cs| => CreateFirst(inp.Refine(cs[i], stale, moved), cbd))
  }

  /** The first pass's stale dependents. */
  ghost function StaleIn(ir: IRGraph, inp: DiffInputs, replace: set<Id>): set<Id>
    requires inp.Complete()
  {
    Stale(EdgesOf(ir), Recreated(FirstPass(inp, replace)))
  }

  ghost function Diff(ir: IRGraph, inp: DiffInputs, replace: set<Id>): ChangeSet
    requires inp.Complete()
  {
    BehindDestroyFirst(SecondPass(inp, FirstPass(inp, replace), StaleIn(ir, inp, replace), EffectiveCbd(ir)), inp.mutability)
  }

  ghost predicate Wellformed(ir: IRGraph, inp: DiffInputs) {
    UniqueIds(ir) && inp.desired == ById(ir) && inp.Complete()
  }

  /** The whole-graph pass as the source runs it: worklist, propagation walk and fixpoint loop included. */
  method ComputeDiff(ir: IRGraph, inp: DiffInputs, replace: set<Id>) returns (cs: ChangeSet)
    requires Wellformed(ir, inp)
    ensures cs == Diff(ir, inp, replace)
  {
    hide EdgesOf, Stale, EffectiveCbd, BehindDestroyFirst, SecondPass, FirstPass;
    var first := FirstPass(inp, replace);
    var stale := StaleDependents(first, ir);
    var forcers := CbdForcers(ir);
    var refined := SecondPass(inp, first, stale, forcers.Keys);
    OneChangePerId(inp, replace, stale, forcers.Keys);
    cs := PinBehindDestroyFirst(refined, inp.mutability);
  }

  // ------------------------------------------------------------------- shape

  /** What every judgement keeps, and which fields it can name. */
  lemma JudgeShape(inp: DiffInputs, want: IRNode, have: StateNode, moved: set<Id>)
    requires want.id in inp.hashes
    ensures var c := inp.Judge(want, have, moved);
            && c.nodeId == want.id && c.desired == Some(want) && c.prior == Some(have) && !c.stateOnly
            && (c.action == Update || c.action == Replace)
            && (c.action == Update ==> !c.conditional && !c.createBeforeDestroy)
            && c.changedFields <= want.properties.Keys + have.properties.Keys + inp.VerdictsOf(want.id).Keys
  {
    hide Touches;
  }

  lemma FirstKeepsId(inp: DiffInputs, replace: set<Id>, id: Id)
    requires inp.Complete() && id in inp.Nodes()
    ensures var c := inp.First(replace, id);
            c.nodeId == id && c.desired == (if id in inp.desired then Some(inp.desired[id]) else None) &&
            c.prior == (if id in inp.prior then Some(inp.prior[id]) else None)
  {
    hide ClassifyNode, DiffInputs.Judge, Settled;
    if id in inp.desired && id in inp.prior { JudgeShape(inp, inp.desired[id], inp.prior[id], {}); }
  }

  lemma RefineKeepsId(inp: DiffInputs, replace: set<Id>, id: Id, stale: set<Id>, moved: set<Id>)
    requires inp.Complete() && id in inp.Nodes()
    ensures var c := inp.Refine(inp.First(replace, id), stale, moved);
            c.nodeId == id && c.desired == inp.First(replace, id).desired && c.prior == inp.First(replace, id).prior
  {
    FirstKeepsId(inp, replace, id);
  }

  lemma OneChangePerId(inp: DiffInputs, replace: set<Id>, stale: set<Id>, cbd: set<Id>)
    requires inp.Complete()
    ensures var cs, ids := SecondPass(inp, FirstPass(inp, replace), stale, cbd), Text.Sorted(inp.Nodes());
            |cs| == |ids| && (forall i :: 0 <= i < |cs| ==> cs[i].nodeId == ids[i]) && DistinctChanges(cs)
  {
    hide DiffInputs.First, DiffInputs.Refine, DiffInputs.Complete, DiffInputs.Nodes;
    var first, ids := FirstPass(inp, replace), Text.Sorted(inp.Nodes());
    var cs := SecondPass(inp, first, stale, cbd);
    forall i | 0 <= i < |ids| ensures cs[i].nodeId == ids[i] {
      assert ids[i] in ids;
      RefineKeepsId(inp, replace, ids[i], stale, Moving(first, stale));
    }
    Text.SortedAscends(inp.Nodes());
    Text.AscendingDistinct(ids);
  }

  /** Where a diff's change comes from: the refined first-pass change, created first, perhaps made unconditional. */
  ghost predicate ComesFrom(ir: IRGraph, inp: DiffInputs, replace: set<Id>, c: Change)
    requires inp.Complete() && c.nodeId in inp.Nodes()
  {
    var stale := StaleIn(ir, inp, replace);
    var refined := inp.Refine(inp.First(replace, c.nodeId), stale, Moving(FirstPass(inp, replace), stale));
    var before := CreateFirst(refined, EffectiveCbd(ir));
    c == before || (before.action == Replace && c == Unconditional(before))
  }

  /** Main result on shape: the diff lists every id once, in sorted order. */
  lemma DiffListsEveryId(ir: IRGraph, inp: DiffInputs, replace: set<Id>)
    requires inp.Complete()
    ensures var cs, ids := Diff(ir, inp, replace), Text.Sorted(inp.Nodes());
            |cs| == |ids| && (forall i :: 0 <= i < |cs| ==> cs[i].nodeId == ids[i]) && DistinctChanges(cs)
  {
    hide Text.Sorted, DiffInputs.Complete, DiffInputs.Nodes, SecondPass, FirstPass;
    OneChangePerId(inp, replace, StaleIn(ir, inp, replace), EffectiveCbd(ir));
  }

  lemma DiffIndex(ir: IRGraph, inp: DiffInputs, replace: set<Id>, c: Change) returns (i: nat)
    requires inp.Complete() && c in Diff(ir, inp, replace)
    ensures i < |Text.Sorted(inp.Nodes())| && Text.Sorted(inp.Nodes())[i] == c.nodeId && Diff(ir, inp, replace)[i] == c
    ensures c.nodeId in inp.Nodes()
  {
    hide DiffInputs.Complete, DiffInputs.Nodes, SecondPass, FirstPass;
    DiffListsEveryId(ir, inp, replace);
    i :| 0 <= i < |Diff(ir, inp, replace)| && Diff(ir, inp, replace)[i] == c;
    assert Text.Sorted(inp.Nodes())[i] in Text.Sorted(inp.Nodes());
  }

  lemma DiffComesFrom(ir: IRGraph, inp: DiffInputs, replace: set<Id>, c: Change)
    requires inp.Complete() && c in Diff(ir, inp, replace)
    ensures c.nodeId in inp.Nodes() && ComesFrom(ir, inp, replace, c)
  {
    hide DiffInputs.Complete, DiffInputs.Nodes, DiffInputs.First, DiffInputs.Refine, Behind, Fixpoint;
    var i := DiffIndex(ir, inp, replace, c);
    var stale := StaleIn(ir, inp, replace);
    var cs := SecondPass(inp, FirstPass(inp, replace), stale, EffectiveCbd(ir));
    assert c == cs[i] || (IsPinned(cs[i], cs, inp.mutability) && c == Unconditional(cs[i]));
    PinnedReplaces(cs[i], cs, inp.mutability);
  }

  lemma PinnedReplaces(c: Change, cs: ChangeSet, mutability: TypeMutability)
    ensures IsPinned(c, cs, mutability) ==> c.action == Replace
  {}

  // --------------------------------------------------------------- exact NOOPs

  lemma FirstInPass(inp: DiffInputs, replace: set<Id>, id: Id)
    requires inp.Complete() && id in inp.Nodes()
    ensures inp.First(replace, id) in FirstPass(inp, replace)
  {
    hide DiffInputs.Complete, DiffInputs.Nodes, DiffInputs.First;
    var ids := Text.Sorted(inp.Nodes());
    assert id in ids;
    var i :| 0 <= i < |ids| && ids[i] == id;
    assert FirstPass(inp, replace)[i] == inp.First(replace, id);
  }

  lemma PassIsFirst(inp: DiffInputs, replace: set<Id>, c: Change)
    requires inp.Complete() && c in FirstPass(inp, replace)
    ensures c.nodeId in inp.Nodes() && c == inp.First(replace, c.nodeId)
  {
    hide DiffInputs.Complete, DiffInputs.Nodes, DiffInputs.First;
    var ids := Text.Sorted(inp.Nodes());
    var i :| 0 <= i < |ids| && FirstPass(inp, replace)[i] == c;
    assert ids[i] in ids;
    FirstKeepsId(inp, replace, ids[i]);
  }

  lemma RefineNoop(inp: DiffInputs, c: Change, stale: set<Id>, moved: set<Id>)
    requires inp.Complete() && (c.action == Noop ==> c.nodeId in inp.desired && c.nodeId in inp.prior)
    ensures inp.Refine(c, stale, moved).action == Noop <==> c.action == Noop && c.nodeId !in stale
    ensures inp.Refine(c, stale, moved).action == Noop ==> inp.Refine(c, stale, moved) == c
  {
    hide DiffInputs.Judge;
    if c.nodeId in inp.desired && c.nodeId in inp.prior { JudgeShape(inp, inp.desired[c.nodeId], inp.prior[c.nodeId], moved); }
  }

  lemma FirstNoopIsBoth(inp: DiffInputs, replace: set<Id>, id: Id)
    requires inp.Complete() && id in inp.Nodes() && inp.First(replace, id).action == Noop
    ensures id in inp.desired && id in inp.prior
  {
    hide DiffInputs.Judge, Settled;
  }

  /** Main result: the final NOOPs are exactly the first pass's NOOPs outside the stale closure. */
  lemma NoopExactly(ir: IRGraph, inp: DiffInputs, replace: set<Id>, c: Change)
    requires Wellformed(ir, inp) && c in Diff(ir, inp, replace)
    ensures c.nodeId in inp.Nodes()
    ensures c.action == Noop <==> inp.First(replace, c.nodeId).action == Noop && c.nodeId !in StaleIn(ir, inp, replace)
    ensures c.action == Noop ==> c == inp.First(replace, c.nodeId)
  {
    hide StaleIn, Diff, FirstPass, EffectiveCbd, Moving, DiffInputs.First, DiffInputs.Refine, DiffInputs.Complete, DiffInputs.Nodes;
    DiffComesFrom(ir, inp, replace, c);
    FirstKeepsId(inp, replace, c.nodeId);
    var first := inp.First(replace, c.nodeId);
    if first.action == Noop { FirstNoopIsBoth(inp, replace, c.nodeId); }
    var stale := StaleIn(ir, inp, replace);
    RefineNoop(inp, first, stale, Moving(FirstPass(inp, replace), stale));
  }

  /** The ids a run may move are exactly those the diff ends up acting on. */
  lemma MovingExactly(ir: IRGraph, inp: DiffInputs, replace: set<Id>, c: Change)
    requires Wellformed(ir, inp) && c in Diff(ir, inp, replace)
    ensures c.action != Noop <==> c.nodeId in Moving(FirstPass(inp, replace), StaleIn(ir, inp, replace))
  {
    hide StaleIn, Diff, FirstPass, DiffInputs.Complete, DiffInputs.First, DiffInputs.Nodes;
    NoopExactly(ir, inp, replace, c);
    var first := FirstPass(inp, replace);
    FirstInPass(inp, replace, c.nodeId);
    FirstKeepsId(inp, replace, c.nodeId);
    if d :| d in first && d.action != Noop && d.nodeId == c.nodeId {
      PassIsFirst(inp, replace, d);
    }
  }

  // ------------------------------------------------------------ value soundness

  /** No field happens to be called `(forced)`. */
  predicate Ordinary(want: IRNode, have: StateNode, verdicts: Verdicts) {
    FORCED_FIELD !in want.properties && FORCED_FIELD !in have.properties && FORCED_FIELD !in verdicts
  }

  lemma FirstFields(inp: DiffInputs, replace: set<Id>, id: Id)
    requires inp.Complete() && id in inp.desired && id in inp.prior
    requires Ordinary(inp.desired[id], inp.prior[id], inp.VerdictsOf(id))
    ensures var c := inp.First(replace, id);
            FORCED_FIELD in c.changedFields <==> c.changedFields == {FORCED_FIELD} && c.action == Replace
    ensures inp.First(replace, id).action != Delete
  {
    hide DiffInputs.Judge, Settled;
    JudgeShape(inp, inp.desired[id], inp.prior[id], {});
  }

  lemma RefineIsJudged(inp: DiffInputs, c: Change, stale: set<Id>, moved: set<Id>)
    requires inp.Complete() && c.nodeId in inp.desired && c.nodeId in inp.prior
    requires FORCED_FIELD in c.changedFields <==> c.changedFields == {FORCED_FIELD} && c.action == Replace
    requires Ordinary(inp.desired[c.nodeId], inp.prior[c.nodeId], inp.VerdictsOf(c.nodeId))
    ensures var r := inp.Refine(c, stale, moved);
            r.action == Update || (r.action == Replace && FORCED_FIELD !in r.changedFields) ==>
            r == inp.Judge(inp.desired[c.nodeId], inp.prior[c.nodeId], moved)
  {
    hide DiffInputs.Judge;
  }

  lemma UnforcedIsJudged(ir: IRGraph, inp: DiffInputs, replace: set<Id>, c: Change)
    requires Wellformed(ir, inp) && c in Diff(ir, inp, replace)
    requires c.nodeId in inp.desired && c.nodeId in inp.prior
    requires c.action == Update || (c.action == Replace && FORCED_FIELD !in c.changedFields)
    requires Ordinary(inp.desired[c.nodeId], inp.prior[c.nodeId], inp.VerdictsOf(c.nodeId))
    ensures var judged := inp.Judge(inp.desired[c.nodeId], inp.prior[c.nodeId],
                                    Moving(FirstPass(inp, replace), StaleIn(ir, inp, replace)));
            c.action == judged.action && c.changedFields == judged.changedFields
  {
    hide StaleIn, Diff, FirstPass, EffectiveCbd, Moving, DiffInputs.First, DiffInputs.Refine, DiffInputs.Judge, Ordinary;
    DiffComesFrom(ir, inp, replace, c);
    FirstKeepsId(inp, replace, c.nodeId);
    FirstFields(inp, replace, c.nodeId);
    var stale := StaleIn(ir, inp, replace);
    RefineIsJudged(inp, inp.First(replace, c.nodeId), stale, Moving(FirstPass(inp, replace), stale));
  }

  /** Outputs that changed this run belong to nodes the plan acts on. */
  ghost predicate OnlyActedOnMoves(cs: ChangeSet, stored: Outputs, now: Outputs) {
    forall id :: (forall c :: c in cs && c.nodeId == id ==> c.action == Noop) ==> SameAt(stored, now, id)
  }

  lemma ActedOnIsMoving(ir: IRGraph, inp: DiffInputs, replace: set<Id>, stored: Outputs, now: Outputs)
    requires Wellformed(ir, inp) && OnlyActedOnMoves(Diff(ir, inp, replace), stored, now)
    ensures MovedOnly(stored, now, Moving(FirstPass(inp, replace), StaleIn(ir, inp, replace)))
  {
    hide Diff, FirstPass, StaleIn, Moving, DiffInputs.Complete;
    var moved := Moving(FirstPass(inp, replace), StaleIn(ir, inp, replace));
    forall id | id !in moved ensures SameAt(stored, now, id) {
      forall c | c in Diff(ir, inp, replace) && c.nodeId == id ensures c.action == Noop { MovingExactly(ir, inp, replace, c); }
    }
  }

  lemma RecreatedMakesStale(g: Edges, cs: ChangeSet, d: Change, n: Id)
    requires d in cs && Reidentifies(d.action) && ReachPlus(g, n, d.nodeId)
    ensures n in Stale(g, Recreated(cs))
  {
    assert d.nodeId in Recreated(cs);
    assert Downstream(g, Recreated(cs), n);
    var e :| Step(g, n, e) && Reach(g, e, d.nodeId);
  }

  /** Nothing upstream of a final NOOP was recreated by the first pass; at most it is updated in place. */
  lemma NoopUpstreams(ir: IRGraph, inp: DiffInputs, replace: set<Id>, c: Change, u: Id)
    requires Wellformed(ir, inp) && c in Diff(ir, inp, replace) && c.action == Noop
    requires ReachPlus(EdgesOf(ir), c.nodeId, u) && u in inp.desired
    ensures inp.First(replace, u).action in {Noop, Update}
  {
    hide Diff, FirstPass, DiffInputs.Complete, EdgesOf, DiffInputs.First, Stale, ReachPlus;
    NoopExactly(ir, inp, replace, c);
    FirstInPass(inp, replace, u);
    FirstKeepsId(inp, replace, u);
    FirstActs(inp, replace, u);
    var d := inp.First(replace, u);
    if Reidentifies(d.action) { RecreatedMakesStale(EdgesOf(ir), FirstPass(inp, replace), d, c.nodeId); }
  }

  lemma FirstActs(inp: DiffInputs, replace: set<Id>, id: Id)
    requires inp.Complete() && id in inp.desired
    ensures inp.First(replace, id).action != Delete
  {
    hide DiffInputs.Judge, Settled;
    if id in inp.prior { JudgeShape(inp, inp.desired[id], inp.prior[id], {}); }
  }

  lemma DiffHas(ir: IRGraph, inp: DiffInputs, replace: set<Id>, id: Id) returns (c: Change)
    requires inp.Complete() && id in inp.Nodes()
    ensures c in Diff(ir, inp, replace) && c.nodeId == id
  {
    hide DiffInputs.Complete, DiffInputs.Nodes, SecondPass, FirstPass;
    DiffListsEveryId(ir, inp, replace);
    var ids := Text.Sorted(inp.Nodes());
    assert id in ids;
    var i :| 0 <= i < |ids| && ids[i] == id;
    c := Diff(ir, inp, replace)[i];
  }

  // ------------------------------------------------------ the flags of a REPLACE

  lemma DiffIsPinnedExactly(ir: IRGraph, inp: DiffInputs, replace: set<Id>, c: Change)
    requires inp.Complete() && c in Diff(ir, inp, replace)
    ensures c.nodeId in inp.Nodes()
    ensures var stale := StaleIn(ir, inp, replace);
            var before := CreateFirst(inp.Refine(inp.First(replace, c.nodeId), stale, Moving(FirstPass(inp, replace), stale)),
                                      EffectiveCbd(ir));
            c == if Behind(before, FirstIds(Diff(ir, inp, replace)), inp.mutability) then Unconditional(before) else before
  {
    hide DiffInputs.Complete, DiffInputs.Nodes, DiffInputs.First, DiffInputs.Refine, Behind, Fixpoint, FirstIds, StaleIn, Moving;
    var i := DiffIndex(ir, inp, replace, c);
    var stale := StaleIn(ir, inp, replace);
    var cs := SecondPass(inp, FirstPass(inp, replace), stale, EffectiveCbd(ir));
    SecondIsComplete(inp, replace, stale, EffectiveCbd(ir));
    PinnedExactly(cs, inp.mutability, cs[i]);
    SameFirstIds(cs, inp.mutability);
  }

  lemma RefineIsComplete(inp: DiffInputs, replace: set<Id>, id: Id, stale: set<Id>, moved: set<Id>)
    requires inp.Complete() && id in inp.Nodes()
    ensures var c := inp.Refine(inp.First(replace, id), stale, moved);
            c.action == Replace ==> id in inp.desired && id in inp.prior && c.desired == Some(inp.desired[id]) && c.prior.Some?
  {
    hide DiffInputs.Judge, Settled;
    if id in inp.desired && id in inp.prior {
      JudgeShape(inp, inp.desired[id], inp.prior[id], {});
      JudgeShape(inp, inp.desired[id], inp.prior[id], moved);
    }
  }

  lemma SecondIsComplete(inp: DiffInputs, replace: set<Id>, stale: set<Id>, cbd: set<Id>)
    requires inp.Complete()
    ensures ReplacesComplete(SecondPass(inp, FirstPass(inp, replace), stale, cbd))
  {
    hide DiffInputs.Complete, DiffInputs.Nodes, DiffInputs.First, DiffInputs.Refine;
    var first, ids := FirstPass(inp, replace), Text.Sorted(inp.Nodes());
    var cs := SecondPass(inp, first, stale, cbd);
    forall c | c in cs && c.action == Replace ensures c.desired.Some? && c.prior.Some? {
      var i :| 0 <= i < |cs| && cs[i] == c;
      assert ids[i] in ids;
      RefineIsComplete(inp, replace, ids[i], stale, Moving(first, stale));
    }
  }

  /** The fields that make the classification of a node a REPLACE. */
  function Decisive(inp: DiffInputs, c: Change): set<string>
    requires c.nodeId in inp.desired
  {
    ImmutableAmong(c.changedFields, FieldsOf(inp.mutability, inp.desired[c.nodeId].typ))
  }

  /** Main result: an unforced REPLACE is conditional exactly when each of its changed immutable fields carries a
   * reference, is not already known to have moved, and refers to nothing this plan destroys first. */
  lemma ConditionalExactly(ir: IRGraph, inp: DiffInputs, replace: set<Id>, c: Change)
    requires Wellformed(ir, inp) && c in Diff(ir, inp, replace)
    requires c.nodeId in inp.desired && c.nodeId in inp.prior && c.action == Replace && FORCED_FIELD !in c.changedFields
    requires Ordinary(inp.desired[c.nodeId], inp.prior[c.nodeId], inp.VerdictsOf(c.nodeId))
    ensures var want := inp.desired[c.nodeId];
            var moved := Moving(FirstPass(inp, replace), StaleIn(ir, inp, replace));
            c.conditional <==> forall f :: f in Decisive(inp, c) ==>
              HasRefKey(want.Field(f)) && f !in Settled(want, inp.VerdictsOf(want.id), moved) &&
              !Touches(want.id, want.Field(f), FirstIds(Diff(ir, inp, replace)))
  {
    hide Diff, FirstPass, StaleIn, Moving, DiffInputs.First, DiffInputs.Refine, Ordinary, EffectiveCbd, FirstIds, Touches, Settled;
    var moved := Moving(FirstPass(inp, replace), StaleIn(ir, inp, replace));
    DiffIsPinnedExactly(ir, inp, replace, c);
    FirstKeepsId(inp, replace, c.nodeId);
    FirstFields(inp, replace, c.nodeId);
    var first, stale := inp.First(replace, c.nodeId), StaleIn(ir, inp, replace);
    RefineIsJudged(inp, first, stale, moved);
    JudgedConditional(inp, inp.desired[c.nodeId], inp.prior[c.nodeId], moved);
  }

  lemma JudgedConditional(inp: DiffInputs, want: IRNode, have: StateNode, moved: set<Id>)
    requires want.id in inp.hashes
    ensures var c := inp.Judge(want, have, moved);
            c.action == Replace ==>
            c.desired == Some(want) &&
            (c.conditional <==> forall f :: f in ImmutableAmong(c.changedFields, FieldsOf(inp.mutability, want.typ)) ==>
              HasRefKey(want.Field(f)) && f !in Settled(want, inp.VerdictsOf(want.id), moved))
  {
    hide ChangedFields, UnrecordedFields, Settled, Touches, FieldsOf, HasRefKey;
  }

  /** Main result: a REPLACE in a diff is create-before-destroy exactly when its node is declared so, or something
   * that depends on it is. */
  lemma CreateFirstExactly(ir: IRGraph, inp: DiffInputs, replace: set<Id>, c: Change)
    requires Wellformed(ir, inp) && c in Diff(ir, inp, replace) && c.action == Replace
    ensures c.createBeforeDestroy <==> exists origin :: Forces(ir, origin, c.nodeId)
  {
    hide Diff, FirstPass, StaleIn, Moving, DiffInputs.First, DiffInputs.Refine, Behind, EffectiveCbd, Forces, DiffInputs.Complete,
         DiffInputs.Nodes;
    DiffIsPinnedExactly(ir, inp, replace, c);
    var stale := StaleIn(ir, inp, replace);
    RefinedDeclares(ir, inp, replace, c.nodeId, stale, Moving(FirstPass(inp, replace), stale));
    EffectiveMeansForced(ir, c.nodeId);
  }

  lemma EffectiveMeansForced(ir: IRGraph, n: Id)
    ensures n in EffectiveCbd(ir) <==> exists origin :: Forces(ir, origin, n)
  {
    ForcesFromNodes(ir);
  }

  lemma JudgeDeclares(inp: DiffInputs, want: IRNode, have: StateNode, moved: set<Id>)
    requires want.id in inp.hashes
    ensures inp.Judge(want, have, moved).createBeforeDestroy ==> want.createBeforeDestroy
  {
    hide ChangedFields, ImmutableAmong, Settled, UnrecordedFields, FieldsOf, HasRefKey;
  }

  lemma RefineDeclares(inp: DiffInputs, replace: set<Id>, id: Id, stale: set<Id>, moved: set<Id>)
    requires inp.Complete() && id in inp.Nodes()
    ensures inp.Refine(inp.First(replace, id), stale, moved).createBeforeDestroy ==>
              id in inp.desired && inp.desired[id].createBeforeDestroy
  {
    hide DiffInputs.Judge, Settled;
    if id in inp.desired && id in inp.prior {
      JudgeShape(inp, inp.desired[id], inp.prior[id], {});
      JudgeDeclares(inp, inp.desired[id], inp.prior[id], {});
      JudgeDeclares(inp, inp.desired[id], inp.prior[id], moved);
    }
  }

  lemma RefinedDeclares(ir: IRGraph, inp: DiffInputs, replace: set<Id>, id: Id, stale: set<Id>, moved: set<Id>)
    requires Wellformed(ir, inp) && id in inp.Nodes()
    ensures var c := inp.Refine(inp.First(replace, id), stale, moved);
            c.nodeId == id && (c.action == Replace && c.createBeforeDestroy ==> id in EffectiveCbd(ir))
  {
    hide EffectiveCbd, DiffInputs.First, DiffInputs.Refine;
    RefineKeepsId(inp, replace, id, stale, moved);
    RefineDeclares(inp, replace, id, stale, moved);
    if id in inp.desired && inp.desired[id].createBeforeDestroy {
      DeclaredIsEffective(ir, inp.desired[id]);
    }
  }

  lemma DeclaredIsEffective(ir: IRGraph, node: IRNode)
    requires node in ir && node.createBeforeDestroy
    ensures node.id in EffectiveCbd(ir)
  {
    ReachSelf(EdgesOf(ir), node.id);
    ForcedIsEffective(ir, node.id, node.id);
  }
}
