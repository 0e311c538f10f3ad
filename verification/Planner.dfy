/** From a diff to a plan: restriction, the guard, rotated secrets, and create-before-destroy resolution. */
module Planner {
  import opened Graphs
  import opened Values
  import opened Ir
  import opened Cbd
  import opened Classify
  import opened Ordering
  import opened Diffing
  import opened Guards

  /** Every change outside the selection downgraded to a NOOP that writes nothing. */
  function Restrict(cs: ChangeSet, selected: Option<set<Id>>): (r: ChangeSet)
    ensures |r| == |cs|
  {
    if selected.None? then cs
    else seq(|cs|, i requires 0 <= i < |cs| =>
               if cs[i].nodeId in selected.value then cs[i] else Plain(cs[i].nodeId, Noop, None, None))
  }

  // ------------------------------------------------------------- rotated secrets

  const SECRET_KEY := "$secret_ref"

  /** A `{"$secret_ref": {...}}` handle: the config names a secret and never holds its value. */
  predicate IsSecretMarker(v: Value) {
    v.Obj? && v.fields.Keys == {SECRET_KEY} && v.fields[SECRET_KEY].Obj?
  }

  /** Per node, the fields whose live value misses the digest stored for it; only secret handles are looked up. */
  type Misses = map<Id, set<string>>

  /** A change the audit looks at. */
  predicate Audited(c: Change, prior: StateGraph) {
    c.action == Noop && c.desired.Some? && c.nodeId in prior
  }

  /** The rotated fields of one change: secret handles of an audited one that miss. */
  function Rotated(c: Change, prior: StateGraph, misses: Misses): set<string> {
    if Audited(c, prior) && c.nodeId in misses then
      var properties := c.desired.value.properties;
      set f | f in properties && IsSecretMarker(properties[f]) && f in misses[c.nodeId]
    else {}
  }

  /** The audit's effect on one change: a rotated immutable secret replaces the node, any other updates it. */
  function Upgraded(c: Change, prior: StateGraph, misses: Misses, mutability: TypeMutability, cbd: set<Id>): Change {
    var fields := Rotated(c, prior, misses);
    if fields == {} then c
    else if ImmutableAmong(fields, FieldsOf(mutability, c.desired.value.typ)) != {} then
      c.(action := Replace, changedFields := fields, createBeforeDestroy := c.nodeId in cbd, stateOnly := false)
    else c.(action := Update, changedFields := fields, stateOnly := false)
  }

  function UpgradedAll(cs: ChangeSet, prior: StateGraph, misses: Misses, mutability: TypeMutability, cbd: set<Id>): (r: ChangeSet)
    ensures |r| == |cs|
  {
    seq(|cs|, i requires 0 <= i < |cs| => Upgraded(cs[i], prior, misses, mutability, cbd))
  }

  /** `SecretAudit.applied_to`: nothing happens unless some field rotated. */
  function AppliedTo(cs: ChangeSet, prior: StateGraph, misses: Misses, mutability: TypeMutability, cbd: set<Id>): (r: ChangeSet)
    ensures |r| == |cs|
  {
    if forall c | c in cs :: Rotated(c, prior, misses) == {} then cs
    else BehindDestroyFirst(UpgradedAll(cs, prior, misses, mutability, cbd), mutability)
  }

  // ------------------------------------------------------------------- the plan

  datatype PlanResult =
    | Planned(changes: ChangeSet, downgraded: seq<Id>)
    | Refused(blocked: set<Id>)
    | Colliding(conflicts: seq<(Id, seq<Id>)>)

  function DowngradedAll(cs: ChangeSet, names: map<string, string>, mutability: TypeMutability): (r: ChangeSet)
    requires ReplacesComplete(cs)
    ensures |r| == |cs|
  {
    seq(|cs|, i requires 0 <= i < |cs| => Downgraded(cs[i], names, mutability))
  }

  /** The changeset a plan carries once no conflict stopped it. */
  function Finalized(cs: ChangeSet, names: map<string, string>, mutability: TypeMutability): (r: ChangeSet)
    requires ReplacesComplete(cs)
    ensures |r| == |cs|
  {
    BehindDestroyFirst(DowngradedAll(cs, names, mutability), mutability)
  }

  ghost function Selected(ir: IRGraph, inp: DiffInputs, replace: set<Id>, selected: Option<set<Id>>): ChangeSet
    requires inp.Complete()
  {
    Restrict(Diff(ir, inp, replace), selected)
  }

  // ------------------------------------------------- what every pass keeps

  /** What the passes after the diff rely on, and each of them keeps. */
  ghost predicate Sound(cs: ChangeSet, cbd: set<Id>) {
    && DistinctChanges(cs) && ReplacesComplete(cs)
    && (forall c :: c in cs && c.action == Replace && c.nodeId in cbd ==> c.createBeforeDestroy)
    && (forall c :: c in cs && c.action != Replace ==> !c.conditional)
  }

  lemma ReplaceIsComplete(ir: IRGraph, inp: DiffInputs, replace: set<Id>, c: Change)
    requires Wellformed(ir, inp) && c in Diff(ir, inp, replace)
    ensures c.action == Replace ==> c.desired.Some? && c.prior.Some?
    ensures c.action == Replace && c.nodeId in EffectiveCbd(ir) ==> c.createBeforeDestroy
    ensures c.action != Replace ==> !c.conditional
  {
    hide Diff, StaleIn, FirstPass, Moving, EffectiveCbd, DiffInputs.First, DiffInputs.Refine, DiffInputs.Complete,
         DiffInputs.Nodes, ById;
    DiffComesFrom(ir, inp, replace, c);
    var stale := StaleIn(ir, inp, replace);
    RefinedIsSound(inp, replace, c.nodeId, stale, Moving(FirstPass(inp, replace), stale));
  }

  lemma FirstIsSound(inp: DiffInputs, replace: set<Id>, id: Id)
    requires inp.Complete() && id in inp.Nodes()
    ensures var c := inp.First(replace, id);
            (c.action == Replace ==> c.desired.Some? && c.prior.Some?) && (c.action != Replace ==> !c.conditional)
  {
    hide DiffInputs.Judge, Settled;
    if id in inp.desired && id in inp.prior { JudgeShape(inp, inp.desired[id], inp.prior[id], {}); }
  }

  lemma RefinedIsSound(inp: DiffInputs, replace: set<Id>, id: Id, stale: set<Id>, moved: set<Id>)
    requires inp.Complete() && id in inp.Nodes()
    ensures var c := inp.Refine(inp.First(replace, id), stale, moved);
            (c.action == Replace ==> c.desired.Some? && c.prior.Some?) && (c.action != Replace ==> !c.conditional)
  {
    hide DiffInputs.Judge, DiffInputs.First;
    FirstIsSound(inp, replace, id);
    FirstKeepsId(inp, replace, id);
    if id in inp.desired && id in inp.prior { JudgeShape(inp, inp.desired[id], inp.prior[id], moved); }
  }

  lemma DiffIsSound(ir: IRGraph, inp: DiffInputs, replace: set<Id>)
    requires Wellformed(ir, inp)
    ensures Sound(Diff(ir, inp, replace), EffectiveCbd(ir))
  {
    hide Diff, EffectiveCbd, DiffInputs.Complete, DiffInputs.Nodes, ById;
    DiffListsEveryId(ir, inp, replace);
    forall c | c in Diff(ir, inp, replace)
      ensures c.action == Replace ==> c.desired.Some? && c.prior.Some?
      ensures c.action == Replace && c.nodeId in EffectiveCbd(ir) ==> c.createBeforeDestroy
      ensures c.action != Replace ==> !c.conditional
    {
      ReplaceIsComplete(ir, inp, replace, c);
    }
  }

  /** Pointwise rewriting that keeps ids keeps them distinct, and any pointwise property. */
  lemma SoundPointwise(cs: ChangeSet, r: ChangeSet, cbd: set<Id>)
    requires Sound(cs, cbd) && |r| == |cs|
    requires forall i :: 0 <= i < |cs| ==> r[i].nodeId == cs[i].nodeId
    requires forall i :: 0 <= i < |cs| ==>
               (r[i].action == Replace ==> r[i].desired.Some? && r[i].prior.Some?) &&
               (r[i].action == Replace && r[i].nodeId in cbd ==> r[i].createBeforeDestroy) &&
               (r[i].action != Replace ==> !r[i].conditional)
    ensures Sound(r, cbd)
  {}

  lemma RestrictIsSound(cs: ChangeSet, selected: Option<set<Id>>, cbd: set<Id>)
    requires Sound(cs, cbd)
    ensures Sound(Restrict(cs, selected), cbd)
  {
    forall i | 0 <= i < |cs| ensures cs[i] in cs {}
    SoundPointwise(cs, Restrict(cs, selected), cbd);
  }

  lemma BehindIsSound(cs: ChangeSet, mutability: TypeMutability, cbd: set<Id>)
    requires Sound(cs, cbd)
    ensures Sound(BehindDestroyFirst(cs, mutability), cbd)
  {
    hide IsPinned;
    forall i | 0 <= i < |cs| ensures cs[i] in cs {}
    SoundPointwise(cs, BehindDestroyFirst(cs, mutability), cbd);
  }

  /** An audited NOOP has both sides. */
  ghost predicate NoopsKnow(cs: ChangeSet, prior: StateGraph) {
    forall c :: c in cs && Audited(c, prior) ==> c.prior.Some?
  }

  lemma UpgradedIsSound(cs: ChangeSet, prior: StateGraph, misses: Misses, mutability: TypeMutability, cbd: set<Id>)
    requires Sound(cs, cbd) && NoopsKnow(cs, prior)
    ensures Sound(UpgradedAll(cs, prior, misses, mutability, cbd), cbd)
  {
    hide ImmutableAmong, FieldsOf;
    forall i | 0 <= i < |cs| ensures cs[i] in cs {}
    SoundPointwise(cs, UpgradedAll(cs, prior, misses, mutability, cbd), cbd);
  }

  lemma AppliedIsSound(cs: ChangeSet, prior: StateGraph, misses: Misses, mutability: TypeMutability, cbd: set<Id>)
    requires Sound(cs, cbd) && NoopsKnow(cs, prior)
    ensures Sound(AppliedTo(cs, prior, misses, mutability, cbd), cbd)
  {
    hide Sound, NoopsKnow, BehindDestroyFirst, Rotated, UpgradedAll;
    UpgradedIsSound(cs, prior, misses, mutability, cbd);
    BehindIsSound(UpgradedAll(cs, prior, misses, mutability, cbd), mutability, cbd);
  }

  lemma SelectedKnows(ir: IRGraph, inp: DiffInputs, replace: set<Id>, selected: Option<set<Id>>)
    requires Wellformed(ir, inp)
    ensures NoopsKnow(Selected(ir, inp, replace, selected), inp.prior)
  {
    hide Diff, DiffInputs.First;
    var cs := Diff(ir, inp, replace);
    forall c | c in Restrict(cs, selected) && Audited(c, inp.prior) ensures c.prior.Some? {
      var i :| 0 <= i < |cs| && Restrict(cs, selected)[i] == c;
      assert c == cs[i];
      NoopExactly(ir, inp, replace, c);
      FirstKeepsId(inp, replace, c.nodeId);
    }
  }

  // ------------------------------------------------------------ the whole pass

  /** The changes after the secret audit, which a plan resolves and settles. */
  ghost function AuditedChanges(ir: IRGraph, inp: DiffInputs, replace: set<Id>, selected: Option<set<Id>>,
                                misses: Misses): ChangeSet
    requires inp.Complete()
  {
    AppliedTo(Selected(ir, inp, replace, selected), inp.prior, misses, inp.mutability, EffectiveCbd(ir))
  }

  lemma AuditedIsSound(ir: IRGraph, inp: DiffInputs, replace: set<Id>, selected: Option<set<Id>>, misses: Misses)
    requires Wellformed(ir, inp)
    ensures Sound(AuditedChanges(ir, inp, replace, selected, misses), EffectiveCbd(ir))
  {
    hide Sound, NoopsKnow, EffectiveCbd, Diff, Restrict, AppliedTo;
    DiffIsSound(ir, inp, replace);
    RestrictIsSound(Diff(ir, inp, replace), selected, EffectiveCbd(ir));
    SelectedKnows(ir, inp, replace, selected);
    AppliedIsSound(Selected(ir, inp, replace, selected), inp.prior, misses, inp.mutability, EffectiveCbd(ir));
  }

  /** What `Planner.build` returns, branch by branch. */
  ghost predicate IsPlan(ir: IRGraph, inp: DiffInputs, replace: set<Id>, selected: Option<set<Id>>, misses: Misses,
                         names: map<string, string>, r: PlanResult)
    requires Wellformed(ir, inp)
  {
    var blocked := Blocked(Selected(ir, inp, replace, selected), ProtectedIds(inp.prior, ir));
    var audited := AuditedChanges(ir, inp, replace, selected, misses);
    && ReplacesComplete(audited)
    && (r.Refused? <==> blocked != {}) && (r.Refused? ==> r.blocked == blocked)
    && (r.Planned? <==> blocked == {} && forall c :: c in audited ==> !IsConflict(c, names, inp.mutability, ForcersFor(ir)))
    && (r.Planned? ==> r.changes == Finalized(audited, names, inp.mutability))
    && (r.Planned? ==> forall n :: n in r.downgraded <==>
                         exists c :: c in audited && c.nodeId == n && CbdCollides(c, names, inp.mutability))
    && (r.Colliding? ==> NamesConflicts(audited, names, inp.mutability, ForcersFor(ir), r.conflicts))
  }

  /** Diff, restrict, guard, audit, resolve, settle. */
  method Build(ir: IRGraph, inp: DiffInputs, replace: set<Id>, selected: Option<set<Id>>, misses: Misses,
               names: map<string, string>)
    returns (r: PlanResult)
    requires Wellformed(ir, inp)
    ensures IsPlan(ir, inp, replace, selected, misses, names, r)
  {
    hide Diff, AppliedTo, Blocked, EffectiveCbd, IsForcers, IsConflict, CbdCollides, NamesConflicts, DistinctChanges, ProtectedIds;
    var diffed := ComputeDiff(ir, inp, replace);
    var raw := Restrict(diffed, selected);
    AuditedIsSound(ir, inp, replace, selected, misses);
    var cbdForcers := CbdForcers(ir);
    ForcersAreEffective(ir, cbdForcers);
    OnlyOneForcers(ir, cbdForcers);
    var blocked := Blocked(raw, ProtectedIds(inp.prior, ir));
    if blocked != {} {
      r := Refused(blocked);
      return;
    }
    var audited := AppliedTo(raw, inp.prior, misses, inp.mutability, cbdForcers.Keys);
    var resolved := ResolveCbd(audited, names, inp.mutability, cbdForcers);
    match resolved {
      case Conflicts(conflicts) => r := Colliding(conflicts);
      case Resolved(changes, downgraded) =>
        assert changes == DowngradedAll(audited, names, inp.mutability);
        DowngradeKeepsIds(audited, names, inp.mutability) by { SoundIsDistinct(audited, EffectiveCbd(ir)); }
        var settled := PinBehindDestroyFirst(changes, inp.mutability);
        r := Planned(settled, downgraded);
    }
  }

  lemma ForcersAreEffective(ir: IRGraph, forcers: map<Id, set<Id>>)
    requires IsForcers(ir, forcers)
    ensures forcers.Keys == EffectiveCbd(ir)
  {}

  lemma SoundIsDistinct(cs: ChangeSet, cbd: set<Id>)
    requires Sound(cs, cbd)
    ensures DistinctChanges(cs)
  {}

  lemma DowngradeKeepsIds(cs: ChangeSet, names: map<string, string>, mutability: TypeMutability)
    requires DistinctChanges(cs) && ReplacesComplete(cs)
    ensures DistinctChanges(DowngradedAll(cs, names, mutability))
  {
    hide CbdCollides;
  }
}
