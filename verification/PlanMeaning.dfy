/** What a plan does to each change of the diff, read off the diff, the selection, the rows and the secrets alone. */
module PlanMeaning {
  import opened Graphs
  import opened Values
  import opened Ir
  import opened Cbd
  import opened Classify
  import opened Ordering
  import opened Staleness
  import opened Diffing
  import opened Guards
  import opened Planner
  import opened PlanSafety
  import opened DiffMeaning
  import Text

  predicate IsSelected(selected: Option<set<Id>>, id: Id) {
    selected.None? || id in selected.value
  }

  // -------------------------------------------------------------------- the guard

  /** The node is declared with the flag or, when it is not declared, stored with it. */
  ghost predicate IsProtected(ir: IRGraph, prior: StateGraph, id: Id) {
    (exists n :: n in ir && n.id == id && n.preventDestroy) ||
    (id in prior && prior[id].preventDestroy && forall n :: n in ir ==> n.id != id)
  }

  /** The selected part of the diff gives the node a new identity. */
  ghost predicate Recreates(cs: ChangeSet, selected: Option<set<Id>>, id: Id) {
    IsSelected(selected, id) && exists d :: d in cs && d.nodeId == id && (d.action == Create || d.action == Replace)
  }

  /** Whether to replace waits for the apply: the diff could not tell, and no field it names refers to what is recreated. */
  ghost predicate WaitsForApply(cs: ChangeSet, selected: Option<set<Id>>, d: Change) {
    d.action == Replace && d.conditional &&
    (d.desired.Some? ==>
       forall f, t ::
         f in d.changedFields && f in d.desired.value.properties && t in Targets(d.desired.value.properties[f]) ==>
         !Recreates(cs, selected, t))
  }

  /** The change would destroy what must not be destroyed. */
  ghost predicate IsBlocked(ir: IRGraph, prior: StateGraph, cs: ChangeSet, selected: Option<set<Id>>, d: Change) {
    d in cs && IsSelected(selected, d.nodeId) && (d.action == Delete || d.action == Replace) &&
    IsProtected(ir, prior, d.nodeId) && !WaitsForApply(cs, selected, d)
  }

  lemma RecreatedByDiff(cs: ChangeSet, selected: Option<set<Id>>, t: Id)
    requires DistinctChanges(cs)
    ensures t in Recreated(Restrict(cs, selected)) <==> Recreates(cs, selected, t)
  {
    var r := Restrict(cs, selected);
    if c :| c in r && Reidentifies(c.action) && c.nodeId == t {
      var i :| 0 <= i < |r| && r[i] == c;
      assert cs[i] in cs;
    }
    if Recreates(cs, selected, t) {
      var d :| d in cs && d.nodeId == t && (d.action == Create || d.action == Replace);
      var i :| 0 <= i < |cs| && cs[i] == d;
      assert r[i] == d && r[i] in r;
    }
  }

  lemma ReferencedMeans(d: Change, t: Id)
    ensures t in Referenced(d) <==>
            d.desired.Some? && exists f ::
              f in d.changedFields && f in d.desired.value.properties && t in Targets(d.desired.value.properties[f])
  {
    hide Targets;
    NothingInNull();
    if t in Referenced(d) {
      var f :| f in d.changedFields && t in Targets(d.desired.value.Field(f));
      assert f in d.desired.value.properties;
    }
    if d.desired.Some? {
      if f :| f in d.changedFields && f in d.desired.value.properties && t in Targets(d.desired.value.properties[f]) {
        assert t in Targets(d.desired.value.Field(f));
      }
    }
  }

  lemma NothingInNull()
    ensures Targets(Null) == {}
  {}

  lemma WaitsMeans(cs: ChangeSet, selected: Option<set<Id>>, d: Change)
    requires DistinctChanges(cs)
    ensures WaitsForApply(cs, selected, d) <==>
            d.action == Replace && d.conditional && Referenced(d) !! Recreated(Restrict(cs, selected))
  {
    hide Referenced, Recreated, Recreates, Targets, Restrict;
    forall t { RecreatedByDiff(cs, selected, t); }
    forall t { ReferencedMeans(d, t); }
  }

  lemma SelectedIs(cs: ChangeSet, selected: Option<set<Id>>, c: Change)
    ensures c in Restrict(cs, selected) && c.action != Noop ==> c in cs && IsSelected(selected, c.nodeId)
    ensures c in cs && IsSelected(selected, c.nodeId) ==> c in Restrict(cs, selected)
  {
    var r := Restrict(cs, selected);
    if c in r {
      var i :| 0 <= i < |r| && r[i] == c;
      assert cs[i] in cs;
    }
    if c in cs {
      var i :| 0 <= i < |cs| && cs[i] == c;
      assert r[i] in r;
    }
  }

  lemma DeferredMeans(cs: ChangeSet, selected: Option<set<Id>>, protected: set<Id>, d: Change)
    requires DistinctChanges(cs) && d in cs && IsSelected(selected, d.nodeId)
    ensures d.nodeId in DeferredToApply(Restrict(cs, selected), protected) <==>
            d.nodeId in protected && WaitsForApply(cs, selected, d)
  {
    hide WaitsForApply, Referenced, Recreated, Restrict, IsSelected, DistinctChanges;
    var raw := Restrict(cs, selected);
    RestrictKeepsApart(cs, selected);
    WaitsMeans(cs, selected, d);
    SelectedIs(cs, selected, d);
    if e :| e in raw && Deferred(e, raw, protected) && e.nodeId == d.nodeId { OnlyOne(raw, d, e); }
  }

  lemma BlockedIn(cs: ChangeSet, selected: Option<set<Id>>, protected: set<Id>, id: Id)
    requires DistinctChanges(cs)
    ensures id in Blocked(Restrict(cs, selected), protected) <==>
            exists d: Change ::
              d in cs && d.nodeId == id && IsSelected(selected, id) && (d.action == Delete || d.action == Replace) &&
              id in protected && !WaitsForApply(cs, selected, d)
  {
    hide WaitsForApply, DeferredToApply, Restrict, IsSelected, DistinctChanges;
    var raw := Restrict(cs, selected);
    if id in Blocked(raw, protected) {
      var d :| d in raw && Destructive(d.action) && d.nodeId in protected && d.nodeId !in DeferredToApply(raw, protected) &&
          d.nodeId == id;
      SelectedIs(cs, selected, d);
      DeferredMeans(cs, selected, protected, d);
    }
    if d: Change :| d in cs && d.nodeId == id && IsSelected(selected, id) && (d.action == Delete || d.action == Replace) &&
                    id in protected && !WaitsForApply(cs, selected, d) {
      SelectedIs(cs, selected, d);
      DeferredMeans(cs, selected, protected, d);
    }
  }

  lemma BlockedMeans(ir: IRGraph, inp: DiffInputs, replace: set<Id>, selected: Option<set<Id>>, id: Id)
    requires Wellformed(ir, inp) && Keyed(inp.prior)
    ensures id in Blocked(Selected(ir, inp, replace, selected), ProtectedIds(inp.prior, ir)) <==>
            exists d: Change :: d.nodeId == id && IsBlocked(ir, inp.prior, Diff(ir, inp, replace), selected, d)
  {
    hide Diff, Blocked, ProtectedIds, IsProtected, WaitsForApply, Restrict, IsSelected, DiffInputs.Complete, ById;
    DiffListsEveryId(ir, inp, replace);
    ProtectedMeans(inp.prior, ir, id);
    BlockedIn(Diff(ir, inp, replace), selected, ProtectedIds(inp.prior, ir), id);
  }

  lemma ProtectedMeans(prior: StateGraph, ir: IRGraph, id: Id)
    requires UniqueIds(ir) && Keyed(prior)
    ensures id in ProtectedIds(prior, ir) <==> IsProtected(ir, prior, id)
  {
    ProtectedExactly(prior, ir, id);
  }

  lemma RestrictKeepsApart(cs: ChangeSet, selected: Option<set<Id>>)
    requires DistinctChanges(cs)
    ensures DistinctChanges(Restrict(cs, selected))
  {}

  lemma OnlyOne(cs: ChangeSet, c: Change, d: Change)
    requires DistinctChanges(cs) && c in cs && d in cs && c.nodeId == d.nodeId
    ensures c == d
  {
    var i, j :| 0 <= i < |cs| && 0 <= j < |cs| && cs[i] == c && cs[j] == d;
  }

  /** Main result: a plan is refused exactly when a selected change would destroy a protected node and does not wait for
   * the apply, and the refusal names exactly the nodes of such changes. */
  lemma RefusedExactly(ir: IRGraph, inp: DiffInputs, replace: set<Id>, selected: Option<set<Id>>, misses: Misses,
                       names: map<string, string>, r: PlanResult)
    requires Wellformed(ir, inp) && Keyed(inp.prior) && IsPlan(ir, inp, replace, selected, misses, names, r)
    ensures r.Refused? <==> exists d :: IsBlocked(ir, inp.prior, Diff(ir, inp, replace), selected, d)
    ensures r.Refused? ==> forall id :: id in r.blocked <==>
                             exists d: Change :: d.nodeId == id && IsBlocked(ir, inp.prior, Diff(ir, inp, replace), selected, d)
  {
    hide Diff, IsBlocked, Blocked, ProtectedIds, Selected, AuditedChanges, EffectiveCbd, IsConflict, CbdCollides, NamesConflicts,
         Finalized, DiffInputs.Complete;
    forall id
      ensures id in Blocked(Selected(ir, inp, replace, selected), ProtectedIds(inp.prior, ir)) <==>
              exists d: Change :: d.nodeId == id && IsBlocked(ir, inp.prior, Diff(ir, inp, replace), selected, d)
    {
      BlockedMeans(ir, inp, replace, selected, id);
    }
    if d :| IsBlocked(ir, inp.prior, Diff(ir, inp, replace), selected, d) {
      assert d.nodeId in Blocked(Selected(ir, inp, replace, selected), ProtectedIds(inp.prior, ir));
    }
  }

  // ------------------------------------------------------------- the secret audit

  /** The value is a handle of a secret, whose value the config never holds. */
  predicate IsHandle(v: Value) {
    v.Obj? && |v.fields| == 1 && "$secret_ref" in v.fields && v.fields["$secret_ref"].Obj?
  }

  /** The field is a secret handle whose live value misses the stored digest. */
  predicate Missing(inp: DiffInputs, misses: Misses, id: Id, f: string)
    requires id in inp.desired
  {
    id in misses && f in misses[id] && f in inp.desired[id].properties && IsHandle(inp.desired[id].properties[f])
  }

  ghost predicate SomeMissing(inp: DiffInputs, misses: Misses, id: Id)
    requires id in inp.desired
  {
    exists f :: Missing(inp, misses, id, f)
  }

  lemma HandleMeans(v: Value)
    ensures IsHandle(v) <==> IsSecretMarker(v)
  {
    if v.Obj? && "$secret_ref" in v.fields && |v.fields| == 1 {
      assert |v.fields.Keys| == 1 && {"$secret_ref"} <= v.fields.Keys;
      OneKey(v.fields.Keys, "$secret_ref");
    }
    if IsSecretMarker(v) { assert |v.fields| == |v.fields.Keys|; }
  }

  lemma OneKey(keys: set<string>, k: string)
    requires k in keys && |keys| == 1
    ensures keys == {k}
  {
    assert |keys - {k}| == 0;
  }

  lemma RotatedMeans(ir: IRGraph, inp: DiffInputs, replace: set<Id>, misses: Misses, d: Change)
    requires Wellformed(ir, inp) && d in Diff(ir, inp, replace) && d.action == Noop
    ensures OnBothSides(inp, d.nodeId)
    ensures forall f :: f in Rotated(d, inp.prior, misses) <==> Missing(inp, misses, d.nodeId, f)
  {
    hide Diff, BehindRecreated, InOrder, IsSecretMarker, IsHandle, DiffInputs.Complete, ById;
    LeftAloneExactly(ir, inp, replace, d);
    forall v { HandleMeans(v); }
  }

  /** The action the plan takes on a change of the diff. */
  ghost function PlannedAction(inp: DiffInputs, selected: Option<set<Id>>, misses: Misses, d: Change): Action
    requires d.action == Noop ==> d.nodeId in inp.desired
  {
    if !IsSelected(selected, d.nodeId) then Noop
    else if d.action != Noop || !SomeMissing(inp, misses, d.nodeId) then d.action
    else if exists f :: Missing(inp, misses, d.nodeId, f) && IsImmutableIn(inp, d.nodeId, f) then Replace
    else Update
  }

  /** The plan names the field in its change. */
  ghost predicate PlannedField(inp: DiffInputs, selected: Option<set<Id>>, misses: Misses, d: Change, f: string)
    requires d.action == Noop ==> d.nodeId in inp.desired
  {
    IsSelected(selected, d.nodeId) && if d.action == Noop then Missing(inp, misses, d.nodeId, f) else f in d.changedFields
  }

  /** One change before and after the passes that follow the diff, its two ordering flags aside. */
  ghost predicate PlannedFrom(inp: DiffInputs, selected: Option<set<Id>>, misses: Misses, d: Change, p: Change)
    requires d.action == Noop ==> d.nodeId in inp.desired && d.changedFields == {}
  {
    && p.nodeId == d.nodeId && p.action == PlannedAction(inp, selected, misses, d)
    && (forall f :: f in p.changedFields <==> PlannedField(inp, selected, misses, d, f))
    && (if IsSelected(selected, d.nodeId) then
          p.desired == d.desired && p.prior == d.prior && p.upstreamMoved == d.upstreamMoved &&
          p.stateOnly == (d.stateOnly && p.action == d.action)
        else p == Plain(d.nodeId, Noop, None, None))
  }

  lemma UpgradedMeans(ir: IRGraph, inp: DiffInputs, replace: set<Id>, selected: Option<set<Id>>, misses: Misses,
                      cbd: set<Id>, d: Change)
    requires Wellformed(ir, inp) && d in Diff(ir, inp, replace)
    ensures d.action == Noop ==> OnBothSides(inp, d.nodeId) && d.changedFields == {}
    ensures var raw := if IsSelected(selected, d.nodeId) then d else Plain(d.nodeId, Noop, None, None);
            PlannedFrom(inp, selected, misses, d, Upgraded(raw, inp.prior, misses, inp.mutability, cbd))
  {
    hide Diff, BehindRecreated, InOrder, Missing, Rotated, IsImmutable, FieldsOf, IsImmutableIn, DiffInputs.Complete, ById;
    if d.action == Noop {
      LeftAloneExactly(ir, inp, replace, d);
      RotatedMeans(ir, inp, replace, misses, d);
      forall f ensures IsImmutable(FieldsOf(inp.mutability, inp.desired[d.nodeId].typ), f) <==> IsImmutableIn(inp, d.nodeId, f) {
        ImmutableMeans(inp, d.nodeId, f);
      }
      AmongMeans(Rotated(d, inp.prior, misses), FieldsOf(inp.mutability, inp.desired[d.nodeId].typ));
    }
    ActingHasNoStateOnly(ir, inp, replace, d);
    NotAudited(d, inp.prior, misses);
    NotAudited(Plain(d.nodeId, Noop, None, None), inp.prior, misses);
  }

  lemma ImmutableMeans(inp: DiffInputs, id: Id, f: string)
    requires id in inp.desired
    ensures IsImmutable(FieldsOf(inp.mutability, inp.desired[id].typ), f) <==> IsImmutableIn(inp, id, f)
  {}

  lemma NotAudited(c: Change, prior: StateGraph, misses: Misses)
    ensures c.action != Noop || c.desired.None? ==> Rotated(c, prior, misses) == {}
  {}

  lemma ActingHasNoStateOnly(ir: IRGraph, inp: DiffInputs, replace: set<Id>, d: Change)
    requires Wellformed(ir, inp) && d in Diff(ir, inp, replace)
    ensures d.action != Noop ==> !d.stateOnly
  {
    hide Diff, StaleIn, FirstPass, Moving, EffectiveCbd, DiffInputs.First, DiffInputs.Refine, DiffInputs.Complete,
         DiffInputs.Nodes, ById;
    DiffComesFrom(ir, inp, replace, d);
    var stale := StaleIn(ir, inp, replace);
    RefinedStateOnly(inp, replace, d.nodeId, stale, Moving(FirstPass(inp, replace), stale));
  }

  lemma RefinedStateOnly(inp: DiffInputs, replace: set<Id>, id: Id, stale: set<Id>, moved: set<Id>)
    requires inp.Complete() && id in inp.Nodes()
    ensures var r := inp.Refine(inp.First(replace, id), stale, moved); r.action != Noop ==> !r.stateOnly
  {
    hide DiffInputs.Judge, Settled;
    if OnBothSides(inp, id) {
      JudgeShape(inp, inp.desired[id], inp.prior[id], {});
      JudgeShape(inp, inp.desired[id], inp.prior[id], moved);
    }
  }

  /** The two flags the ordering passes may still lower are the only difference. */
  predicate SameButOrder(c: Change, d: Change) {
    d == c.(createBeforeDestroy := d.createBeforeDestroy, conditional := d.conditional)
  }

  lemma AuditedFrom(cs: ChangeSet, selected: Option<set<Id>>, prior: StateGraph, misses: Misses, mutability: TypeMutability,
                    cbd: set<Id>, i: nat)
    requires i < |cs|
    ensures var raw := if IsSelected(selected, cs[i].nodeId) then cs[i] else Plain(cs[i].nodeId, Noop, None, None);
            var a := AppliedTo(Restrict(cs, selected), prior, misses, mutability, cbd)[i];
            SameButOrder(Upgraded(raw, prior, misses, mutability, cbd), a) &&
            a.createBeforeDestroy == Upgraded(raw, prior, misses, mutability, cbd).createBeforeDestroy
  {
    hide IsPinned, Rotated, ImmutableAmong;
    var r := Restrict(cs, selected);
    assert r[i] in r;
  }

  lemma FinalizedFrom(cs: ChangeSet, names: map<string, string>, mutability: TypeMutability, i: nat)
    requires ReplacesComplete(cs) && i < |cs|
    ensures SameButOrder(cs[i], Finalized(cs, names, mutability)[i])
    ensures Finalized(cs, names, mutability)[i].createBeforeDestroy ==
            (cs[i] in cs && cs[i].createBeforeDestroy && !CbdCollides(cs[i], names, mutability))
  {
    hide IsPinned, CbdCollides;
    assert cs[i] in cs;
  }

  lemma FromStays(inp: DiffInputs, selected: Option<set<Id>>, misses: Misses, d: Change, u: Change, p: Change)
    requires d.action == Noop ==> d.nodeId in inp.desired && d.changedFields == {}
    requires PlannedFrom(inp, selected, misses, d, u) && SameButOrder(u, p)
    requires !IsSelected(selected, d.nodeId) ==> !p.createBeforeDestroy && !p.conditional
    ensures PlannedFrom(inp, selected, misses, d, p)
  {}

  /** What the audited changes are, one by one. */
  lemma AuditedAt(ir: IRGraph, inp: DiffInputs, replace: set<Id>, selected: Option<set<Id>>, misses: Misses, i: nat)
    requires Wellformed(ir, inp) && i < |Diff(ir, inp, replace)|
    ensures var d, audited := Diff(ir, inp, replace)[i], AuditedChanges(ir, inp, replace, selected, misses);
            && (d.action == Noop ==> OnBothSides(inp, d.nodeId) && d.changedFields == {})
            && |audited| == |Diff(ir, inp, replace)| && PlannedFrom(inp, selected, misses, d, audited[i])
  {
    hide Diff, Upgraded, AppliedTo, Restrict, EffectiveCbd, PlannedFrom, DiffInputs.Complete, ById;
    var cs, cbd := Diff(ir, inp, replace), EffectiveCbd(ir);
    var d := cs[i];
    assert d in cs;
    var raw := if IsSelected(selected, d.nodeId) then d else Plain(d.nodeId, Noop, None, None);
    UpgradedMeans(ir, inp, replace, selected, misses, cbd, d);
    AuditedFrom(cs, selected, inp.prior, misses, inp.mutability, cbd, i);
    if !IsSelected(selected, d.nodeId) { AuditedUnselected(cs, selected, inp.prior, misses, inp.mutability, cbd, i); }
    FromStays(inp, selected, misses, d, Upgraded(raw, inp.prior, misses, inp.mutability, cbd),
              AppliedTo(Restrict(cs, selected), inp.prior, misses, inp.mutability, cbd)[i]);
  }

  lemma AuditedUnselected(cs: ChangeSet, selected: Option<set<Id>>, prior: StateGraph, misses: Misses,
                          mutability: TypeMutability, cbd: set<Id>, i: nat)
    requires i < |cs| && !IsSelected(selected, cs[i].nodeId)
    ensures AppliedTo(Restrict(cs, selected), prior, misses, mutability, cbd)[i] == Plain(cs[i].nodeId, Noop, None, None)
  {}

  /** Main result: a successful plan holds one change for each of the diff's, in its order. One that is not selected does
   * nothing; a NOOP of the diff stays one exactly when none of its secret handles misses, and else re-applies exactly the
   * handles that miss, replacing the node exactly when one of them is immutable; any other is the diff's, its two ordering
   * flags aside. */
  lemma PlannedExactly(ir: IRGraph, inp: DiffInputs, replace: set<Id>, selected: Option<set<Id>>, misses: Misses,
                       names: map<string, string>, r: PlanResult, i: nat)
    requires Wellformed(ir, inp) && IsPlan(ir, inp, replace, selected, misses, names, r) && r.Planned?
    requires i < |Diff(ir, inp, replace)|
    ensures |r.changes| == |Diff(ir, inp, replace)|
    ensures Diff(ir, inp, replace)[i].action == Noop ==>
              Diff(ir, inp, replace)[i].nodeId in inp.desired && Diff(ir, inp, replace)[i].changedFields == {}
    ensures PlannedFrom(inp, selected, misses, Diff(ir, inp, replace)[i], r.changes[i])
  {
    hide Diff, AuditedChanges, Finalized, PlannedFrom, EffectiveCbd, Blocked, ProtectedIds, Selected, IsConflict, CbdCollides;
    var audited := AuditedChanges(ir, inp, replace, selected, misses);
    AuditedAt(ir, inp, replace, selected, misses, i);
    FinalizedFrom(audited, names, inp.mutability, i);
    if !IsSelected(selected, Diff(ir, inp, replace)[i].nodeId) {
      UnselectedIsPlain(inp, selected, misses, Diff(ir, inp, replace)[i], audited[i]);
      NoopIsUntouched(audited, names, inp.mutability, i);
    }
    FromStays(inp, selected, misses, Diff(ir, inp, replace)[i], audited[i], r.changes[i]);
  }

  lemma UnselectedIsPlain(inp: DiffInputs, selected: Option<set<Id>>, misses: Misses, d: Change, p: Change)
    requires d.action == Noop ==> d.nodeId in inp.desired && d.changedFields == {}
    requires PlannedFrom(inp, selected, misses, d, p) && !IsSelected(selected, d.nodeId)
    ensures p.action == Noop && !p.createBeforeDestroy && !p.conditional
  {}

  lemma NoopIsUntouched(cs: ChangeSet, names: map<string, string>, mutability: TypeMutability, i: nat)
    requires ReplacesComplete(cs) && i < |cs| && cs[i].action == Noop
    ensures Finalized(cs, names, mutability)[i] == cs[i]
  {
    assert cs[i] in cs;
  }

  // ------------------------------------------------------- create-before-destroy

  /** `properties.get(name)`. */
  function Property(properties: Properties, name: string): Value {
    if name in properties then properties[name] else Null
  }

  /** Some declaration asks for the node's successor first. */
  ghost predicate AskedFirst(ir: IRGraph, id: Id) {
    exists origin :: Forces(ir, origin, id)
  }

  /** The new resource can stand beside the old one: the field naming it changes or, for a type without one, some immutable
   * field is named. */
  ghost predicate CanCoexist(inp: DiffInputs, selected: Option<set<Id>>, misses: Misses, names: map<string, string>, d: Change)
    requires OnBothSides(inp, d.nodeId)
  {
    var want, have := inp.desired[d.nodeId], inp.prior[d.nodeId];
    if want.typ in names then Property(want.properties, names[want.typ]) != Property(have.properties, names[want.typ])
    else exists f :: PlannedField(inp, selected, misses, d, f) && IsImmutableIn(inp, d.nodeId, f)
  }

  /** The node is to be replaced, its successor is asked for first, and cannot stand beside it. */
  ghost predicate Clashes(ir: IRGraph, inp: DiffInputs, selected: Option<set<Id>>, misses: Misses,
                          names: map<string, string>, d: Change)
    requires d.action == Noop ==> d.nodeId in inp.desired
  {
    PlannedAction(inp, selected, misses, d) == Replace && AskedFirst(ir, d.nodeId) && OnBothSides(inp, d.nodeId) &&
    !CanCoexist(inp, selected, misses, names, d)
  }

  lemma ReplaceHasSides(ir: IRGraph, inp: DiffInputs, replace: set<Id>, d: Change)
    requires Wellformed(ir, inp) && d in Diff(ir, inp, replace) && (d.action == Replace || d.action == Noop)
    ensures OnBothSides(inp, d.nodeId) && d.desired == Some(inp.desired[d.nodeId]) && d.prior == Some(inp.prior[d.nodeId])
  {
    hide Diff, StaleIn, FirstPass, Moving, EffectiveCbd, DiffInputs.First, DiffInputs.Refine, DiffInputs.Complete,
         DiffInputs.Nodes, ById,
         BehindRecreated, InOrder;
    if d.action == Noop {
      LeftAloneExactly(ir, inp, replace, d);
    } else {
      DiffComesFrom(ir, inp, replace, d);
      ReplaceIsComplete(ir, inp, replace, d);
      RefineKeepsId(inp, replace, d.nodeId, StaleIn(ir, inp, replace), Moving(FirstPass(inp, replace), StaleIn(ir, inp, replace)));
      FirstKeepsId(inp, replace, d.nodeId);
    }
  }

  /** Before collisions are looked for, a replacement has the flag exactly when some declaration asks for it. */
  lemma AskedAt(ir: IRGraph, inp: DiffInputs, replace: set<Id>, selected: Option<set<Id>>, misses: Misses, i: nat)
    requires Wellformed(ir, inp) && i < |Diff(ir, inp, replace)|
    ensures var audited := AuditedChanges(ir, inp, replace, selected, misses);
            |audited| == |Diff(ir, inp, replace)| &&
            (audited[i].action == Replace ==>
              (audited[i].createBeforeDestroy <==> AskedFirst(ir, Diff(ir, inp, replace)[i].nodeId)))
  {
    hide Diff, AppliedTo, Restrict, EffectiveCbd, Rotated, ImmutableAmong, Forces, DiffInputs.Complete, ById;
    var cs, cbd := Diff(ir, inp, replace), EffectiveCbd(ir);
    var d := cs[i];
    assert d in cs;
    AuditedFrom(cs, selected, inp.prior, misses, inp.mutability, cbd, i);
    EffectiveMeansForced(ir, d.nodeId);
    if d.action == Replace { CreateFirstExactly(ir, inp, replace, d); }
    NotAudited(d, inp.prior, misses);
  }

  /** One audited change collides exactly when its node clashes. */
  lemma CollidesMeans(ir: IRGraph, inp: DiffInputs, replace: set<Id>, selected: Option<set<Id>>, misses: Misses,
                      names: map<string, string>, i: nat)
    requires Wellformed(ir, inp) && i < |Diff(ir, inp, replace)|
    ensures var audited, d := AuditedChanges(ir, inp, replace, selected, misses), Diff(ir, inp, replace)[i];
            && |audited| == |Diff(ir, inp, replace)| && audited[i].nodeId == d.nodeId
            && (audited[i].action == Replace ==> audited[i].desired.Some? && audited[i].prior.Some?)
            && (d.action == Noop ==> d.nodeId in inp.desired)
            && (CbdCollides(audited[i], names, inp.mutability) <==> Clashes(ir, inp, selected, misses, names, d))
  {
    hide Diff, AuditedChanges, IsSelected, PlannedField, AskedFirst, FieldsOf, IsImmutable, IsImmutableIn,
         DiffInputs.Complete, ById;
    var audited, d := AuditedChanges(ir, inp, replace, selected, misses), Diff(ir, inp, replace)[i];
    assert d in Diff(ir, inp, replace);
    AuditedAt(ir, inp, replace, selected, misses, i);
    AskedAt(ir, inp, replace, selected, misses, i);
    if audited[i].action == Replace {
      ReplaceComesFrom(inp, selected, misses, d, audited[i]);
      ReplaceHasSides(ir, inp, replace, d);
      forall f ensures IsImmutable(FieldsOf(inp.mutability, inp.desired[d.nodeId].typ), f) <==> IsImmutableIn(inp, d.nodeId, f) {
        ImmutableMeans(inp, d.nodeId, f);
      }
      AmongMeans(audited[i].changedFields, FieldsOf(inp.mutability, inp.desired[d.nodeId].typ));
    }
  }

  lemma ReplaceComesFrom(inp: DiffInputs, selected: Option<set<Id>>, misses: Misses, d: Change, p: Change)
    requires d.action == Noop ==> d.nodeId in inp.desired && d.changedFields == {}
    requires PlannedFrom(inp, selected, misses, d, p) && p.action == Replace
    ensures (d.action == Replace || d.action == Noop) && p.desired == d.desired && p.prior == d.prior
  {}

  /** Main result on the order: in a successful plan a replacement creates first exactly when some declaration asks for it
   * and old and new can stand side by side; the nodes said to be downgraded are exactly those that clash. */
  lemma CreatedFirstExactly(ir: IRGraph, inp: DiffInputs, replace: set<Id>, selected: Option<set<Id>>, misses: Misses,
                            names: map<string, string>, r: PlanResult, i: nat)
    requires Wellformed(ir, inp) && IsPlan(ir, inp, replace, selected, misses, names, r) && r.Planned?
    requires i < |Diff(ir, inp, replace)|
    ensures |r.changes| == |Diff(ir, inp, replace)| && r.changes[i].nodeId == Diff(ir, inp, replace)[i].nodeId
    ensures r.changes[i].action == Replace ==>
              OnBothSides(inp, r.changes[i].nodeId) &&
              (r.changes[i].createBeforeDestroy <==>
               AskedFirst(ir, r.changes[i].nodeId) && CanCoexist(inp, selected, misses, names, Diff(ir, inp, replace)[i]))
  {
    hide Diff, AuditedChanges, Finalized, CbdCollides, CanCoexist, AskedFirst, PlannedAction, PlannedField, EffectiveCbd,
         Blocked, ProtectedIds, Selected,
         IsConflict, DiffInputs.Complete, ById;
    var audited, d := AuditedChanges(ir, inp, replace, selected, misses), Diff(ir, inp, replace)[i];
    assert d in Diff(ir, inp, replace);
    AuditedAt(ir, inp, replace, selected, misses, i);
    AskedAt(ir, inp, replace, selected, misses, i);
    CollidesMeans(ir, inp, replace, selected, misses, names, i);
    FinalizedFrom(audited, names, inp.mutability, i);
    if r.changes[i].action == Replace {
      ReplaceComesFrom(inp, selected, misses, d, audited[i]);
      ReplaceHasSides(ir, inp, replace, d);
    }
  }

  lemma DestroyedInPlan(cs: ChangeSet, self: Id, v: Value)
    requires forall q :: q in cs && q.action == Replace ==> q.prior.Some?
    ensures Touches(self, v, FirstIds(cs)) <==> RefersToDestroyed(cs, self, v)
  {
    hide Targets;
    forall t ensures t in FirstIds(cs) <==> exists q :: q in cs && q.nodeId == t && q.action == Replace && !q.createBeforeDestroy {
      if q :| q in cs && q.nodeId == t && q.action == Replace && !q.createBeforeDestroy { assert DestroyedFirst(q); }
    }
  }

  /** A conditional REPLACE of the plan names an immutable field that refers to what the plan destroys first. */
  ghost predicate NamesDestroyed(inp: DiffInputs, cs: ChangeSet, p: Change)
    requires p.nodeId in inp.desired
  {
    exists f :: f in p.changedFields && IsImmutableIn(inp, p.nodeId, f) && f in inp.desired[p.nodeId].properties &&
                RefersToDestroyed(cs, p.nodeId, inp.desired[p.nodeId].properties[f])
  }

  lemma BehindMeans(inp: DiffInputs, cs: ChangeSet, d: Change)
    requires d.nodeId in inp.desired && d.desired == Some(inp.desired[d.nodeId]) && inp.desired[d.nodeId].id == d.nodeId
    requires d.action == Replace && d.conditional && forall q :: q in cs && q.action == Replace ==> q.prior.Some?
    ensures Behind(d, FirstIds(cs), inp.mutability) <==> NamesDestroyed(inp, cs, d)
  {
    hide Touches, RefersToDestroyed, FirstIds, IsImmutable, FieldsOf, IsImmutableIn;
    var want := inp.desired[d.nodeId];
    NullRefersToNothing(d.nodeId, FirstIds(cs));
    forall f | f in want.properties
      ensures Touches(d.nodeId, want.properties[f], FirstIds(cs)) <==> RefersToDestroyed(cs, d.nodeId, want.properties[f])
    {
      DestroyedInPlan(cs, d.nodeId, want.properties[f]);
    }
    forall f ensures IsImmutable(FieldsOf(inp.mutability, want.typ), f) <==> IsImmutableIn(inp, d.nodeId, f) {
      ImmutableMeans(inp, d.nodeId, f);
    }
  }

  lemma NullRefersToNothing(self: Id, first: set<Id>)
    ensures !Touches(self, Null, first)
  {}

  lemma PlanReplacesHavePrior(ir: IRGraph, inp: DiffInputs, replace: set<Id>, selected: Option<set<Id>>, misses: Misses,
                              names: map<string, string>, r: PlanResult)
    requires Wellformed(ir, inp) && IsPlan(ir, inp, replace, selected, misses, names, r) && r.Planned?
    ensures forall q :: q in r.changes && q.action == Replace ==> q.prior.Some?
  {
    hide Diff, IsPlan, PlannedFrom, DiffInputs.Complete, ById;
    forall q | q in r.changes && q.action == Replace ensures q.prior.Some? {
      var i :| 0 <= i < |r.changes| && r.changes[i] == q;
      PlanSize(ir, inp, replace, selected, misses, names, r);
      var d := Diff(ir, inp, replace)[i];
      assert d in Diff(ir, inp, replace);
      PlannedExactly(ir, inp, replace, selected, misses, names, r, i);
      ReplaceComesFrom(inp, selected, misses, d, q);
      ReplaceHasSides(ir, inp, replace, d);
    }
  }

  lemma PlanSize(ir: IRGraph, inp: DiffInputs, replace: set<Id>, selected: Option<set<Id>>, misses: Misses,
                 names: map<string, string>, r: PlanResult)
    requires Wellformed(ir, inp) && IsPlan(ir, inp, replace, selected, misses, names, r) && r.Planned?
    ensures |r.changes| == |Diff(ir, inp, replace)|
  {
    hide Diff, AuditedChanges, Finalized, EffectiveCbd, Blocked, ProtectedIds, Selected, IsConflict, CbdCollides,
         DiffInputs.Complete;
    AuditedSize(ir, inp, replace, selected, misses);
  }

  lemma UpgradedConditional(d: Change, prior: StateGraph, misses: Misses, mutability: TypeMutability, cbd: set<Id>)
    ensures Upgraded(d, prior, misses, mutability, cbd).conditional == d.conditional
    ensures d.action == Replace ==> Upgraded(d, prior, misses, mutability, cbd) == d
  {
    hide ImmutableAmong;
  }

  lemma RawAt(cs: ChangeSet, selected: Option<set<Id>>, i: nat)
    requires i < |cs|
    ensures Restrict(cs, selected)[i] == if IsSelected(selected, cs[i].nodeId) then cs[i] else Plain(cs[i].nodeId, Noop, None, None)
  {}

  /** Main result on what is left to the apply: a change of a successful plan is conditional exactly when the diff's is and
   * it is selected, and it names no immutable field that refers to what the plan destroys first. */
  lemma LeftToApplyExactly(ir: IRGraph, inp: DiffInputs, replace: set<Id>, selected: Option<set<Id>>, misses: Misses,
                           names: map<string, string>, r: PlanResult, i: nat)
    requires Wellformed(ir, inp) && IsPlan(ir, inp, replace, selected, misses, names, r) && r.Planned?
    requires i < |Diff(ir, inp, replace)|
    ensures |r.changes| == |Diff(ir, inp, replace)|
    ensures var d, p := Diff(ir, inp, replace)[i], r.changes[i];
            && (d.conditional ==> d.nodeId in inp.desired)
            && (p.conditional <==> d.conditional && IsSelected(selected, d.nodeId) && !NamesDestroyed(inp, r.changes, d))
  {
    hide Diff, AppliedTo, Restrict, Behind, FirstIds, Upgraded, NamesDestroyed, EffectiveCbd, Blocked, ProtectedIds,
         IsConflict, CbdCollides,
         Sound, NoopsKnow, DowngradedAll, DiffInputs.Complete, ById, IsSelected;
    var cs, d := Diff(ir, inp, replace), Diff(ir, inp, replace)[i];
    var raw := Selected(ir, inp, replace, selected);
    assert d in cs;
    PlanSize(ir, inp, replace, selected, misses, names, r);
    SelectedIsSound(ir, inp, replace, selected);
    RawAt(cs, selected, i);
    FinalAt(raw, inp.prior, misses, inp.mutability, EffectiveCbd(ir), names, i);
    SameFirstIds(DowngradedAll(AuditedChanges(ir, inp, replace, selected, misses), names, inp.mutability), inp.mutability);
    UpgradedConditional(raw[i], inp.prior, misses, inp.mutability, EffectiveCbd(ir));
    ReplaceIsComplete(ir, inp, replace, d);
    if d.conditional {
      ReplaceHasSides(ir, inp, replace, d);
      CompleteAt(inp, d.nodeId);
      PlanReplacesHavePrior(ir, inp, replace, selected, misses, names, r);
      BehindMeans(inp, r.changes, d);
    }
  }

  /** Another declared node depends on this one, so its successor has to come first. */
  ghost predicate MustComeFirst(ir: IRGraph, id: Id) {
    exists origin :: origin != id && Forces(ir, origin, id)
  }

  lemma OthersMeans(ir: IRGraph, id: Id)
    ensures OtherForcers(ForcersFor(ir), id) != {} <==> MustComeFirst(ir, id)
    ensures forall o :: o in OtherForcers(ForcersFor(ir), id) <==> o != id && Forces(ir, o, id)
  {
    hide Forces;
    forall o ensures o in OtherForcers(ForcersFor(ir), id) <==> o != id && Forces(ir, o, id) {
      if Forces(ir, o, id) { ForcedIsEffective(ir, o, id); }
    }
  }

  lemma MustMeans(ir: IRGraph, id: Id)
    ensures OtherForcers(ForcersFor(ir), id) != {} <==> MustComeFirst(ir, id)
  {
    OthersMeans(ir, id);
  }

  /** The diff's change of this node clashes. */
  ghost predicate ClashesAt(ir: IRGraph, inp: DiffInputs, cs: ChangeSet, selected: Option<set<Id>>, misses: Misses,
                            names: map<string, string>, id: Id)
  {
    exists d :: d in cs && d.nodeId == id && (d.action == Noop ==> id in inp.desired) &&
        Clashes(ir, inp, selected, misses, names, d)
  }

  ghost predicate CollidesAt(cs: ChangeSet, names: map<string, string>, mutability: TypeMutability, id: Id)
    requires ReplacesComplete(cs)
  {
    exists c :: c in cs && c.nodeId == id && CbdCollides(c, names, mutability)
  }

  lemma AuditedSize(ir: IRGraph, inp: DiffInputs, replace: set<Id>, selected: Option<set<Id>>, misses: Misses)
    requires inp.Complete()
    ensures |AuditedChanges(ir, inp, replace, selected, misses)| == |Diff(ir, inp, replace)|
  {
    hide Diff, AppliedTo, Restrict, EffectiveCbd;
  }

  lemma CollidesAtMeans(ir: IRGraph, inp: DiffInputs, replace: set<Id>, selected: Option<set<Id>>, misses: Misses,
                        names: map<string, string>, id: Id)
    requires Wellformed(ir, inp) && ReplacesComplete(AuditedChanges(ir, inp, replace, selected, misses))
    ensures CollidesAt(AuditedChanges(ir, inp, replace, selected, misses), names, inp.mutability, id) <==>
            ClashesAt(ir, inp, Diff(ir, inp, replace), selected, misses, names, id)
  {
    hide Diff, AuditedChanges, CbdCollides, Clashes, DiffInputs.Complete, ById;
    var cs, audited := Diff(ir, inp, replace), AuditedChanges(ir, inp, replace, selected, misses);
    AuditedSize(ir, inp, replace, selected, misses);
    if CollidesAt(audited, names, inp.mutability, id) {
      var c :| c in audited && c.nodeId == id && CbdCollides(c, names, inp.mutability);
      var i :| 0 <= i < |audited| && audited[i] == c;
      CollidesMeans(ir, inp, replace, selected, misses, names, i);
      assert cs[i] in cs;
    }
    if ClashesAt(ir, inp, cs, selected, misses, names, id) {
      var d :| d in cs && d.nodeId == id && (d.action == Noop ==> id in inp.desired) &&
          Clashes(ir, inp, selected, misses, names, d);
      var i :| 0 <= i < |cs| && cs[i] == d;
      CollidesMeans(ir, inp, replace, selected, misses, names, i);
      assert audited[i] in audited;
    }
  }

  lemma ConflictAt(cs: ChangeSet, names: map<string, string>, mutability: TypeMutability, ir: IRGraph, id: Id)
    requires ReplacesComplete(cs)
    ensures (exists c :: c in cs && c.nodeId == id && IsConflict(c, names, mutability, ForcersFor(ir))) <==>
            CollidesAt(cs, names, mutability, id) && MustComeFirst(ir, id)
  {
    hide CbdCollides, OtherForcers, MustComeFirst, IsForcers, EffectiveCbd;
    MustMeans(ir, id);
    if CollidesAt(cs, names, mutability, id) && MustComeFirst(ir, id) {
      var c :| c in cs && c.nodeId == id && CbdCollides(c, names, mutability);
      assert IsConflict(c, names, mutability, ForcersFor(ir));
    }
  }

  lemma NamedConflicts(cs: ChangeSet, names: map<string, string>, mutability: TypeMutability, ir: IRGraph,
                       conflicts: seq<(Id, seq<Id>)>)
    requires ReplacesComplete(cs) && NamesConflicts(cs, names, mutability, ForcersFor(ir), conflicts)
    ensures forall n :: (exists others :: (n, others) in conflicts) <==>
              CollidesAt(cs, names, mutability, n) && MustComeFirst(ir, n)
    ensures forall n, others :: (n, others) in conflicts ==> forall o :: o in others <==> o != n && Forces(ir, o, n)
  {
    hide IsConflict, OtherForcers, MustComeFirst, CollidesAt, Forces, IsForcers, EffectiveCbd;
    var forcers := ForcersFor(ir);
    forall n ensures (exists others :: (n, others) in conflicts) <==> CollidesAt(cs, names, mutability, n) && MustComeFirst(ir, n) {
      ConflictAt(cs, names, mutability, ir, n);
      if others :| (n, others) in conflicts {
        var c :| c in cs && IsConflict(c, names, mutability, forcers) && (n, others) == ConflictOf(c, forcers);
        assert c.nodeId == n;
      }
      if c :| c in cs && c.nodeId == n && IsConflict(c, names, mutability, forcers) {
        assert ConflictOf(c, forcers) in conflicts;
        assert ConflictOf(c, forcers) == (n, ConflictOf(c, forcers).1);
      }
    }
    forall n, others | (n, others) in conflicts ensures forall o :: o in others <==> o != n && Forces(ir, o, n) {
      OthersMeans(ir, n);
    }
  }

  /** Main result on conflicts: a plan collides exactly when it is not refused and some clashing node has to come first; it
   * then names exactly those nodes, each with the declared nodes that ask for it; and a successful plan names exactly the
   * clashing nodes as downgraded. */
  lemma CollidingExactly(ir: IRGraph, inp: DiffInputs, replace: set<Id>, selected: Option<set<Id>>, misses: Misses,
                         names: map<string, string>, r: PlanResult)
    requires Wellformed(ir, inp) && IsPlan(ir, inp, replace, selected, misses, names, r)
    ensures var cs := Diff(ir, inp, replace);
            && (r.Colliding? <==>
                !r.Refused? && exists id :: ClashesAt(ir, inp, cs, selected, misses, names, id) && MustComeFirst(ir, id))
            && (r.Planned? ==> forall n :: n in r.downgraded <==> ClashesAt(ir, inp, cs, selected, misses, names, n))
            && (r.Colliding? ==> forall n :: (exists others :: (n, others) in r.conflicts) <==>
                  ClashesAt(ir, inp, cs, selected, misses, names, n) && MustComeFirst(ir, n))
            && (r.Colliding? ==> forall n, others :: (n, others) in r.conflicts ==>
                  forall o :: o in others <==> o != n && Forces(ir, o, n))
  {
    hide Diff, AuditedChanges, Finalized, CbdCollides, ClashesAt, MustComeFirst, Forces, EffectiveCbd, Blocked, ProtectedIds,
         Selected,
         NamesConflicts, IsConflict, IsForcers, DiffInputs.Complete, ById;
    var audited := AuditedChanges(ir, inp, replace, selected, misses);
    forall id ensures CollidesAt(audited, names, inp.mutability, id) <==>
                      ClashesAt(ir, inp, Diff(ir, inp, replace), selected, misses, names, id)
    {
      CollidesAtMeans(ir, inp, replace, selected, misses, names, id);
    }
    forall id { ConflictAt(audited, names, inp.mutability, ir, id); }
    if r.Colliding? { NamedConflicts(audited, names, inp.mutability, ir, r.conflicts); }
    if c :| c in audited && IsConflict(c, names, inp.mutability, ForcersFor(ir)) {
      ConflictAt(audited, names, inp.mutability, ir, c.nodeId);
    }
  }

  /** What the audit hands on has, like the diff, no conditional REPLACE behind one that destroys first. */
  lemma AuditLeavesNothingBehind(ir: IRGraph, inp: DiffInputs, replace: set<Id>, selected: Option<set<Id>>, misses: Misses,
                                 c: Change)
    requires inp.Complete() && c in AuditedChanges(ir, inp, replace, selected, misses)
    ensures !Behind(c, FirstIds(AuditedChanges(ir, inp, replace, selected, misses)), inp.mutability)
  {
    hide BehindDestroyFirst, SecondPass, UpgradedAll, Rotated, Restrict, FirstIds, Behind, StaleIn, EffectiveCbd;
    var cs := Selected(ir, inp, replace, selected);
    if forall d | d in cs :: Rotated(d, inp.prior, misses) == {} {
      SelectionLeavesNothingBehind(ir, inp, replace, selected, c);
    } else {
      NothingLeftBehind(UpgradedAll(cs, inp.prior, misses, inp.mutability, EffectiveCbd(ir)), inp.mutability, c);
    }
  }

  lemma SelectionLeavesNothingBehind(ir: IRGraph, inp: DiffInputs, replace: set<Id>, selected: Option<set<Id>>, c: Change)
    requires inp.Complete() && c in Selected(ir, inp, replace, selected)
    ensures !Behind(c, FirstIds(Selected(ir, inp, replace, selected)), inp.mutability)
  {
    hide BehindDestroyFirst, SecondPass, Restrict, StaleIn, EffectiveCbd;
    var cs := Diff(ir, inp, replace);
    var kept := Restrict(cs, selected);
    if Behind(c, FirstIds(kept), inp.mutability) {
      SelectedIs(cs, selected, c);
      forall d | d in kept && DestroyedFirst(d) ensures d in cs { SelectedIs(cs, selected, d); }
      assert FirstIds(kept) <= FirstIds(cs);
      BehindMonotone(c, FirstIds(kept), FirstIds(cs), inp.mutability);
      NothingLeftBehind(SecondPass(inp, FirstPass(inp, replace), StaleIn(ir, inp, replace), EffectiveCbd(ir)), inp.mutability, c);
    }
  }
}
