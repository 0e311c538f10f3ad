/** What a successful plan guarantees, end to end. */
module PlanSafety {
  import opened Graphs
  import opened Values
  import opened Ir
  import opened Cbd
  import opened Classify
  import opened Ordering
  import opened Staleness
  import opened Diffing
  import opened Guards
  import opened Planner
  import opened Merkle

  lemma DowngradedIsComplete(cs: ChangeSet, names: map<string, string>, mutability: TypeMutability)
    requires ReplacesComplete(cs)
    ensures ReplacesComplete(DowngradedAll(cs, names, mutability))
  {
    hide CbdCollides;
    var r := DowngradedAll(cs, names, mutability);
    forall c | c in r && c.action == Replace ensures c.desired.Some? && c.prior.Some? {
      var i :| 0 <= i < |r| && r[i] == c;
      assert cs[i] in cs;
    }
  }

  /** Each finalized change: downgraded if it collides, then pinned exactly when its own reference points at a
   * destroy-first REPLACE. */
  lemma FinalizedAt(cs: ChangeSet, names: map<string, string>, mutability: TypeMutability, i: nat)
    requires ReplacesComplete(cs) && i < |cs|
    ensures var down := DowngradedAll(cs, names, mutability);
            Finalized(cs, names, mutability)[i] ==
            if Behind(down[i], FirstIds(down), mutability) then Unconditional(down[i]) else down[i]
  {
    hide Behind, FirstIds, DowngradedAll, Fixpoint;
    DowngradedIsComplete(cs, names, mutability);
    var down := DowngradedAll(cs, names, mutability);
    PinnedExactly(down, mutability, down[i]);
  }

  /** A node some other declared node forces is never downgraded. */
  lemma ForcedStaysFirst(ir: IRGraph, a: Change, names: map<string, string>,
                         mutability: TypeMutability, origin: Id)
    requires Forces(ir, origin, a.nodeId) && origin != a.nodeId
    requires a.action == Replace ==> a.desired.Some? && a.prior.Some?
    requires !IsConflict(a, names, mutability, ForcersFor(ir))
    requires a.action == Replace && a.nodeId in EffectiveCbd(ir) ==> a.createBeforeDestroy
    ensures a.action == Replace ==> Downgraded(a, names, mutability).createBeforeDestroy
  {
    hide CbdCollides, Forces, EffectiveCbd;
    ForcedIsEffective(ir, origin, a.nodeId);
    assert origin in OtherForcers(ForcersFor(ir), a.nodeId);
  }

  /** Main result: in a successful plan no node replaced destroy-first lies in the dependency closure of a
   * different node declared create-before-destroy. */
  lemma NoDependentLosesItsUpstream(ir: IRGraph, inp: DiffInputs, replace: set<Id>, selected: Option<set<Id>>, misses: Misses,
                                    names: map<string, string>, r: PlanResult, c: Change, origin: Id)
    requires Wellformed(ir, inp)
    requires IsPlan(ir, inp, replace, selected, misses, names, r) && r.Planned?
    requires c in r.changes && c.action == Replace && !c.createBeforeDestroy && origin != c.nodeId
    ensures !Forces(ir, origin, c.nodeId)
  {
    hide AuditedChanges, Behind, FirstIds, CbdCollides, Forces, EffectiveCbd, Blocked, Selected, BehindDestroyFirst;
    var audited := AuditedChanges(ir, inp, replace, selected, misses);
    AuditedIsSound(ir, inp, replace, selected, misses);
    var i :| 0 <= i < |r.changes| && r.changes[i] == c;
    FinalizedAt(audited, names, inp.mutability, i);
    assert audited[i] in audited && audited[i].nodeId == c.nodeId;
    if Forces(ir, origin, c.nodeId) {
      ForcedStaysFirst(ir, audited[i], names, inp.mutability, origin);
    }
  }

  /** Main result: in a successful plan no conditional REPLACE holds a changed immutable reference to a node
   * replaced destroy-first. */
  lemma NoConditionalBehindDestroyFirst(ir: IRGraph, inp: DiffInputs, replace: set<Id>, selected: Option<set<Id>>, misses: Misses,
                                        names: map<string, string>, r: PlanResult, c: Change)
    requires Wellformed(ir, inp)
    requires IsPlan(ir, inp, replace, selected, misses, names, r) && r.Planned? && c in r.changes
    ensures !Behind(c, FirstIds(r.changes), inp.mutability)
  {
    hide AuditedChanges, Behind, FirstIds, BehindDestroyFirst;
    NothingLeftBehind(DowngradedAll(AuditedChanges(ir, inp, replace, selected, misses), names, inp.mutability), inp.mutability, c);
  }

  // ------------------------------------------------------- the guard, exactly

  /** The secret audit turns this NOOP into a REPLACE. */
  predicate RotatesImmutable(c: Change, prior: StateGraph, misses: Misses, mutability: TypeMutability) {
    Rotated(c, prior, misses) != {} &&
    ImmutableAmong(Rotated(c, prior, misses), FieldsOf(mutability, c.desired.value.typ)) != {}
  }

  /** The audit replaces this NOOP, and the replacement destroys first. */
  predicate RotatedAway(c: Change, prior: StateGraph, misses: Misses, mutability: TypeMutability, cbd: set<Id>,
                        names: map<string, string>)
    requires Audited(c, prior) ==> c.prior.Some?
  {
    RotatesImmutable(c, prior, misses, mutability) &&
    DestroyedFirst(Downgraded(Upgraded(c, prior, misses, mutability, cbd), names, mutability))
  }

  /** The nodes a rotation replaces destroy-first: not create-before-destroy, or downgraded because they collide. */
  function RotatedFirst(raw: ChangeSet, prior: StateGraph, misses: Misses, mutability: TypeMutability, cbd: set<Id>,
                        names: map<string, string>): set<Id>
    requires NoopsKnow(raw, prior)
  {
    set c | c in raw && RotatedAway(c, prior, misses, mutability, cbd, names) :: c.nodeId
  }

  /** No rotation replaces a protected node, nor destroys first what a protected conditional REPLACE refers to. */
  ghost predicate RotationSpares(raw: ChangeSet, protected: set<Id>, prior: StateGraph, misses: Misses,
                                 mutability: TypeMutability, cbd: set<Id>, names: map<string, string>)
    requires NoopsKnow(raw, prior)
  {
    forall c :: c in raw && c.nodeId in protected ==>
      !RotatesImmutable(c, prior, misses, mutability) &&
      !Behind(c, RotatedFirst(raw, prior, misses, mutability, cbd, names), mutability)
  }

  /** One change after the audit: upgraded, then perhaps pinned behind an upgraded destroy-first REPLACE. */
  lemma AppliedAt(raw: ChangeSet, prior: StateGraph, misses: Misses, mutability: TypeMutability, cbd: set<Id>, i: nat)
    requires Sound(raw, cbd) && NoopsKnow(raw, prior) && i < |raw|
    ensures var audited, up := AppliedTo(raw, prior, misses, mutability, cbd), UpgradedAll(raw, prior, misses, mutability, cbd);
            && |audited| == |raw|
            && (audited[i] == up[i] || (Behind(up[i], FirstIds(up), mutability) && audited[i] == Unconditional(up[i])))
  {
    hide Behind, FirstIds, Fixpoint, ImmutableAmong, Rotated;
    var up := UpgradedAll(raw, prior, misses, mutability, cbd);
    UpgradedIsSound(raw, prior, misses, mutability, cbd);
    PinnedExactly(up, mutability, up[i]);
    assert raw[i] in raw;
  }

  lemma BehindBoth(c: Change, d: Change, first: set<Id>, mutability: TypeMutability)
    requires d.nodeId == c.nodeId && d.action == c.action && d.desired == c.desired && d.changedFields == c.changedFields
    ensures Behind(d, first, mutability) <==> Behind(c.(conditional := true), first, mutability) && d.conditional
  {}

  /** What is destroyed first in the end, read off the upgraded changes. */
  lemma FinalFirst(raw: ChangeSet, prior: StateGraph, misses: Misses, mutability: TypeMutability, cbd: set<Id>,
                   names: map<string, string>, i: nat)
    requires Sound(raw, cbd) && NoopsKnow(raw, prior) && i < |raw|
    ensures var audited, up := AppliedTo(raw, prior, misses, mutability, cbd), UpgradedAll(raw, prior, misses, mutability, cbd);
            && ReplacesComplete(audited) && ReplacesComplete(up)
            && (DestroyedFirst(DowngradedAll(audited, names, mutability)[i]) <==>
                DestroyedFirst(Downgraded(up[i], names, mutability)))
            && (DestroyedFirst(up[i]) ==> DestroyedFirst(DowngradedAll(audited, names, mutability)[i]))
  {
    hide Behind, FirstIds, AppliedTo, UpgradedAll;
    AppliedAt(raw, prior, misses, mutability, cbd, i);
    AppliedIsSound(raw, prior, misses, mutability, cbd);
    UpgradedIsSound(raw, prior, misses, mutability, cbd);
    var up := UpgradedAll(raw, prior, misses, mutability, cbd);
    assert up[i] in up;
  }

  lemma UpgradedReplaces(c: Change, prior: StateGraph, misses: Misses, mutability: TypeMutability, cbd: set<Id>)
    ensures var u := Upgraded(c, prior, misses, mutability, cbd);
            && u.nodeId == c.nodeId && u.conditional == c.conditional && u.prior == c.prior
            && (u.action == Replace <==> c.action == Replace || RotatesImmutable(c, prior, misses, mutability))
            && (RotatesImmutable(c, prior, misses, mutability) ==> c.action == Noop)
            && (c.action != Noop ==> u == c) && (u.action == Delete <==> c.action == Delete)
  {
    hide ImmutableAmong, FieldsOf;
  }

  /** One change's part in what is destroyed first in the end. */
  lemma FirstAt(raw: ChangeSet, prior: StateGraph, misses: Misses, mutability: TypeMutability, cbd: set<Id>,
                names: map<string, string>, i: nat)
    requires Sound(raw, cbd) && NoopsKnow(raw, prior) && i < |raw|
    requires raw[i] in raw
    ensures var audited := AppliedTo(raw, prior, misses, mutability, cbd);
            && ReplacesComplete(audited) && DowngradedAll(audited, names, mutability)[i].nodeId == raw[i].nodeId
            && (RotatedAway(raw[i], prior, misses, mutability, cbd, names) ==>
                DestroyedFirst(DowngradedAll(audited, names, mutability)[i]))
            && (DestroyedFirst(DowngradedAll(audited, names, mutability)[i]) ==>
                RotatedAway(raw[i], prior, misses, mutability, cbd, names) || raw[i].action == Replace)
  {
    hide AppliedTo, Upgraded, CbdCollides, RotatesImmutable, Behind;
    AppliedIsSound(raw, prior, misses, mutability, cbd);
    AppliedAt(raw, prior, misses, mutability, cbd, i);
    FinalFirst(raw, prior, misses, mutability, cbd, names, i);
    UpgradedReplaces(raw[i], prior, misses, mutability, cbd);
  }

  /** What ends up destroyed first is either replaced by the diff already or rotated. */
  lemma FirstIsKnown(raw: ChangeSet, prior: StateGraph, misses: Misses, mutability: TypeMutability, cbd: set<Id>,
                     names: map<string, string>, t: Id)
    requires Sound(raw, cbd) && NoopsKnow(raw, prior)
    ensures var audited := AppliedTo(raw, prior, misses, mutability, cbd);
            && ReplacesComplete(audited)
            && (t in RotatedFirst(raw, prior, misses, mutability, cbd, names) ==>
                t in FirstIds(DowngradedAll(audited, names, mutability)))
            && (t in FirstIds(DowngradedAll(audited, names, mutability)) ==>
                t in RotatedFirst(raw, prior, misses, mutability, cbd, names) || t in Recreated(raw))
  {
    hide AppliedTo, DestroyedFirst, RotatedAway, DowngradedAll, Sound, ReplacesComplete;
    AppliedIsSound(raw, prior, misses, mutability, cbd);
    SoundIsComplete(AppliedTo(raw, prior, misses, mutability, cbd), cbd);
    var down := DowngradedAll(AppliedTo(raw, prior, misses, mutability, cbd), names, mutability);
    if t in RotatedFirst(raw, prior, misses, mutability, cbd, names) {
      var c :| c in raw && RotatedAway(c, prior, misses, mutability, cbd, names) && c.nodeId == t;
      var i :| 0 <= i < |raw| && raw[i] == c;
      FirstAt(raw, prior, misses, mutability, cbd, names, i);
      assert down[i] in down;
    }
    if t in FirstIds(down) {
      var d :| d in down && DestroyedFirst(d) && d.nodeId == t;
      var i :| 0 <= i < |down| && down[i] == d;
      assert raw[i] in raw;
      FirstAt(raw, prior, misses, mutability, cbd, names, i);
    }
  }

  lemma SoundIsComplete(cs: ChangeSet, cbd: set<Id>)
    requires Sound(cs, cbd)
    ensures ReplacesComplete(cs)
  {}

  /** A deferred change ends up pinned exactly when it refers to what a rotation destroys first. */
  lemma DeferredPinnedExactly(raw: ChangeSet, protected: set<Id>, prior: StateGraph, misses: Misses, mutability: TypeMutability,
                              cbd: set<Id>, names: map<string, string>, c: Change)
    requires Sound(raw, cbd) && NoopsKnow(raw, prior) && c in raw && Deferred(c, raw, protected)
    ensures var audited := AppliedTo(raw, prior, misses, mutability, cbd);
            && ReplacesComplete(audited)
            && (Behind(c, FirstIds(DowngradedAll(audited, names, mutability)), mutability) <==>
                Behind(c, RotatedFirst(raw, prior, misses, mutability, cbd, names), mutability))
  {
    hide AppliedTo, FirstIds, RotatedFirst, DowngradedAll, Recreated, IsImmutable, Targets;
    AppliedIsSound(raw, prior, misses, mutability, cbd);
    var first := FirstIds(DowngradedAll(AppliedTo(raw, prior, misses, mutability, cbd), names, mutability));
    var rotated := RotatedFirst(raw, prior, misses, mutability, cbd, names);
    forall t | t in rotated ensures t in first { FirstIsKnown(raw, prior, misses, mutability, cbd, names, t); }
    if Behind(c, rotated, mutability) { BehindMonotone(c, rotated, first, mutability); }
    if Behind(c, first, mutability) {
      var f :| f in c.changedFields && IsImmutable(FieldsOf(mutability, c.desired.value.typ), f) &&
               Touches(c.desired.value.id, c.desired.value.Field(f), first);
      var t :| t in Targets(c.desired.value.Field(f)) && t in first && t != c.desired.value.id;
      FirstIsKnown(raw, prior, misses, mutability, cbd, names, t);
      assert t in Referenced(c);
    }
  }

  /** One change of the finalized plan, read off the diff's. */
  lemma FinalAt(raw: ChangeSet, prior: StateGraph, misses: Misses, mutability: TypeMutability, cbd: set<Id>,
                names: map<string, string>, i: nat)
    requires Sound(raw, cbd) && NoopsKnow(raw, prior) && i < |raw|
    ensures var audited := AppliedTo(raw, prior, misses, mutability, cbd);
            && ReplacesComplete(audited) && |Finalized(audited, names, mutability)| == |raw|
            && var u, f := Upgraded(raw[i], prior, misses, mutability, cbd), Finalized(audited, names, mutability)[i];
               f.nodeId == u.nodeId && f.action == u.action &&
               (f.conditional <==> u.conditional && !Behind(u, FirstIds(DowngradedAll(audited, names, mutability)), mutability))
  {
    hide Behind, FirstIds, AppliedTo, Upgraded, CbdCollides;
    var audited, up := AppliedTo(raw, prior, misses, mutability, cbd), UpgradedAll(raw, prior, misses, mutability, cbd);
    AppliedAt(raw, prior, misses, mutability, cbd, i);
    AppliedIsSound(raw, prior, misses, mutability, cbd);
    var first := FirstIds(DowngradedAll(audited, names, mutability));
    FinalizedAt(audited, names, mutability, i);
    UpgradedFirstStays(raw, prior, misses, mutability, cbd, names);
    if Behind(up[i], FirstIds(up), mutability) { BehindMonotone(up[i], FirstIds(up), first, mutability); }
    BehindBoth(up[i], DowngradedAll(audited, names, mutability)[i], first, mutability);
    BehindBoth(up[i], up[i], first, mutability);
  }

  lemma UpgradedFirstStays(raw: ChangeSet, prior: StateGraph, misses: Misses, mutability: TypeMutability, cbd: set<Id>,
                           names: map<string, string>)
    requires Sound(raw, cbd) && NoopsKnow(raw, prior)
    ensures var audited := AppliedTo(raw, prior, misses, mutability, cbd);
            ReplacesComplete(audited) &&
            FirstIds(UpgradedAll(raw, prior, misses, mutability, cbd)) <= FirstIds(DowngradedAll(audited, names, mutability))
  {
    hide Behind, AppliedTo, Upgraded, CbdCollides;
    var audited, up := AppliedTo(raw, prior, misses, mutability, cbd), UpgradedAll(raw, prior, misses, mutability, cbd);
    AppliedIsSound(raw, prior, misses, mutability, cbd);
    var down := DowngradedAll(audited, names, mutability);
    forall t | t in FirstIds(up) ensures t in FirstIds(down) {
      var d :| d in up && DestroyedFirst(d) && d.nodeId == t;
      var i :| 0 <= i < |up| && up[i] == d;
      FinalFirst(raw, prior, misses, mutability, cbd, names, i);
      AppliedAt(raw, prior, misses, mutability, cbd, i);
      assert down[i] in down && down[i].nodeId == t;
    }
  }

  /** The finalized changes spare every protected node exactly when no rotation touches one. */
  lemma GuardedExactly(raw: ChangeSet, protected: set<Id>, prior: StateGraph, misses: Misses, mutability: TypeMutability,
                       cbd: set<Id>, names: map<string, string>)
    requires Sound(raw, cbd) && NoopsKnow(raw, prior) && Blocked(raw, protected) == {}
    ensures var audited := AppliedTo(raw, prior, misses, mutability, cbd);
            ReplacesComplete(audited) &&
            (Guarded(Finalized(audited, names, mutability), protected) <==>
             RotationSpares(raw, protected, prior, misses, mutability, cbd, names))
  {
    hide Behind, FirstIds, AppliedTo, Upgraded, Finalized, DowngradedAll, Blocked, RotatesImmutable, RotatedFirst,
         Referenced, Recreated;
    AppliedIsSound(raw, prior, misses, mutability, cbd);
    PassedExactly(raw, protected);
    var final := Finalized(AppliedTo(raw, prior, misses, mutability, cbd), names, mutability);
    forall i | 0 <= i < |raw| ensures final[i].nodeId == raw[i].nodeId {
      FinalAt(raw, prior, misses, mutability, cbd, names, i);
      UpgradedReplaces(raw[i], prior, misses, mutability, cbd);
    }
    forall i | 0 <= i < |raw| && raw[i].nodeId in protected
      ensures final[i].nodeId == raw[i].nodeId
      ensures final[i].action != Delete && (final[i].action == Replace ==> final[i].conditional) <==>
              !RotatesImmutable(raw[i], prior, misses, mutability) &&
              !Behind(raw[i], RotatedFirst(raw, prior, misses, mutability, cbd, names), mutability)
    {
      GuardedAt(raw, protected, prior, misses, mutability, cbd, names, i);
    }
    GuardedLists(raw, final, protected, prior, misses, mutability, cbd, names);
  }

  lemma GuardedLists(raw: ChangeSet, final: ChangeSet, protected: set<Id>, prior: StateGraph, misses: Misses,
                     mutability: TypeMutability, cbd: set<Id>, names: map<string, string>)
    requires NoopsKnow(raw, prior) && |final| == |raw|
    requires forall i :: 0 <= i < |raw| ==> final[i].nodeId == raw[i].nodeId
    requires forall i :: 0 <= i < |raw| && raw[i].nodeId in protected ==>
               (final[i].action != Delete && (final[i].action == Replace ==> final[i].conditional) <==>
                !RotatesImmutable(raw[i], prior, misses, mutability) &&
                !Behind(raw[i], RotatedFirst(raw, prior, misses, mutability, cbd, names), mutability))
    ensures Guarded(final, protected) <==> RotationSpares(raw, protected, prior, misses, mutability, cbd, names)
  {
    hide Behind, RotatesImmutable, RotatedFirst, NoopsKnow;
    if Guarded(final, protected) {
      forall c | c in raw && c.nodeId in protected
        ensures !RotatesImmutable(c, prior, misses, mutability) &&
                !Behind(c, RotatedFirst(raw, prior, misses, mutability, cbd, names), mutability)
      {
        var i :| 0 <= i < |raw| && raw[i] == c;
        assert final[i] in final;
      }
    }
    if RotationSpares(raw, protected, prior, misses, mutability, cbd, names) {
      forall c | c in final && c.nodeId in protected ensures c.action != Delete && (c.action == Replace ==> c.conditional) {
        var i :| 0 <= i < |final| && final[i] == c;
        assert raw[i] in raw;
      }
    }
  }

  lemma GuardedAt(raw: ChangeSet, protected: set<Id>, prior: StateGraph, misses: Misses, mutability: TypeMutability,
                  cbd: set<Id>, names: map<string, string>, i: nat)
    requires Sound(raw, cbd) && NoopsKnow(raw, prior) && i < |raw| && raw[i].nodeId in protected
    requires Destructive(raw[i].action) ==> Deferred(raw[i], raw, protected)
    ensures var audited := AppliedTo(raw, prior, misses, mutability, cbd);
            && ReplacesComplete(audited) && |Finalized(audited, names, mutability)| == |raw|
            && var f := Finalized(audited, names, mutability)[i];
               f.nodeId == raw[i].nodeId &&
               (f.action != Delete && (f.action == Replace ==> f.conditional) <==>
                !RotatesImmutable(raw[i], prior, misses, mutability) &&
                !Behind(raw[i], RotatedFirst(raw, prior, misses, mutability, cbd, names), mutability))
  {
    hide FirstIds, AppliedTo, Upgraded, Finalized, DowngradedAll, RotatesImmutable, RotatedFirst, Referenced, Recreated, Touches;
    var c := raw[i];
    assert c in raw;
    FinalAt(raw, prior, misses, mutability, cbd, names, i);
    UpgradedReplaces(c, prior, misses, mutability, cbd);
    if c.action == Replace { DeferredPinnedExactly(raw, protected, prior, misses, mutability, cbd, names, c); }
  }

  /** Main result: a successful plan deletes no protected node, and replaces none before the apply has judged it,
   * exactly when no rotated immutable secret belongs to a protected node or to what one of them refers to. */
  lemma PlanGuardedExactly(ir: IRGraph, inp: DiffInputs, replace: set<Id>, selected: Option<set<Id>>, misses: Misses,
                           names: map<string, string>, r: PlanResult)
    requires Wellformed(ir, inp)
    requires IsPlan(ir, inp, replace, selected, misses, names, r) && r.Planned?
    ensures NoopsKnow(Selected(ir, inp, replace, selected), inp.prior)
    ensures Guarded(r.changes, ProtectedIds(inp.prior, ir)) <==>
            RotationSpares(Selected(ir, inp, replace, selected), ProtectedIds(inp.prior, ir), inp.prior, misses, inp.mutability,
                           EffectiveCbd(ir), names)
  {
    hide Selected, Sound, NoopsKnow, EffectiveCbd, Diff, AppliedTo, RotationSpares, Guarded, ProtectedIds, Finalized, Blocked;
    SelectedIsSound(ir, inp, replace, selected);
    AuditedIsSound(ir, inp, replace, selected, misses);
    GuardedExactly(Selected(ir, inp, replace, selected), ProtectedIds(inp.prior, ir), inp.prior, misses, inp.mutability,
                   EffectiveCbd(ir), names);
  }

  lemma SelectedIsSound(ir: IRGraph, inp: DiffInputs, replace: set<Id>, selected: Option<set<Id>>)
    requires Wellformed(ir, inp)
    ensures Sound(Selected(ir, inp, replace, selected), EffectiveCbd(ir))
    ensures NoopsKnow(Selected(ir, inp, replace, selected), inp.prior)
  {
    hide Sound, NoopsKnow, EffectiveCbd, Diff;
    DiffIsSound(ir, inp, replace);
    RestrictIsSound(Diff(ir, inp, replace), selected, EffectiveCbd(ir));
    SelectedKnows(ir, inp, replace, selected);
  }

  /** With no rotated secret the guard holds of every successful plan. */
  lemma GuardHoldsWithoutRotation(ir: IRGraph, inp: DiffInputs, replace: set<Id>, selected: Option<set<Id>>,
                                  names: map<string, string>, r: PlanResult)
    requires Wellformed(ir, inp)
    requires IsPlan(ir, inp, replace, selected, map[], names, r) && r.Planned?
    ensures Guarded(r.changes, ProtectedIds(inp.prior, ir))
  {
    hide IsPlan, Selected, EffectiveCbd, Guarded, ProtectedIds;
    PlanGuardedExactly(ir, inp, replace, selected, map[], names, r);
    NothingRotates(Selected(ir, inp, replace, selected), ProtectedIds(inp.prior, ir), inp, EffectiveCbd(ir), names);
  }

  lemma NothingRotates(raw: ChangeSet, protected: set<Id>, inp: DiffInputs, cbd: set<Id>, names: map<string, string>)
    requires NoopsKnow(raw, inp.prior)
    ensures RotationSpares(raw, protected, inp.prior, map[], inp.mutability, cbd, names)
  {
    assert RotatedFirst(raw, inp.prior, map[], inp.mutability, cbd, names) == {};
  }

  // -------------------------------------------- a rotation the guard never sees

  const HANDLE := Obj(map[SECRET_KEY := Obj(map["name" := Str("db/password"), "provider" := Null])])

  const SEALED: IRNode := IRNode("n", "t", "", "", map["pw" := HANDLE], [], true, false, [], [], [], Resource)

  const SEALED_HASH := Sha("t", SEALED.properties, [])

  const SEALED_ROW: StateNode := StateNode("n", "t", "", "", SEALED_HASH, SEALED.properties, [], [], true, Created)

  /** A protected node, applied and unchanged, whose only field is an immutable secret. */
  function SealedInputs(): DiffInputs {
    DiffInputs(ById([SEALED]), map["n" := SEALED_HASH], map["n" := SEALED_ROW], map["t" := map["pw" := Immutable]], map[])
  }

  lemma SealedIsHashing()
    ensures IsHashing([SEALED], SealedInputs().hashes)
  {
    var h := SealedInputs().hashes;
    assert Elems([]) == {} && SortedDeps(SEALED) == [];
    assert Kept(SEALED) == SEALED.properties && HashesOf(h, []) == [];
    assert HashedAt(SEALED, h);
  }

  lemma SealedRotates(c: Change)
    requires c == Plain("n", Noop, Some(SEALED), Some(SEALED_ROW))
    ensures RotatesImmutable(c, map["n" := SEALED_ROW], map["n" := {"pw"}], map["t" := map["pw" := Immutable]])
  {
    assert IsSecretMarker(HANDLE) && "pw" in SEALED.properties && SEALED.properties["pw"] == HANDLE;
    assert "pw" in Rotated(c, map["n" := SEALED_ROW], map["n" := {"pw"}]);
    assert "pw" in ImmutableAmong(Rotated(c, map["n" := SEALED_ROW], map["n" := {"pw"}]), map["pw" := Immutable]);
  }

  lemma SealedIsWellformed()
    ensures Wellformed([SEALED], SealedInputs()) && SealedInputs().Nodes() == {"n"} && SealedInputs().desired["n"] == SEALED
  {
    ByIdUnique([SEALED], SEALED);
  }

  lemma SealedFirst()
    ensures SealedInputs().Complete() && SealedInputs().Nodes() == {"n"}
    ensures SealedInputs().First({}, "n") == Plain("n", Noop, Some(SEALED), Some(SEALED_ROW))
  {
    hide DiffInputs.Judge;
    SealedIsWellformed();
    assert Settled(SEALED, map[], {}) == {};
  }

  lemma SealedDiff(c: Change)
    requires Wellformed([SEALED], SealedInputs()) && c in Diff([SEALED], SealedInputs(), {})
    ensures c == Plain("n", Noop, Some(SEALED), Some(SEALED_ROW))
  {
    hide DiffInputs.First, EffectiveCbd, EdgesOf, SealedInputs, Diff, FirstPass, SEALED, SEALED_ROW;
    var inp := SealedInputs();
    SealedFirst();
    NoopExactly([SEALED], inp, {}, c);
    forall d | d in FirstPass(inp, {}) ensures !Reidentifies(d.action) { PassIsFirst(inp, {}, d); }
    assert Recreated(FirstPass(inp, {})) == {};
  }

  lemma SealedCbd()
    ensures EffectiveCbd([SEALED]) == {}
  {}

  lemma SealedRaw()
    ensures Wellformed([SEALED], SealedInputs())
    ensures forall c :: c in Selected([SEALED], SealedInputs(), {}, None) <==>
                        c == Plain("n", Noop, Some(SEALED), Some(SEALED_ROW))
  {
    hide Diff, DiffInputs.First, SealedInputs;
    SealedIsWellformed();
    var only := DiffHas([SEALED], SealedInputs(), {}, "n");
    SealedDiff(only);
    forall c | c in Selected([SEALED], SealedInputs(), {}, None)
      ensures c == Plain("n", Noop, Some(SEALED), Some(SEALED_ROW))
    {
      SealedDiff(c);
    }
  }

  lemma SealedIsPlanned(names: map<string, string>, r: PlanResult)
    requires Wellformed([SEALED], SealedInputs())
    requires IsPlan([SEALED], SealedInputs(), {}, None, map["n" := {"pw"}], names, r)
    ensures r.Planned?
  {
    hide Diff, SealedInputs, AuditedChanges, CbdCollides, Selected;
    SealedRaw();
    SealedCbd();
    var inp := SealedInputs();
    assert Blocked(Selected([SEALED], inp, {}, None), ProtectedIds(inp.prior, [SEALED])) == {};
    forall c | c in AuditedChanges([SEALED], inp, {}, None, map["n" := {"pw"}])
      ensures !IsConflict(c, names, inp.mutability, ForcersFor([SEALED]))
    {
      assert c.nodeId !in ForcersFor([SEALED]);
    }
  }

  /** The guard runs before the audit: rotating an immutable secret of a protected node plans its replacement. */
  lemma RotationEscapesGuard(names: map<string, string>, r: PlanResult)
    requires Wellformed([SEALED], SealedInputs())
    requires IsPlan([SEALED], SealedInputs(), {}, None, map["n" := {"pw"}], names, r)
    ensures IsHashing([SEALED], SealedInputs().hashes)
    ensures r.Planned? && !Guarded(r.changes, ProtectedIds(SealedInputs().prior, [SEALED]))
  {
    hide IsHashing, RotatesImmutable, HANDLE, IsPlan, Selected, IsForcers, Guarded, EffectiveCbd;
    var inp, misses := SealedInputs(), map["n" := {"pw"}];
    SealedIsHashing();
    SealedRaw();
    SealedIsPlanned(names, r);
    PlanGuardedExactly([SEALED], inp, {}, None, misses, names, r);
    var c := Plain("n", Noop, Some(SEALED), Some(SEALED_ROW));
    assert c in Selected([SEALED], inp, {}, None);
    SealedIsWellformed();
    SealedRotates(c);
  }
}
