/** What a diff decides about each node, read off the config, the rows and the verdicts alone. */
module DiffMeaning {
  import opened Graphs
  import opened Values
  import opened Ir
  import opened Cbd
  import opened Classify
  import opened Ordering
  import opened Staleness
  import opened Diffing
  import opened SecondLook
  import opened Planner

  // ------------------------------------------------------------- one node's inputs

  /** The node is in the config and has a row. */
  predicate OnBothSides(inp: DiffInputs, id: Id) {
    id in inp.desired && id in inp.prior
  }

  predicate HasVerdict(inp: DiffInputs, id: Id, f: string, verdict: Consumed) {
    id in inp.verdicts && f in inp.verdicts[id] && inp.verdicts[id][f] == verdict
  }

  /** Config and row do not give the field the same expression. */
  predicate Edited(want: IRNode, have: StateNode, f: string) {
    (f in want.properties || f in have.properties) &&
    (f in want.properties && f in have.properties ==> want.properties[f] != have.properties[f])
  }

  predicate IsImmutableIn(inp: DiffInputs, id: Id, f: string)
    requires id in inp.desired
  {
    var typ := inp.desired[id].typ;
    typ in inp.mutability && f in inp.mutability[typ] && inp.mutability[typ][f] == Immutable
  }

  /** The field counts and is known to differ: it was edited, or its recorded value is out of date. */
  predicate Differs(inp: DiffInputs, id: Id, f: string)
    requires OnBothSides(inp, id)
  {
    f !in inp.desired[id].ignoreChanges && (Edited(inp.desired[id], inp.prior[id], f) || HasVerdict(inp, id, f, Moved))
  }

  /** The field counts and no record vouches for it. */
  predicate Unvouched(inp: DiffInputs, id: Id, f: string)
    requires id in inp.desired
  {
    f !in inp.desired[id].ignoreChanges && HasVerdict(inp, id, f, Unrecorded)
  }

  /** The row's digest is not the config's, and not for having been refreshed. */
  predicate Mismatched(inp: DiffInputs, id: Id)
    requires OnBothSides(inp, id) && id in inp.hashes
  {
    inp.prior[id].inputHash != inp.hashes[id] && inp.prior[id].inputHash != NoInputHash
  }

  /** Nothing about the node itself calls for acting on it. */
  ghost predicate InOrder(inp: DiffInputs, id: Id)
    requires OnBothSides(inp, id) && id in inp.hashes
  {
    && inp.prior[id].status == Created && inp.prior[id].inputHash == inp.hashes[id]
    && forall f :: HasVerdict(inp, id, f, Moved) ==> f in inp.desired[id].ignoreChanges
  }

  /** Judged by itself, before anything is known of what moves, the node is to be replaced. */
  ghost predicate ReplacedByItself(inp: DiffInputs, id: Id)
    requires OnBothSides(inp, id) && id in inp.hashes
  {
    && inp.prior[id].status == Created && !InOrder(inp, id) && inp.desired[id].kind == Resource
    && exists f :: IsImmutableIn(inp, id, f) &&
         (Differs(inp, id, f) || (Mismatched(inp, id) && Unvouched(inp, id, f) && forall g :: !Differs(inp, id, g)))
  }

  /** The node is sure to get a new identity: it has no confirmed row, is forced, or has to be replaced by itself. */
  ghost predicate SurelyRecreated(inp: DiffInputs, replace: set<Id>, id: Id)
    requires inp.Complete()
  {
    id in inp.desired &&
    (id !in inp.prior || inp.prior[id].status != Created || id in replace || ReplacedByItself(inp, id))
  }

  // -------------------------------------------------------------- the first pass

  lemma FirstFieldsByInputs(inp: DiffInputs, id: Id, f: string)
    requires inp.Complete() && OnBothSides(inp, id)
    ensures var want, have, verdicts := inp.desired[id], inp.prior[id], inp.VerdictsOf(id);
            && (f in ChangedFields(want, have, {}, Settled(want, verdicts, {})) <==> Differs(inp, id, f))
            && (f in UnrecordedFields(want, verdicts, {}) <==> Unvouched(inp, id, f))
            && (f in Settled(want, verdicts, {}) - want.Ignored() <==>
                HasVerdict(inp, id, f, Moved) && f !in want.ignoreChanges)
            && (IsImmutable(FieldsOf(inp.mutability, want.typ), f) <==> IsImmutableIn(inp, id, f))
  {
    hide Touches;
    NothingTouchesNothing(inp.desired[id]);
  }

  lemma JudgedByItself(inp: DiffInputs, id: Id)
    requires inp.Complete() && OnBothSides(inp, id)
    ensures inp.Judge(inp.desired[id], inp.prior[id], {}).action == Replace <==>
            inp.desired[id].kind == Resource &&
            exists f :: IsImmutableIn(inp, id, f) &&
              (Differs(inp, id, f) || (Mismatched(inp, id) && Unvouched(inp, id, f) && forall g :: !Differs(inp, id, g)))
  {
    hide ChangedFields, Settled, UnrecordedFields, FieldsOf, IsImmutable, IsImmutableIn, Differs, Unvouched, DiffInputs.Judge;
    var want, have, verdicts := inp.desired[id], inp.prior[id], inp.VerdictsOf(id);
    var muts := FieldsOf(inp.mutability, want.typ);
    JudgedReplace(inp, want, have, {});
    forall f
      ensures f in ChangedFields(want, have, {}, Settled(want, verdicts, {})) <==> Differs(inp, id, f)
      ensures f in UnrecordedFields(want, verdicts, {}) <==> Unvouched(inp, id, f)
      ensures IsImmutable(muts, f) <==> IsImmutableIn(inp, id, f)
    {
      FirstFieldsByInputs(inp, id, f);
    }
    AmongMeans(ChangedFields(want, have, {}, Settled(want, verdicts, {})), muts);
    AmongMeans(UnrecordedFields(want, verdicts, {}), muts);
    NoneImmutable(muts);
  }

  lemma AmongMeans(fields: set<string>, muts: FieldMutability)
    ensures ImmutableAmong(fields, muts) != {} <==> exists f :: f in fields && IsImmutable(muts, f)
  {
    if f :| f in fields && IsImmutable(muts, f) { assert f in ImmutableAmong(fields, muts); }
  }

  lemma InOrderMeans(inp: DiffInputs, id: Id)
    requires inp.Complete() && OnBothSides(inp, id)
    ensures InOrder(inp, id) <==>
            inp.prior[id].status == Created && inp.prior[id].inputHash == inp.hashes[id] &&
            Settled(inp.desired[id], inp.VerdictsOf(id), {}) - inp.desired[id].Ignored() == {}
  {
    hide Settled, IRNode.Ignored;
    forall f { FirstFieldsByInputs(inp, id, f); }
  }

  /** The diff's own judgement of a node, by its inputs. */
  lemma JudgedFirst(inp: DiffInputs, id: Id)
    requires inp.Complete() && id in inp.Nodes()
    ensures inp.ChangeFor(id).action ==
            if id !in inp.desired then Delete
            else if id !in inp.prior || inp.prior[id].status != Created then Create
            else if InOrder(inp, id) then Noop
            else if ReplacedByItself(inp, id) then Replace
            else Update
  {
    hide DiffInputs.Judge, Settled, InOrder;
    if OnBothSides(inp, id) {
      InOrderMeans(inp, id);
      JudgedByItself(inp, id);
      JudgeShape(inp, inp.desired[id], inp.prior[id], {});
    }
  }

  lemma StatusByInputs(inp: DiffInputs, id: Id)
    requires OnBothSides(inp, id) && id in inp.hashes
    ensures InOrder(inp, id) || ReplacedByItself(inp, id) ==> inp.prior[id].status == Created
    ensures !(InOrder(inp, id) && ReplacedByItself(inp, id))
  {}

  /** What the first pass gives a new identity is what is sure to get one. */
  lemma FirstRecreates(inp: DiffInputs, replace: set<Id>, id: Id)
    requires inp.Complete() && id in inp.Nodes()
    ensures Reidentifies(inp.First(replace, id).action) <==> SurelyRecreated(inp, replace, id)
    ensures inp.First(replace, id).action == Noop <==> OnBothSides(inp, id) && id !in replace && InOrder(inp, id)
    ensures inp.First(replace, id).action == Create <==>
            id in inp.desired && (id !in inp.prior || (inp.prior[id].status != Created && id !in replace))
  {
    hide DiffInputs.ChangeFor, InOrder, ReplacedByItself, DiffInputs.Complete;
    CompleteAt(inp, id);
    JudgedFirst(inp, id);
    ChangeForSides(inp, id);
    if OnBothSides(inp, id) { StatusByInputs(inp, id); }
  }

  /** A REPLACE of the first pass, judged or forced, creates first exactly when its own node is declared so. */
  lemma FirstAsDeclared(inp: DiffInputs, replace: set<Id>, id: Id)
    requires inp.Complete() && id in inp.Nodes() && inp.First(replace, id).action == Replace
    ensures id in inp.desired && (inp.First(replace, id).createBeforeDestroy <==> inp.desired[id].createBeforeDestroy)
  {
    hide Settled, ChangedFields, UnrecordedFields, ImmutableAmong;
  }

  lemma ChangeForSides(inp: DiffInputs, id: Id)
    requires inp.Complete() && id in inp.Nodes()
    ensures inp.ChangeFor(id).desired.Some? <==> id in inp.desired
    ensures inp.ChangeFor(id).prior.Some? <==> id in inp.prior
  {
    hide DiffInputs.Judge, Settled;
    if OnBothSides(inp, id) { JudgeShape(inp, inp.desired[id], inp.prior[id], {}); }
  }

  /** The node depends, directly or not, on one that is sure to be recreated. */
  ghost predicate BehindRecreated(ir: IRGraph, inp: DiffInputs, replace: set<Id>, id: Id)
    requires inp.Complete()
  {
    exists u :: SurelyRecreated(inp, replace, u) && ReachPlus(EdgesOf(ir), id, u)
  }

  lemma SeedsByInputs(inp: DiffInputs, replace: set<Id>, u: Id)
    requires inp.Complete()
    ensures u in Recreated(FirstPass(inp, replace)) <==> SurelyRecreated(inp, replace, u)
  {
    hide FirstPass, SurelyRecreated, DiffInputs.First, DiffInputs.Complete, DiffInputs.Nodes;
    var first := FirstPass(inp, replace);
    if SurelyRecreated(inp, replace, u) { SureIsKnown(inp, replace, u); }
    if c :| c in first && Reidentifies(c.action) && c.nodeId == u { PassIsFirst(inp, replace, c); }
    if u in inp.Nodes() {
      FirstRecreates(inp, replace, u);
      FirstInPass(inp, replace, u);
      FirstKeepsId(inp, replace, u);
    }
  }

  lemma StaleByInputs(ir: IRGraph, inp: DiffInputs, replace: set<Id>, id: Id)
    requires Wellformed(ir, inp) && id in inp.desired
    ensures id in StaleIn(ir, inp, replace) <==> BehindRecreated(ir, inp, replace, id)
  {
    hide FirstPass, Recreated, SurelyRecreated, DiffInputs.Complete, EdgesOf, ReachPlus;
    forall u ensures u in Recreated(FirstPass(inp, replace)) <==> SurelyRecreated(inp, replace, u) {
      SeedsByInputs(inp, replace, u);
    }
    assert id in EdgesOf(ir).Keys by { EdgesOfIds(ir); }
  }

  lemma EdgesOfIds(ir: IRGraph)
    ensures EdgesOf(ir).Keys == ById(ir).Keys
  {}

  lemma SureIsKnown(inp: DiffInputs, replace: set<Id>, u: Id)
    requires inp.Complete() && SurelyRecreated(inp, replace, u)
    ensures u in inp.Nodes()
  {}

  // ------------------------------------------------------------- the final actions

  /** Main result: a node is left alone exactly when it has a confirmed row under the config's digest, is not forced, no
   * field that counts is known to have moved, and nothing it depends on is sure to be recreated. */
  lemma LeftAloneExactly(ir: IRGraph, inp: DiffInputs, replace: set<Id>, c: Change)
    requires Wellformed(ir, inp) && c in Diff(ir, inp, replace)
    ensures c.action == Noop <==>
            OnBothSides(inp, c.nodeId) && InOrder(inp, c.nodeId) && c.nodeId !in replace &&
            !BehindRecreated(ir, inp, replace, c.nodeId)
    ensures c.action == Noop ==>
            c == Change(c.nodeId, Noop, Some(inp.desired[c.nodeId]), Some(inp.prior[c.nodeId]), {}, false, false,
                        inp.desired[c.nodeId].preventDestroy != inp.prior[c.nodeId].preventDestroy, {})
  {
    hide Diff, StaleIn, DiffInputs.First, InOrder, BehindRecreated, DiffInputs.Complete;
    NoopExactly(ir, inp, replace, c);
    FirstRecreates(inp, replace, c.nodeId);
    if c.nodeId in inp.desired { StaleByInputs(ir, inp, replace, c.nodeId); }
    if c.action == Noop { NoopRecord(inp, replace, c.nodeId); }
  }

  lemma NoopRecord(inp: DiffInputs, replace: set<Id>, id: Id)
    requires inp.Complete() && id in inp.Nodes() && inp.First(replace, id).action == Noop
    ensures OnBothSides(inp, id)
    ensures inp.First(replace, id) ==
            Change(id, Noop, Some(inp.desired[id]), Some(inp.prior[id]), {}, false, false,
                   inp.desired[id].preventDestroy != inp.prior[id].preventDestroy, {})
  {
    hide DiffInputs.Judge, Settled;
    if OnBothSides(inp, id) { JudgeShape(inp, inp.desired[id], inp.prior[id], {}); }
  }

  lemma RefineKeepsEnds(inp: DiffInputs, c: Change, stale: set<Id>, moved: set<Id>)
    requires inp.Complete()
    ensures inp.Refine(c, stale, moved).action == Create <==> c.action == Create
    ensures c.action == Delete && c.nodeId !in inp.desired ==> inp.Refine(c, stale, moved).action == Delete
  {
    hide DiffInputs.Judge;
    if OnBothSides(inp, c.nodeId) { JudgeShape(inp, inp.desired[c.nodeId], inp.prior[c.nodeId], moved); }
  }

  /** A node is created exactly when the config has it and it has no row, or only an unconfirmed one and is not forced. */
  lemma CreatedExactly(ir: IRGraph, inp: DiffInputs, replace: set<Id>, c: Change)
    requires Wellformed(ir, inp) && c in Diff(ir, inp, replace)
    ensures c.action == Create <==>
            c.nodeId in inp.desired &&
            (c.nodeId !in inp.prior || (inp.prior[c.nodeId].status != Created && c.nodeId !in replace))
  {
    hide Diff, StaleIn, MovingIn, DiffInputs.First, DiffInputs.Refine, DiffInputs.Complete;
    FinalAction(ir, inp, replace, c);
    FirstRecreates(inp, replace, c.nodeId);
    RefineKeepsEnds(inp, inp.First(replace, c.nodeId), StaleIn(ir, inp, replace), MovingIn(ir, inp, replace));
  }

  /** The diff acts on the node. */
  ghost predicate ActedOn(cs: ChangeSet, id: Id) {
    exists d :: d in cs && d.nodeId == id && d.action != Noop
  }

  /** The value refers to some other node the diff acts on. */
  ghost predicate RefersToActedOn(cs: ChangeSet, self: Id, v: Value) {
    exists t :: t in Targets(v) && t != self && ActedOn(cs, t)
  }

  /** The field counts, and differs by itself or through a node the diff acts on. */
  ghost predicate DiffersIn(cs: ChangeSet, inp: DiffInputs, id: Id, f: string)
    requires OnBothSides(inp, id)
  {
    Differs(inp, id, f) ||
    (f !in inp.desired[id].ignoreChanges && f in inp.desired[id].properties &&
     RefersToActedOn(cs, id, inp.desired[id].properties[f]))
  }

  /** The fields a judged change names. */
  ghost predicate NamedIn(cs: ChangeSet, inp: DiffInputs, id: Id, f: string)
    requires OnBothSides(inp, id) && id in inp.hashes
  {
    DiffersIn(cs, inp, id, f) ||
    (Mismatched(inp, id) && Unvouched(inp, id, f) && forall g :: !DiffersIn(cs, inp, id, g))
  }

  lemma TouchesByDiff(ir: IRGraph, inp: DiffInputs, replace: set<Id>, self: Id, v: Value)
    requires Wellformed(ir, inp)
    ensures Touches(self, v, MovingIn(ir, inp, replace)) <==> RefersToActedOn(Diff(ir, inp, replace), self, v)
  {
    hide Diff, FirstPass, StaleIn, Moving, DiffInputs.Complete, Targets;
    var cs, moved := Diff(ir, inp, replace), MovingIn(ir, inp, replace);
    forall t ensures t in moved <==> ActedOn(cs, t) {
      if t in moved {
        MovingIsKnown(ir, inp, replace, t);
        var d := DiffHas(ir, inp, replace, t);
        MovingExactly(ir, inp, replace, d);
      }
      if ActedOn(cs, t) {
        var d :| d in cs && d.nodeId == t && d.action != Noop;
        MovingExactly(ir, inp, replace, d);
      }
    }
  }

  lemma MovingIsKnown(ir: IRGraph, inp: DiffInputs, replace: set<Id>, t: Id)
    requires Wellformed(ir, inp) && t in MovingIn(ir, inp, replace)
    ensures t in inp.Nodes()
  {
    hide FirstPass, DiffInputs.Complete, Recreated, ById;
    if c :| c in FirstPass(inp, replace) && c.action != Noop && c.nodeId == t { PassIsFirst(inp, replace, c); }
  }

  lemma FieldsByDiff(ir: IRGraph, inp: DiffInputs, replace: set<Id>, id: Id, f: string)
    requires Wellformed(ir, inp) && OnBothSides(inp, id)
    ensures var want, have, verdicts, moved := inp.desired[id], inp.prior[id], inp.VerdictsOf(id), MovingIn(ir, inp, replace);
            && (f in ChangedFields(want, have, moved, Settled(want, verdicts, moved)) <==>
               DiffersIn(Diff(ir, inp, replace), inp, id, f))
            && (IsImmutable(FieldsOf(inp.mutability, want.typ), f) <==> IsImmutableIn(inp, id, f))
  {
    hide Diff, MovingIn, Touches, ChangedFields, Settled, RefersToActedOn, Differs, IsImmutable, FieldsOf, IsImmutableIn;
    var want, have := inp.desired[id], inp.prior[id];
    ChangedBehind(want, have, inp.VerdictsOf(id), MovingIn(ir, inp, replace), f);
    FirstFieldsByInputs(inp, id, f);
    if f in want.properties { TouchesByDiff(ir, inp, replace, id, want.properties[f]); }
  }

  /** What a judgement knowing all that moves names. */
  lemma NamedByDiff(ir: IRGraph, inp: DiffInputs, replace: set<Id>, id: Id)
    requires Wellformed(ir, inp) && OnBothSides(inp, id)
    ensures forall f :: f in inp.Judge(inp.desired[id], inp.prior[id], MovingIn(ir, inp, replace)).changedFields <==>
                        NamedIn(Diff(ir, inp, replace), inp, id, f)
  {
    hide Diff, MovingIn, DiffInputs.Judge, ChangedFields, Settled, UnrecordedFields, DiffersIn, Unvouched, DiffInputs.Complete;
    CompleteAt(inp, id);
    var want, have, verdicts, moved := inp.desired[id], inp.prior[id], inp.VerdictsOf(id), MovingIn(ir, inp, replace);
    var symbolic := ChangedFields(want, have, moved, Settled(want, verdicts, moved));
    JudgedFields(inp, want, have, moved);
    forall f ensures f in symbolic <==> DiffersIn(Diff(ir, inp, replace), inp, id, f) { FieldsByDiff(ir, inp, replace, id, f); }
    if symbolic == {} { UntouchedUnrecorded(inp, id, moved); }
  }

  lemma JudgedFields(inp: DiffInputs, want: IRNode, have: StateNode, moved: set<Id>)
    requires want.id in inp.hashes
    ensures var verdicts := inp.VerdictsOf(want.id);
            var symbolic := ChangedFields(want, have, moved, Settled(want, verdicts, moved));
            inp.Judge(want, have, moved).changedFields ==
            if Unexplained(inp, want, have) && symbolic == {} then UnrecordedFields(want, verdicts, moved) else symbolic
  {
    hide ChangedFields, Settled, UnrecordedFields, FieldsOf, ImmutableAmong, HasRefKey;
  }

  /** And what it decides. */
  lemma JudgedByDiff(ir: IRGraph, inp: DiffInputs, replace: set<Id>, id: Id)
    requires Wellformed(ir, inp) && OnBothSides(inp, id)
    ensures var j := inp.Judge(inp.desired[id], inp.prior[id], MovingIn(ir, inp, replace));
            j.action == Replace <==>
              inp.desired[id].kind == Resource && exists f :: f in j.changedFields && IsImmutableIn(inp, id, f)
  {
    hide MovingIn, ChangedFields, Settled, UnrecordedFields, IsImmutable, FieldsOf, IsImmutableIn, ImmutableAmong, HasRefKey;
    var want, have, moved := inp.desired[id], inp.prior[id], MovingIn(ir, inp, replace);
    forall f ensures IsImmutable(FieldsOf(inp.mutability, want.typ), f) <==> IsImmutableIn(inp, id, f) {
      FirstFieldsByInputs(inp, id, f);
    }
    AmongMeans(inp.Judge(want, have, moved).changedFields, FieldsOf(inp.mutability, want.typ));
  }

  lemma UntouchedUnrecorded(inp: DiffInputs, id: Id, moved: set<Id>)
    requires inp.Complete() && OnBothSides(inp, id)
    requires ChangedFields(inp.desired[id], inp.prior[id], moved, Settled(inp.desired[id], inp.VerdictsOf(id), moved)) == {}
    ensures forall f :: f in UnrecordedFields(inp.desired[id], inp.VerdictsOf(id), moved) <==> Unvouched(inp, id, f)
  {
    hide ChangedFields, Settled, UnrecordedFields, Attributed, OnlyUnrecorded, Unvouched;
    SymbolicIsEmpty(inp, inp.desired[id], inp.prior[id], moved);
    UnrecordedStays(inp.desired[id], inp.VerdictsOf(id), moved);
    forall f { FirstFieldsByInputs(inp, id, f); }
  }

  /** The node is replaced because it is forced, and for no reason of its own. */
  ghost predicate ForcedOnly(inp: DiffInputs, replace: set<Id>, id: Id)
    requires inp.Complete() && OnBothSides(inp, id)
  {
    id in replace && !ReplacedByItself(inp, id)
  }

  lemma RefinedByInputs(inp: DiffInputs, replace: set<Id>, id: Id, stale: set<Id>, moved: set<Id>)
    requires inp.Complete() && OnBothSides(inp, id) && Ordinary(inp.desired[id], inp.prior[id], inp.VerdictsOf(id))
    ensures var r := inp.Refine(inp.First(replace, id), stale, moved);
            if ForcedOnly(inp, replace, id) then
              r == Plain(id, Replace, Some(inp.desired[id]), Some(inp.prior[id])).(
                     changedFields := {FORCED_FIELD}, createBeforeDestroy := inp.desired[id].createBeforeDestroy)
            else r.action == Update || r.action == Replace ==> r == inp.Judge(inp.desired[id], inp.prior[id], moved)
  {
    hide DiffInputs.Judge, Settled, InOrder, ReplacedByItself;
    JudgedFirst(inp, id);
    StatusByInputs(inp, id);
    JudgeShape(inp, inp.desired[id], inp.prior[id], {});
  }

  /** Main result: any other node with a row is replaced, whatever its fields, when only forcing calls for it; else it is
   * acted on in exactly the fields that differ by themselves or through what the diff acts on, or that no record vouches
   * for when nothing else can explain the digest; and it is replaced exactly when one of them is immutable. */
  lemma ActedOnExactly(ir: IRGraph, inp: DiffInputs, replace: set<Id>, c: Change)
    requires Wellformed(ir, inp) && c in Diff(ir, inp, replace) && OnBothSides(inp, c.nodeId)
    requires c.action == Update || c.action == Replace
    requires Ordinary(inp.desired[c.nodeId], inp.prior[c.nodeId], inp.VerdictsOf(c.nodeId))
    ensures c.desired == Some(inp.desired[c.nodeId]) && c.prior == Some(inp.prior[c.nodeId]) && !c.stateOnly
    ensures if ForcedOnly(inp, replace, c.nodeId) then c.action == Replace && c.changedFields == {FORCED_FIELD} && !c.conditional
            else
              && (forall f :: f in c.changedFields <==> NamedIn(Diff(ir, inp, replace), inp, c.nodeId, f))
              && (c.action == Replace <==> inp.desired[c.nodeId].kind == Resource &&
                                           exists f :: f in c.changedFields && IsImmutableIn(inp, c.nodeId, f))
  {
    hide Diff, FirstPass, StaleIn, Moving, Behind, EffectiveCbd, DiffInputs.First, DiffInputs.Refine, DiffInputs.Judge, NamedIn,
         IsImmutableIn, ForcedOnly, Ordinary, DiffInputs.Complete, ById;
    DiffIsPinnedExactly(ir, inp, replace, c);
    var stale := StaleIn(ir, inp, replace);
    RefinedByInputs(inp, replace, c.nodeId, stale, MovingIn(ir, inp, replace));
    NamedByDiff(ir, inp, replace, c.nodeId);
    JudgedByDiff(ir, inp, replace, c.nodeId);
    CompleteAt(inp, c.nodeId);
    JudgeShape(inp, inp.desired[c.nodeId], inp.prior[c.nodeId], MovingIn(ir, inp, replace));
  }

  lemma CompleteAt(inp: DiffInputs, id: Id)
    requires inp.Complete()
    ensures id in inp.desired ==> inp.desired[id].id == id && id in inp.hashes && inp.hashes[id].Sha?
  {}

  // --------------------------------------------------------------- the other flags

  /** The field's recorded value is out of date, and nothing it refers to is acted on: the new value is known. */
  ghost predicate KnownValue(cs: ChangeSet, inp: DiffInputs, id: Id, f: string)
    requires id in inp.desired
  {
    HasVerdict(inp, id, f, Moved) &&
    !(f in inp.desired[id].properties && RefersToActedOn(cs, id, inp.desired[id].properties[f]))
  }

  /** The value refers to some other node replaced destroy-first. */
  ghost predicate RefersToDestroyed(cs: ChangeSet, self: Id, v: Value) {
    exists t, d :: t in Targets(v) && t != self && d in cs && d.nodeId == t && d.action == Replace && !d.createBeforeDestroy
  }

  lemma SettledByDiff(ir: IRGraph, inp: DiffInputs, replace: set<Id>, id: Id, f: string)
    requires Wellformed(ir, inp) && id in inp.desired
    ensures f in Settled(inp.desired[id], inp.VerdictsOf(id), MovingIn(ir, inp, replace)) <==>
            KnownValue(Diff(ir, inp, replace), inp, id, f)
  {
    hide Diff, MovingIn, Touches, RefersToActedOn;
    CompleteAt(inp, id);
    NullTouchesNothing(id, MovingIn(ir, inp, replace));
    if f in inp.desired[id].properties { TouchesByDiff(ir, inp, replace, id, inp.desired[id].properties[f]); }
  }

  lemma DestroyedByDiff(ir: IRGraph, inp: DiffInputs, replace: set<Id>, self: Id, v: Value)
    requires Wellformed(ir, inp)
    ensures Touches(self, v, FirstIds(Diff(ir, inp, replace))) <==> RefersToDestroyed(Diff(ir, inp, replace), self, v)
  {
    hide Diff, Targets, EffectiveCbd, DiffInputs.Complete;
    var cs := Diff(ir, inp, replace);
    forall d | d in cs && d.action == Replace ensures d.prior.Some? { ReplaceIsComplete(ir, inp, replace, d); }
    forall t ensures t in FirstIds(cs) <==> exists d :: d in cs && d.nodeId == t && d.action == Replace && !d.createBeforeDestroy {
      if d :| d in cs && d.nodeId == t && d.action == Replace && !d.createBeforeDestroy { assert DestroyedFirst(d); }
    }
  }

  lemma UnforcedFields(ir: IRGraph, inp: DiffInputs, replace: set<Id>, c: Change)
    requires Wellformed(ir, inp) && c in Diff(ir, inp, replace) && OnBothSides(inp, c.nodeId)
    requires c.action == Update || c.action == Replace
    requires Ordinary(inp.desired[c.nodeId], inp.prior[c.nodeId], inp.VerdictsOf(c.nodeId)) && !ForcedOnly(inp, replace, c.nodeId)
    ensures FORCED_FIELD !in c.changedFields
    ensures c.upstreamMoved ==
            c.changedFields * Settled(inp.desired[c.nodeId], inp.VerdictsOf(c.nodeId), MovingIn(ir, inp, replace))
  {
    hide Diff, FirstPass, StaleIn, Moving, Behind, EffectiveCbd, DiffInputs.First, DiffInputs.Refine, DiffInputs.Judge, ForcedOnly,
         DiffInputs.Complete, ById, Settled;
    DiffIsPinnedExactly(ir, inp, replace, c);
    CompleteAt(inp, c.nodeId);
    RefinedByInputs(inp, replace, c.nodeId, StaleIn(ir, inp, replace), MovingIn(ir, inp, replace));
    JudgeShape(inp, inp.desired[c.nodeId], inp.prior[c.nodeId], MovingIn(ir, inp, replace));
    JudgedKnown(inp, inp.desired[c.nodeId], inp.prior[c.nodeId], MovingIn(ir, inp, replace));
  }

  lemma JudgedKnown(inp: DiffInputs, want: IRNode, have: StateNode, moved: set<Id>)
    requires want.id in inp.hashes
    ensures var j := inp.Judge(want, have, moved);
            j.upstreamMoved == j.changedFields * Settled(want, inp.VerdictsOf(want.id), moved)
  {
    hide ChangedFields, Settled, UnrecordedFields, FieldsOf, ImmutableAmong, HasRefKey;
  }

  /** Main result on the flags: a REPLACE is conditional exactly when each immutable field it names carries a reference,
   * has no known new value, and refers to nothing the diff destroys first; and a change says of exactly the named fields
   * with a known new value that their upstream moved. */
  lemma FlagsExactly(ir: IRGraph, inp: DiffInputs, replace: set<Id>, c: Change)
    requires Wellformed(ir, inp) && c in Diff(ir, inp, replace) && OnBothSides(inp, c.nodeId)
    requires c.action == Update || c.action == Replace
    requires Ordinary(inp.desired[c.nodeId], inp.prior[c.nodeId], inp.VerdictsOf(c.nodeId)) && !ForcedOnly(inp, replace, c.nodeId)
    ensures forall f :: f in c.upstreamMoved <==> f in c.changedFields && KnownValue(Diff(ir, inp, replace), inp, c.nodeId, f)
    ensures c.action == Replace ==>
              (c.conditional <==> forall f :: f in c.changedFields && IsImmutableIn(inp, c.nodeId, f) ==>
                 f in inp.desired[c.nodeId].properties && HasRefKey(inp.desired[c.nodeId].properties[f]) &&
                 !KnownValue(Diff(ir, inp, replace), inp, c.nodeId, f) &&
                 !RefersToDestroyed(Diff(ir, inp, replace), c.nodeId, inp.desired[c.nodeId].properties[f]))
  {
    hide Diff, MovingIn, Touches, FirstIds, Settled, HasRefKey, KnownValue, RefersToDestroyed, IsImmutable, FieldsOf, IsImmutableIn,
         ForcedOnly, Ordinary, DiffInputs.Complete, ById;
    var id := c.nodeId;
    CompleteAt(inp, id);
    UnforcedFields(ir, inp, replace, c);
    forall f ensures f in Settled(inp.desired[id], inp.VerdictsOf(id), MovingIn(ir, inp, replace)) <==>
                     KnownValue(Diff(ir, inp, replace), inp, id, f)
      ensures IsImmutable(FieldsOf(inp.mutability, inp.desired[id].typ), f) <==> IsImmutableIn(inp, id, f)
      ensures HasRefKey(inp.desired[id].Field(f)) ==> f in inp.desired[id].properties
      ensures f in inp.desired[id].properties ==>
                (Touches(id, inp.desired[id].Field(f), FirstIds(Diff(ir, inp, replace))) <==>
                 RefersToDestroyed(Diff(ir, inp, replace), id, inp.desired[id].properties[f]))
    {
      SettledByDiff(ir, inp, replace, id, f);
      FirstFieldsByInputs(inp, id, f);
      NoKeyInNull();
      if f in inp.desired[id].properties { DestroyedByDiff(ir, inp, replace, id, inp.desired[id].properties[f]); }
    }
    if c.action == Replace {
      ConditionalByFields(ir, inp, replace, c);
    }
  }

  lemma NoKeyInNull()
    ensures !HasRefKey(Null)
  {}

  lemma ConditionalByFields(ir: IRGraph, inp: DiffInputs, replace: set<Id>, c: Change)
    requires Wellformed(ir, inp) && c in Diff(ir, inp, replace) && OnBothSides(inp, c.nodeId)
    requires c.action == Replace && FORCED_FIELD !in c.changedFields
    requires Ordinary(inp.desired[c.nodeId], inp.prior[c.nodeId], inp.VerdictsOf(c.nodeId))
    ensures var want := inp.desired[c.nodeId];
            c.conditional <==> forall f :: f in c.changedFields && IsImmutable(FieldsOf(inp.mutability, want.typ), f) ==>
              HasRefKey(want.Field(f)) && f !in Settled(want, inp.VerdictsOf(want.id), MovingIn(ir, inp, replace)) &&
              !Touches(want.id, want.Field(f), FirstIds(Diff(ir, inp, replace)))
  {
    hide Diff, FirstPass, StaleIn, Moving, FirstIds, Touches, Settled, HasRefKey, IsImmutable, FieldsOf, Ordinary;
    ConditionalExactly(ir, inp, replace, c);
  }

  // ------------------------------------------------------- what a node left alone holds

  /** The value form: an unedited field of a node left alone, if its stored upstreams no longer give what it was applied
   * with, has no record. */
  lemma MovedInNoopIsUnrecorded(ir: IRGraph, inp: DiffInputs, replace: set<Id>, c: Change, f: string,
                                applied: Outputs, stored: Outputs, ops: Ops)
    requires Wellformed(ir, inp) && c in Diff(ir, inp, replace) && c.action == Noop && OnBothSides(inp, c.nodeId)
    requires Unedited(inp.desired[c.nodeId], inp.prior[c.nodeId], f)
    requires VerdictsComplete(inp.desired[c.nodeId], inp.prior[c.nodeId], inp.VerdictsOf(c.nodeId), applied, stored, ops)
    requires ValueMoved(inp.desired[c.nodeId], inp.prior[c.nodeId], f, applied, stored, ops)
    ensures HasVerdict(inp, c.nodeId, f, Unrecorded)
  {
    hide Diff, BehindRecreated, Resolve;
    LeftAloneExactly(ir, inp, replace, c);
    var want := inp.desired[c.nodeId];
    assert f in inp.VerdictsOf(c.nodeId);
    assert f !in want.ignoreChanges by { assert f !in want.Ignored(); }
  }
}
