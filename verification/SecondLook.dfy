/** What the second look changes: the first pass judges each node alone, the second knows which upstreams move. */
module SecondLook {
  import opened Graphs
  import opened Values
  import opened Ir
  import opened Cbd
  import opened Classify
  import opened Ordering
  import opened Staleness
  import opened Diffing

  // ------------------------------------------------------------ one node, exactly

  /** Some field that is not ignored refers to a moving upstream. */
  predicate Attributed(want: IRNode, moved: set<Id>) {
    exists f | f in want.properties :: f !in want.Ignored() && Touches(want.id, want.properties[f], moved)
  }

  /** Some such field of a resource is immutable, so the node has to be recreated with its upstream. */
  predicate PulledAlong(inp: DiffInputs, want: IRNode, moved: set<Id>) {
    want.kind == Resource &&
    exists f | f in want.properties :: f !in want.Ignored() && IsImmutable(FieldsOf(inp.mutability, want.typ), f) &&
                                       Touches(want.id, want.properties[f], moved)
  }

  /** Nothing in the node or its record differs: only fields without a record can explain a mismatch. */
  predicate OnlyUnrecorded(inp: DiffInputs, want: IRNode, have: StateNode) {
    ChangedFields(want, have, {}, Settled(want, inp.VerdictsOf(want.id), {})) == {}
  }

  lemma NothingTouchesNothing(want: IRNode)
    ensures forall v :: !Touches(want.id, v, {})
  {}

  lemma NullTouchesNothing(self: Id, moved: set<Id>)
    ensures !Touches(self, Null, moved)
  {}

  /** The second look adds exactly the fields that refer to moving upstreams. */
  lemma ChangedBehind(want: IRNode, have: StateNode, verdicts: Verdicts, moved: set<Id>, f: string)
    ensures f in ChangedFields(want, have, moved, Settled(want, verdicts, moved)) <==>
            f in ChangedFields(want, have, {}, Settled(want, verdicts, {})) ||
            (f in want.properties && f !in want.Ignored() && Touches(want.id, want.properties[f], moved))
  {
    hide Touches;
    NothingTouchesNothing(want);
    NullTouchesNothing(want.id, moved);
  }

  lemma SymbolicIsEmpty(inp: DiffInputs, want: IRNode, have: StateNode, moved: set<Id>)
    ensures ChangedFields(want, have, moved, Settled(want, inp.VerdictsOf(want.id), moved)) == {} <==>
            OnlyUnrecorded(inp, want, have) && !Attributed(want, moved)
  {
    hide ChangedFields, Touches, Settled;
    forall f { ChangedBehind(want, have, inp.VerdictsOf(want.id), moved, f); }
  }

  lemma UnrecordedStays(want: IRNode, verdicts: Verdicts, moved: set<Id>)
    requires !Attributed(want, moved)
    ensures UnrecordedFields(want, verdicts, moved) == UnrecordedFields(want, verdicts, {})
  {
    hide Touches;
    NothingTouchesNothing(want);
    NullTouchesNothing(want.id, moved);
  }

  /** When a judgement is a REPLACE, in terms of its symbolic part. */
  lemma JudgedReplace(inp: DiffInputs, want: IRNode, have: StateNode, moved: set<Id>)
    requires want.id in inp.hashes
    ensures var muts, verdicts := FieldsOf(inp.mutability, want.typ), inp.VerdictsOf(want.id);
            var symbolic := ChangedFields(want, have, moved, Settled(want, verdicts, moved));
            var unexplained := have.inputHash != inp.hashes[want.id] && have.inputHash != NoInputHash;
            inp.Judge(want, have, moved).action == Replace <==>
            want.kind == Resource &&
            ImmutableAmong(if unexplained && symbolic == {} then UnrecordedFields(want, verdicts, moved) else symbolic, muts) != {}
  {
    hide ChangedFields, Settled, UnrecordedFields, FieldsOf, ImmutableAmong;
  }

  /** An immutable field is among the changed ones on the second look exactly when it was on the first, or it pulls the
   * node along. */
  lemma ImmutableBehind(inp: DiffInputs, want: IRNode, have: StateNode, moved: set<Id>)
    requires want.kind == Resource
    ensures var muts, verdicts := FieldsOf(inp.mutability, want.typ), inp.VerdictsOf(want.id);
            ImmutableAmong(ChangedFields(want, have, moved, Settled(want, verdicts, moved)), muts) != {} <==>
            ImmutableAmong(ChangedFields(want, have, {}, Settled(want, verdicts, {})), muts) != {} || PulledAlong(inp, want, moved)
  {
    hide ChangedFields, Touches, Settled, FieldsOf, IsImmutable;
    var muts, verdicts := FieldsOf(inp.mutability, want.typ), inp.VerdictsOf(want.id);
    var before := ChangedFields(want, have, {}, Settled(want, verdicts, {}));
    var after := ChangedFields(want, have, moved, Settled(want, verdicts, moved));
    forall f { ChangedBehind(want, have, verdicts, moved, f); }
    if f :| f in ImmutableAmong(before, muts) { assert f in ImmutableAmong(after, muts); }
    if f :| f in ImmutableAmong(after, muts) {
      if f in before { assert f in ImmutableAmong(before, muts); }
    }
    if PulledAlong(inp, want, moved) {
      var f :| f in want.properties && f !in want.Ignored() && IsImmutable(muts, f) && Touches(want.id, want.properties[f], moved);
      assert f in ImmutableAmong(after, muts);
    }
  }

  lemma PulledIsAttributed(inp: DiffInputs, want: IRNode, moved: set<Id>)
    requires PulledAlong(inp, want, moved)
    ensures Attributed(want, moved)
  {
    hide Touches, IsImmutable, FieldsOf;
  }

  /** Main result on one node: the second look makes an UPDATE a REPLACE exactly when an immutable field pulls it along. */
  lemma PromotedExactly(inp: DiffInputs, want: IRNode, have: StateNode, moved: set<Id>)
    requires want.id in inp.hashes && inp.Judge(want, have, {}).action == Update
    ensures inp.Judge(want, have, moved).action == Replace <==> PulledAlong(inp, want, moved)
  {
    hide DiffInputs.Judge, ChangedFields, Settled, UnrecordedFields, FieldsOf, ImmutableAmong, PulledAlong, Attributed,
         OnlyUnrecorded;
    JudgedReplace(inp, want, have, {});
    JudgedReplace(inp, want, have, moved);
    SymbolicIsEmpty(inp, want, have, moved);
    SymbolicIsEmpty(inp, want, have, {});
    NothingAttributed(want);
    if !Attributed(want, moved) { UnrecordedStays(want, inp.VerdictsOf(want.id), moved); }
    if PulledAlong(inp, want, moved) { PulledIsAttributed(inp, want, moved); }
    if want.kind == Resource { ImmutableBehind(inp, want, have, moved); }
    NoneImmutable(FieldsOf(inp.mutability, want.typ));
    PulledIsResource(inp, want, moved);
  }

  lemma NothingAttributed(want: IRNode)
    ensures !Attributed(want, {})
  {
    NothingTouchesNothing(want);
  }

  lemma NoneImmutable(muts: FieldMutability)
    ensures ImmutableAmong({}, muts) == {}
  {}

  lemma PulledIsResource(inp: DiffInputs, want: IRNode, moved: set<Id>)
    ensures PulledAlong(inp, want, moved) ==> want.kind == Resource
  {}

  /** The second look takes a REPLACE back: it rested on fields without a record, another field is now attributed to a
   * moving upstream, and none that is attributed is immutable. */
  predicate TakenBack(inp: DiffInputs, want: IRNode, have: StateNode, moved: set<Id>) {
    OnlyUnrecorded(inp, want, have) && Attributed(want, moved) && !PulledAlong(inp, want, moved)
  }

  /** Main result on one node: that is exactly when a REPLACE does not survive the second look. */
  lemma TakenBackExactly(inp: DiffInputs, want: IRNode, have: StateNode, moved: set<Id>)
    requires want.id in inp.hashes && inp.Judge(want, have, {}).action == Replace
    ensures inp.Judge(want, have, moved).action != Replace <==> TakenBack(inp, want, have, moved)
  {
    hide DiffInputs.Judge, ChangedFields, Settled, UnrecordedFields, FieldsOf, ImmutableAmong, PulledAlong, Attributed,
         OnlyUnrecorded;
    JudgedReplace(inp, want, have, {});
    JudgedReplace(inp, want, have, moved);
    SymbolicIsEmpty(inp, want, have, moved);
    SymbolicIsEmpty(inp, want, have, {});
    NothingAttributed(want);
    NoneImmutable(FieldsOf(inp.mutability, want.typ));
    if !Attributed(want, moved) { UnrecordedStays(want, inp.VerdictsOf(want.id), moved); }
    ImmutableBehind(inp, want, have, moved);
  }

  // ------------------------------------------------------------- in the whole diff

  /** What moves this run, as the second look is told. */
  ghost function MovingIn(ir: IRGraph, inp: DiffInputs, replace: set<Id>): set<Id>
    requires inp.Complete()
  {
    Moving(FirstPass(inp, replace), StaleIn(ir, inp, replace))
  }

  /** The action a final change carries is the refined one. */
  lemma FinalAction(ir: IRGraph, inp: DiffInputs, replace: set<Id>, c: Change)
    requires Wellformed(ir, inp) && c in Diff(ir, inp, replace)
    ensures c.nodeId in inp.Nodes()
    ensures c.action == inp.Refine(inp.First(replace, c.nodeId), StaleIn(ir, inp, replace), MovingIn(ir, inp, replace)).action
  {
    hide Diff, FirstPass, StaleIn, Moving, EffectiveCbd, DiffInputs.First, DiffInputs.Refine, DiffInputs.Complete, DiffInputs.Nodes;
    DiffComesFrom(ir, inp, replace, c);
  }

  /** The first pass updates the node, and the second look finds that it has to be recreated. */
  ghost predicate Promoted(ir: IRGraph, inp: DiffInputs, replace: set<Id>, id: Id)
    requires inp.Complete()
  {
    id in inp.desired && id in inp.prior &&
    inp.First(replace, id).action == Update && FORCED_FIELD !in inp.First(replace, id).changedFields &&
    PulledAlong(inp, inp.desired[id], MovingIn(ir, inp, replace))
  }

  /** A first-pass UPDATE is the judgement of a node present on both sides, not forced. */
  lemma FirstUpdateIsJudged(inp: DiffInputs, replace: set<Id>, id: Id)
    requires inp.Complete() && id in inp.Nodes() && inp.First(replace, id).action == Update
    ensures id in inp.desired && id in inp.prior && inp.First(replace, id) == inp.Judge(inp.desired[id], inp.prior[id], {})
  {
    hide DiffInputs.Judge, Settled;
  }

  lemma RefinedUpdate(inp: DiffInputs, replace: set<Id>, id: Id, stale: set<Id>, moved: set<Id>)
    requires inp.Complete() && id in inp.Nodes() && inp.First(replace, id).action == Update
    ensures id in inp.desired && id in inp.prior
    ensures var r := inp.Refine(inp.First(replace, id), stale, moved);
            (r.action == Update || r.action == Replace) &&
            (r.action == Replace <==>
             FORCED_FIELD !in inp.First(replace, id).changedFields && PulledAlong(inp, inp.desired[id], moved))
  {
    hide DiffInputs.Judge, PulledAlong, DiffInputs.First;
    FirstUpdateIsJudged(inp, replace, id);
    JudgeShape(inp, inp.desired[id], inp.prior[id], {});
    JudgeShape(inp, inp.desired[id], inp.prior[id], moved);
    PromotedExactly(inp, inp.desired[id], inp.prior[id], moved);
  }

  /** What a NOOP depends on is neither stale nor recreated by the first pass. */
  lemma AboveNoop(ir: IRGraph, inp: DiffInputs, replace: set<Id>, d: Change, u: Id)
    requires Wellformed(ir, inp) && d in Diff(ir, inp, replace) && d.action == Noop
    requires ReachPlus(EdgesOf(ir), d.nodeId, u) && u in inp.Nodes()
    ensures u !in StaleIn(ir, inp, replace) && !Reidentifies(inp.First(replace, u).action)
  {
    hide Diff, FirstPass, DiffInputs.Complete, EdgesOf, DiffInputs.First, ReachPlus;
    NoopExactly(ir, inp, replace, d);
    FirstInPass(inp, replace, u);
    FirstKeepsId(inp, replace, u);
    if Reidentifies(inp.First(replace, u).action) {
      RecreatedMakesStale(EdgesOf(ir), FirstPass(inp, replace), inp.First(replace, u), d.nodeId);
    }
    if u in StaleIn(ir, inp, replace) { StaleBelow(EdgesOf(ir), Recreated(FirstPass(inp, replace)), d.nodeId, u); }
    NoopIsDeclared(inp, replace, d.nodeId);
  }

  lemma NoopIsDeclared(inp: DiffInputs, replace: set<Id>, id: Id)
    requires inp.Complete() && id in inp.Nodes()
    ensures inp.First(replace, id).action == Noop ==> id in inp.desired
  {
    hide DiffInputs.Judge, Settled;
  }

  lemma StaleBelow(g: Edges, seeds: set<Id>, a: Id, b: Id)
    requires ReachPlus(g, a, b) && b in Stale(g, seeds)
    ensures a in Stale(g, seeds)
  {
    hide Reach;
    var s :| s in seeds && ReachPlus(g, b, s);
    var d :| Step(g, a, d) && Reach(g, d, b);
    ReachReachPlus(g, d, b, s);
    PlusIsReach(g, d, s);
    assert ReachPlus(g, a, s) && Downstream(g, seeds, a);
  }

  lemma PlusIsReach(g: Edges, a: Id, b: Id)
    requires ReachPlus(g, a, b)
    ensures Reach(g, a, b)
  {
    ReachSelf(g, b);
    ReachPlusReach(g, a, b, b);
  }

  /** Main result: a node a final NOOP depends on is recreated by the same plan exactly when the second look promoted
   * its UPDATE. */
  lemma RecreatedAboveNoopExactly(ir: IRGraph, inp: DiffInputs, replace: set<Id>, d: Change, u: Change)
    requires Wellformed(ir, inp) && d in Diff(ir, inp, replace) && u in Diff(ir, inp, replace)
    requires d.action == Noop && ReachPlus(EdgesOf(ir), d.nodeId, u.nodeId)
    ensures Reidentifies(u.action) <==> Promoted(ir, inp, replace, u.nodeId)
  {
    hide Diff, StaleIn, MovingIn, PulledAlong, EdgesOf, ReachPlus, DiffInputs.First, DiffInputs.Refine, DiffInputs.Complete,
         DiffInputs.Nodes;
    FinalAction(ir, inp, replace, u);
    AboveNoop(ir, inp, replace, d, u.nodeId);
    var stale, moved := StaleIn(ir, inp, replace), MovingIn(ir, inp, replace);
    FirstKeepsId(inp, replace, u.nodeId);
    if inp.First(replace, u.nodeId).action == Update {
      RefinedUpdate(inp, replace, u.nodeId, stale, moved);
    } else {
      RefinedRest(inp, inp.First(replace, u.nodeId), stale, moved);
    }
  }

  lemma RefinedRest(inp: DiffInputs, c: Change, stale: set<Id>, moved: set<Id>)
    requires inp.Complete() && (c.action == Noop || c.action == Delete) && c.nodeId !in stale
    ensures inp.Refine(c, stale, moved) == c
  {
    hide DiffInputs.Judge;
  }

  /** No NOOP lies behind a node the changes recreate. */
  ghost predicate RecreationReaches(g: Edges, cs: ChangeSet) {
    forall d, u | d in cs && u in cs && d.action == Noop && Reidentifies(u.action) :: !ReachPlus(g, d.nodeId, u.nodeId)
  }

  /** No NOOP of the first pass outside the stale closure depends on a promoted node. */
  ghost predicate NonePromotedAbove(ir: IRGraph, inp: DiffInputs, replace: set<Id>)
    requires inp.Complete()
  {
    forall d, u | d in inp.Nodes() && inp.First(replace, d).action == Noop && d !in StaleIn(ir, inp, replace) &&
                  Promoted(ir, inp, replace, u) :: !ReachPlus(EdgesOf(ir), d, u)
  }

  /** Main result: recreation reaches every dependent of the whole plan exactly when nothing promoted lies above a NOOP. */
  lemma RecreationReachesExactly(ir: IRGraph, inp: DiffInputs, replace: set<Id>)
    requires Wellformed(ir, inp)
    ensures RecreationReaches(EdgesOf(ir), Diff(ir, inp, replace)) <==> NonePromotedAbove(ir, inp, replace)
  {
    hide Diff, StaleIn, Promoted, EdgesOf, ReachPlus, DiffInputs.First, DiffInputs.Complete, DiffInputs.Nodes;
    var cs := Diff(ir, inp, replace);
    if RecreationReaches(EdgesOf(ir), cs) {
      forall d, u | d in inp.Nodes() && inp.First(replace, d).action == Noop && d !in StaleIn(ir, inp, replace) &&
                    Promoted(ir, inp, replace, u)
        ensures !ReachPlus(EdgesOf(ir), d, u)
      {
        PromotedIsKnown(ir, inp, replace, u);
        var down := DiffHas(ir, inp, replace, d);
        var up := DiffHas(ir, inp, replace, u);
        NoopExactly(ir, inp, replace, down);
        if ReachPlus(EdgesOf(ir), d, u) { RecreatedAboveNoopExactly(ir, inp, replace, down, up); }
      }
    }
    if NonePromotedAbove(ir, inp, replace) {
      forall d, u | d in cs && u in cs && d.action == Noop && Reidentifies(u.action)
        ensures !ReachPlus(EdgesOf(ir), d.nodeId, u.nodeId)
      {
        NoopExactly(ir, inp, replace, d);
        if ReachPlus(EdgesOf(ir), d.nodeId, u.nodeId) { RecreatedAboveNoopExactly(ir, inp, replace, d, u); }
      }
    }
  }

  lemma PromotedIsKnown(ir: IRGraph, inp: DiffInputs, replace: set<Id>, id: Id)
    requires inp.Complete() && Promoted(ir, inp, replace, id)
    ensures id in inp.Nodes()
  {}

  // ---------------------------------------------------------- forced replacements

  /** Main result: a node under `--replace`, present on both sides, is replaced in the final diff exactly unless the diff
   * had itself planned a REPLACE that the second look takes back; and it is replaced unconditionally, whatever its
   * fields resolve to, unless the diff had planned a REPLACE. */
  lemma ForcedIsReplaced(ir: IRGraph, inp: DiffInputs, replace: set<Id>, c: Change)
    requires Wellformed(ir, inp) && c in Diff(ir, inp, replace)
    requires c.nodeId in replace && c.nodeId in inp.desired && c.nodeId in inp.prior
    ensures var planned := inp.ChangeFor(c.nodeId);
            c.action == Replace <==>
            !(planned.action == Replace && FORCED_FIELD !in planned.changedFields &&
              TakenBack(inp, inp.desired[c.nodeId], inp.prior[c.nodeId], MovingIn(ir, inp, replace)))
    ensures c.action == Replace || c.action == Update
    ensures inp.ChangeFor(c.nodeId).action != Replace ==> !c.conditional && c.changedFields == {FORCED_FIELD}
  {
    hide Diff, FirstPass, StaleIn, Moving, Behind, EffectiveCbd, TakenBack, DiffInputs.First, DiffInputs.Refine,
         DiffInputs.ChangeFor;
    DiffIsPinnedExactly(ir, inp, replace, c);
    FinalAction(ir, inp, replace, c);
    var stale := StaleIn(ir, inp, replace);
    ForcedRefines(inp, replace, c.nodeId, stale, MovingIn(ir, inp, replace));
  }

  lemma ForcedRefines(inp: DiffInputs, replace: set<Id>, id: Id, stale: set<Id>, moved: set<Id>)
    requires inp.Complete() && id in replace && id in inp.desired && id in inp.prior
    ensures var c, planned := inp.Refine(inp.First(replace, id), stale, moved), inp.ChangeFor(id);
            (c.action == Replace || c.action == Update) && c.nodeId == id &&
            (c.action == Replace <==>
             !(planned.action == Replace && FORCED_FIELD !in planned.changedFields &&
               TakenBack(inp, inp.desired[id], inp.prior[id], moved))) &&
            (planned.action != Replace ==> c.action == Replace && !c.conditional && c.changedFields == {FORCED_FIELD})
  {
    hide DiffInputs.Judge, Settled, TakenBack;
    JudgeShape(inp, inp.desired[id], inp.prior[id], {});
    JudgeShape(inp, inp.desired[id], inp.prior[id], moved);
    if inp.Judge(inp.desired[id], inp.prior[id], {}).action == Replace {
      TakenBackExactly(inp, inp.desired[id], inp.prior[id], moved);
    }
  }

  /** Forced or not, a node whose planned REPLACE is taken back ends as an UPDATE. */
  lemma TakenBackIsUpdated(ir: IRGraph, inp: DiffInputs, replace: set<Id>, c: Change)
    requires Wellformed(ir, inp) && c in Diff(ir, inp, replace) && c.nodeId in inp.desired && c.nodeId in inp.prior
    requires inp.ChangeFor(c.nodeId).action == Replace && FORCED_FIELD !in inp.ChangeFor(c.nodeId).changedFields
    requires TakenBack(inp, inp.desired[c.nodeId], inp.prior[c.nodeId], MovingIn(ir, inp, replace))
    ensures c.action == Update
  {
    hide Diff, StaleIn, MovingIn, TakenBack, DiffInputs.Judge, Settled;
    var want, have, moved := inp.desired[c.nodeId], inp.prior[c.nodeId], MovingIn(ir, inp, replace);
    FinalAction(ir, inp, replace, c);
    JudgeShape(inp, want, have, {});
    JudgeShape(inp, want, have, moved);
    TakenBackExactly(inp, want, have, moved);
  }

  // ---------------------------------------------------- fields without a record

  /** The row's digest is not the config's, and no refresh marked the row. */
  predicate Unexplained(inp: DiffInputs, want: IRNode, have: StateNode)
    requires want.id in inp.hashes
  {
    have.inputHash != inp.hashes[want.id] && have.inputHash != NoInputHash
  }

  /** What a judgement makes of an unedited field without a record. */
  lemma UnrecordedJudged(inp: DiffInputs, want: IRNode, have: StateNode, moved: set<Id>, f: string)
    requires want.id in inp.hashes && Unedited(want, have, f)
    requires f in inp.VerdictsOf(want.id) && inp.VerdictsOf(want.id)[f] == Unrecorded
    ensures f in inp.Judge(want, have, moved).changedFields <==>
            Touches(want.id, want.properties[f], moved) ||
            (Unexplained(inp, want, have) && OnlyUnrecorded(inp, want, have) && !Attributed(want, moved))
  {
    hide Touches, HasRefKey, FieldsOf, ImmutableAmong;
    SymbolicIsEmpty(inp, want, have, moved);
    var symbolic := ChangedFields(want, have, moved, Settled(want, inp.VerdictsOf(want.id), moved));
    assert f in symbolic <==> Touches(want.id, want.properties[f], moved);
    assert want.Field(f) == want.properties[f];
  }

  /** Main result: in a diff, an unedited field without a record is changed exactly when it refers to a moving upstream, or
   * when the digest is off and nothing but missing records can say why. */
  lemma UnrecordedCaughtExactly(ir: IRGraph, inp: DiffInputs, replace: set<Id>, c: Change, f: string)
    requires Wellformed(ir, inp) && c in Diff(ir, inp, replace)
    requires c.nodeId in inp.desired && c.nodeId in inp.prior
    requires c.action == Update || (c.action == Replace && FORCED_FIELD !in c.changedFields)
    requires Ordinary(inp.desired[c.nodeId], inp.prior[c.nodeId], inp.VerdictsOf(c.nodeId))
    requires Unedited(inp.desired[c.nodeId], inp.prior[c.nodeId], f)
    requires f in inp.VerdictsOf(c.nodeId) && inp.VerdictsOf(c.nodeId)[f] == Unrecorded
    ensures var want, have, moved := inp.desired[c.nodeId], inp.prior[c.nodeId], MovingIn(ir, inp, replace);
            f in c.changedFields <==>
            Touches(want.id, want.properties[f], moved) ||
            (Unexplained(inp, want, have) && OnlyUnrecorded(inp, want, have) && !Attributed(want, moved))
  {
    hide Diff, FirstPass, StaleIn, Moving, DiffInputs.Judge, Touches, OnlyUnrecorded, Attributed, Ordinary;
    UnforcedIsJudged(ir, inp, replace, c);
    UnrecordedJudged(inp, inp.desired[c.nodeId], inp.prior[c.nodeId], MovingIn(ir, inp, replace), f);
  }

  // ------------------------------------------------------------- values that move

  /** Nothing tells the diff that the field may have moved: it is unedited and has no record, its upstreams stay, and the
   * digest is either in order or explained by something else. */
  predicate Overlooked(inp: DiffInputs, want: IRNode, have: StateNode, moved: set<Id>, f: string)
    requires want.id in inp.hashes
  {
    Unedited(want, have, f) && f in inp.VerdictsOf(want.id) && inp.VerdictsOf(want.id)[f] == Unrecorded &&
    !Touches(want.id, want.properties[f], moved) &&
    !(Unexplained(inp, want, have) && OnlyUnrecorded(inp, want, have) && !Attributed(want, moved))
  }

  lemma ChangedIsJudged(inp: DiffInputs, want: IRNode, have: StateNode, moved: set<Id>, f: string)
    requires want.id in inp.hashes
    requires f in ChangedFields(want, have, moved, Settled(want, inp.VerdictsOf(want.id), moved))
    ensures f in inp.Judge(want, have, moved).changedFields
  {
    hide ChangedFields, Settled, Touches, HasRefKey, FieldsOf, ImmutableAmong;
  }

  /** A judgement names a field that moved exactly when it is not overlooked. */
  lemma MoveJudged(inp: DiffInputs, want: IRNode, have: StateNode, moved: set<Id>, f: string,
                   applied: Outputs, stored: Outputs, now: Outputs, ops: Ops)
    requires want.id in inp.hashes && f !in want.Ignored() && ValueMoved(want, have, f, applied, now, ops)
    requires Reads(want.properties[f]) <= Targets(want.properties[f]) && want.id !in Targets(want.properties[f])
    requires MovedOnly(stored, now, moved) && VerdictsComplete(want, have, inp.VerdictsOf(want.id), applied, stored, ops)
    ensures f in inp.Judge(want, have, moved).changedFields <==> !Overlooked(inp, want, have, moved, f)
  {
    hide DiffInputs.Judge, OnlyUnrecorded, Attributed, Touches, Resolve, Reads, Targets, MovedOnly, VerdictsComplete;
    var verdicts := inp.VerdictsOf(want.id);
    if f in verdicts && verdicts[f] == Unrecorded && Unedited(want, have, f) {
      UnrecordedJudged(inp, want, have, moved, f);
    } else {
      if f in verdicts && verdicts[f] == Unrecorded {
        assert f in ChangedFields(want, have, moved, Settled(want, verdicts, moved));
      } else if f !in ChangedFields(want, have, moved, Settled(want, verdicts, moved)) {
        UnchangedFieldKeepsItsValue(want, have, moved, verdicts, f, applied, stored, now, ops);
      }
      ChangedIsJudged(inp, want, have, moved, f);
    }
  }

  lemma ImmutableJudged(inp: DiffInputs, want: IRNode, have: StateNode, moved: set<Id>, f: string)
    requires want.id in inp.hashes && f in inp.Judge(want, have, moved).changedFields
    requires want.kind == Resource && IsImmutable(FieldsOf(inp.mutability, want.typ), f)
    ensures inp.Judge(want, have, moved).action == Replace
  {
    hide ChangedFields, Settled, UnrecordedFields, HasRefKey;
    assert f in ImmutableAmong(inp.Judge(want, have, moved).changedFields, FieldsOf(inp.mutability, want.typ));
  }

  /** Main result: the symbolic diff misses a value that really moved exactly where the field is overlooked. Any other is a
   * changed field of its acted-on node, and when it is immutable the node is planned as a REPLACE, never as an UPDATE. */
  lemma MovedValueIsPlanned(ir: IRGraph, inp: DiffInputs, replace: set<Id>, c: Change, f: string,
                            applied: Outputs, stored: Outputs, now: Outputs, ops: Ops)
    requires Wellformed(ir, inp) && c in Diff(ir, inp, replace)
    requires c.nodeId in inp.desired && c.nodeId in inp.prior
    requires c.action == Update || (c.action == Replace && FORCED_FIELD !in c.changedFields)
    requires OnlyActedOnMoves(Diff(ir, inp, replace), stored, now)
    requires Ordinary(inp.desired[c.nodeId], inp.prior[c.nodeId], inp.VerdictsOf(c.nodeId))
    requires VerdictsComplete(inp.desired[c.nodeId], inp.prior[c.nodeId], inp.VerdictsOf(c.nodeId), applied, stored, ops)
    requires f !in inp.desired[c.nodeId].Ignored()
    requires ValueMoved(inp.desired[c.nodeId], inp.prior[c.nodeId], f, applied, now, ops)
    requires var v := inp.desired[c.nodeId].properties[f]; Reads(v) <= Targets(v) && c.nodeId !in Targets(v)
    ensures var want, have, moved := inp.desired[c.nodeId], inp.prior[c.nodeId], MovingIn(ir, inp, replace);
            && (f in c.changedFields <==> !Overlooked(inp, want, have, moved, f))
            && (!Overlooked(inp, want, have, moved, f) && want.kind == Resource &&
                IsImmutable(FieldsOf(inp.mutability, want.typ), f) ==>
                c.action == Replace)
  {
    hide Diff, FirstPass, StaleIn, Moving, OnlyActedOnMoves, MovedOnly, VerdictsComplete, Reads, Targets, Resolve,
         DiffInputs.Judge, Overlooked, Ordinary, IsImmutable, FieldsOf;
    var want, have, moved := inp.desired[c.nodeId], inp.prior[c.nodeId], MovingIn(ir, inp, replace);
    ActedOnIsMoving(ir, inp, replace, stored, now);
    UnforcedIsJudged(ir, inp, replace, c);
    MoveJudged(inp, want, have, moved, f, applied, stored, now, ops);
    if f in c.changedFields && want.kind == Resource && IsImmutable(FieldsOf(inp.mutability, want.typ), f) {
      ImmutableJudged(inp, want, have, moved, f);
    }
  }

  // -------------------------------------------------------- what a NOOP resolves to

  /** No change acts on the node. */
  ghost predicate LeftAlone(cs: ChangeSet, u: Id) {
    forall d :: d in cs && d.nodeId == u ==> d.action == Noop
  }

  /** The value resolves as it did, whatever the acted-on nodes come to report. */
  ghost predicate KeepsItsValue(cs: ChangeSet, v: Value, stored: Outputs, ops: Ops) {
    forall now :: OnlyActedOnMoves(cs, stored, now) ==> Resolve(v, now, ops) == Resolve(v, stored, ops)
  }

  /** That is so exactly when every node it reads is left alone: an acted-on one may report nothing at all. */
  lemma KeepsItsValueExactly(cs: ChangeSet, v: Value, stored: Outputs, ops: Ops)
    requires Resolve(v, stored, ops).Some?
    ensures KeepsItsValue(cs, v, stored, ops) <==> forall u :: u in Reads(v) ==> LeftAlone(cs, u)
  {
    hide Reads, Resolve;
    if forall u :: u in Reads(v) ==> LeftAlone(cs, u) {
      forall now | OnlyActedOnMoves(cs, stored, now) ensures Resolve(v, now, ops) == Resolve(v, stored, ops) {
        forall u | u in Reads(v) ensures SameAt(stored, now, u) { assert LeftAlone(cs, u); }
        ResolveFrame(v, stored, now, ops);
      }
    }
    if u :| u in Reads(v) && !LeftAlone(cs, u) {
      var now := stored[u := map[]];
      AbsentReadFails(v, now, ops, u);
      assert OnlyActedOnMoves(cs, stored, now);
    }
  }

  /** Main result: whatever the acted-on nodes come to report, a field of a final NOOP resolves as it did, exactly when
   * the first pass updates none of the nodes it reads. */
  lemma NoopKeepsValuesExactly(ir: IRGraph, inp: DiffInputs, replace: set<Id>, c: Change, v: Value, stored: Outputs, ops: Ops)
    requires Wellformed(ir, inp) && c in Diff(ir, inp, replace) && c.action == Noop && Resolve(v, stored, ops).Some?
    requires forall u :: u in Reads(v) ==> Step(EdgesOf(ir), c.nodeId, u) && u in inp.desired
    ensures KeepsItsValue(Diff(ir, inp, replace), v, stored, ops) <==>
            forall u :: u in Reads(v) ==> inp.First(replace, u).action != Update
  {
    hide Diff, EdgesOf, DiffInputs.First, DiffInputs.Complete, Reads, Resolve, KeepsItsValue, LeftAlone, Step;
    KeepsItsValueExactly(Diff(ir, inp, replace), v, stored, ops);
    forall u | u in Reads(v)
      ensures inp.First(replace, u).action != Update <==> LeftAlone(Diff(ir, inp, replace), u)
    {
      ReadByNoop(ir, inp, replace, c, u);
    }
  }

  /** A node a final NOOP reads is left alone exactly when the first pass did not update it. */
  lemma ReadByNoop(ir: IRGraph, inp: DiffInputs, replace: set<Id>, c: Change, u: Id)
    requires Wellformed(ir, inp) && c in Diff(ir, inp, replace) && c.action == Noop
    requires Step(EdgesOf(ir), c.nodeId, u) && u in inp.desired
    ensures inp.First(replace, u).action != Update <==> LeftAlone(Diff(ir, inp, replace), u)
  {
    hide Diff, StaleIn, EdgesOf, DiffInputs.First, DiffInputs.Complete, Step;
    ReachSelf(EdgesOf(ir), u);
    assert ReachPlus(EdgesOf(ir), c.nodeId, u);
    AboveNoop(ir, inp, replace, c, u);
    FirstActs(inp, replace, u);
    var d := DiffHas(ir, inp, replace, u);
    forall e | e in Diff(ir, inp, replace) && e.nodeId == u
      ensures e.action == Noop <==> inp.First(replace, u).action == Noop
    {
      NoopExactly(ir, inp, replace, e);
    }
  }
}
