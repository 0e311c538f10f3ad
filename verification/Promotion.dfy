/** Plans that surprise: a NOOP behind a recreated node, a forced node only updated, and a moved value not seen. */
module Promotion {
  import opened Graphs
  import opened Values
  import opened Ir
  import opened Classify
  import opened Merkle
  import opened Staleness
  import opened Diffing
  import opened SecondLook
  import Text

  /** Three ids, a mutable field and an immutable one. */
  datatype Names = Names(a: Id, b: Id, c: Id, plain: string, fixed: string) {
    predicate Apart() {
      && a != b && a != c && b != c && '#' !in a && '#' !in b && '#' !in c
      && plain != fixed && plain != FORCED_FIELD && fixed != FORCED_FIELD
    }

    /** The one type of the examples. */
    function Fields(): TypeMutability {
      map["t" := map[fixed := Immutable]]
    }
  }

  lemma SomeNames() returns (nm: Names)
    ensures nm.Apart() && Text.Less(nm.a, nm.b)
  {
    nm := Names("a", "b", "c", "plain", "fixed");
    assert nm.plain[0] != FORCED_FIELD[0] && nm.fixed[0] != FORCED_FIELD[0] && nm.plain[0] != nm.fixed[0];
  }

  /** A resource as the examples lower it. */
  function Bare(id: Id, properties: Properties, dependencies: seq<Id>): IRNode {
    IRNode(id, "t", "", "", properties, dependencies, false, false, [], [], [], Resource)
  }

  function BareRow(id: Id, properties: Properties, dependencies: seq<Id>, hash: Hash): StateNode {
    StateNode(id, "t", "", "", hash, properties, dependencies, [], false, Created)
  }

  lemma KeptBare(n: IRNode)
    requires n.ignoreChanges == []
    ensures Kept(n) == n.properties && n.Ignored() == {}
  {}

  lemma NoDeps(n: IRNode)
    requires n.dependencies == []
    ensures SortedDeps(n) == []
  {
    assert Elems([]) == {};
  }

  lemma OneDep(n: IRNode, d: Id)
    requires n.dependencies == [d]
    ensures SortedDeps(n) == [d]
  {
    assert Elems([d]) == {d};
    Text.OneMember(d);
  }

  /** A digest made by hand. */
  lemma HashedByHand(n: IRNode, h: Hashes, deps: seq<Id>)
    requires n.ignoreChanges == [] && SortedDeps(n) == deps && n.id in h && forall d :: d in deps ==> d in h
    requires h[n.id].Sha? && h[n.id].typ == n.typ && h[n.id].properties == n.properties && |h[n.id].deps| == |deps|
    requires forall i :: 0 <= i < |deps| ==> h[n.id].deps[i] == h[deps[i]]
    ensures HashedAt(n, h)
  {
    hide SortedDeps;
    KeptBare(n);
    assert HashesOf(h, deps) == h[n.id].deps;
  }

  lemma HashedAll3(ir: IRGraph, h: Hashes)
    requires |ir| == 3 && h.Keys == {ir[0].id, ir[1].id, ir[2].id}
    requires HashedAt(ir[0], h) && HashedAt(ir[1], h) && HashedAt(ir[2], h)
    ensures IsHashing(ir, h)
  {
    hide HashedAt;
  }

  lemma ById3(ir: IRGraph)
    requires |ir| == 3 && ir[0].id != ir[1].id && ir[0].id != ir[2].id && ir[1].id != ir[2].id
    ensures UniqueIds(ir) && ById(ir).Keys == {ir[0].id, ir[1].id, ir[2].id}
    ensures ById(ir)[ir[0].id] == ir[0] && ById(ir)[ir[1].id] == ir[1] && ById(ir)[ir[2].id] == ir[2]
  {
    ByIdUnique(ir, ir[0]);
    ByIdUnique(ir, ir[1]);
    ByIdUnique(ir, ir[2]);
  }

  lemma WellformedByHand(ir: IRGraph, inp: DiffInputs)
    requires |ir| == 3 && ir[0].id != ir[1].id && ir[0].id != ir[2].id && ir[1].id != ir[2].id
    requires inp.desired == ById(ir) && forall n :: n in ir ==> n.id in inp.hashes && inp.hashes[n.id].Sha?
    ensures Wellformed(ir, inp)
    ensures forall n :: n in ir ==> n.id in inp.desired && inp.desired[n.id] == n
  {
    ById3(ir);
  }

  /** A confirmed row with the config's own digest and no verdicts is left alone. */
  lemma CleanRowNoops(inp: DiffInputs, replace: set<Id>, id: Id)
    requires inp.Complete() && id in inp.desired && id in inp.prior && id !in inp.verdicts && id !in replace
    requires inp.prior[id].status == Created && inp.prior[id].inputHash == inp.hashes[id]
    ensures inp.First(replace, id).action == Noop
  {
    hide DiffInputs.Judge;
    assert Settled(inp.desired[id], map[], {}) == {};
  }

  /** A confirmed row with another digest and no verdicts is updated when no immutable field changed. */
  lemma ChangedRowUpdates(inp: DiffInputs, replace: set<Id>, id: Id)
    requires inp.Complete() && id in inp.desired && id in inp.prior && id !in inp.verdicts && id !in replace
    requires inp.prior[id].status == Created && inp.prior[id].inputHash != inp.hashes[id]
    requires var changed := ChangedFields(inp.desired[id], inp.prior[id], {}, {});
             FORCED_FIELD !in changed && ImmutableAmong(changed, FieldsOf(inp.mutability, inp.desired[id].typ)) == {}
    ensures inp.First(replace, id).action == Update && FORCED_FIELD !in inp.First(replace, id).changedFields
  {
    hide ChangedFields, ImmutableAmong, FieldsOf;
    assert Settled(inp.desired[id], map[], {}) == {};
    assert UnrecordedFields(inp.desired[id], map[], {}) == {};
    NoneImmutable(FieldsOf(inp.mutability, inp.desired[id].typ));
  }

  lemma RefTouches(self: Id, target: Id, moved: set<Id>)
    requires '#' !in target && target != self
    ensures Touches(self, RefMarker(target, "id"), moved) <==> target in moved
  {
    SplitHash(target, "id");
    assert Targets(RefMarker(target, "id")) == {target};
  }

  lemma FirstIsMoving(ir: IRGraph, inp: DiffInputs, replace: set<Id>, id: Id)
    requires inp.Complete() && id in inp.Nodes() && inp.First(replace, id).action != Noop
    ensures id in MovingIn(ir, inp, replace)
  {
    hide FirstPass, StaleIn, DiffInputs.Complete, DiffInputs.Nodes, DiffInputs.First;
    FirstInPass(inp, replace, id);
    FirstKeepsId(inp, replace, id);
  }

  // ------------------------------------------------ a NOOP behind a recreated node

  /** `a`, then `b` placed by what `a` reports, then `c` that reads `b`. */
  function Chain(nm: Names): IRGraph {
    [Bare(nm.a, map[nm.plain := Int(1)], []), Bare(nm.b, map[nm.fixed := RefMarker(nm.a, "id")], [nm.a]),
     Bare(nm.c, map[nm.plain := RefMarker(nm.b, "id")], [nm.b])]
  }

  /** The config's own digests. */
  function ChainHashes(nm: Names): Hashes {
    var ir := Chain(nm);
    var a := Sha("t", ir[0].properties, []);
    var b := Sha("t", ir[1].properties, [a]);
    map[nm.a := a, nm.b := b, nm.c := Sha("t", ir[2].properties, [b])]
  }

  /** Two drifted rows over an unchanged config, and an untouched one behind them. */
  function Drifted(nm: Names): DiffInputs {
    var ir := Chain(nm);
    DiffInputs(ById(ir), ChainHashes(nm),
               map[nm.a := BareRow(nm.a, map[nm.plain := Int(2)], [], NoInputHash),
                   nm.b := BareRow(nm.b, ir[1].properties, [nm.a], NoInputHash),
                   nm.c := BareRow(nm.c, ir[2].properties, [nm.b], ChainHashes(nm)[nm.c])],
               nm.Fields(), map[])
  }

  lemma ChainIsHashing(nm: Names)
    requires nm.Apart()
    ensures IsHashing(Chain(nm), ChainHashes(nm))
  {
    hide RefMarker, SortedDeps, HashedAt;
    var ir, h := Chain(nm), ChainHashes(nm);
    NoDeps(ir[0]);
    OneDep(ir[1], nm.a);
    OneDep(ir[2], nm.b);
    HashedByHand(ir[0], h, []);
    HashedByHand(ir[1], h, [nm.a]);
    HashedByHand(ir[2], h, [nm.b]);
    HashedAll3(ir, h);
  }

  lemma DriftedInputs(nm: Names)
    requires nm.Apart()
    ensures Wellformed(Chain(nm), Drifted(nm))
    ensures var inp := Drifted(nm);
            && nm.a in inp.desired && nm.b in inp.desired && nm.c in inp.desired
            && inp.desired[nm.a] == Chain(nm)[0] && inp.desired[nm.b] == Chain(nm)[1] && inp.desired[nm.c] == Chain(nm)[2]
  {
    hide RefMarker, ById;
    var ir := Chain(nm);
    assert ir[0] in ir && ir[1] in ir && ir[2] in ir;
    WellformedByHand(ir, Drifted(nm));
  }

  lemma DriftedNodes(nm: Names)
    requires nm.Apart() && Wellformed(Chain(nm), Drifted(nm))
    ensures Drifted(nm).Nodes() == {nm.a, nm.b, nm.c}
  {
    hide RefMarker, DiffInputs.Complete;
    ById3(Chain(nm));
  }

  lemma ChainEdge(nm: Names)
    requires nm.Apart()
    ensures ReachPlus(EdgesOf(Chain(nm)), nm.c, nm.b)
  {
    hide RefMarker;
    var ir := Chain(nm);
    ById3(ir);
    assert ir[2].dependencies[0] == nm.b && ir[2] in ir;
    EdgesOfStep(ir, ir[2], nm.b);
    ReachSelf(EdgesOf(ir), nm.b);
  }

  lemma ChangedLiteral(n: IRNode, row: StateNode, f: string)
    requires n.ignoreChanges == [] && n.properties.Keys == row.properties.Keys == {f} && n.properties[f] != row.properties[f]
    ensures ChangedFields(n, row, {}, {}) == {f}
  {
    hide Touches;
    NothingTouchesNothing(n);
    KeptBare(n);
  }

  lemma ChangedNothing(n: IRNode, row: StateNode)
    requires n.properties == row.properties
    ensures ChangedFields(n, row, {}, {}) == {}
  {
    hide Touches;
    NothingTouchesNothing(n);
  }

  lemma FewImmutable(nm: Names)
    requires nm.Apart()
    ensures ImmutableAmong({nm.plain}, FieldsOf(nm.Fields(), "t")) == {} == ImmutableAmong({}, FieldsOf(nm.Fields(), "t"))
  {}

  lemma DriftedA(nm: Names)
    requires nm.Apart()
    ensures Drifted(nm).Complete() && nm.a in Drifted(nm).Nodes() && Drifted(nm).First({}, nm.a).action == Update
  {
    hide ChangedFields, ImmutableAmong, DiffInputs.First, FieldsOf, Names.Fields;
    DriftedInputs(nm);
    ChangedLiteral(Chain(nm)[0], Drifted(nm).prior[nm.a], nm.plain);
    FewImmutable(nm);
    ChangedRowUpdates(Drifted(nm), {}, nm.a);
  }

  lemma DriftedB(nm: Names)
    requires nm.Apart()
    ensures Drifted(nm).Complete() && nm.b in Drifted(nm).Nodes() && Drifted(nm).First({}, nm.b).action == Update
    ensures FORCED_FIELD !in Drifted(nm).First({}, nm.b).changedFields
  {
    hide ChangedFields, ImmutableAmong, DiffInputs.First, FieldsOf, Names.Fields;
    DriftedInputs(nm);
    ChangedNothing(Chain(nm)[1], Drifted(nm).prior[nm.b]);
    FewImmutable(nm);
    ChangedRowUpdates(Drifted(nm), {}, nm.b);
  }

  lemma DriftedC(nm: Names)
    requires nm.Apart()
    ensures Drifted(nm).Complete() && nm.c in Drifted(nm).Nodes() && Drifted(nm).First({}, nm.c).action == Noop
  {
    hide DiffInputs.First, FieldsOf, Names.Fields;
    DriftedInputs(nm);
    CleanRowNoops(Drifted(nm), {}, nm.c);
  }

  lemma DriftedPulls(nm: Names, moved: set<Id>)
    requires nm.Apart() && nm.a in moved
    ensures PulledAlong(Drifted(nm), Chain(nm)[1], moved)
  {
    hide Touches, RefMarker;
    RefTouches(nm.b, nm.a, moved);
    KeptBare(Chain(nm)[1]);
    assert nm.fixed in Chain(nm)[1].properties;
  }

  lemma DriftedPromotes(nm: Names)
    requires nm.Apart() && Drifted(nm).Complete()
    ensures Promoted(Chain(nm), Drifted(nm), {}, nm.b)
  {
    hide DiffInputs.First, DiffInputs.Complete, MovingIn, PulledAlong, Chain;
    DriftedA(nm);
    DriftedB(nm);
    DriftedInputs(nm);
    FirstIsMoving(Chain(nm), Drifted(nm), {}, nm.a);
    DriftedPulls(nm, MovingIn(Chain(nm), Drifted(nm), {}));
  }

  lemma DriftedStale(nm: Names)
    requires nm.Apart() && Drifted(nm).Complete()
    ensures StaleIn(Chain(nm), Drifted(nm), {}) == {}
  {
    hide DiffInputs.First, DiffInputs.Complete, DiffInputs.Nodes, EdgesOf, FirstPass, Drifted, Chain;
    DriftedA(nm);
    DriftedB(nm);
    DriftedC(nm);
    DriftedInputs(nm);
    DriftedNodes(nm);
    var inp := Drifted(nm);
    forall c | c in FirstPass(inp, {}) ensures !Reidentifies(c.action) { PassIsFirst(inp, {}, c); }
    assert Recreated(FirstPass(inp, {})) == {};
  }

  /** The closure is taken over first-pass actions, and refinement can promote an UPDATE afterwards: under a config's own
   * digests, a node is left a NOOP downstream of a node this very plan replaces. */
  lemma NoopBehindPromotedReplace() returns (ir: IRGraph, inp: DiffInputs, u: Change, d: Change)
    ensures Wellformed(ir, inp) && IsHashing(ir, inp.hashes) && u in Diff(ir, inp, {}) && d in Diff(ir, inp, {})
    ensures ReachPlus(EdgesOf(ir), d.nodeId, u.nodeId) && Reidentifies(u.action) && d.action == Noop
    ensures !RecreationReaches(EdgesOf(ir), Diff(ir, inp, {}))
  {
    hide StaleIn, Diff, Promoted, DiffInputs.First, DiffInputs.Complete, DiffInputs.Nodes, EdgesOf, ReachPlus, IsHashing, Chain;
    var nm := SomeNames();
    ir, inp := Chain(nm), Drifted(nm);
    ChainIsHashing(nm);
    DriftedInputs(nm);
    DriftedC(nm);
    DriftedStale(nm);
    ChainEdge(nm);
    DriftedPromotes(nm);
    DriftedB(nm);
    u := DiffHas(ir, inp, {}, nm.b);
    d := DiffHas(ir, inp, {}, nm.c);
    NoopExactly(ir, inp, {}, d);
    RecreatedAboveNoopExactly(ir, inp, {}, d, u);
  }

  // ------------------------------------------------- a forced node merely updated

  /** `c` is placed by what `a` reports, and tagged with what `b` reports. */
  function Tagging(nm: Names, x: int): IRGraph {
    [Bare(nm.a, map[nm.plain := Int(1)], []), Bare(nm.b, map[nm.plain := Int(x)], []),
     Bare(nm.c, map[nm.plain := RefMarker(nm.b, "id"), nm.fixed := RefMarker(nm.a, "id")], [nm.a, nm.b])]
  }

  /** The config's own digests. */
  function TaggingHashes(nm: Names, x: int): Hashes {
    var ir := Tagging(nm, x);
    var a, b := Sha("t", ir[0].properties, []), Sha("t", ir[1].properties, []);
    map[nm.a := a, nm.b := b, nm.c := Sha("t", ir[2].properties, [a, b])]
  }

  /** The rows that config leaves. */
  function TaggingRows(nm: Names, x: int): StateGraph {
    var ir, h := Tagging(nm, x), TaggingHashes(nm, x);
    map[nm.a := BareRow(nm.a, ir[0].properties, [], h[nm.a]), nm.b := BareRow(nm.b, ir[1].properties, [], h[nm.b]),
        nm.c := BareRow(nm.c, ir[2].properties, [nm.a, nm.b], h[nm.c])]
  }

  /** `b` edited over rows committed before the edit, by a version that kept no record of consumed values. */
  function Edited(nm: Names): DiffInputs {
    DiffInputs(ById(Tagging(nm, 2)), TaggingHashes(nm, 2), TaggingRows(nm, 1), nm.Fields(),
               map[nm.c := map[nm.plain := Unrecorded, nm.fixed := Unrecorded]])
  }

  lemma TwoDeps(n: IRNode, a: Id, b: Id)
    requires n.dependencies == [a, b] && Text.Less(a, b) && a != b
    ensures SortedDeps(n) == [a, b]
  {
    var s := Elems([a, b]);
    assert [a, b][0] == a && [a, b][1] == b;
    assert s == {a, b} && Text.IsLeast(a, s);
    Text.LeastUnique(a, Text.Least(s), s);
    assert s - {a} == {b};
    Text.OneMember(b);
  }

  lemma TaggingIsHashing(nm: Names, x: int)
    requires nm.Apart() && Text.Less(nm.a, nm.b)
    ensures IsHashing(Tagging(nm, x), TaggingHashes(nm, x))
  {
    hide RefMarker, SortedDeps, HashedAt;
    var ir, h := Tagging(nm, x), TaggingHashes(nm, x);
    NoDeps(ir[0]);
    NoDeps(ir[1]);
    TwoDeps(ir[2], nm.a, nm.b);
    HashedByHand(ir[0], h, []);
    HashedByHand(ir[1], h, []);
    HashedByHand(ir[2], h, [nm.a, nm.b]);
    HashedAll3(ir, h);
  }

  lemma EditedDigests(nm: Names)
    requires nm.Apart()
    ensures var before, after := TaggingHashes(nm, 1), TaggingHashes(nm, 2);
            before[nm.a] == after[nm.a] && before[nm.b] != after[nm.b] && before[nm.c] != after[nm.c]
  {
    hide RefMarker;
    var before, after := TaggingHashes(nm, 1), TaggingHashes(nm, 2);
    assert before[nm.b].properties[nm.plain] != after[nm.b].properties[nm.plain];
    assert before[nm.c].deps[1] != after[nm.c].deps[1];
  }

  lemma EditedInputs(nm: Names)
    requires nm.Apart()
    ensures Wellformed(Tagging(nm, 2), Edited(nm))
    ensures var inp := Edited(nm);
            && nm.a in inp.desired && nm.b in inp.desired && nm.c in inp.desired
            && inp.desired[nm.a] == Tagging(nm, 2)[0] && inp.desired[nm.b] == Tagging(nm, 2)[1]
            && inp.desired[nm.c] == Tagging(nm, 2)[2]
  {
    hide RefMarker, ById;
    var ir := Tagging(nm, 2);
    assert ir[0] in ir && ir[1] in ir && ir[2] in ir;
    WellformedByHand(ir, Edited(nm));
  }

  lemma EditedB(nm: Names, replace: set<Id>)
    requires nm.Apart() && nm.b !in replace
    ensures Edited(nm).Complete() && nm.b in Edited(nm).Nodes() && Edited(nm).First(replace, nm.b).action == Update
  {
    hide ChangedFields, ImmutableAmong, DiffInputs.First, FieldsOf, Names.Fields, RefMarker;
    EditedInputs(nm);
    EditedDigests(nm);
    ChangedLiteral(Tagging(nm, 2)[1], Edited(nm).prior[nm.b], nm.plain);
    FewImmutable(nm);
    ChangedRowUpdates(Edited(nm), replace, nm.b);
  }

  lemma EditedA(nm: Names, replace: set<Id>)
    requires nm.Apart() && nm.a !in replace
    ensures Edited(nm).Complete() && nm.a in Edited(nm).Nodes() && Edited(nm).First(replace, nm.a).action == Noop
  {
    hide DiffInputs.First, FieldsOf, Names.Fields, RefMarker;
    EditedInputs(nm);
    EditedDigests(nm);
    CleanRowNoops(Edited(nm), replace, nm.a);
  }

  /** Nothing `a` depends on is recreated, so it stays as it is while `b` moves. */
  lemma EditedMoving(nm: Names, replace: set<Id>)
    requires nm.Apart() && replace <= {nm.c}
    ensures Wellformed(Tagging(nm, 2), Edited(nm))
    ensures var moved := MovingIn(Tagging(nm, 2), Edited(nm), replace); nm.b in moved && nm.a !in moved
  {
    hide DiffInputs.First, DiffInputs.Complete, DiffInputs.Nodes, EdgesOf, FirstPass, Diff, Moving, Tagging, Edited;
    EditedInputs(nm);
    EditedA(nm, replace);
    EditedB(nm, replace);
    var ir, inp := Tagging(nm, 2), Edited(nm);
    FirstIsMoving(ir, inp, replace, nm.b);
    FirstDependsOnNothing(nm);
    var a := DiffHas(ir, inp, replace, nm.a);
    NoopExactly(ir, inp, replace, a);
    MovingExactly(ir, inp, replace, a);
  }

  lemma FirstDependsOnNothing(nm: Names)
    requires nm.Apart()
    ensures forall s :: !ReachPlus(EdgesOf(Tagging(nm, 2)), nm.a, s)
  {
    hide EdgesOf, RefMarker;
    var ir := Tagging(nm, 2);
    ById3(ir);
    assert ir[0] in ir;
    forall d ensures !Step(EdgesOf(ir), nm.a, d) { EdgesOfStep(ir, ir[0], d); }
  }

  /** A mismatch nothing explains is put down to the fields without a record. */
  lemma UnrecordedIsReplace(inp: DiffInputs, want: IRNode, have: StateNode, fields: set<string>)
    requires inp.Complete() && want.id in inp.desired && want.id in inp.prior && inp.desired[want.id] == want
    requires inp.prior[want.id] == have && have.status == Created && want.kind == Resource
    requires have.inputHash != inp.hashes[want.id] && have.inputHash != NoInputHash
    requires ChangedFields(want, have, {}, {}) == {} == Settled(want, inp.VerdictsOf(want.id), {})
    requires UnrecordedFields(want, inp.VerdictsOf(want.id), {}) == fields
    requires ImmutableAmong(fields, FieldsOf(inp.mutability, want.typ)) != {}
    ensures inp.ChangeFor(want.id).action == Replace && inp.ChangeFor(want.id).changedFields == fields
  {
    hide Settled, UnrecordedFields, ChangedFields, ImmutableAmong, HasRefKey, FieldsOf, DiffInputs.Complete;
  }

  /** The first pass finds nothing but the missing record to explain the mismatch. */
  lemma EditedFields(nm: Names, n: IRNode, row: StateNode, verdicts: Verdicts)
    requires nm.Apart() && n.ignoreChanges == [] && n.properties == row.properties
    requires verdicts == map[nm.plain := Unrecorded, nm.fixed := Unrecorded]
    ensures Settled(n, verdicts, {}) == {} && ChangedFields(n, row, {}, {}) == {}
    ensures UnrecordedFields(n, verdicts, {}) == {nm.plain, nm.fixed}
    ensures nm.fixed in ImmutableAmong({nm.plain, nm.fixed}, FieldsOf(nm.Fields(), "t"))
  {
    hide Touches, ChangedFields;
    ChangedNothing(n, row);
    NothingTouchesNothing(n);
    KeptBare(n);
  }

  /** What the judgement of `c` goes by. */
  lemma EditedNode(nm: Names)
    requires nm.Apart()
    ensures nm.c in Edited(nm).desired && nm.c in Edited(nm).prior && nm.c in Edited(nm).hashes
    ensures var inp := Edited(nm);
            var want, have := inp.desired[nm.c], inp.prior[nm.c];
            && want == Tagging(nm, 2)[2] && want.kind == Resource && IsImmutable(FieldsOf(inp.mutability, want.typ), nm.fixed)
            && Unedited(want, have, nm.fixed) && want.properties[nm.fixed] == RefMarker(nm.a, "id")
            && have.properties == want.properties && want.properties.Keys == {nm.plain, nm.fixed}
            && inp.VerdictsOf(nm.c) == map[nm.plain := Unrecorded, nm.fixed := Unrecorded]
            && have.status == Created && have.inputHash.Sha? && have.inputHash != inp.hashes[nm.c]
            && Ordinary(want, have, inp.VerdictsOf(nm.c))
  {
    hide RefMarker, ById, DiffInputs.Complete;
    EditedInputs(nm);
    EditedDigests(nm);
    KeptBare(Tagging(nm, 2)[2]);
  }

  lemma EditedPlanned(nm: Names)
    requires nm.Apart() && Edited(nm).Complete() && nm.c in Edited(nm).Nodes()
    ensures Edited(nm).ChangeFor(nm.c).action == Replace && FORCED_FIELD !in Edited(nm).ChangeFor(nm.c).changedFields
  {
    hide Settled, UnrecordedFields, ChangedFields, ImmutableAmong, FieldsOf, Names.Fields, RefMarker, DiffInputs.ChangeFor,
         DiffInputs.Complete, Edited, Tagging, Unedited, Ordinary, IsImmutable;
    var inp := Edited(nm);
    EditedNode(nm);
    EditedKind(nm);
    EditedFields(nm, inp.desired[nm.c], inp.prior[nm.c], inp.VerdictsOf(nm.c));
    UnrecordedIsReplace(inp, inp.desired[nm.c], inp.prior[nm.c], {nm.plain, nm.fixed});
  }

  lemma EditedKind(nm: Names)
    requires nm.Apart() && nm.c in Edited(nm).desired && Edited(nm).desired[nm.c] == Tagging(nm, 2)[2]
    ensures var n := Edited(nm).desired[nm.c]; n.id == nm.c && n.typ == "t" && n.ignoreChanges == []
    ensures Edited(nm).mutability == nm.Fields()
  {
    hide RefMarker, ById, Names.Fields;
  }

  lemma EditedTakenBack(nm: Names, moved: set<Id>)
    requires nm.Apart() && nm.b in moved && nm.a !in moved
    ensures nm.c in Edited(nm).prior && TakenBack(Edited(nm), Tagging(nm, 2)[2], Edited(nm).prior[nm.c], moved)
  {
    hide Touches, RefMarker, ChangedFields, Settled;
    var inp, n := Edited(nm), Tagging(nm, 2)[2];
    EditedFields(nm, n, inp.prior[nm.c], inp.VerdictsOf(nm.c));
    RefTouches(nm.c, nm.b, moved);
    RefTouches(nm.c, nm.a, moved);
    KeptBare(n);
    assert nm.plain in n.properties;
  }

  /** The rows are those the config left before the edit. */
  lemma EditedRows(nm: Names)
    requires nm.Apart()
    ensures forall n | n in Tagging(nm, 1) ::
              n.id in TaggingHashes(nm, 1) && n.id in Edited(nm).prior &&
              Edited(nm).prior[n.id].inputHash == TaggingHashes(nm, 1)[n.id] && Edited(nm).prior[n.id].properties == n.properties
  {
    hide RefMarker;
  }

  /** With or without `--replace`, `c` is only updated, and not in its immutable field. */
  lemma EditedChange(nm: Names, replace: set<Id>) returns (c: Change)
    requires nm.Apart() && replace <= {nm.c}
    ensures Wellformed(Tagging(nm, 2), Edited(nm))
    ensures c in Diff(Tagging(nm, 2), Edited(nm), replace) && c.nodeId == nm.c && c.nodeId in Edited(nm).prior
    ensures c.action == Update && nm.fixed !in c.changedFields
  {
    hide Diff, TakenBack, MovingIn, Touches, RefMarker, DiffInputs.ChangeFor, DiffInputs.Complete, Tagging, Edited, Names.Apart,
         Unedited, Ordinary, OnlyUnrecorded, Attributed;
    var ir, inp := Tagging(nm, 2), Edited(nm);
    EditedInputs(nm);
    EditedNode(nm);
    EditedMoving(nm, replace);
    var moved := MovingIn(ir, inp, replace);
    EditedTakenBack(nm, moved);
    EditedPlanned(nm);
    c := DiffHas(ir, inp, replace, nm.c);
    TakenBackIsUpdated(ir, inp, replace, c);
    UnrecordedCaughtExactly(ir, inp, replace, c, nm.fixed);
    FixedStays(nm, moved);
    TakenBackMeans(inp, inp.desired[nm.c], inp.prior[nm.c], moved);
  }

  lemma FixedStays(nm: Names, moved: set<Id>)
    requires nm.Apart() && nm.a !in moved
    ensures !Touches(nm.c, RefMarker(nm.a, "id"), moved)
  {
    RefTouches(nm.c, nm.a, moved);
  }

  lemma TakenBackMeans(inp: DiffInputs, want: IRNode, have: StateNode, moved: set<Id>)
    requires TakenBack(inp, want, have, moved)
    ensures Attributed(want, moved)
  {}

  /** A node under `--replace` can end as an UPDATE: its own REPLACE, planned for want of a record, is what the second
   * look takes back. The rows are those the same config left before an edit to another node. */
  lemma ForcedNodeMerelyUpdated() returns (before: IRGraph, h: Hashes, ir: IRGraph, inp: DiffInputs, c: Change)
    ensures IsHashing(before, h) && IsHashing(ir, inp.hashes) && Wellformed(ir, inp)
    ensures forall n | n in before ::
              n.id in h && n.id in inp.prior && inp.prior[n.id].inputHash == h[n.id] && inp.prior[n.id].properties == n.properties
    ensures c in Diff(ir, inp, {c.nodeId}) && c.nodeId in inp.prior && c.action == Update
  {
    hide Diff, IsHashing, Tagging, TaggingHashes, DiffInputs.Complete, Names.Apart;
    var nm := SomeNames();
    before, h, ir, inp := Tagging(nm, 1), TaggingHashes(nm, 1), Tagging(nm, 2), Edited(nm);
    TaggingIsHashing(nm, 1);
    TaggingIsHashing(nm, 2);
    EditedRows(nm);
    c := EditedChange(nm, {nm.c});
  }

  // ---------------------------------------------- an immutable value missed

  /** What `target` reports. */
  function Reporting(target: Id, x: int): Outputs {
    map[target := map["id" := Int(x)]]
  }

  lemma ReferenceMoved(self: Id, target: Id, ops: Ops)
    requires '#' !in target && target != self
    ensures var v := RefMarker(target, "id");
            Resolve(v, Reporting(target, 1), ops) != Resolve(v, Reporting(target, 2), ops) &&
            Reads(v) <= Targets(v) && self !in Targets(v)
  {
    SplitHash(target, "id");
    var v := RefMarker(target, "id");
    assert Resolve(v, Reporting(target, 1), ops) == Some(Int(1)) && Resolve(v, Reporting(target, 2), ops) == Some(Int(2));
    assert Targets(v) == {target} == Reads(v);
  }

  /** An immutable value that really moved can be planned as an UPDATE that does not name it: over rows without a record,
   * what `c` is placed by has moved since `c` was applied, and an edit to what `c` is tagged with hides it. */
  lemma ImmutableMoveMissed()
    returns (ir: IRGraph, inp: DiffInputs, c: Change, f: string, applied: Outputs, stored: Outputs)
    ensures IsHashing(ir, inp.hashes) && Wellformed(ir, inp) && c in Diff(ir, inp, {})
    ensures c.nodeId in inp.desired && c.nodeId in inp.prior && c.action == Update && f !in c.changedFields
    ensures var want, have := inp.desired[c.nodeId], inp.prior[c.nodeId];
            && want.kind == Resource && IsImmutable(FieldsOf(inp.mutability, want.typ), f)
            && Unedited(want, have, f) && Reads(want.properties[f]) <= Targets(want.properties[f])
            && forall ops :: ValueMoved(want, have, f, applied, stored, ops) &&
                             VerdictsComplete(want, have, inp.VerdictsOf(c.nodeId), applied, stored, ops)
  {
    hide Diff, IsHashing, Wellformed, Tagging, Edited, RefMarker, Reporting, Resolve, Reads, Targets, IsImmutable, FieldsOf,
         Ordinary;
    var nm := SomeNames();
    ir, inp, f := Tagging(nm, 2), Edited(nm), nm.fixed;
    applied, stored := Reporting(nm.a, 1), Reporting(nm.a, 2);
    EditedHashes(nm);
    EditedNode(nm);
    c := EditedChange(nm, {});
    forall ops: Ops
      ensures ValueMoved(inp.desired[nm.c], inp.prior[nm.c], f, applied, stored, ops)
      ensures VerdictsComplete(inp.desired[nm.c], inp.prior[nm.c], inp.VerdictsOf(nm.c), applied, stored, ops)
    {
      ReferenceMoved(nm.c, nm.a, ops);
    }
    ReferenceMoved(nm.c, nm.a, (op, args) => None);
  }

  lemma EditedHashes(nm: Names)
    requires nm.Apart() && Text.Less(nm.a, nm.b)
    ensures IsHashing(Tagging(nm, 2), Edited(nm).hashes)
  {
    hide IsHashing, Tagging, TaggingHashes;
    TaggingIsHashing(nm, 2);
  }
}
