/** How one node is judged against its stored row: updated, replaced, or left to the apply to decide. */
module Classify {
  import opened Graphs
  import opened Values
  import opened Ir

  // ----------------------------------------------- moved upstreams

  /** The verdict on a field that refers upstream: its value is no longer the recorded one, or no record was kept. */
  datatype Consumed = Moved | Unrecorded

  type Verdicts = map<string, Consumed>

  /** The value refers to some moving node other than the one it belongs to. */
  predicate Touches(self: Id, value: Value, moved: set<Id>) {
    exists t | t in Targets(value) :: t in moved && t != self
  }

  /** Fields whose recorded value is out of date though nothing they refer to is moving. */
  function Settled(desired: IRNode, verdicts: Verdicts, moved: set<Id>): set<string> {
    set f | f in verdicts && verdicts[f] == Moved && !Touches(desired.id, desired.Field(f), moved)
  }

  /** Fields without a record, of which only a digest mismatch can say anything. */
  function UnrecordedFields(desired: IRNode, verdicts: Verdicts, moved: set<Id>): set<string> {
    set f | f in verdicts && verdicts[f] == Unrecorded && f !in desired.Ignored() &&
            !Touches(desired.id, desired.Field(f), moved)
  }

  // -------------------------------------------------------------- classification

  /** Fields whose expression changed, whose upstream is moving, or whose recorded value is out of date, ignored ones aside. */
  function ChangedFields(desired: IRNode, prior: StateNode, moved: set<Id>, known: set<string>): set<string> {
    var differs := set f | f in desired.properties &&
                           (f !in prior.properties || desired.properties[f] != prior.properties[f]);
    var dropped := set f | f in prior.properties && f !in desired.properties;
    var behind := set f | f in desired.properties && Touches(desired.id, desired.properties[f], moved);
    (differs + dropped + behind + known) - desired.Ignored()
  }

  function ImmutableAmong(changed: set<string>, muts: FieldMutability): set<string> {
    set f | f in changed && IsImmutable(muts, f)
  }

  /** The judgement of a node whose digest or record does not clear it: a REPLACE when an immutable field is among the
   * changed ones, else an UPDATE. */
  function ClassifyNode(desired: IRNode, prior: StateNode, muts: FieldMutability, moved: set<Id>,
                        verdicts: Verdicts, unexplained: bool): Change
  {
    var known := Settled(desired, verdicts, moved);
    var symbolic := ChangedFields(desired, prior, moved, known);
    var changed := if unexplained && symbolic == {} then UnrecordedFields(desired, verdicts, moved) else symbolic;
    var immutable := ImmutableAmong(changed, muts);
    var base := Plain(desired.id, Update, Some(desired), Some(prior)).(
                  changedFields := changed, upstreamMoved := changed * known);
    if desired.kind == Data || immutable == {} then base
    else base.(action := Replace,
               conditional := forall f | f in immutable :: HasRefKey(desired.Field(f)) && f !in known,
               createBeforeDestroy := desired.createBeforeDestroy)
  }

  /** The effect of `--replace` on one change. */
  function Forced(change: Change): Change {
    if change.action == Delete || change.action == Replace || change.desired.None? || change.prior.None? then change
    else Plain(change.nodeId, Replace, change.desired, change.prior).(
           changedFields := {FORCED_FIELD}, createBeforeDestroy := change.desired.value.createBeforeDestroy)
  }

  /** Compares a field's resolved value with its recorded digest; `None` where the digest is of no known scheme. */
  type RecordedMatch = (string, Value, string) -> Option<bool>

  /** The values the second comparison starts from. One the record contradicts is left out, and so differs from anything. */
  function RecordedPrior(desired: Properties, prior: Properties, recorded: map<string, string>,
                         matches: RecordedMatch): Properties
  {
    map f | f in prior.Keys + (recorded.Keys * desired.Keys) &&
            (if f in recorded && f in desired && matches(f, desired[f], recorded[f]).Some?
             then matches(f, desired[f], recorded[f]).value
             else f in prior)
        :: if f in recorded && f in desired && matches(f, desired[f], recorded[f]).Some? then desired[f] else prior[f]
  }

  /** The judgement repeated at apply, with every value known. */
  function Reclassify(change: Change, desired: Properties, prior: Properties, muts: FieldMutability,
                      recorded: map<string, string>, matches: RecordedMatch): Change
    requires change.desired.Some? && change.prior.Some?
  {
    var before := RecordedPrior(desired, prior, recorded, matches);
    var redone := ClassifyNode(change.desired.value.(properties := desired),
                              change.prior.value.(properties := before), muts, {}, map[], false);
    if redone.action == Replace then change
    else change.(action := if redone.changedFields != {} then Update else Noop, changedFields := redone.changedFields,
                 conditional := false, createBeforeDestroy := false)
  }

  /** With its values known, the field moved since the row was applied: by the row's record where that can be
   * checked, by comparison with the stored row otherwise. */
  predicate MovedSinceApply(f: string, desired: Properties, prior: Properties, recorded: map<string, string>,
                            matches: RecordedMatch)
  {
    if f in recorded && f in desired && matches(f, desired[f], recorded[f]).Some? then
      !matches(f, desired[f], recorded[f]).value
    else if f in desired then f !in prior || desired[f] != prior[f]
    else f in prior
  }

  /** The fields that moved, ignored ones aside. */
  function MovedFields(node: IRNode, desired: Properties, prior: Properties, recorded: map<string, string>,
                       matches: RecordedMatch): set<string>
  {
    set f | f in desired.Keys + prior.Keys && MovedSinceApply(f, desired, prior, recorded, matches) && f !in node.Ignored()
  }

  /** Main result at apply: a conditional REPLACE stands exactly when an immutable value really moved; otherwise the
   * node is updated in the fields that moved, or left alone when none did. */
  lemma ReclassifiedExactly(change: Change, desired: Properties, prior: Properties, muts: FieldMutability,
                            recorded: map<string, string>, matches: RecordedMatch)
    requires change.desired.Some? && change.prior.Some? && change.desired.value.kind == Resource
    ensures var moved := MovedFields(change.desired.value, desired, prior, recorded, matches);
            var r := Reclassify(change, desired, prior, muts, recorded, matches);
            if ImmutableAmong(moved, muts) != {} then r == change
            else r == change.(action := if moved != {} then Update else Noop, changedFields := moved,
                              conditional := false, createBeforeDestroy := false)
  {
    var node := change.desired.value;
    var want, have := node.(properties := desired),
                      change.prior.value.(properties := RecordedPrior(desired, prior, recorded, matches));
    assert Settled(want, map[], {}) == {};
    assert want.Ignored() == node.Ignored();
    assert ChangedFields(want, have, {}, {}) == MovedFields(node, desired, prior, recorded, matches);
  }

  // ------------------------------------------------------------- what they mean

  /** A field whose value resolves differently now from when the row was applied. */
  ghost predicate ValueMoved(want: IRNode, have: StateNode, f: string, applied: Outputs, now: Outputs, ops: Ops) {
    f in want.properties &&
    (f in have.properties ==> Resolve(want.properties[f], now, ops) != Resolve(have.properties[f], applied, ops))
  }

  /** Outside `moved` (and the node itself, which it cannot refer to) the outputs are unchanged. */
  ghost predicate MovedOnly(o: Outputs, p: Outputs, moved: set<Id>) {
    forall id :: id !in moved ==> SameAt(o, p, id)
  }

  /** The config left the field as the row has it, and does not ignore it. */
  predicate Unedited(want: IRNode, have: StateNode, f: string) {
    f in want.properties && f in have.properties && want.properties[f] == have.properties[f] && f !in want.Ignored()
  }

  /** The verdicts name every unedited field whose stored upstreams resolve differently from when it was applied. */
  ghost predicate VerdictsComplete(want: IRNode, have: StateNode, verdicts: Verdicts, applied: Outputs, stored: Outputs, ops: Ops) {
    forall f :: Unedited(want, have, f) && Resolve(have.properties[f], applied, ops) != Resolve(have.properties[f], stored, ops)
      ==> f in verdicts
  }

  /** The symbolic comparison misses no value: a field it leaves out resolves to what it was applied with. */
  lemma UnchangedFieldKeepsItsValue(want: IRNode, have: StateNode, moved: set<Id>, verdicts: Verdicts, f: string,
                                    applied: Outputs, stored: Outputs, now: Outputs, ops: Ops)
    requires f in want.properties && f !in want.Ignored()
    requires Reads(want.properties[f]) <= Targets(want.properties[f]) && want.id !in Targets(want.properties[f])
    requires MovedOnly(stored, now, moved) && VerdictsComplete(want, have, verdicts, applied, stored, ops)
    requires f in verdicts ==> verdicts[f] == Moved
    requires f !in ChangedFields(want, have, moved, Settled(want, verdicts, moved))
    ensures f in have.properties && have.properties[f] == want.properties[f]
    ensures Resolve(want.properties[f], now, ops) == Resolve(have.properties[f], applied, ops)
  {
    var v := want.properties[f];
    assert !Touches(want.id, v, moved);
    forall id | id in Reads(v) ensures SameAt(stored, now, id) { assert id in Targets(v); }
    ResolveFrame(v, stored, now, ops);
    assert Unedited(want, have, f);
    assert f !in Settled(want, verdicts, moved);
  }

  /** A real move of an immutable value is planned as a REPLACE, never as an UPDATE. */
  lemma ImmutableMoveIsReplace(want: IRNode, have: StateNode, muts: FieldMutability, moved: set<Id>, verdicts: Verdicts,
                               unexplained: bool, f: string, applied: Outputs, stored: Outputs, now: Outputs, ops: Ops)
    requires f !in want.Ignored() && IsImmutable(muts, f) && want.kind == Resource
    requires ValueMoved(want, have, f, applied, now, ops)
    requires Reads(want.properties[f]) <= Targets(want.properties[f]) && want.id !in Targets(want.properties[f])
    requires MovedOnly(stored, now, moved) && VerdictsComplete(want, have, verdicts, applied, stored, ops)
    requires f in verdicts ==> verdicts[f] == Moved
    ensures var c := ClassifyNode(want, have, muts, moved, verdicts, unexplained);
            c.action == Replace && f in c.changedFields
  {
    if f !in ChangedFields(want, have, moved, Settled(want, verdicts, moved)) {
      UnchangedFieldKeepsItsValue(want, have, moved, verdicts, f, applied, stored, now, ops);
    }
    var c := ClassifyNode(want, have, muts, moved, verdicts, unexplained);
    assert f in ImmutableAmong(c.changedFields, muts);
  }
}
