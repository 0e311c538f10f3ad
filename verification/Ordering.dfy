/** The order of replacements: which create their successor first, and which cannot wait for the apply to decide. */
module Ordering {
  import opened Graphs
  import opened Values
  import opened Ir
  import opened Classify
  import Text

  /** The flag the diff raises on replacements of nodes in `cbd`, and never lowers. */
  function CreateFirst(c: Change, cbd: set<Id>): Change {
    if c.action == Replace && c.nodeId in cbd then c.(createBeforeDestroy := true) else c
  }

  // -------------------------------------------------- colliding replacements

  /** `row.properties.get(name)`. */
  function RowField(row: StateNode, name: string): Value {
    if name in row.properties then row.properties[name] else Null
  }

  /** The plan's REPLACEs know both sides. */
  ghost predicate ReplacesComplete(cs: ChangeSet) {
    forall c :: c in cs && c.action == Replace ==> c.desired.Some? && c.prior.Some?
  }

  /** Old and new resource could not exist side by side: the field `names` gives for the type is unchanged or, for a type it
   * does not list, so is every immutable field. */
  predicate CbdCollides(c: Change, names: map<string, string>, mutability: TypeMutability)
    requires c.action == Replace ==> c.desired.Some? && c.prior.Some?
  {
    c.action == Replace && c.createBeforeDestroy &&
    var typ := c.desired.value.typ;
    if typ in names then c.desired.value.Field(names[typ]) == RowField(c.prior.value, names[typ])
    else ImmutableAmong(c.changedFields, FieldsOf(mutability, typ)) == {}
  }

  /** The other declared nodes that keep `n` create-before-destroy. */
  function OtherForcers(forcers: map<Id, set<Id>>, n: Id): set<Id> {
    if n in forcers then forcers[n] - {n} else {}
  }

  datatype Resolution =
    | Resolved(changes: ChangeSet, downgraded: seq<Id>)
    | Conflicts(conflicts: seq<(Id, seq<Id>)>)

  predicate IsConflict(c: Change, names: map<string, string>, mutability: TypeMutability, forcers: map<Id, set<Id>>)
    requires c.action == Replace ==> c.desired.Some? && c.prior.Some?
  {
    CbdCollides(c, names, mutability) && OtherForcers(forcers, c.nodeId) != {}
  }

  function Downgraded(c: Change, names: map<string, string>, mutability: TypeMutability): Change
    requires c.action == Replace ==> c.desired.Some? && c.prior.Some?
  {
    if CbdCollides(c, names, mutability) then c.(createBeforeDestroy := false) else c
  }

  function ConflictOf(c: Change, forcers: map<Id, set<Id>>): (Id, seq<Id>) {
    (c.nodeId, Text.Sorted(OtherForcers(forcers, c.nodeId)))
  }

  /** Exactly the conflicting changes are named, each with the dependents that forbid its downgrade. */
  ghost predicate NamesConflicts(cs: ChangeSet, names: map<string, string>, mutability: TypeMutability, forcers: map<Id, set<Id>>,
                                 conflicts: seq<(Id, seq<Id>)>)
    requires ReplacesComplete(cs)
  {
    && (forall p :: p in conflicts ==>
          exists c :: c in cs && IsConflict(c, names, mutability, forcers) && p == ConflictOf(c, forcers))
    && (forall c :: c in cs && IsConflict(c, names, mutability, forcers) ==> ConflictOf(c, forcers) in conflicts)
  }

  lemma ConflictsSnoc(cs: ChangeSet, c: Change, names: map<string, string>, mutability: TypeMutability,
                      forcers: map<Id, set<Id>>, conflicts: seq<(Id, seq<Id>)>, more: seq<(Id, seq<Id>)>)
    requires ReplacesComplete(cs) && ReplacesComplete(cs + [c]) && c in cs + [c]
    requires NamesConflicts(cs, names, mutability, forcers, conflicts)
    requires more == if IsConflict(c, names, mutability, forcers) then conflicts + [ConflictOf(c, forcers)] else conflicts
    ensures NamesConflicts(cs + [c], names, mutability, forcers, more)
  {
    hide IsConflict, ConflictOf, ReplacesComplete;
    assert forall d :: d in cs + [c] <==> d in cs || d == c;
  }

  /** Every colliding change loses its flag, unless some of them have to keep it: those are then named. */
  method ResolveCbd(cs: ChangeSet, names: map<string, string>, mutability: TypeMutability, forcers: map<Id, set<Id>>)
    returns (r: Resolution)
    requires ReplacesComplete(cs)
    ensures r.Resolved? <==> forall c :: c in cs ==> !IsConflict(c, names, mutability, forcers)
    ensures r.Resolved? ==> |r.changes| == |cs| &&
                            forall i :: 0 <= i < |cs| ==> r.changes[i] == Downgraded(cs[i], names, mutability)
    ensures r.Resolved? ==> forall n :: n in r.downgraded <==>
                                        exists c :: c in cs && c.nodeId == n && CbdCollides(c, names, mutability)
    ensures r.Conflicts? ==> NamesConflicts(cs, names, mutability, forcers, r.conflicts)
  {
    hide CbdCollides, OtherForcers, IsConflict, NamesConflicts, Text.Sorted;
    var changes: ChangeSet := [];
    var warnings: seq<Id> := [];
    var conflicts: seq<(Id, seq<Id>)> := [];
    NoConflictsYet(names, mutability, forcers);
    for i := 0 to |cs|
      invariant ReplacesComplete(cs[..i]) && NamesConflicts(cs[..i], names, mutability, forcers, conflicts)
      invariant conflicts == [] <==> forall j :: 0 <= j < i ==> !IsConflict(cs[j], names, mutability, forcers)
      invariant conflicts == [] ==> |changes| == i && forall j :: 0 <= j < i ==> changes[j] == Downgraded(cs[j], names, mutability)
      invariant conflicts == [] ==> forall n :: n in warnings <==>
                  exists j :: 0 <= j < i && cs[j].nodeId == n && CbdCollides(cs[j], names, mutability)
    {
      var c := cs[i];
      assert cs[..i + 1] == cs[..i] + [c] && c in cs;
      CompletePrefix(cs, i + 1);
      ghost var before := conflicts;
      ConflictMeans(c, names, mutability, forcers);
      if !CbdCollides(c, names, mutability) {
        changes := changes + [c];
      } else {
        var dependents := Text.Sorted(OtherForcers(forcers, c.nodeId));
        if dependents != [] {
          conflicts := conflicts + [(c.nodeId, dependents)];
        } else {
          changes := changes + [c.(createBeforeDestroy := false)];
          warnings := warnings + [c.nodeId];
        }
      }
      ConflictsSnoc(cs[..i], c, names, mutability, forcers, before, conflicts);
    }
    assert cs[..|cs|] == cs;
    r := if conflicts != [] then Conflicts(conflicts) else Resolved(changes, warnings);
  }

  lemma CompletePrefix(cs: ChangeSet, n: nat)
    requires ReplacesComplete(cs) && n <= |cs|
    ensures ReplacesComplete(cs[..n])
  {
    assert forall c :: c in cs[..n] ==> c in cs;
  }

  lemma ConflictMeans(c: Change, names: map<string, string>, mutability: TypeMutability, forcers: map<Id, set<Id>>)
    requires c.action == Replace ==> c.desired.Some? && c.prior.Some?
    ensures IsConflict(c, names, mutability, forcers) <==>
            CbdCollides(c, names, mutability) && Text.Sorted(OtherForcers(forcers, c.nodeId)) != []
  {
    hide CbdCollides, OtherForcers;
    assert |Text.Sorted(OtherForcers(forcers, c.nodeId))| == |OtherForcers(forcers, c.nodeId)|;
  }

  lemma NoConflictsYet(names: map<string, string>, mutability: TypeMutability, forcers: map<Id, set<Id>>)
    ensures NamesConflicts([], names, mutability, forcers, [])
  {}

  // ------------------------------------------------- behind a destroy-first delete

  /** The old resource is gone by the time the new one is created. */
  predicate DestroyedFirst(c: Change) {
    c.action == Replace && !c.createBeforeDestroy && c.prior.Some?
  }

  function FirstIds(cs: ChangeSet): set<Id> {
    set c | c in cs && DestroyedFirst(c) :: c.nodeId
  }

  /** A conditional REPLACE with a changed immutable reference into `first`. */
  predicate Behind(c: Change, first: set<Id>, mutability: TypeMutability) {
    c.action == Replace && c.conditional && c.desired.Some? &&
    exists f | f in c.changedFields ::
      IsImmutable(FieldsOf(mutability, c.desired.value.typ), f) && Touches(c.desired.value.id, c.desired.value.Field(f), first)
  }

  lemma BehindMonotone(c: Change, first: set<Id>, more: set<Id>, mutability: TypeMutability)
    requires first <= more && Behind(c, first, mutability)
    ensures Behind(c, more, mutability)
  {
    var f :| f in c.changedFields && IsImmutable(FieldsOf(mutability, c.desired.value.typ), f) &&
             Touches(c.desired.value.id, c.desired.value.Field(f), first);
    assert Touches(c.desired.value.id, c.desired.value.Field(f), more);
  }

  /** The ids a round adds to the destroyed-first ones. */
  function Joining(cs: ChangeSet, first: set<Id>, mutability: TypeMutability): set<Id> {
    set c | c in cs && Behind(c, first, mutability) && !c.createBeforeDestroy :: c.nodeId
  }

  function AllIds(cs: ChangeSet): set<Id> {
    set c | c in cs :: c.nodeId
  }

  /** The least set holding `first` that no round adds to. */
  function Fixpoint(cs: ChangeSet, first: set<Id>, mutability: TypeMutability): (r: set<Id>)
    ensures first <= r
    ensures Joining(cs, r, mutability) <= r
    decreases |AllIds(cs) - first|
  {
    var joining := Joining(cs, first, mutability);
    if joining <= first then first
    else
      assert joining <= AllIds(cs);
      SmallerSet(AllIds(cs) - (first + joining), AllIds(cs) - first);
      Fixpoint(cs, first + joining, mutability)
  }

  lemma {:induction false} FixpointLeast(cs: ChangeSet, first: set<Id>, mutability: TypeMutability, closed: set<Id>)
    requires first <= closed && Joining(cs, closed, mutability) <= closed
    ensures Fixpoint(cs, first, mutability) <= closed
    decreases |AllIds(cs) - first|
  {
    var joining := Joining(cs, first, mutability);
    if !(joining <= first) {
      forall n | n in joining ensures n in closed {
        var c :| c in cs && Behind(c, first, mutability) && !c.createBeforeDestroy && c.nodeId == n;
        BehindMonotone(c, first, closed, mutability);
        assert n in Joining(cs, closed, mutability);
      }
      assert joining <= AllIds(cs);
      SmallerSet(AllIds(cs) - (first + joining), AllIds(cs) - first);
      FixpointLeast(cs, first + joining, mutability, closed);
    }
  }

  /** The changes that become unconditional. */
  predicate IsPinned(c: Change, cs: ChangeSet, mutability: TypeMutability) {
    Behind(c, Fixpoint(cs, FirstIds(cs), mutability), mutability)
  }

  function Unconditional(c: Change): Change {
    c.(conditional := false)
  }

  /** The changes with those that are pinned made unconditional. */
  function BehindDestroyFirst(cs: ChangeSet, mutability: TypeMutability): (r: ChangeSet)
    ensures |r| == |cs|
    ensures forall i :: 0 <= i < |cs| ==> r[i] == if IsPinned(cs[i], cs, mutability) then Unconditional(cs[i]) else cs[i]
  {
    seq(|cs|, i requires 0 <= i < |cs| => if IsPinned(cs[i], cs, mutability) then Unconditional(cs[i]) else cs[i])
  }

  /** What every state of the growing loop keeps: nothing is pinned that the fixpoint does not pin. */
  ghost predicate Growing(cs: ChangeSet, first: set<Id>, pinned: set<Id>, mutability: TypeMutability) {
    var goal := Fixpoint(cs, FirstIds(cs), mutability);
    && FirstIds(cs) <= first <= goal
    && pinned <= AllIds(cs)
    && forall c :: c in cs && c.nodeId in pinned ==> Behind(c, goal, mutability) && (c.createBeforeDestroy || c.nodeId in first)
  }

  /** The first `n` changes hold none that is behind `first` and not yet pinned. */
  ghost predicate Swept(cs: ChangeSet, n: nat, first: set<Id>, pinned: set<Id>, mutability: TypeMutability)
    requires n <= |cs|
  {
    forall i :: 0 <= i < n && Behind(cs[i], first, mutability) ==> cs[i].nodeId in pinned
  }

  lemma GrowingStep(cs: ChangeSet, first: set<Id>, pinned: set<Id>, mutability: TypeMutability, c: Change)
    requires DistinctChanges(cs) && Growing(cs, first, pinned, mutability)
    requires c in cs && Behind(c, first, mutability)
    ensures Growing(cs, if c.createBeforeDestroy then first else first + {c.nodeId}, pinned + {c.nodeId}, mutability)
  {
    hide Behind, Fixpoint, FirstIds;
    var goal := Fixpoint(cs, FirstIds(cs), mutability);
    BehindMonotone(c, first, goal, mutability);
    assert !c.createBeforeDestroy ==> c.nodeId in Joining(cs, goal, mutability);
    forall d | d in cs && d.nodeId == c.nodeId ensures d == c {
      var i, j :| 0 <= i < |cs| && 0 <= j < |cs| && cs[i] == d && cs[j] == c;
    }
  }

  lemma GrownEnough(cs: ChangeSet, first: set<Id>, pinned: set<Id>, mutability: TypeMutability, c: Change)
    requires Growing(cs, first, pinned, mutability) && Swept(cs, |cs|, first, pinned, mutability) && c in cs
    ensures c.nodeId in pinned <==> IsPinned(c, cs, mutability)
  {
    hide Behind, Fixpoint, FirstIds;
    forall n | n in Joining(cs, first, mutability) ensures n in first {
      var d :| d in cs && Behind(d, first, mutability) && !d.createBeforeDestroy && d.nodeId == n;
    }
    FixpointLeast(cs, FirstIds(cs), mutability, first);
    assert first == Fixpoint(cs, FirstIds(cs), mutability);
    var i :| 0 <= i < |cs| && cs[i] == c;
  }

  /** The in-place growth of `first` and `pinned`, round after round. */
  method PinBehindDestroyFirst(cs: ChangeSet, mutability: TypeMutability) returns (r: ChangeSet)
    requires DistinctChanges(cs)
    ensures r == BehindDestroyFirst(cs, mutability)
  {
    hide Behind, Fixpoint, FirstIds, Growing, Swept;
    var first := FirstIds(cs);
    var pinned: set<Id> := {};
    var grew := true;
    GrowingStarts(cs, mutability);
    while grew
      invariant Growing(cs, first, pinned, mutability)
      invariant !grew ==> Swept(cs, |cs|, first, pinned, mutability)
      decreases |AllIds(cs) - pinned|, grew
    {
      ghost var start := pinned;
      grew := false;
      SweptNone(cs, first, pinned, mutability);
      for i := 0 to |cs|
        invariant Growing(cs, first, pinned, mutability)
        invariant if grew then start < pinned else pinned == start
        invariant !grew ==> Swept(cs, i, first, pinned, mutability)
      {
        var c := cs[i];
        SweptNext(cs, i, first, pinned, mutability);
        if c.nodeId !in pinned && Behind(c, first, mutability) {
          GrowingStep(cs, first, pinned, mutability, c);
          pinned := pinned + {c.nodeId};
          if !c.createBeforeDestroy { first := first + {c.nodeId}; }
          grew := true;
        }
      }
      GrowingBound(cs, first, pinned, mutability);
      if grew { SmallerSet(AllIds(cs) - pinned, AllIds(cs) - start); }
    }
    forall c | c in cs ensures c.nodeId in pinned <==> IsPinned(c, cs, mutability) {
      GrownEnough(cs, first, pinned, mutability, c);
    }
    r := seq(|cs|, i requires 0 <= i < |cs| => if cs[i].nodeId in pinned then Unconditional(cs[i]) else cs[i]);
  }

  lemma GrowingStarts(cs: ChangeSet, mutability: TypeMutability)
    ensures Growing(cs, FirstIds(cs), {}, mutability)
  {}

  lemma GrowingBound(cs: ChangeSet, first: set<Id>, pinned: set<Id>, mutability: TypeMutability)
    requires Growing(cs, first, pinned, mutability)
    ensures pinned <= AllIds(cs)
  {}

  lemma SweptNone(cs: ChangeSet, first: set<Id>, pinned: set<Id>, mutability: TypeMutability)
    ensures Swept(cs, 0, first, pinned, mutability)
  {}

  lemma SweptNext(cs: ChangeSet, n: nat, first: set<Id>, pinned: set<Id>, mutability: TypeMutability)
    requires n < |cs|
    ensures (Behind(cs[n], first, mutability) ==> cs[n].nodeId in pinned) && Swept(cs, n, first, pinned, mutability) ==>
              Swept(cs, n + 1, first, pinned, mutability)
  {
    hide Behind;
  }

  // ------------------------------------------------------------------ meaning

  lemma SameFirstIds(cs: ChangeSet, mutability: TypeMutability)
    ensures FirstIds(BehindDestroyFirst(cs, mutability)) == FirstIds(cs)
  {
    var r := BehindDestroyFirst(cs, mutability);
    forall n | n in FirstIds(cs) ensures n in FirstIds(r) {
      var c :| c in cs && DestroyedFirst(c) && c.nodeId == n;
      var i :| 0 <= i < |cs| && cs[i] == c;
      assert r[i] in r && DestroyedFirst(r[i]);
    }
    forall n | n in FirstIds(r) ensures n in FirstIds(cs) {
      var c :| c in r && DestroyedFirst(c) && c.nodeId == n;
      var i :| 0 <= i < |r| && r[i] == c;
      assert cs[i] in cs && DestroyedFirst(cs[i]);
    }
  }

  lemma NoneBehindGoal(cs: ChangeSet, mutability: TypeMutability, c: Change)
    requires c in BehindDestroyFirst(cs, mutability)
    ensures !Behind(c, Fixpoint(cs, FirstIds(cs), mutability), mutability)
  {
    var r := BehindDestroyFirst(cs, mutability);
    var i :| 0 <= i < |r| && r[i] == c;
  }

  /** Afterwards no conditional REPLACE is left behind a destroy-first one. */
  lemma NothingLeftBehind(cs: ChangeSet, mutability: TypeMutability, c: Change)
    requires c in BehindDestroyFirst(cs, mutability)
    ensures !Behind(c, FirstIds(BehindDestroyFirst(cs, mutability)), mutability)
  {
    SameFirstIds(cs, mutability);
    NoneBehindGoal(cs, mutability, c);
    if Behind(c, FirstIds(cs), mutability) {
      BehindMonotone(c, FirstIds(cs), Fixpoint(cs, FirstIds(cs), mutability), mutability);
    }
  }

  /** When every REPLACE records its prior row, a change is pinned exactly when its own reference points at
   * a destroy-first REPLACE: the set the fixpoint starts from is already closed. */
  lemma PinnedExactly(cs: ChangeSet, mutability: TypeMutability, c: Change)
    requires ReplacesComplete(cs)
    ensures IsPinned(c, cs, mutability) <==> Behind(c, FirstIds(cs), mutability)
  {
    forall n | n in Joining(cs, FirstIds(cs), mutability) ensures n in FirstIds(cs) {
      var d :| d in cs && Behind(d, FirstIds(cs), mutability) && !d.createBeforeDestroy && d.nodeId == n;
      assert DestroyedFirst(d);
    }
    FixpointLeast(cs, FirstIds(cs), mutability, FirstIds(cs));
  }

  /** A second pass changes nothing. */
  lemma BehindIdempotent(cs: ChangeSet, mutability: TypeMutability)
    ensures BehindDestroyFirst(BehindDestroyFirst(cs, mutability), mutability) == BehindDestroyFirst(cs, mutability)
  {
    hide Behind, Fixpoint, FirstIds, DestroyedFirst;
    var r := BehindDestroyFirst(cs, mutability);
    var goal := Fixpoint(cs, FirstIds(cs), mutability);
    SameFirstIds(cs, mutability);
    forall c | c in r ensures !Behind(c, goal, mutability) { NoneBehindGoal(cs, mutability, c); }
    FixpointLeast(r, FirstIds(cs), mutability, goal);
    forall c | c in r ensures !IsPinned(c, r, mutability) {
      if Behind(c, Fixpoint(r, FirstIds(r), mutability), mutability) {
        BehindMonotone(c, Fixpoint(r, FirstIds(r), mutability), goal, mutability);
      }
    }
  }
}
