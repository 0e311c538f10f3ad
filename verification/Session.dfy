/** One run's writes and lease renewals, interleaved with its pool threads and with other owners. */
module Session {
  import opened Graphs
  import opened Values
  import opened Ir
  import opened Store
  import StoreRuns
  import Gate
  import Text

  /** The parameters of one run. */
  datatype Terms = Terms(owner: string, ttl: real, scope: set<Id>, loop: Gate.Thread)

  /** A lock call made through `StateWriter.call`. */
  datatype LockCall = Renew | Bind(lease: Lease) | Unbind | Release

  /** What the event-loop thread is doing. It blocks from entering a lock call until the call returns; a successful
   * renewal is followed by its rebind before the loop does anything else, and so is the unbind by the release. */
  datatype Loop =
    | Free
    | Asking(call: LockCall)
    | Calling(call: LockCall)
    | Returning(next: Loop)
    | Renewed(lease: Lease)
    | Lost
    | Unbound
    | Ended(released: bool)

  /** A submitted write: queued or running on the pool, then landed, its shared hold still to be released. */
  datatype Progress = Queued(row: StateNode) | Landed(outcome: Option<WriteRefusal>)

  datatype State = State(
    store: Contents,
    bound: Option<Lease>,
    gate: Gate.State,
    loop: Loop,
    writes: map<Gate.Thread, Progress>)

  datatype Move =
    | Submit(w: Gate.Thread, row: StateNode)
    | RunWrite(w: Gate.Thread, at: real)
    | LeaveWrite(w: Gate.Thread)
    | StartRenewal
    | StartRebind
    | AskAgain(spurious: bool)
    | DoRenew(at: real)
    | RenewRaises
    | DoBind
    | StartUnbind
    | DoUnbind
    | UnbindRaises
    | StartRelease
    | DoRelease
    | ReleaseRaises
    | Return
    | Foreign(event: StoreRuns.Event)

  /** Another owner's call: it neither acquires nor releases in this run's name. */
  predicate IsForeign(terms: Terms, e: StoreRuns.Event) {
    match e
    case Acquire(o, _, _, _) => o != terms.owner
    case Release(o) => o != terms.owner
    case _ => true
  }

  predicate Enabled(terms: Terms, s: State, m: Move) {
    match m
    case Submit(w, _) =>
      (s.loop == Free || s.loop == Lost) && w != terms.loop && w !in s.writes && Gate.Enabled(s.gate, Gate.EnterShared, w) &&
      !(s.gate.exclusive || s.gate.exclusiveWaiting != 0)
    case RunWrite(w, _) => w in s.writes && s.writes[w].Queued?
    case LeaveWrite(w) => w in s.writes && s.writes[w].Landed? && Gate.Enabled(s.gate, Gate.LeaveShared, w)
    case StartRenewal => s.loop == Free && Gate.Enabled(s.gate, Gate.EnterExclusive, terms.loop)
    case StartRebind => s.loop.Renewed? && Gate.Enabled(s.gate, Gate.EnterExclusive, terms.loop)
    case AskAgain(spurious) =>
      s.loop.Asking? && Gate.Enabled(s.gate, if spurious then Gate.SpuriousWake else Gate.WakeExclusive, terms.loop)
    case DoRenew(_) => s.loop == Calling(Renew)
    case RenewRaises => s.loop == Calling(Renew)
    case DoBind => s.loop.Calling? && s.loop.call.Bind?
    case StartUnbind => (s.loop == Free || s.loop == Lost) && Gate.Enabled(s.gate, Gate.EnterExclusive, terms.loop)
    case DoUnbind => s.loop == Calling(Unbind)
    case UnbindRaises => s.loop == Calling(Unbind)
    case StartRelease => s.loop == Unbound && Gate.Enabled(s.gate, Gate.EnterExclusive, terms.loop)
    case DoRelease => s.loop == Calling(Release)
    case ReleaseRaises => s.loop == Calling(Release)
    case Return => s.loop.Returning? && Gate.Enabled(s.gate, Gate.LeaveExclusive, terms.loop)
    case Foreign(e) => IsForeign(terms, e)
  }

  /** The loop enters the gate exclusively, or tries again: it calls once it holds the gate. */
  function Entered(terms: Terms, s: State, gate: Gate.State, call: LockCall): State {
    s.(gate := gate,
       loop := if terms.loop in gate.places && gate.places[terms.loop] == Gate.HoldingExclusive then Calling(call)
               else Asking(call))
  }

  function RenewedState(terms: Terms, s: State, at: real): State {
    if ScopeConflict(s.store.holds, terms.owner, at, terms.scope).Some? then s.(loop := Returning(Lost))
    else s.(store := Acquired(s.store, terms.owner, terms.ttl, terms.scope, at),
            loop := Returning(Renewed(AcquiredLease(s.store, terms.owner, terms.ttl, terms.scope, at))))
  }

  /** One `put` on a pool thread, fenced against whatever lease is bound when it runs. */
  function RanState(s: State, w: Gate.Thread, at: real): State
    requires w in s.writes && s.writes[w].Queued?
  {
    var row := s.writes[w].row;
    var refused := FenceViolation(s.bound, s.store.holds, at, {row.id});
    s.(store := if refused.None? then Written(s.store, [], [row]) else s.store, writes := s.writes[w := Landed(refused)])
  }

  function Next(terms: Terms, s: State, m: Move): State
    requires Enabled(terms, s, m)
  {
    match m
    case Submit(w, row) => s.(gate := Gate.Next(s.gate, Gate.EnterShared, w), writes := s.writes[w := Queued(row)])
    case RunWrite(w, at) => RanState(s, w, at)
    case LeaveWrite(w) => s.(gate := Gate.Next(s.gate, Gate.LeaveShared, w), writes := s.writes - {w})
    case StartRenewal => Entered(terms, s, Gate.Next(s.gate, Gate.EnterExclusive, terms.loop), Renew)
    case StartRebind => Entered(terms, s, Gate.Next(s.gate, Gate.EnterExclusive, terms.loop), Bind(s.loop.lease))
    case AskAgain(spurious) =>
      Entered(terms, s, Gate.Next(s.gate, if spurious then Gate.SpuriousWake else Gate.WakeExclusive, terms.loop), s.loop.call)
    case DoRenew(at) => RenewedState(terms, s, at)
    case RenewRaises => s.(loop := Returning(Free))
    case DoBind => s.(bound := Some(s.loop.call.lease), loop := Returning(Free))
    case StartUnbind => Entered(terms, s, Gate.Next(s.gate, Gate.EnterExclusive, terms.loop), Unbind)
    case DoUnbind => s.(bound := None, loop := Returning(Unbound))
    case UnbindRaises => s.(loop := Returning(Unbound))
    case StartRelease => Entered(terms, s, Gate.Next(s.gate, Gate.EnterExclusive, terms.loop), Release)
    case DoRelease => s.(store := Released(s.store, terms.owner), loop := Returning(Ended(true)))
    case ReleaseRaises => s.(loop := Returning(Ended(false)))
    case Return => s.(gate := Gate.Next(s.gate, Gate.LeaveExclusive, terms.loop), loop := s.loop.next)
    case Foreign(e) => s.(store := StoreRuns.Next(s.store, e))
  }

  // ------------------------------------------------------------------ invariant

  /** A renewal has minted a lease that is not bound yet. */
  predicate Rebinding(loop: Loop) {
    match loop
    case Renewed(_) => true
    case Asking(c) => c.Bind?
    case Calling(c) => c.Bind?
    case Returning(next) => next.Renewed?
    case _ => false
  }

  /** The run is over: its lease is unbound, or was to be, and its holds are released or about to be. */
  predicate Closing(loop: Loop) {
    match loop
    case Unbound => true
    case Ended(_) => true
    case Asking(c) => c == Release
    case Calling(c) => c == Release
    case Returning(next) => next == Unbound || next.Ended?
    case _ => false
  }

  /** The lease this run's holds carry. */
  function Current(s: State): Lease
    requires s.bound.Some?
  {
    match s.loop
    case Renewed(lease) => lease
    case Asking(Bind(lease)) => lease
    case Calling(Bind(lease)) => lease
    case Returning(Renewed(lease)) => lease
    case _ => s.bound.value
  }

  /** Every hold of this run is the current lease, over nodes of the run's scope. */
  ghost predicate HoldsCurrent(holds: Holds, terms: Terms, lease: Lease) {
    lease.owner == terms.owner && forall n :: n in holds && holds[n].owner == terms.owner ==> holds[n] == lease && n in terms.scope
  }

  /** No hold of this run is left. */
  ghost predicate NoneHeld(holds: Holds, terms: Terms) {
    forall n :: n in holds ==> holds[n].owner != terms.owner
  }

  /** Until the run is over a lease is bound and every hold carries the current one; once released none is left. */
  ghost predicate HoldsKnown(terms: Terms, s: State) {
    if Closing(s.loop) then s.loop in {Ended(true), Returning(Ended(true))} ==> NoneHeld(s.store.holds, terms)
    else s.bound.Some? && HoldsCurrent(s.store.holds, terms, Current(s))
  }

  /** The gate's view of the loop agrees with the loop's own. */
  predicate LoopPlaced(terms: Terms, s: State) {
    match s.loop
    case Asking(_) => terms.loop in s.gate.places && s.gate.places[terms.loop] in {Gate.ParkedExclusive, Gate.SignalledExclusive}
    case Calling(_) => terms.loop in s.gate.places && s.gate.places[terms.loop] == Gate.HoldingExclusive
    case Returning(next) =>
      terms.loop in s.gate.places && s.gate.places[terms.loop] == Gate.HoldingExclusive &&
          (next == Free || next == Lost || next.Renewed? || next == Unbound || next.Ended?)
    case _ => terms.loop !in s.gate.places
  }

  /** Each submitted write holds the gate shared, and nothing else does anything at it but the loop. */
  ghost predicate WritesPlaced(terms: Terms, s: State) {
    && terms.loop !in s.writes
    && (forall w :: w in s.writes ==> w in s.gate.places && s.gate.places[w] == Gate.HoldingShared)
    && (forall t :: t in s.gate.places && t != terms.loop ==> t in s.writes)
  }

  ghost predicate Valid(terms: Terms, s: State) {
    && Gate.Valid(s.gate) && LoopPlaced(terms, s) && WritesPlaced(terms, s)
    && HoldsKnown(terms, s)
    && (Rebinding(s.loop) || Closing(s.loop) ==> s.writes == map[])
  }

  /** Holding the gate exclusively, the loop is alone. */
  lemma CallingIsAlone(terms: Terms, s: State)
    requires Gate.Valid(s.gate) && WritesPlaced(terms, s)
    requires terms.loop in s.gate.places && s.gate.places[terms.loop] == Gate.HoldingExclusive
    ensures s.writes == map[]
  {
    Gate.MemberCounts(s.gate.places, terms.loop);
    forall w | w in s.writes ensures false { Gate.MemberCounts(s.gate.places, w); }
  }

  /** A free loop is never made to wait for the gate: a submission is admitted at once. */
  lemma SubmissionIsAdmitted(terms: Terms, s: State)
    requires Valid(terms, s) && terms.loop !in s.gate.places
    ensures !s.gate.exclusive && s.gate.exclusiveWaiting == 0
  {
    assert Gate.In(s.gate.places, Gate.HoldsExclusive) == {};
    assert Gate.In(s.gate.places, Gate.WaitsExclusive) == {};
  }

  // ------------------------------------------------------------- the steps keep it

  /** A section at the gate moves its own thread; the others are at most notified. */
  lemma OthersStay(g: Gate.State, a: Gate.Action, t: Gate.Thread, u: Gate.Thread)
    requires Gate.Enabled(g, a, t) && u != t
    ensures u in Gate.Next(g, a, t).places <==> u in g.places
    ensures u in g.places ==> Gate.Next(g, a, t).places[u] in {g.places[u], Gate.Notified(g.places[u])}
  {}

  lemma WritersStay(terms: Terms, s: State, a: Gate.Action, t: Gate.Thread, writes: map<Gate.Thread, Progress>)
    requires WritesPlaced(terms, s) && Gate.Enabled(s.gate, a, t)
    requires terms.loop !in writes && writes.Keys - {t} == s.writes.Keys - {t}
    requires t in writes ==> t in Gate.Next(s.gate, a, t).places && Gate.Next(s.gate, a, t).places[t] == Gate.HoldingShared
    requires t in Gate.Next(s.gate, a, t).places ==> t == terms.loop || t in writes
    ensures forall w :: w in writes ==>
              w in Gate.Next(s.gate, a, t).places && Gate.Next(s.gate, a, t).places[w] == Gate.HoldingShared
    ensures forall u :: u in Gate.Next(s.gate, a, t).places && u != terms.loop ==> u in writes
  {
    hide Gate.Next, Gate.Enabled;
    forall w | w in writes
      ensures w in Gate.Next(s.gate, a, t).places && Gate.Next(s.gate, a, t).places[w] == Gate.HoldingShared
    {
      if w != t { assert w in writes.Keys - {t}; OthersStay(s.gate, a, t, w); }
    }
    forall u | u in Gate.Next(s.gate, a, t).places && u != terms.loop ensures u in writes {
      if u != t { OthersStay(s.gate, a, t, u); assert u in s.writes.Keys - {t}; }
    }
  }

  lemma SubmitKeeps(terms: Terms, s: State, w: Gate.Thread, row: StateNode)
    requires Valid(terms, s) && Enabled(terms, s, Submit(w, row))
    ensures Valid(terms, Next(terms, s, Submit(w, row)))
  {
    hide Gate.Valid, HoldsCurrent, Gate.NotifyAll;
    Gate.StepKeeps(s.gate, Gate.EnterShared, w);
    OthersStay(s.gate, Gate.EnterShared, w, terms.loop);
    WritersStay(terms, s, Gate.EnterShared, w, s.writes[w := Queued(row)]);
  }

  lemma LeaveKeeps(terms: Terms, s: State, w: Gate.Thread)
    requires Valid(terms, s) && Enabled(terms, s, LeaveWrite(w))
    ensures Valid(terms, Next(terms, s, LeaveWrite(w)))
  {
    hide Gate.Valid, HoldsCurrent;
    Gate.StepKeeps(s.gate, Gate.LeaveShared, w);
    OthersStay(s.gate, Gate.LeaveShared, w, terms.loop);
    LeftShared(s.gate, w);
    WritersStay(terms, s, Gate.LeaveShared, w, s.writes - {w});
  }

  lemma LeftShared(g: Gate.State, w: Gate.Thread)
    requires Gate.Enabled(g, Gate.LeaveShared, w)
    ensures w !in Gate.Next(g, Gate.LeaveShared, w).places
  {}

  lemma RunKeeps(terms: Terms, s: State, w: Gate.Thread, at: real)
    requires Valid(terms, s) && Enabled(terms, s, RunWrite(w, at))
    ensures Valid(terms, Next(terms, s, RunWrite(w, at)))
  {
    hide Gate.Valid, FenceViolation, Written;
    WrittenMeans(s.store, [], [s.writes[w].row]);
  }

  /** Entering, or trying again for, the gate. */
  lemma EnteredKeeps(terms: Terms, s: State, a: Gate.Action, call: LockCall)
    requires Valid(terms, s) && Gate.Enabled(s.gate, a, terms.loop)
    requires a == Gate.EnterExclusive || a == Gate.WakeExclusive || (a == Gate.SpuriousWake && s.loop.Asking?)
    requires HoldsKnown(terms, s.(loop := Asking(call)))
    requires Rebinding(Asking(call)) || Closing(Asking(call)) ==> s.writes == map[]
    ensures Valid(terms, Entered(terms, s, Gate.Next(s.gate, a, terms.loop), call))
  {
    hide Gate.Valid, HoldsCurrent;
    Gate.StepKeeps(s.gate, a, terms.loop);
    LoopEnters(terms, s, a);
    WritersStay(terms, s, a, terms.loop, s.writes);
  }

  lemma LoopEnters(terms: Terms, s: State, a: Gate.Action)
    requires LoopPlaced(terms, s) && Gate.Enabled(s.gate, a, terms.loop)
    requires a == Gate.EnterExclusive || a == Gate.WakeExclusive || (a == Gate.SpuriousWake && s.loop.Asking?)
    ensures terms.loop in Gate.Next(s.gate, a, terms.loop).places
    ensures Gate.Next(s.gate, a, terms.loop).places[terms.loop] in
              {Gate.ParkedExclusive, Gate.SignalledExclusive, Gate.HoldingExclusive}
  {}

  lemma ReturnKeeps(terms: Terms, s: State)
    requires Valid(terms, s) && Enabled(terms, s, Return)
    ensures Valid(terms, Next(terms, s, Return))
  {
    hide Gate.Valid, HoldsCurrent;
    Gate.StepKeeps(s.gate, Gate.LeaveExclusive, terms.loop);
    LeftExclusive(s.gate, terms.loop);
    WritersStay(terms, s, Gate.LeaveExclusive, terms.loop, s.writes);
  }

  lemma LeftExclusive(g: Gate.State, t: Gate.Thread)
    requires Gate.Enabled(g, Gate.LeaveExclusive, t)
    ensures t !in Gate.Next(g, Gate.LeaveExclusive, t).places
  {}

  lemma RenewKeeps(terms: Terms, s: State, at: real)
    requires Valid(terms, s) && Enabled(terms, s, DoRenew(at))
    ensures Valid(terms, Next(terms, s, DoRenew(at)))
  {
    hide Gate.Valid, ScopeConflict;
    CallingIsAlone(terms, s);
  }

  /** Nor once it has none. */
  lemma ForeignGivesNothing(terms: Terms, s: Contents, e: StoreRuns.Event)
    requires NoneHeld(s.holds, terms) && IsForeign(terms, e)
    ensures NoneHeld(StoreRuns.Next(s, e).holds, terms)
  {
    hide ScopeConflict, FenceViolation, Written;
    if e.Write? { WrittenMeans(s, e.deleteIds, e.rows); }
  }

  /** No other owner's call gives this run a hold or changes one it keeps. */
  lemma ForeignKeepsHolds(terms: Terms, s: Contents, e: StoreRuns.Event, lease: Lease)
    requires HoldsCurrent(s.holds, terms, lease) && IsForeign(terms, e)
    ensures HoldsCurrent(StoreRuns.Next(s, e).holds, terms, lease)
  {
    hide ScopeConflict, FenceViolation, Written;
    if e.Write? { WrittenMeans(s, e.deleteIds, e.rows); }
  }

  /** Main result: every step of the loop, of a pool thread, or of another owner keeps the invariant. */
  lemma StepKeeps(terms: Terms, s: State, m: Move)
    requires Valid(terms, s) && Enabled(terms, s, m)
    ensures Valid(terms, Next(terms, s, m))
  {
    hide Gate.Valid, Gate.Next, HoldsCurrent, RanState, RenewedState, Entered, WritesPlaced;
    match m
    case Submit(w, row) => SubmitKeeps(terms, s, w, row);
    case RunWrite(w, at) => RunKeeps(terms, s, w, at);
    case LeaveWrite(w) => LeaveKeeps(terms, s, w);
    case StartRenewal => EnteredKeeps(terms, s, Gate.EnterExclusive, Renew);
    case StartRebind => EnteredKeeps(terms, s, Gate.EnterExclusive, Bind(s.loop.lease));
    case AskAgain(spurious) => EnteredKeeps(terms, s, if spurious then Gate.SpuriousWake else Gate.WakeExclusive, s.loop.call);
    case DoRenew(at) => RenewKeeps(terms, s, at);
    case RenewRaises => SimpleKeeps(terms, s, m);
    case DoBind => SimpleKeeps(terms, s, m);
    case StartUnbind => EnteredKeeps(terms, s, Gate.EnterExclusive, Unbind);
    case DoUnbind => EndKeeps(terms, s, m);
    case UnbindRaises => EndKeeps(terms, s, m);
    case StartRelease => EnteredKeeps(terms, s, Gate.EnterExclusive, Release);
    case DoRelease => EndKeeps(terms, s, m);
    case ReleaseRaises => EndKeeps(terms, s, m);
    case Return => ReturnKeeps(terms, s);
    case Foreign(e) =>
      ForeignKeeps(terms, s, e);
      SameWrites(terms, s, Next(terms, s, m));
  }

  lemma ForeignKeeps(terms: Terms, s: State, e: StoreRuns.Event)
    requires HoldsKnown(terms, s) && IsForeign(terms, e)
    ensures HoldsKnown(terms, s.(store := StoreRuns.Next(s.store, e)))
  {
    hide HoldsCurrent, NoneHeld, StoreRuns.Next;
    if Closing(s.loop) {
      if NoneHeld(s.store.holds, terms) { ForeignGivesNothing(terms, s.store, e); }
    } else {
      ForeignKeepsHolds(terms, s.store, e, Current(s));
    }
  }

  /** The end of a run: every admitted write has landed before the lease is unbound. */
  lemma EndKeeps(terms: Terms, s: State, m: Move)
    requires Valid(terms, s) && Enabled(terms, s, m) && (m.DoUnbind? || m.UnbindRaises? || m.DoRelease? || m.ReleaseRaises?)
    ensures Valid(terms, Next(terms, s, m))
  {
    hide Gate.Valid;
    CallingIsAlone(terms, s);
  }

  lemma SimpleKeeps(terms: Terms, s: State, m: Move)
    requires Valid(terms, s) && Enabled(terms, s, m) && (m.RenewRaises? || m.DoBind?)
    ensures Valid(terms, Next(terms, s, m))
  {
    hide Gate.Valid;
  }

  lemma SameWrites(terms: Terms, s: State, r: State)
    requires WritesPlaced(terms, s) && r.gate == s.gate && r.writes == s.writes
    ensures WritesPlaced(terms, r)
  {}

  // ------------------------------------------------------------------- every run

  ghost predicate Possible(terms: Terms, s: State, run: seq<Move>)
    decreases |run|
  {
    run == [] || (Enabled(terms, s, run[0]) && Possible(terms, Next(terms, s, run[0]), run[1..]))
  }

  ghost function After(terms: Terms, s: State, run: seq<Move>): State
    requires Possible(terms, s, run)
    decreases |run|
  {
    if run == [] then s else After(terms, Next(terms, s, run[0]), run[1..])
  }

  lemma {:induction false} RunKeepsAll(terms: Terms, s: State, run: seq<Move>)
    requires Valid(terms, s) && Possible(terms, s, run)
    ensures Valid(terms, After(terms, s, run))
    decreases |run|
  {
    hide Valid, Next, Enabled;
    if run != [] {
      StepKeeps(terms, s, run[0]);
      RunKeepsAll(terms, Next(terms, s, run[0]), run[1..]);
    }
  }

  /** A run begins with its lease acquired over the whole scope and bound, and no write submitted. */
  ghost predicate Begins(terms: Terms, s: State) {
    && s.loop == Free && s.writes == map[] && s.gate == Gate.INITIAL
    && s.bound.Some? && HoldsCurrent(s.store.holds, terms, s.bound.value)
  }

  lemma BeginsValid(terms: Terms, s: State)
    requires Begins(terms, s)
    ensures Valid(terms, s)
  {}

  /** Acquiring afresh and binding the lease begins a run: an owner's name is its own. */
  lemma AcquiringBegins(terms: Terms, before: Contents, at: real)
    requires forall n :: n in before.holds ==> before.holds[n].owner != terms.owner
    requires ScopeConflict(before.holds, terms.owner, at, terms.scope).None?
    ensures Begins(terms, State(Acquired(before, terms.owner, terms.ttl, terms.scope, at),
                                Some(AcquiredLease(before, terms.owner, terms.ttl, terms.scope, at)), Gate.INITIAL, Free, map[]))
  {
    hide ScopeConflict;
  }

  /** Main result over all runs: while a write is admitted, the bound lease is the one every hold of this run carries. */
  lemma AdmittedWritesAreCurrent(terms: Terms, s: State, run: seq<Move>, n: Id)
    requires Begins(terms, s) && Possible(terms, s, run)
    ensures var now := After(terms, s, run);
            now.writes != map[] && n in now.store.holds && now.store.holds[n].owner == terms.owner ==>
            now.bound.Some? && now.store.holds[n].fence == now.bound.value.fence
  {
    hide Possible, After, Gate.Valid;
    BeginsValid(terms, s);
    RunKeepsAll(terms, s, run);
  }

  /** Main result over all runs: no write is ever refused as superseded by the run's own renewal. */
  lemma NeverSuperseded(terms: Terms, s: State, run: seq<Move>, w: Gate.Thread, at: real)
    requires Begins(terms, s) && Possible(terms, s, run)
    requires Enabled(terms, After(terms, s, run), RunWrite(w, at))
    ensures var landed := Next(terms, After(terms, s, run), RunWrite(w, at)).writes[w].outcome;
            landed.Some? ==> !landed.value.Superseded?
  {
    hide Possible, After, Gate.Valid;
    BeginsValid(terms, s);
    RunKeepsAll(terms, s, run);
    var now := After(terms, s, run);
    OneObjection(now.bound.value, now.store.holds, at, now.writes[w].row.id);
  }

  lemma OneObjection(lease: Lease, held: Holds, at: real, id: Id)
    ensures FenceViolation(Some(lease), held, at, {id}) == Objection(lease, held, at, id)
  {
    Text.OneMember(id);
    FirstObjectionMeans(lease, held, at, [id]);
  }

  /** Main result over all runs: a write about to run is refused exactly when its node is held by another owner, held past
   * its expiry, or unheld and outside the scope of the bound lease; a write not refused stores its row and nothing else,
   * and a refused one nothing at all.
   */
  lemma WriteLandsExactly(terms: Terms, s: State, run: seq<Move>, w: Gate.Thread, at: real)
    requires Begins(terms, s) && Possible(terms, s, run)
    requires Enabled(terms, After(terms, s, run), RunWrite(w, at))
    ensures var now := After(terms, s, run);
            var next, row := Next(terms, now, RunWrite(w, at)), now.writes[w].row;
            && next == now.(store := next.store, writes := next.writes)
            && next.writes == now.writes[w := next.writes[w]] && next.writes[w].Landed? && now.bound.Some?
            && (next.writes[w].outcome.None? <==>
                if row.id in now.store.holds then
                  now.store.holds[row.id].owner == terms.owner && at < now.store.holds[row.id].expiresAt
                else row.id in now.bound.value.scope)
            && next.store == if next.writes[w].outcome.Some? then now.store
                             else now.store.(nodes := now.store.nodes[row.id := row], serial := now.store.serial + 1)
  {
    hide Possible, After, Gate.Valid, FenceViolation, Written;
    BeginsValid(terms, s);
    RunKeepsAll(terms, s, run);
    var now := After(terms, s, run);
    OneObjection(now.bound.value, now.store.holds, at, now.writes[w].row.id);
    OneWritten(now.store, now.writes[w].row);
  }

  lemma OneWritten(s: Contents, row: StateNode)
    ensures Written(s, [], [row]) == s.(nodes := s.nodes[row.id := row], serial := s.serial + 1)
  {
    assert [row][..0] == [] && StoredAll(s, []) == s && DroppedAll(s, []) == s;
  }

  /** What a renewal comes to: with no unexpired foreign hold on its scope it mints a lease until `at + ttl` over the whole
   * scope, one fence on, for the rebind to follow; with one it changes nothing and the lease is lost.
   */
  lemma RenewalExactly(terms: Terms, s: State, at: real)
    requires s.loop == Calling(Renew)
    ensures var next := Next(terms, s, DoRenew(at));
            if exists n :: n in terms.scope && n in s.store.holds && s.store.holds[n].owner != terms.owner &&
                at < s.store.holds[n].expiresAt
            then next == s.(loop := Returning(Lost))
            else
              var lease := Lease(terms.owner, at + terms.ttl, terms.scope, s.store.fence + 1);
              && next == s.(store := next.store, loop := Returning(Renewed(lease)))
              && next.store == s.store.(fence := lease.fence, holds := next.store.holds)
              && next.store.holds.Keys == s.store.holds.Keys + terms.scope
              && forall n :: n in next.store.holds ==> next.store.holds[n] == if n in terms.scope then lease else s.store.holds[n]
  {
    hide ScopeConflict;
    AcquirableExactly(s.store.holds, terms.owner, at, terms.scope);
  }

  /** Between a renewal and its rebind no write is in flight, and none can be submitted. */
  lemma RenewalWindowIsEmpty(terms: Terms, s: State, run: seq<Move>, w: Gate.Thread, row: StateNode)
    requires Begins(terms, s) && Possible(terms, s, run) && Rebinding(After(terms, s, run).loop)
    ensures After(terms, s, run).writes == map[] && !Enabled(terms, After(terms, s, run), Submit(w, row))
  {
    hide Possible, After, Gate.Valid;
    BeginsValid(terms, s);
    RunKeepsAll(terms, s, run);
  }

  /** Main result over all runs: no write of the run lands unfenced. One about to run finds a lease bound, and from the
   * unbind on none is in flight and none can be submitted. */
  lemma NeverUnfenced(terms: Terms, s: State, run: seq<Move>, w: Gate.Thread, at: real, row: StateNode)
    requires Begins(terms, s) && Possible(terms, s, run)
    ensures var now := After(terms, s, run);
            && (Enabled(terms, now, RunWrite(w, at)) ==> now.bound.Some?)
            && (now.bound.None? || Closing(now.loop) ==> now.writes == map[] && !Enabled(terms, now, Submit(w, row)))
  {
    hide Possible, After, Gate.Valid;
    BeginsValid(terms, s);
    RunKeepsAll(terms, s, run);
  }

  /** Once the release has gone through, the store records no hold of the run. */
  lemma ReleaseLeavesNothing(terms: Terms, s: State, run: seq<Move>)
    requires Begins(terms, s) && Possible(terms, s, run) && After(terms, s, run).loop == Ended(true)
    ensures NoneHeld(After(terms, s, run).store.holds, terms)
  {
    hide Possible, After, Gate.Valid;
    BeginsValid(terms, s);
    RunKeepsAll(terms, s, run);
  }

  // ------------------------------------------------------------ whole lock calls

  /** With nobody at the gate, a lock call of the loop goes straight in. */
  lemma GoesIn(terms: Terms, s: State, call: LockCall)
    requires Gate.Valid(s.gate) && s.gate.places == map[]
    ensures Gate.Enabled(s.gate, Gate.EnterExclusive, terms.loop)
    ensures var gate := Gate.Next(s.gate, Gate.EnterExclusive, terms.loop);
            && Entered(terms, s, gate, call) == s.(gate := gate, loop := Calling(call))
            && Gate.Enabled(gate, Gate.LeaveExclusive, terms.loop) && Gate.Next(gate, Gate.LeaveExclusive, terms.loop) == s.gate
  {
    assert Gate.In(s.gate.places, Gate.HoldsShared) == {} && Gate.In(s.gate.places, Gate.HoldsExclusive) == {} &&
           Gate.In(s.gate.places, Gate.WaitsExclusive) == {};
  }

  ghost predicate Leads(terms: Terms, s: State, run: seq<Move>, now: State) {
    Possible(terms, s, run) && After(terms, s, run) == now
  }

  lemma LeadsFrom(terms: Terms, s: State, run: seq<Move>, now: State)
    requires run != [] && Enabled(terms, s, run[0]) && Leads(terms, Next(terms, s, run[0]), run[1..], now)
    ensures Leads(terms, s, run, now)
  {
    hide Enabled, Next;
  }

  /** A loop that is not inside a lock call can submit a write from any idle thread, and the write run and leave the gate
   * with no other step between; its row is then stored exactly when its node is the run's own unexpired, or unheld and in
   * the scope of the bound lease, and nothing but the wake-ups it sends is changed besides.
   */
  lemma WriteGoesThrough(terms: Terms, s: State, w: Gate.Thread, row: StateNode, at: real)
    requires Valid(terms, s) && (s.loop == Free || s.loop == Lost) && w != terms.loop && w !in s.gate.places
    ensures s.bound.Some? && Possible(terms, s, [Submit(w, row), RunWrite(w, at), LeaveWrite(w)])
    ensures var now, holds := After(terms, s, [Submit(w, row), RunWrite(w, at), LeaveWrite(w)]), s.store.holds;
            && now == s.(store := now.store, gate := now.gate)
            && now.gate == s.gate.(places := now.gate.places) && now.gate.places.Keys == s.gate.places.Keys
            && now.store == if (if row.id in holds then holds[row.id].owner == terms.owner && at < holds[row.id].expiresAt
                                else row.id in s.bound.value.scope)
                            then s.store.(nodes := s.store.nodes[row.id := row], serial := s.store.serial + 1)
                            else s.store
  {
    hide Gate.Valid, FenceViolation, Written, MayWrite, Enabled, Next, Valid;
    Submitted(terms, s, w, row);
    var s1 := Next(terms, s, Submit(w, row));
    Ran(terms, s, s1, w, row, at);
    var s2 := Next(terms, s1, RunWrite(w, at));
    var s3 := s2.(gate := Gate.Next(s2.gate, Gate.LeaveShared, w), writes := s2.writes - {w});
    Left(terms, s, s2, s3, w);
    assert Leads(terms, s3, [], s3);
    LeadsFrom(terms, s2, [LeaveWrite(w)], s3);
    assert [RunWrite(w, at), LeaveWrite(w)][1..] == [LeaveWrite(w)];
    LeadsFrom(terms, s1, [RunWrite(w, at), LeaveWrite(w)], s3);
    assert [Submit(w, row), RunWrite(w, at), LeaveWrite(w)][1..] == [RunWrite(w, at), LeaveWrite(w)];
    LeadsFrom(terms, s, [Submit(w, row), RunWrite(w, at), LeaveWrite(w)], s3);
  }

  lemma Submitted(terms: Terms, s: State, w: Gate.Thread, row: StateNode)
    requires Valid(terms, s) && (s.loop == Free || s.loop == Lost) && w != terms.loop && w !in s.gate.places
    ensures s.bound.Some? && HoldsCurrent(s.store.holds, terms, s.bound.value) && w !in s.writes
    ensures Enabled(terms, s, Submit(w, row))
    ensures var gate := s.gate.(shared := s.gate.shared + 1, places := s.gate.places[w := Gate.HoldingShared]);
            Next(terms, s, Submit(w, row)) == s.(gate := gate, writes := s.writes[w := Queued(row)])
  {
    hide Gate.Valid;
    SubmissionIsAdmitted(terms, s);
  }

  lemma Ran(terms: Terms, s: State, s1: State, w: Gate.Thread, row: StateNode, at: real)
    requires s.bound.Some? && HoldsCurrent(s.store.holds, terms, s.bound.value)
    requires s1.store == s.store && s1.bound == s.bound && w in s1.writes && s1.writes[w] == Queued(row)
    ensures Enabled(terms, s1, RunWrite(w, at))
    ensures var next, holds := Next(terms, s1, RunWrite(w, at)), s.store.holds;
            && next == s1.(store := next.store, writes := s1.writes[w := next.writes[w]]) && next.writes[w].Landed?
            && next.store == if (if row.id in holds then holds[row.id].owner == terms.owner && at < holds[row.id].expiresAt
                                 else row.id in s.bound.value.scope)
                             then s.store.(nodes := s.store.nodes[row.id := row], serial := s.store.serial + 1)
                             else s.store
  {
    hide FenceViolation, Written;
    OneObjection(s.bound.value, s.store.holds, at, row.id);
    OneWritten(s.store, row);
  }

  lemma Left(terms: Terms, s: State, s2: State, s3: State, w: Gate.Thread)
    requires w !in s.gate.places && w !in s.writes && w in s2.writes && s2.writes[w].Landed?
    requires s2.writes - {w} == s.writes && s2.loop == s.loop && s2.bound == s.bound
    requires s2.gate == s.gate.(shared := s.gate.shared + 1, places := s.gate.places[w := Gate.HoldingShared])
    requires s3 == s2.(gate := Gate.Next(s2.gate, Gate.LeaveShared, w), writes := s2.writes - {w})
    ensures Enabled(terms, s2, LeaveWrite(w)) && Next(terms, s2, LeaveWrite(w)) == s3
    ensures s3 == s.(store := s2.store, gate := s3.gate)
    ensures s3.gate == s.gate.(places := s3.gate.places) && s3.gate.places.Keys == s.gate.places.Keys
  {
    assert s2.gate.places - {w} == s.gate.places;
  }

  /** One lock call from a free gate: in, the call's own step, and out. */
  lemma CallLeads(terms: Terms, s: State, start: Move, step: Move, call: LockCall, next: State)
    requires Gate.Valid(s.gate) && s.gate.places == map[] && Enabled(terms, s, start)
    requires Next(terms, s, start) == Entered(terms, s, Gate.Next(s.gate, Gate.EnterExclusive, terms.loop), call)
    requires var inside := s.(gate := Gate.Next(s.gate, Gate.EnterExclusive, terms.loop), loop := Calling(call));
             Enabled(terms, inside, step) && Next(terms, inside, step) == next.(gate := inside.gate, loop := Returning(next.loop))
    requires next.gate == s.gate
    ensures Leads(terms, s, [start, step, Return], next)
  {
    hide Gate.Valid, Gate.Enabled, Gate.Next, Entered;
    GoesIn(terms, s, call);
    var inside := Next(terms, s, start);
    var left := Next(terms, inside, step);
    assert Enabled(terms, left, Return) && Next(terms, left, Return) == next;
    assert Leads(terms, next, [], next);
    LeadsFrom(terms, left, [Return], next);
    assert [step, Return][1..] == [Return] && [start, step, Return][1..] == [step, Return];
    LeadsFrom(terms, inside, [step, Return], next);
    LeadsFrom(terms, s, [start, step, Return], next);
  }

  lemma {:induction false} LeadsOn(terms: Terms, s: State, run: seq<Move>, mid: State, more: seq<Move>, now: State)
    requires Leads(terms, s, run, mid) && Leads(terms, mid, more, now)
    ensures Leads(terms, s, run + more, now)
    decreases |run|
  {
    hide Enabled, Next;
    if run == [] {
      assert run + more == more;
    } else {
      LeadsOn(terms, Next(terms, s, run[0]), run[1..], mid, more, now);
      assert (run + more)[1..] == run[1..] + more;
    }
  }

  /** The state after a successful renewal, before its rebind. */
  function RenewedAt(terms: Terms, s: State, at: real): State {
    var lease := Lease(terms.owner, at + terms.ttl, terms.scope, s.store.fence + 1);
    s.(store := s.store.(holds := s.store.holds + map n | n in terms.scope :: lease, fence := lease.fence), loop := Renewed(lease))
  }

  lemma RenewLeads(terms: Terms, s: State, at: real)
    requires Gate.Valid(s.gate) && s.gate.places == map[] && s.loop == Free
    requires forall n :: n in terms.scope && n in s.store.holds ==>
             s.store.holds[n].owner == terms.owner || s.store.holds[n].expiresAt <= at
    ensures Leads(terms, s, [StartRenewal, DoRenew(at), Return], RenewedAt(terms, s, at))
  {
    hide Gate.Valid, Gate.Enabled, Gate.Next, ScopeConflict, Entered, Leads;
    AcquirableExactly(s.store.holds, terms.owner, at, terms.scope);
    GoesIn(terms, s, Renew);
    CallLeads(terms, s, StartRenewal, DoRenew(at), Renew, RenewedAt(terms, s, at));
  }

  lemma BindLeads(terms: Terms, s: State)
    requires Gate.Valid(s.gate) && s.gate.places == map[] && s.loop.Renewed?
    ensures Leads(terms, s, [StartRebind, DoBind, Return], s.(bound := Some(s.loop.lease), loop := Free))
  {
    hide Gate.Valid, Gate.Enabled, Gate.Next, Entered, Leads;
    GoesIn(terms, s, Bind(s.loop.lease));
    CallLeads(terms, s, StartRebind, DoBind, Bind(s.loop.lease), s.(bound := Some(s.loop.lease), loop := Free));
  }

  /** Main result on a renewal with no write in flight: unless another owner holds part of the scope unexpired, it can run
   * to its end, and then a lease over the whole scope until `at + ttl`, one fence on, is recorded and bound.
   */
  lemma RenewalRebinds(terms: Terms, s: State, at: real)
    requires Gate.Valid(s.gate) && s.gate.places == map[] && s.loop == Free
    requires forall n :: n in terms.scope && n in s.store.holds ==>
             s.store.holds[n].owner == terms.owner || s.store.holds[n].expiresAt <= at
    ensures var lease := Lease(terms.owner, at + terms.ttl, terms.scope, s.store.fence + 1);
            var holds := s.store.holds + map n | n in terms.scope :: lease;
            Leads(terms, s, [StartRenewal, DoRenew(at), Return, StartRebind, DoBind, Return],
                  s.(bound := Some(lease), store := s.store.(holds := holds, fence := lease.fence)))
  {
    hide Gate.Valid, Leads;
    var renewed := RenewedAt(terms, s, at);
    var bound := renewed.(bound := Some(renewed.loop.lease), loop := Free);
    RenewLeads(terms, s, at);
    BindLeads(terms, renewed);
    LeadsOn(terms, s, [StartRenewal, DoRenew(at), Return], renewed, [StartRebind, DoBind, Return], bound);
    assert [StartRenewal, DoRenew(at), Return] + [StartRebind, DoBind, Return] ==
           [StartRenewal, DoRenew(at), Return, StartRebind, DoBind, Return];
  }

  /** And the end of a run, then: the lease is unbound, every hold of the run released, and nothing else touched. */
  lemma EndReleases(terms: Terms, s: State)
    requires Gate.Valid(s.gate) && s.gate.places == map[] && (s.loop == Free || s.loop == Lost)
    ensures var holds := map n | n in s.store.holds && s.store.holds[n].owner != terms.owner :: s.store.holds[n];
            Leads(terms, s, [StartUnbind, DoUnbind, Return, StartRelease, DoRelease, Return],
                  s.(bound := None, store := s.store.(holds := holds), loop := Ended(true)))
  {
    hide Gate.Valid, Gate.Enabled, Gate.Next, Entered, Leads;
    var unbound := s.(bound := None, loop := Unbound);
    var ended := unbound.(store := Released(s.store, terms.owner), loop := Ended(true));
    GoesIn(terms, s, Unbind);
    CallLeads(terms, s, StartUnbind, DoUnbind, Unbind, unbound);
    GoesIn(terms, unbound, Release);
    CallLeads(terms, unbound, StartRelease, DoRelease, Release, ended);
    LeadsOn(terms, s, [StartUnbind, DoUnbind, Return], unbound, [StartRelease, DoRelease, Return], ended);
    assert [StartUnbind, DoUnbind, Return] + [StartRelease, DoRelease, Return] ==
           [StartUnbind, DoUnbind, Return, StartRelease, DoRelease, Return];
  }

  // ------------------------------------------- what the rebind must not leave out

  /** If the rebind raised, the loop would go on with the old lease bound: the next write to a node it still holds
   * is refused as superseded. */
  lemma FailedRebindSupersedes(terms: Terms, s: State, at: real, row: StateNode, later: real)
    requires s.bound.Some? && HoldsCurrent(s.store.holds, terms, s.bound.value)
    requires ScopeConflict(s.store.holds, terms.owner, at, terms.scope).None? && s.bound.value.fence <= s.store.fence
    requires row.id in terms.scope
    ensures FenceViolation(s.bound, RenewedState(terms, s, at).store.holds, later, {row.id}) ==
            Some(Superseded(row.id, s.bound.value.fence, s.store.fence + 1))
  {
    hide ScopeConflict, FenceViolation;
    OneObjection(s.bound.value, RenewedState(terms, s, at).store.holds, later, row.id);
  }
}
