/** The readers-writer gate between state writes and lock calls, over every schedule of its threads. */
module Gate {
  import opened Graphs

  type Thread = string

  /** Where a thread stands. A waiter is parked in `wait()` until notified, then signalled until it runs again. */
  datatype Place =
    | ParkedShared | SignalledShared | HoldingShared
    | ParkedExclusive | SignalledExclusive | HoldingExclusive

  /** The gate's fields, and every thread that is waiting at it or holds it. */
  datatype State = State(shared: int, exclusive: bool, exclusiveWaiting: int, places: map<Thread, Place>)

  function Notified(p: Place): Place {
    match p
    case ParkedShared => SignalledShared
    case ParkedExclusive => SignalledExclusive
    case _ => p
  }

  /** `notify_all`. */
  function NotifyAll(places: map<Thread, Place>): map<Thread, Place> {
    map t | t in places :: Notified(places[t])
  }

  // ------------------------------------------------- one atomic section each

  /** A shared caller checks the gate: on arrival, or running again after `wait()`. */
  function TrySharedFrom(s: State, t: Thread): State {
    if s.exclusive || s.exclusiveWaiting != 0 then s.(places := s.places[t := ParkedShared])
    else s.(shared := s.shared + 1, places := s.places[t := HoldingShared])
  }

  function LeaveSharedFrom(s: State, t: Thread): State {
    var places := s.places - {t};
    s.(shared := s.shared - 1, places := if s.shared - 1 == 0 then NotifyAll(places) else places)
  }

  /** An exclusive caller, already counted as waiting, checks the gate. */
  function TryExclusiveFrom(s: State, t: Thread): State {
    if s.exclusive || s.shared != 0 then s.(places := s.places[t := ParkedExclusive])
    else s.(exclusiveWaiting := s.exclusiveWaiting - 1, exclusive := true, places := NotifyAll(s.places)[t := HoldingExclusive])
  }

  function LeaveExclusiveFrom(s: State, t: Thread): State {
    s.(exclusive := false, places := NotifyAll(s.places - {t}))
  }

  /** An exclusive waiter interrupted in `wait()`: no longer counted, and whoever it held back is told. */
  function InterruptExclusiveFrom(s: State, t: Thread): State {
    s.(exclusiveWaiting := s.exclusiveWaiting - 1, places := NotifyAll(s.places - {t}))
  }

  datatype Action =
    | EnterShared | WakeShared | LeaveShared | InterruptShared
    | EnterExclusive | WakeExclusive | LeaveExclusive | InterruptExclusive
    | SpuriousWake

  predicate Enabled(s: State, a: Action, t: Thread) {
    match a
    case EnterShared => t !in s.places
    case EnterExclusive => t !in s.places
    case WakeShared => t in s.places && s.places[t] == SignalledShared
    case WakeExclusive => t in s.places && s.places[t] == SignalledExclusive
    case LeaveShared => t in s.places && s.places[t] == HoldingShared
    case LeaveExclusive => t in s.places && s.places[t] == HoldingExclusive
    case InterruptShared => t in s.places && s.places[t] in {ParkedShared, SignalledShared}
    case InterruptExclusive => t in s.places && s.places[t] in {ParkedExclusive, SignalledExclusive}
    case SpuriousWake => t in s.places && s.places[t] in {ParkedShared, ParkedExclusive}
  }

  function Next(s: State, a: Action, t: Thread): State
    requires Enabled(s, a, t)
  {
    match a
    case EnterShared => TrySharedFrom(s, t)
    case WakeShared => TrySharedFrom(s, t)
    case LeaveShared => LeaveSharedFrom(s, t)
    case InterruptShared => s.(places := s.places - {t})
    case EnterExclusive => TryExclusiveFrom(s.(exclusiveWaiting := s.exclusiveWaiting + 1), t)
    case WakeExclusive => TryExclusiveFrom(s, t)
    case LeaveExclusive => LeaveExclusiveFrom(s, t)
    case InterruptExclusive => InterruptExclusiveFrom(s, t)
    case SpuriousWake => s.(places := s.places[t := Notified(s.places[t])])
  }

  /** The gate as its methods update it, each call one section run under the condition's lock. */
  class ReadWriteGate {
    var shared: int
    var exclusive: bool
    var exclusiveWaiting: int
    /** The condition's waiters and the gate's holders. */
    var places: map<Thread, Place>

    function Fields(): State
      reads this
    {
      State(shared, exclusive, exclusiveWaiting, places)
    }

    constructor ()
      ensures Fields() == INITIAL && Valid(Fields())
    {
      shared, exclusive, exclusiveWaiting, places := 0, false, 0, map[];
    }

    /** One pass of `acquire_shared`'s wait loop: on arrival, or woken. */
    method TryShared(t: Thread) returns (held: bool)
      requires Valid(Fields()) && (Enabled(Fields(), EnterShared, t) || Enabled(Fields(), WakeShared, t))
      modifies this
      ensures Fields() == TrySharedFrom(old(Fields()), t) && Valid(Fields())
      ensures held <==> Fields().places[t] == HoldingShared
    {
      hide Valid;
      TrySharedKeeps(Fields(), t);
      held := !(exclusive || exclusiveWaiting != 0);
      if held { shared := shared + 1; }
      places := places[t := if held then HoldingShared else ParkedShared];
    }

    method ReleaseShared(t: Thread)
      requires Valid(Fields()) && Enabled(Fields(), LeaveShared, t)
      modifies this
      ensures Fields() == Next(old(Fields()), LeaveShared, t) && Valid(Fields())
    {
      hide Valid;
      StepKeeps(Fields(), LeaveShared, t);
      shared := shared - 1;
      places := places - {t};
      if shared == 0 { places := NotifyAll(places); }
    }

    /** `acquire_exclusive` up to its first wait. */
    method EnterExclusively(t: Thread) returns (held: bool)
      requires Valid(Fields()) && Enabled(Fields(), EnterExclusive, t)
      modifies this
      ensures Fields() == Next(old(Fields()), EnterExclusive, t) && Valid(Fields())
      ensures held <==> Fields().places[t] == HoldingExclusive
    {
      hide Valid;
      exclusiveWaiting := exclusiveWaiting + 1;
      held := TryExclusive(t);
    }

    /** One pass of `acquire_exclusive`'s wait loop: woken, or on arrival, counted as waiting already. */
    method TryExclusive(t: Thread) returns (held: bool)
      requires if t in places then Valid(Fields()) && Enabled(Fields(), WakeExclusive, t)
               else Valid(Fields().(exclusiveWaiting := exclusiveWaiting - 1))
      modifies this
      ensures Fields() == TryExclusiveFrom(old(Fields()), t) && Valid(Fields())
      ensures held <==> Fields().places[t] == HoldingExclusive
    {
      hide Valid;
      TryExclusiveKeeps(Fields(), t);
      held := !(exclusive || shared != 0);
      if held {
        exclusiveWaiting := exclusiveWaiting - 1;
        places := NotifyAll(places);
        exclusive := true;
      }
      places := places[t := if held then HoldingExclusive else ParkedExclusive];
    }

    /** The `finally` of an interrupted exclusive waiter. */
    method AbandonExclusive(t: Thread)
      requires Valid(Fields()) && Enabled(Fields(), InterruptExclusive, t)
      modifies this
      ensures Fields() == Next(old(Fields()), InterruptExclusive, t) && Valid(Fields())
    {
      hide Valid;
      StepKeeps(Fields(), InterruptExclusive, t);
      exclusiveWaiting := exclusiveWaiting - 1;
      places := NotifyAll(places - {t});
    }

    method ReleaseExclusive(t: Thread)
      requires Valid(Fields()) && Enabled(Fields(), LeaveExclusive, t)
      modifies this
      ensures Fields() == Next(old(Fields()), LeaveExclusive, t) && Valid(Fields())
    {
      hide Valid;
      StepKeeps(Fields(), LeaveExclusive, t);
      exclusive := false;
      places := NotifyAll(places - {t});
    }
  }

  // ------------------------------------------------------------------ invariant

  const INITIAL := State(0, false, 0, map[])

  datatype Role = WaitsShared | HoldsShared | WaitsExclusive | HoldsExclusive

  function RoleOf(p: Place): Role {
    match p
    case ParkedShared => WaitsShared
    case SignalledShared => WaitsShared
    case HoldingShared => HoldsShared
    case ParkedExclusive => WaitsExclusive
    case SignalledExclusive => WaitsExclusive
    case HoldingExclusive => HoldsExclusive
  }

  function In(places: map<Thread, Place>, role: Role): set<Thread> {
    set t | t in places && RoleOf(places[t]) == role
  }

  predicate SomeParked(places: map<Thread, Place>, p: Place) {
    exists t | t in places :: places[t] == p
  }

  /** The counters count, at most one side holds the gate, and every waiter still parked has a reason to be. */
  ghost predicate Valid(s: State) {
    && s.shared == |In(s.places, HoldsShared)|
    && s.exclusiveWaiting == |In(s.places, WaitsExclusive)|
    && |In(s.places, HoldsExclusive)| == (if s.exclusive then 1 else 0)
    && (s.exclusive ==> s.shared == 0)
    && (SomeParked(s.places, ParkedShared) ==> s.exclusive || s.exclusiveWaiting > 0)
    && (SomeParked(s.places, ParkedExclusive) ==> s.exclusive || s.shared > 0)
  }

  lemma InNotified(places: map<Thread, Place>, role: Role)
    ensures In(NotifyAll(places), role) == In(places, role)
    ensures !SomeParked(NotifyAll(places), ParkedShared) && !SomeParked(NotifyAll(places), ParkedExclusive)
  {}

  /** Sets that differ at most at `t` differ in size by `t` alone. */
  lemma SizeMoves(a: set<Thread>, b: set<Thread>, t: Thread)
    requires a - {t} == b - {t}
    ensures |b| == |a| + (if t in b then 1 else 0) - (if t in a then 1 else 0)
  {
    var rest := a - {t};
    assert a == if t in a then rest + {t} else rest;
    assert b == if t in b then rest + {t} else rest;
  }

  lemma InRemoved(places: map<Thread, Place>, t: Thread, role: Role)
    requires t in places
    ensures |In(places - {t}, role)| == |In(places, role)| - (if RoleOf(places[t]) == role then 1 else 0)
  {
    assert In(places - {t}, role) == In(places, role) - {t};
  }

  lemma InMoved(places: map<Thread, Place>, t: Thread, p: Place, role: Role)
    ensures |In(places[t := p], role)| == |In(places, role)| + (if RoleOf(p) == role then 1 else 0)
                                          - (if t in places && RoleOf(places[t]) == role then 1 else 0)
  {
    SizeMoves(In(places, role), In(places[t := p], role), t);
  }

  lemma ParkedMoved(places: map<Thread, Place>, t: Thread, p: Place, parked: Place)
    ensures SomeParked(places[t := p], parked) ==> p == parked || SomeParked(places, parked)
    ensures SomeParked(places - {t}, parked) ==> SomeParked(places, parked)
  {}

  lemma Kept(s: State, r: State, t: Thread, p: Place)
    requires r.places == s.places[t := p]
    ensures forall role :: |In(r.places, role)| == |In(s.places, role)| + (if RoleOf(p) == role then 1 else 0)
                           - (if t in s.places && RoleOf(s.places[t]) == role then 1 else 0)
    ensures forall parked :: SomeParked(r.places, parked) ==> p == parked || SomeParked(s.places, parked)
  {
    hide In, RoleOf, SomeParked;
    forall role
      ensures |In(r.places, role)| == |In(s.places, role)| + (if RoleOf(p) == role then 1 else 0)
              - (if t in s.places && RoleOf(s.places[t]) == role then 1 else 0)
    {
      InMoved(s.places, t, p, role);
    }
    forall parked ensures SomeParked(r.places, parked) ==> p == parked || SomeParked(s.places, parked) {
      ParkedMoved(s.places, t, p, parked);
    }
  }

  /** What removing a thread does, with and without notifying the rest. */
  lemma Left(places: map<Thread, Place>, t: Thread)
    requires t in places
    ensures forall role :: |In(places - {t}, role)| == |In(places, role)| - (if RoleOf(places[t]) == role then 1 else 0)
    ensures forall role :: In(NotifyAll(places - {t}), role) == In(places - {t}, role)
    ensures forall parked :: SomeParked(places - {t}, parked) ==> SomeParked(places, parked)
    ensures !SomeParked(NotifyAll(places - {t}), ParkedShared) && !SomeParked(NotifyAll(places - {t}), ParkedExclusive)
  {
    hide In, RoleOf, NotifyAll;
    forall role ensures |In(places - {t}, role)| == |In(places, role)| - (if RoleOf(places[t]) == role then 1 else 0) {
      InRemoved(places, t, role);
    }
    forall role ensures In(NotifyAll(places - {t}), role) == In(places - {t}, role) { InNotified(places - {t}, role); }
    InNotified(places - {t}, HoldsShared);
  }

  lemma TrySharedKeeps(s: State, t: Thread)
    requires Valid(s) && (t in s.places ==> RoleOf(s.places[t]) == WaitsShared)
    ensures Valid(TrySharedFrom(s, t))
  {
    hide In, SomeParked;
    var r := TrySharedFrom(s, t);
    Kept(s, r, t, r.places[t]);
  }

  lemma LeaveSharedKeeps(s: State, t: Thread)
    requires Valid(s) && Enabled(s, LeaveShared, t)
    ensures Valid(LeaveSharedFrom(s, t))
  {
    hide In, SomeParked, NotifyAll;
    Left(s.places, t);
  }

  lemma InterruptSharedKeeps(s: State, t: Thread)
    requires Valid(s) && Enabled(s, InterruptShared, t)
    ensures Valid(Next(s, InterruptShared, t))
  {
    hide In, SomeParked;
    Left(s.places, t);
  }

  /** `s` is valid but for a waiter `t` that is counted already: on arrival it has no place yet. */
  lemma TryExclusiveKeeps(s: State, t: Thread)
    requires if t in s.places then Valid(s) && s.places[t] == SignalledExclusive
             else Valid(s.(exclusiveWaiting := s.exclusiveWaiting - 1))
    ensures Valid(TryExclusiveFrom(s, t))
  {
    hide In, SomeParked, NotifyAll;
    var r := TryExclusiveFrom(s, t);
    if s.exclusive || s.shared != 0 {
      Kept(s, r, t, ParkedExclusive);
    } else {
      var notified := s.(places := NotifyAll(s.places));
      forall role ensures In(NotifyAll(s.places), role) == In(s.places, role) { InNotified(s.places, role); }
      InNotified(s.places, HoldsShared);
      NotifiedPlace(s.places, t);
      Kept(notified, r, t, HoldingExclusive);
    }
  }

  lemma NotifiedPlace(places: map<Thread, Place>, t: Thread)
    ensures t in NotifyAll(places) <==> t in places
    ensures t in places ==> NotifyAll(places)[t] == Notified(places[t])
  {}

  lemma LeaveExclusiveKeeps(s: State, t: Thread)
    requires Valid(s) && Enabled(s, LeaveExclusive, t)
    ensures Valid(LeaveExclusiveFrom(s, t))
  {
    hide In, SomeParked, NotifyAll;
    Left(s.places, t);
  }

  lemma InterruptExclusiveKeeps(s: State, t: Thread)
    requires Valid(s) && Enabled(s, InterruptExclusive, t)
    ensures Valid(InterruptExclusiveFrom(s, t))
  {
    hide In, SomeParked, NotifyAll;
    Left(s.places, t);
  }

  lemma SpuriousKeeps(s: State, t: Thread)
    requires Valid(s) && Enabled(s, SpuriousWake, t)
    ensures Valid(Next(s, SpuriousWake, t))
  {
    hide In, SomeParked;
    Kept(s, Next(s, SpuriousWake, t), t, Notified(s.places[t]));
  }

  /** Main result: every section of every thread keeps the invariant. */
  lemma StepKeeps(s: State, a: Action, t: Thread)
    requires Valid(s) && Enabled(s, a, t)
    ensures Valid(Next(s, a, t))
  {
    hide Valid, TrySharedFrom, TryExclusiveFrom, LeaveSharedFrom, LeaveExclusiveFrom, InterruptExclusiveFrom;
    match a
    case EnterShared => TrySharedKeeps(s, t);
    case WakeShared => TrySharedKeeps(s, t);
    case LeaveShared => LeaveSharedKeeps(s, t);
    case InterruptShared => InterruptSharedKeeps(s, t);
    case EnterExclusive =>
      assert s.(exclusiveWaiting := s.exclusiveWaiting + 1).(exclusiveWaiting := s.exclusiveWaiting + 1 - 1) == s;
      TryExclusiveKeeps(s.(exclusiveWaiting := s.exclusiveWaiting + 1), t);
    case WakeExclusive => TryExclusiveKeeps(s, t);
    case LeaveExclusive => LeaveExclusiveKeeps(s, t);
    case InterruptExclusive => InterruptExclusiveKeeps(s, t);
    case SpuriousWake => SpuriousKeeps(s, t);
  }

  // ----------------------------------------------------------------- every schedule

  /** A schedule: which thread runs which section next. */
  type Schedule = seq<(Action, Thread)>

  ghost predicate Possible(s: State, run: Schedule)
    decreases |run|
  {
    run == [] || (Enabled(s, run[0].0, run[0].1) && Possible(Next(s, run[0].0, run[0].1), run[1..]))
  }

  ghost function After(s: State, run: Schedule): State
    requires Possible(s, run)
    decreases |run|
  {
    if run == [] then s else After(Next(s, run[0].0, run[0].1), run[1..])
  }

  lemma {:induction false} ScheduleKeeps(s: State, run: Schedule)
    requires Valid(s) && Possible(s, run)
    ensures Valid(After(s, run))
    decreases |run|
  {
    hide Valid, Next, Enabled;
    if run != [] {
      StepKeeps(s, run[0].0, run[0].1);
      ScheduleKeeps(Next(s, run[0].0, run[0].1), run[1..]);
    }
  }

  /** Main result over all schedules: no thread holds the gate shared while one holds it exclusively, and at most
   * one does. */
  lemma NeverBoth(run: Schedule, t: Thread, u: Thread)
    requires Possible(INITIAL, run) && t != u
    ensures var s := After(INITIAL, run);
            t in s.places && u in s.places && s.places[t] == HoldingExclusive ==>
            s.places[u] != HoldingShared && s.places[u] != HoldingExclusive
  {
    assert Valid(INITIAL);
    ScheduleKeeps(INITIAL, run);
    var s := After(INITIAL, run);
    if t in s.places && u in s.places && s.places[t] == HoldingExclusive {
      assert t in In(s.places, HoldsExclusive);
      MemberCounts(s.places, t);
      MemberCounts(s.places, u);
      if s.places[u] == HoldingExclusive { TwoMembers(In(s.places, HoldsExclusive), t, u); }
    }
  }

  lemma MemberCounts(places: map<Thread, Place>, t: Thread)
    requires t in places
    ensures t in In(places, RoleOf(places[t])) && |In(places, RoleOf(places[t]))| >= 1
  {}

  lemma TwoMembers(s: set<Thread>, t: Thread, u: Thread)
    requires t in s && u in s && t != u
    ensures |s| >= 2
  {
    SubsetSize({t, u}, s);
  }

  /** No shared caller is admitted while an exclusive one holds the gate or waits for it. */
  lemma SharedAdmittedOnlyAlone(s: State, a: Action, t: Thread, u: Thread)
    requires Valid(s) && Enabled(s, a, t)
    requires u in Next(s, a, t).places && Next(s, a, t).places[u] == HoldingShared
    requires !(u in s.places && s.places[u] == HoldingShared)
    ensures u == t && In(s.places, WaitsExclusive) == {} && In(s.places, HoldsExclusive) == {}
  {}

  /** While someone waits exclusively the shared holders only drain, so writes cannot starve a renewal. */
  lemma HoldersOnlyDrain(s: State, a: Action, t: Thread)
    requires Valid(s) && Enabled(s, a, t) && In(s.places, WaitsExclusive) != {}
    ensures In(Next(s, a, t).places, HoldsShared) <= In(s.places, HoldsShared)
  {}

  /** No lost wake-up: a waiter that is not about to run waits for someone who holds the gate, or behind an
   * exclusive waiter. */
  lemma ParkedForAReason(s: State, t: Thread)
    requires Valid(s) && t in s.places
    ensures s.places[t] == ParkedShared ==> In(s.places, HoldsExclusive) != {} || In(s.places, WaitsExclusive) != {}
    ensures s.places[t] == ParkedExclusive ==> In(s.places, HoldsExclusive) != {} || In(s.places, HoldsShared) != {}
  {
    assert SomeParked(s.places, s.places[t]);
  }

  predicate Waiting(s: State) {
    In(s.places, WaitsShared) + In(s.places, WaitsExclusive) != {}
  }

  predicate Held(s: State) {
    In(s.places, HoldsShared) + In(s.places, HoldsExclusive) != {}
  }

  /** Main result: the gate cannot deadlock. With nobody holding it and someone waiting, some waiter is awake and is
   * admitted the moment it runs. */
  lemma FreeGateAdmits(s: State) returns (t: Thread)
    requires Valid(s) && Waiting(s) && !Held(s)
    ensures t in s.places
    ensures s.places[t] == SignalledExclusive ==> Next(s, WakeExclusive, t).places[t] == HoldingExclusive
    ensures s.places[t] == SignalledShared ==> Next(s, WakeShared, t).places[t] == HoldingShared
    ensures s.places[t] in {SignalledExclusive, SignalledShared}
  {
    if In(s.places, WaitsExclusive) != {} {
      t :| t in In(s.places, WaitsExclusive);
    } else {
      t :| t in In(s.places, WaitsShared);
    }
    ParkedForAReason(s, t);
  }

  /** A held gate is left without anyone else's help. */
  lemma HeldGateIsLeft(s: State) returns (t: Thread, a: Action)
    requires Valid(s) && Held(s)
    ensures a in {LeaveShared, LeaveExclusive} && Enabled(s, a, t)
  {
    t :| t in In(s.places, HoldsShared) + In(s.places, HoldsExclusive);
    a := if s.places[t] == HoldingShared then LeaveShared else LeaveExclusive;
  }
}
