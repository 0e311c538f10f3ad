/** The concurrent scheduler as steps of its per-node tasks. */
module Schedule {
  import opened Graphs
  import opened Order

  /** How far one node's task has come: the predecessors it still waits for, the slot, the work. */
  datatype Task = Awaiting(next: nat) | WantSlot | Working | Finished

  datatype State<V> = State(tasks: map<Id, Task>, results: map<Id, V>, finished: seq<Id>, halted: bool)

  /** `preds` in the chosen direction, and the size of the semaphore. */
  datatype Plan = Plan(preds: Edges, nodeIds: seq<Id>, parallelism: int)

  ghost predicate WellFormed(p: Plan) {
    p.parallelism >= 1 && Closed(p.preds) && Distinct(p.nodeIds) && Elems(p.nodeIds) == p.preds.Keys
  }

  datatype Move<V> =
    | Waited(n: Id)
    | AllWaited(n: Id)
    | Start(n: Id)
    | Finish(n: Id, value: V)
    | Fail(n: Id)

  function At<V>(s: State<V>, t: Task): set<Id> {
    set n | n in s.tasks && s.tasks[n] == t
  }

  predicate Enabled<V>(p: Plan, s: State<V>, m: Move<V>) {
    && !s.halted && m.n in s.tasks && m.n in p.preds
    && match m
       case Waited(n) =>
         s.tasks[n].Awaiting? && s.tasks[n].next < |p.preds[n]| &&
         p.preds[n][s.tasks[n].next] in s.tasks && s.tasks[p.preds[n][s.tasks[n].next]] == Finished
       case AllWaited(n) => s.tasks[n].Awaiting? && s.tasks[n].next == |p.preds[n]|
       case Start(n) => s.tasks[n] == WantSlot && |At(s, Working)| < p.parallelism
       case Finish(n, _) => s.tasks[n] == Working
       case Fail(n) => s.tasks[n] == Working
  }

  function Next<V>(p: Plan, s: State<V>, m: Move<V>): State<V>
    requires Enabled(p, s, m)
  {
    match m
    case Waited(n) => s.(tasks := s.tasks[n := Awaiting(s.tasks[n].next + 1)])
    case AllWaited(n) => s.(tasks := s.tasks[n := WantSlot])
    case Start(n) => s.(tasks := s.tasks[n := Working])
    case Finish(n, value) =>
      s.(tasks := s.tasks[n := Finished], results := s.results[n := value], finished := s.finished + [n])
    case Fail(_) => s.(halted := true)
  }

  function Begin<V>(p: Plan): State<V> {
    State(map n | n in p.preds :: Awaiting(0), map[], [], false)
  }

  // ------------------------------------------------------------------ invariant

  /** How many of its predecessors a task has seen finish. */
  function Seen(p: Plan, t: Task, n: Id): nat
    requires n in p.preds
  {
    if t.Awaiting? then t.next else |p.preds[n]|
  }

  /** A task is past a predecessor only once that one finished. */
  ghost predicate WaitsInTurn<V>(p: Plan, s: State<V>, n: Id)
    requires n in p.preds && n in s.tasks
  {
    Seen(p, s.tasks[n], n) <= |p.preds[n]| &&
    forall k :: 0 <= k < Seen(p, s.tasks[n], n) ==> p.preds[n][k] in s.finished
  }

  ghost predicate Valid<V>(p: Plan, s: State<V>) {
    && s.tasks.Keys == p.preds.Keys
    && Distinct(s.finished) && Elems(s.finished) == At(s, Finished) == s.results.Keys
    && Respects(p.preds, s.finished)
    && |At(s, Working)| <= p.parallelism
    && (forall n :: n in s.tasks ==> WaitsInTurn(p, s, n))
  }

  lemma AtMoved<V>(s: State<V>, r: State<V>, n: Id, t: Task, kind: Task)
    requires n in s.tasks && r.tasks == s.tasks[n := t]
    ensures At(r, kind) == if t == kind then At(s, kind) + {n} else At(s, kind) - {n}
  {}

  lemma BeginIsValid<V>(p: Plan)
    requires WellFormed(p)
    ensures Valid(p, Begin<V>(p))
  {
    assert At(Begin<V>(p), Finished) == {} && At(Begin<V>(p), Working) == {};
    assert Elems([]) == {};
  }

  lemma AllSeen<V>(p: Plan, s: State<V>, n: Id)
    requires Valid(p, s) && n in s.tasks && !s.tasks[n].Awaiting?
    ensures forall d :: Step(p.preds, n, d) ==> d in s.finished
  {
    assert WaitsInTurn(p, s, n);
    forall d | Step(p.preds, n, d) ensures d in s.finished {
      var k :| 0 <= k < |p.preds[n]| && p.preds[n][k] == d;
    }
  }

  lemma FinishedStays<V>(p: Plan, s: State<V>, r: State<V>, n: Id)
    requires n in p.preds && n in s.tasks && n in r.tasks && WaitsInTurn(p, s, n) && r.tasks[n] == s.tasks[n]
    requires forall d :: d in s.finished ==> d in r.finished
    ensures WaitsInTurn(p, r, n)
  {}

  lemma StepKeepsCounts<V>(p: Plan, s: State<V>, m: Move<V>)
    requires Valid(p, s) && Enabled(p, s, m) && !m.Fail?
    ensures var r := Next(p, s, m);
            r.tasks.Keys == p.preds.Keys && |At(r, Working)| <= p.parallelism &&
            Distinct(r.finished) && Elems(r.finished) == At(r, Finished) == r.results.Keys
  {
    hide At, Respects, WaitsInTurn, Elems;
    var r := Next(p, s, m);
    AtMoved(s, r, m.n, r.tasks[m.n], Finished);
    AtMoved(s, r, m.n, r.tasks[m.n], Working);
    AtHas(s, m.n);
    if m.Finish? {
      ElemsSnoc(s.finished, m.n);
      DistinctGrows(s.finished, m.n);
    }
  }

  lemma DistinctGrows(finished: seq<Id>, n: Id)
    requires Distinct(finished) && n !in Elems(finished)
    ensures Distinct(finished + [n])
  {}

  lemma StepKeepsOrder<V>(p: Plan, s: State<V>, m: Move<V>)
    requires Valid(p, s) && Enabled(p, s, m) && !m.Fail?
    ensures Respects(p.preds, Next(p, s, m).finished)
    ensures forall d :: d in s.finished ==> d in Next(p, s, m).finished
  {
    hide At, Respects, WaitsInTurn, Distinct;
    if m.Finish? {
      AllSeen(p, s, m.n);
      FinishInOrder(p, s.finished, m.n);
    }
  }

  lemma StepKeepsTurns<V>(p: Plan, s: State<V>, m: Move<V>, n: Id)
    requires Valid(p, s) && Enabled(p, s, m) && !m.Fail? && n in p.preds
    ensures n in Next(p, s, m).tasks && WaitsInTurn(p, Next(p, s, m), n)
  {
    hide At, Respects, WaitsInTurn, Distinct;
    StepKeepsOrder(p, s, m);
    if n == m.n { TurnMoves(p, s, m); } else { FinishedStays(p, s, Next(p, s, m), n); }
  }

  lemma StepKeeps<V>(p: Plan, s: State<V>, m: Move<V>)
    requires WellFormed(p) && Valid(p, s) && Enabled(p, s, m)
    ensures Valid(p, Next(p, s, m))
  {
    hide At, Respects, WaitsInTurn, Closed, Distinct, Enabled, Elems;
    if m.Fail? {
      FailKeeps(p, s, m);
    } else {
      StepKeepsCounts(p, s, m);
      StepKeepsOrder(p, s, m);
      var r := Next(p, s, m);
      forall n | n in r.tasks ensures WaitsInTurn(p, r, n) { StepKeepsTurns(p, s, m, n); }
    }
  }

  lemma FailKeeps<V>(p: Plan, s: State<V>, m: Move<V>)
    requires Valid(p, s) && Enabled(p, s, m) && m.Fail?
    ensures Valid(p, Next(p, s, m))
  {
    hide At, Respects, WaitsInTurn, Distinct, Elems;
    var r := Next(p, s, m);
    SameAt(s, r);
    forall n | n in r.tasks ensures WaitsInTurn(p, r, n) { FinishedStays(p, s, r, n); }
  }

  lemma SameAt<V>(s: State<V>, r: State<V>)
    requires r.tasks == s.tasks
    ensures forall kind :: At(r, kind) == At(s, kind)
  {}

  lemma AtHas<V>(s: State<V>, n: Id)
    requires n in s.tasks
    ensures forall kind :: n in At(s, kind) <==> s.tasks[n] == kind
  {}

  lemma FinishInOrder(p: Plan, finished: seq<Id>, n: Id)
    requires Respects(p.preds, finished) && forall d :: Step(p.preds, n, d) ==> d in finished
    ensures Respects(p.preds, finished + [n])
  {
    var more := finished + [n];
    forall k, d | 0 <= k < |more| && Step(p.preds, more[k], d) ensures d in more[..k] {
      if k == |finished| { assert more[..k] == finished; } else { assert more[..k] == finished[..k] && more[k] == finished[k]; }
    }
  }

  lemma TurnMoves<V>(p: Plan, s: State<V>, m: Move<V>)
    requires Valid(p, s) && Enabled(p, s, m)
    ensures m.n in Next(p, s, m).tasks && WaitsInTurn(p, Next(p, s, m), m.n)
  {
    hide Respects, Distinct;
    assert WaitsInTurn(p, s, m.n);
    if m.Waited? {
      var d := p.preds[m.n][s.tasks[m.n].next];
      assert d in At(s, Finished);
      assert d in s.finished;
    }
  }

  // ------------------------------------------------------------------- every run

  ghost predicate Possible<V>(p: Plan, s: State<V>, run: seq<Move<V>>)
    decreases |run|
  {
    run == [] || (Enabled(p, s, run[0]) && Possible(p, Next(p, s, run[0]), run[1..]))
  }

  ghost function After<V>(p: Plan, s: State<V>, run: seq<Move<V>>): State<V>
    requires Possible(p, s, run)
    decreases |run|
  {
    if run == [] then s else After(p, Next(p, s, run[0]), run[1..])
  }

  lemma {:induction false} RunKeeps<V>(p: Plan, s: State<V>, run: seq<Move<V>>)
    requires WellFormed(p) && Valid(p, s) && Possible(p, s, run)
    ensures Valid(p, After(p, s, run))
    decreases |run|
  {
    hide Valid, Enabled, Next, WellFormed;
    if run != [] {
      StepKeeps(p, s, run[0]);
      RunKeeps(p, Next(p, s, run[0]), run[1..]);
    }
  }

  /** Main result over all runs: work on a node starts only after every predecessor finished, and at most
   * `parallelism` nodes are worked on at once. */
  lemma WorkStartsInOrder<V>(p: Plan, run: seq<Move<V>>, n: Id)
    requires WellFormed(p) && Possible(p, Begin(p), run)
    ensures var s := After(p, Begin(p), run);
            && |At(s, Working)| <= p.parallelism
            && (n in s.tasks && s.tasks[n] in {Working, Finished} ==>
                forall d :: Step(p.preds, n, d) ==> d in s.tasks && s.tasks[d] == Finished && d in s.results)
  {
    hide Possible, After;
    BeginIsValid<V>(p);
    RunKeeps(p, Begin(p), run);
    var s := After(p, Begin(p), run);
    if n in s.tasks && s.tasks[n] in {Working, Finished} {
      AllSeen(p, s, n);
      forall d | Step(p.preds, n, d) ensures d in s.tasks && s.tasks[d] == Finished && d in s.results {
        assert d in Elems(s.finished) && d in At(s, Finished);
      }
    }
  }

  lemma SomethingLeft(part: set<Id>, whole: set<Id>)
    requires part <= whole && part != whole
    ensures whole - part != {}
  {
    assert part < whole;
    var x :| x in whole && x !in part;
    assert x in whole - part;
  }

  /** Main result: in an acyclic graph, until every node has its result, some task can move on without help. */
  lemma SomeTaskMoves<V>(p: Plan, s: State<V>, value: V) returns (m: Move<V>)
    requires WellFormed(p) && Acyclic(p.preds) && Valid(p, s) && !s.halted && s.results.Keys != p.preds.Keys
    ensures Enabled(p, s, m) && !m.Fail?
  {
    var rest := p.preds.Keys - s.results.Keys;
    assert s.results.Keys <= p.preds.Keys;
    SomethingLeft(s.results.Keys, p.preds.Keys);
    if w :| w in s.tasks && s.tasks[w] == Working {
      m := Finish(w, value);
    } else if w :| w in s.tasks && s.tasks[w] == WantSlot {
      assert At(s, Working) == {};
      m := Start(w);
    } else {
      var a := SourceExists(p.preds, rest);
      m := AwaitingMoves(p, s, a);
    }
  }

  lemma AwaitingMoves<V>(p: Plan, s: State<V>, a: Id) returns (m: Move<V>)
    requires WellFormed(p) && Valid(p, s) && !s.halted && a in p.preds && s.tasks[a].Awaiting?
    requires forall b :: b in p.preds.Keys - s.results.Keys ==> !Step(p.preds, a, b)
    ensures Enabled(p, s, m) && !m.Fail?
  {
    assert WaitsInTurn(p, s, a);
    var k := s.tasks[a].next;
    if k < |p.preds[a]| {
      assert Step(p.preds, a, p.preds[a][k]);
      assert p.preds[a][k] in At(s, Finished);
      m := Waited(a);
    } else {
      m := AllWaited(a);
    }
  }

  /** Steps a node's task has left. */
  function Left(p: Plan, t: Task, n: Id): int
    requires n in p.preds
  {
    match t
    case Awaiting(next) => |p.preds[n]| - next + 3
    case WantSlot => 2
    case Working => 1
    case Finished => 0
  }

  function TotalLeft<V>(p: Plan, s: State<V>, ids: seq<Id>): int
    requires forall n :: n in ids ==> n in p.preds && n in s.tasks
  {
    if ids == [] then 0 else Left(p, s.tasks[ids[0]], ids[0]) + TotalLeft(p, s, ids[1..])
  }

  lemma {:induction false} TotalMoves<V>(p: Plan, s: State<V>, m: Move<V>, ids: seq<Id>)
    requires Valid(p, s) && Enabled(p, s, m) && !m.Fail? && Distinct(ids) && forall n :: n in ids ==> n in p.preds
    ensures forall n :: n in ids ==> n in s.tasks && n in Next(p, s, m).tasks
    ensures TotalLeft(p, Next(p, s, m), ids) == TotalLeft(p, s, ids) - (if m.n in ids then 1 else 0)
  {
    hide Valid, Respects;
    ValidTasks(p, s);
    if ids != [] {
      TotalMoves(p, s, m, ids[1..]);
      assert m.n in ids <==> m.n == ids[0] || m.n in ids[1..];
    }
  }

  lemma ValidTasks<V>(p: Plan, s: State<V>)
    requires Valid(p, s)
    ensures s.tasks.Keys == p.preds.Keys
  {}

  lemma {:induction false} TotalNonNegative<V>(p: Plan, s: State<V>, ids: seq<Id>)
    requires Valid(p, s) && forall n :: n in ids ==> n in p.preds && n in s.tasks
    ensures TotalLeft(p, s, ids) >= 0
  {
    if ids != [] {
      assert WaitsInTurn(p, s, ids[0]);
      TotalNonNegative(p, s, ids[1..]);
    }
  }

  /** Main result on termination: without failures a run is never longer than the steps its tasks began with, and each
   * step takes exactly one off. */
  lemma {:induction false} RunIsBounded<V>(p: Plan, s: State<V>, run: seq<Move<V>>)
    requires WellFormed(p) && Valid(p, s) && Possible(p, s, run) && forall k :: 0 <= k < |run| ==> !run[k].Fail?
    ensures forall n :: n in p.nodeIds ==> n in p.preds && n in s.tasks
    ensures |run| <= TotalLeft(p, s, p.nodeIds)
    decreases |run|
  {
    hide Respects, Closed, At, Next, Enabled;
    forall n | n in p.nodeIds ensures n in p.preds && n in s.tasks { assert n in Elems(p.nodeIds); }
    if run == [] {
      TotalNonNegative(p, s, p.nodeIds);
    } else {
      EnabledNode(p, s, run[0]);
      StepKeeps(p, s, run[0]);
      TotalMoves(p, s, run[0], p.nodeIds);
      RunIsBounded(p, Next(p, s, run[0]), run[1..]);
    }
  }

  lemma EnabledNode<V>(p: Plan, s: State<V>, m: Move<V>)
    requires WellFormed(p) && Enabled(p, s, m)
    ensures m.n in p.nodeIds
  {
    assert m.n in Elems(p.nodeIds);
  }

  /** A node's result is written once: no later step changes it. */
  lemma ResultIsFinal<V>(p: Plan, s: State<V>, m: Move<V>, n: Id)
    requires Valid(p, s) && Enabled(p, s, m) && n in s.results
    ensures n in Next(p, s, m).results && Next(p, s, m).results[n] == s.results[n]
  {
    assert n in At(s, Finished);
  }

  /** Every run that gives each node a result is the run of an acyclic graph, and lists the results in a
   * topological order. */
  lemma CompletionMeansAcyclic<V>(p: Plan, s: State<V>)
    requires WellFormed(p) && Valid(p, s) && s.results.Keys == p.preds.Keys
    ensures IsTopological(p.preds, s.finished) && Acyclic(p.preds)
  {
    OrderedIsAcyclic(p.preds, s.finished);
  }
}
