/** Every run of competing owners over one store. */
module StoreRuns {
  import opened Graphs
  import opened Values
  import opened Ir
  import opened Store

  /** One call on the store. A renewal is an acquisition; `bound` is whatever lease the caller's backend is bound to. */
  datatype Event =
    | Acquire(owner: string, ttl: real, scope: set<Id>, at: real)
    | Release(owner: string)
    | ForceUnlock(ids: set<Id>)
    | Write(bound: Option<Lease>, deleteIds: seq<Id>, rows: seq<StateNode>, at: real)

  function Touched(e: Event): set<Id>
    requires e.Write?
  {
    Elems(e.deleteIds) + RowIds(e.rows)
  }

  /** The nodes a write touches are those it deletes and those it stores, and an accepted one changes no other row. */
  lemma TouchedExactly(s: Contents, e: Event, n: Id)
    requires e.Write?
    ensures n in Touched(e) <==> n in e.deleteIds || exists row :: row in e.rows && row.id == n
    ensures n !in Touched(e) ==> (n in Next(s, e).nodes <==> n in s.nodes) && (n in s.nodes ==> Next(s, e).nodes[n] == s.nodes[n])
  {
    hide FenceViolation;
    WrittenMeans(s, e.deleteIds, e.rows);
  }

  predicate Accepted(s: Contents, e: Event) {
    match e
    case Acquire(owner, _, scope, at) => ScopeConflict(s.holds, owner, at, scope).None?
    case Write(bound, _, _, at) => FenceViolation(bound, s.holds, at, Touched(e)).None?
    case _ => true
  }

  function Next(s: Contents, e: Event): Contents {
    if !Accepted(s, e) then s
    else match e
      case Acquire(owner, ttl, scope, at) => Acquired(s, owner, ttl, scope, at)
      case Release(owner) => Released(s, owner)
      case ForceUnlock(ids) => Unlocked(s, ids)
      case Write(_, deleteIds, rows, _) => Written(s, deleteIds, rows)
  }

  function After(s: Contents, es: seq<Event>): Contents {
    if es == [] then s else Next(After(s, es[..|es| - 1]), es[|es| - 1])
  }

  lemma AfterStep(s: Contents, es: seq<Event>, k: nat)
    requires k < |es|
    ensures After(s, es[..k + 1]) == Next(After(s, es[..k]), es[k])
  {
    assert es[..k + 1][..k] == es[..k];
  }

  /** What an accepted event leaves recorded for a node: an acquisition mints one lease over its scope, a release drops
   * its owner's holds, an unlock the holds it names, and a write none. A refused event leaves everything. */
  lemma HoldsExactly(s: Contents, e: Event, n: Id)
    ensures !Accepted(s, e) ==> Next(s, e) == s
    ensures Accepted(s, e) ==>
              var was, now := s.holds, Next(s, e).holds;
              match e
              case Acquire(owner, ttl, scope, at) =>
                Next(s, e).fence == s.fence + 1 &&
                if n in scope then n in now && now[n] == Lease(owner, at + ttl, scope, s.fence + 1)
                else (n in now <==> n in was) && (n in now ==> now[n] == was[n])
              case Release(owner) => (n in now <==> n in was && was[n].owner != owner) && (n in now ==> now[n] == was[n])
              case ForceUnlock(ids) => (n in now <==> n in was && n !in ids) && (n in now ==> now[n] == was[n])
              case Write(_, _, _, _) => now == was
    ensures Accepted(s, e) && !e.Acquire? ==> Next(s, e).fence == s.fence
    ensures !e.Write? ==> Next(s, e).nodes == s.nodes && Next(s, e).serial == s.serial && Next(s, e).outputs == s.outputs
  {
    hide ScopeConflict, FenceViolation, Written;
    if e.Write? { WrittenMeans(s, e.deleteIds, e.rows); }
  }

  // ------------------------------------------------------------------ what a hold does

  /** `owner` holds `n` under a fence at least `fence`. */
  predicate Holding(s: Contents, owner: string, n: Id, fence: nat) {
    n in s.holds && s.holds[n].owner == owner && s.holds[n].fence >= fence
  }

  /** The event ends `owner`'s hold on `n`: a release, a forced unlock, or a takeover. */
  predicate Ends(s: Contents, e: Event, owner: string, n: Id) {
    match e
    case Release(o) => o == owner
    case ForceUnlock(ids) => n in ids
    case Acquire(o, _, scope, _) => o != owner && n in scope && Accepted(s, e)
    case Write(_, _, _, _) => false
  }

  /** No hold is newer than the store's own fence. */
  ghost predicate Minted(s: Contents) {
    forall n :: n in s.holds ==> s.holds[n].fence <= s.fence
  }

  /** Nothing in the run so far ended the hold. */
  ghost predicate Undisturbed(s: Contents, es: seq<Event>, owner: string, n: Id) {
    forall k :: 0 <= k < |es| ==> !Ends(After(s, es[..k]), es[k], owner, n)
  }

  lemma NextKeepsHold(s: Contents, e: Event, owner: string, n: Id, fence: nat)
    requires Minted(s) && Holding(s, owner, n, fence) && !Ends(s, e, owner, n)
    ensures Minted(Next(s, e)) && Holding(Next(s, e), owner, n, fence)
  {
    hide ScopeConflict, FenceViolation, Written;
    if e.Write? { WrittenMeans(s, e.deleteIds, e.rows); }
  }

  lemma NextIsMinted(s: Contents, e: Event)
    requires Minted(s)
    ensures Minted(Next(s, e)) && s.fence <= Next(s, e).fence
  {
    hide ScopeConflict, FenceViolation, Written;
    if e.Write? { WrittenMeans(s, e.deleteIds, e.rows); }
  }

  lemma {:induction false} AfterIsMinted(s: Contents, es: seq<Event>)
    requires Minted(s)
    ensures Minted(After(s, es)) && s.fence <= After(s, es).fence
  {
    if es != [] {
      AfterIsMinted(s, es[..|es| - 1]);
      NextIsMinted(After(s, es[..|es| - 1]), es[|es| - 1]);
    }
  }

  /** A hold lasts, under a fence never older, until something ends it. */
  lemma {:induction false} HoldLasts(s: Contents, es: seq<Event>, owner: string, n: Id, fence: nat)
    requires Minted(s) && Holding(s, owner, n, fence) && Undisturbed(s, es, owner, n)
    ensures Minted(After(s, es)) && Holding(After(s, es), owner, n, fence)
  {
    if es != [] {
      var before := es[..|es| - 1];
      forall k | 0 <= k < |before| ensures !Ends(After(s, before[..k]), before[k], owner, n) {
        assert before[..k] == es[..k] && before[k] == es[k];
      }
      HoldLasts(s, before, owner, n, fence);
      assert !Ends(After(s, es[..|es| - 1]), es[|es| - 1], owner, n);
      NextKeepsHold(After(s, before), es[|es| - 1], owner, n, fence);
    }
  }

  lemma UndisturbedPrefix(s: Contents, es: seq<Event>, owner: string, n: Id, k: nat)
    requires Undisturbed(s, es, owner, n) && k <= |es|
    ensures Undisturbed(s, es[..k], owner, n)
  {
    forall j | 0 <= j < k ensures !Ends(After(s, es[..k][..j]), es[..k][j], owner, n) {
      assert es[..k][..j] == es[..j];
    }
  }

  /** Main result: from a successful acquisition until that hold is released, unlocked or taken over, every
   * accepted fenced write to a node of its scope is by the same owner, under a fence at least as new, before expiry. */
  lemma OnlyTheHolderWrites(s: Contents, acquire: Event, es: seq<Event>, n: Id, k: nat)
    requires Minted(s) && acquire.Acquire? && Accepted(s, acquire) && n in acquire.scope
    requires Undisturbed(Next(s, acquire), es, acquire.owner, n)
    requires k < |es| && es[k].Write? && es[k].bound.Some? && n in Touched(es[k])
    requires Accepted(After(Next(s, acquire), es[..k]), es[k])
    ensures var held := After(Next(s, acquire), es[..k]).holds;
            && es[k].bound.value.owner == acquire.owner
            && es[k].bound.value.fence >= s.fence + 1
            && n in held && es[k].at < held[n].expiresAt
  {
    hide ScopeConflict, FenceViolation, Undisturbed, After, Minted;
    NextIsMinted(s, acquire);
    UndisturbedPrefix(Next(s, acquire), es, acquire.owner, n, k);
    HoldLasts(Next(s, acquire), es[..k], acquire.owner, n, s.fence + 1);
    var now := After(Next(s, acquire), es[..k]);
    AcceptedExactly(es[k].bound.value, now.holds, es[k].at, Touched(es[k]));
    assert MayWrite(es[k].bound.value, now.holds, es[k].at, n);
  }

  /** A takeover happens only at or after the expiry of the hold it takes. */
  lemma TakeoverOnlyAfterExpiry(s: Contents, e: Event, n: Id)
    requires e.Acquire? && Accepted(s, e) && n in e.scope && n in s.holds && s.holds[n].owner != e.owner
    ensures s.holds[n].expiresAt <= e.at
  {
    AcquirableExactly(s.holds, e.owner, e.at, e.scope);
  }

  /** The fence an acquisition mints. */
  function FenceOf(s: Contents, es: seq<Event>, k: nat): nat
    requires k < |es|
  {
    After(s, es[..k]).fence + 1
  }

  /** Along any run minted fences strictly increase. */
  lemma FencesIncrease(s: Contents, es: seq<Event>, i: nat, j: nat)
    requires Minted(s) && i < j < |es| && es[i].Acquire? && es[j].Acquire?
    requires Accepted(After(s, es[..i]), es[i])
    ensures FenceOf(s, es, i) < FenceOf(s, es, j)
  {
    AfterStep(s, es, i);
    AfterIsMinted(s, es[..i]);
    NextIsMinted(After(s, es[..i]), es[i]);
    AfterSplit(s, es[..j], i + 1);
    assert es[..j][..i + 1] == es[..i + 1];
    AfterIsMinted(After(s, es[..i + 1]), es[..j][i + 1..]);
  }

  lemma {:induction false} AfterSplit(s: Contents, es: seq<Event>, k: nat)
    requires k <= |es|
    ensures After(s, es) == After(After(s, es[..k]), es[k..])
    decreases |es|
  {
    if k == |es| {
      assert es[..k] == es && es[k..] == [];
    } else {
      var before := es[..|es| - 1];
      AfterSplit(s, before, k);
      assert before[..k] == es[..k] && es[k..][..|es[k..]| - 1] == before[k..];
    }
  }

  /** Once the same owner acquires a node again, nothing written under its earlier lease lands on it. */
  lemma EarlierLeaseIsSuperseded(s: Contents, again: Event, es: seq<Event>, n: Id, earlier: Lease, k: nat)
    requires Minted(s) && again.Acquire? && Accepted(s, again) && n in again.scope && earlier.fence <= s.fence
    requires Undisturbed(Next(s, again), es, again.owner, n)
    requires k < |es| && es[k].Write? && es[k].bound == Some(earlier) && n in Touched(es[k])
    ensures !Accepted(After(Next(s, again), es[..k]), es[k])
  {
    hide ScopeConflict, FenceViolation, Undisturbed, After, Minted, Touched, MayWrite, Acquired;
    if Accepted(After(Next(s, again), es[..k]), es[k]) {
      OnlyTheHolderWrites(s, again, es, n, k);
    }
  }

  // ------------------------------------------------------ for how long a lock holds

  /** Nothing in the run gives `owner`'s hold on `n` up, or acquires it anew. */
  ghost predicate Kept(es: seq<Event>, owner: string, n: Id) {
    forall e :: e in es ==>
      match e
      case Release(o) => o != owner
      case ForceUnlock(ids) => n !in ids
      case Acquire(o, _, scope, _) => !(o == owner && n in scope)
      case Write(_, _, _, _) => true
  }

  /** Every attempt of others to acquire the node comes before `deadline`. */
  ghost predicate Before(es: seq<Event>, n: Id, deadline: real) {
    forall e :: e in es && e.Acquire? && n in e.scope ==> e.at < deadline
  }

  /** The store records that `owner` holds the node until `deadline`. */
  predicate HeldUntil(s: Contents, owner: string, n: Id, deadline: real) {
    n in s.holds && s.holds[n].owner == owner && s.holds[n].expiresAt == deadline
  }

  lemma AcquiredHolds(s: Contents, acquire: Event, n: Id)
    requires acquire.Acquire? && Accepted(s, acquire) && n in acquire.scope
    ensures HeldUntil(Next(s, acquire), acquire.owner, n, acquire.at + acquire.ttl)
    ensures Next(s, acquire).holds[n].fence == s.fence + 1
  {
    hide ScopeConflict;
  }

  /** Before the deadline no one else acquires the node. */
  lemma OthersRefused(s: Contents, e: Event, owner: string, n: Id, deadline: real)
    requires HeldUntil(s, owner, n, deadline) && e.Acquire? && e.owner != owner && n in e.scope && e.at < deadline
    ensures !Accepted(s, e)
  {
    AcquirableExactly(s.holds, e.owner, e.at, e.scope);
  }

  lemma HoldStays(s: Contents, e: Event, owner: string, n: Id, deadline: real)
    requires HeldUntil(s, owner, n, deadline) && Kept([e], owner, n) && Before([e], n, deadline)
    ensures HeldUntil(Next(s, e), owner, n, deadline) && Next(s, e).holds[n] == s.holds[n]
  {
    hide ScopeConflict, FenceViolation, Written;
    assert e in [e];
    if e.Acquire? && n in e.scope { OthersRefused(s, e, owner, n, deadline); }
    if e.Write? { WrittenMeans(s, e.deleteIds, e.rows); }
  }

  lemma {:induction false} HoldStaysAll(s: Contents, es: seq<Event>, owner: string, n: Id, deadline: real)
    requires HeldUntil(s, owner, n, deadline) && Kept(es, owner, n) && Before(es, n, deadline)
    ensures HeldUntil(After(s, es), owner, n, deadline) && After(s, es).holds[n] == s.holds[n]
  {
    hide Next, HeldUntil;
    if es != [] {
      var before, last := es[..|es| - 1], es[|es| - 1];
      forall e | e in before ensures e in es {}
      assert last in es;
      HoldStaysAll(s, before, owner, n, deadline);
      HoldStays(After(s, before), last, owner, n, deadline);
    }
  }

  /** Main result on the length of a lock: an acquisition at `t` for `ttl` keeps every node of its scope from all other
   * owners until `t + ttl`, and no longer. Unless the owner gives the hold up, an unlock breaks it, or the owner acquires
   * the node again, any other acquisition of it before then is refused, and one at or after then is not refused for it. */
  lemma LockLastsItsTime(s: Contents, acquire: Event, es: seq<Event>, n: Id, e: Event)
    requires acquire.Acquire? && Accepted(s, acquire) && n in acquire.scope
    requires Kept(es, acquire.owner, n) && Before(es, n, acquire.at + acquire.ttl)
    requires e.Acquire? && e.owner != acquire.owner
    ensures n in e.scope && e.at < acquire.at + acquire.ttl ==> !Accepted(After(Next(s, acquire), es), e)
    ensures e.scope == {n} && e.at >= acquire.at + acquire.ttl ==> Accepted(After(Next(s, acquire), es), e)
  {
    hide After, Next, Accepted;
    AcquiredHolds(s, acquire, n);
    HoldStaysAll(Next(s, acquire), es, acquire.owner, n, acquire.at + acquire.ttl);
    var now := After(Next(s, acquire), es);
    if n in e.scope && e.at < acquire.at + acquire.ttl { OthersRefused(now, e, acquire.owner, n, acquire.at + acquire.ttl); }
    if e.scope == {n} && e.at >= acquire.at + acquire.ttl { LapsedIsFree(now, e, acquire.owner, n, acquire.at + acquire.ttl); }
  }

  lemma LapsedIsFree(s: Contents, e: Event, owner: string, n: Id, deadline: real)
    requires HeldUntil(s, owner, n, deadline) && e.Acquire? && e.scope == {n} && e.at >= deadline
    ensures Accepted(s, e)
  {
    AcquirableExactly(s.holds, e.owner, e.at, e.scope);
  }

  /** Over the same time the owner's own writes under that lease, to nodes of its scope so kept, are accepted; from the end
   * of it on, every write that touches such a node is refused. */
  lemma LockLetsItsOwnerWrite(s: Contents, acquire: Event, es: seq<Event>, e: Event)
    requires acquire.Acquire? && Accepted(s, acquire) && e.Write?
    requires e.bound == Some(AcquiredLease(s, acquire.owner, acquire.ttl, acquire.scope, acquire.at))
    requires forall n :: n in Touched(e) ==>
               n in acquire.scope && Kept(es, acquire.owner, n) && Before(es, n, acquire.at + acquire.ttl)
    ensures e.at < acquire.at + acquire.ttl || Touched(e) == {} <==> Accepted(After(Next(s, acquire), es), e)
  {
    hide After, Next, Touched, FenceViolation;
    var now := After(Next(s, acquire), es);
    forall n | n in Touched(e)
      ensures HeldUntil(now, acquire.owner, n, acquire.at + acquire.ttl) && now.holds[n].fence == s.fence + 1
    {
      AcquiredHolds(s, acquire, n);
      HoldStaysAll(Next(s, acquire), es, acquire.owner, n, acquire.at + acquire.ttl);
    }
    AcceptedExactly(e.bound.value, now.holds, e.at, Touched(e));
    forall n | n in Touched(e) ensures MayWrite(e.bound.value, now.holds, e.at, n) <==> e.at < acquire.at + acquire.ttl {}
  }

  // ------------------------------------------------------- what fencing leaves open

  const EMPTY := Contents(map[], map[], 0, 0, map[])

  /** `a` lapses, `b` takes over and releases. */
  const LAPSE: seq<Event> := [Acquire("a", 1.0, {"n"}, 0.0), Acquire("b", 1.0, {"n"}, 2.0), Release("b")]

  /** An unheld node inside a lease's scope stays writable: after a takeover has come and gone, a write under the
   * lapsed lease is accepted. */
  lemma StaleWriteAfterRelease(row: StateNode)
    requires row.id == "n"
    ensures var lease := AcquiredLease(EMPTY, "a", 1.0, {"n"}, 0.0);
            && lease.fence < After(EMPTY, LAPSE).fence && lease.expiresAt < 3.0
            && Accepted(After(EMPTY, LAPSE), Write(Some(lease), [], [row], 3.0))
  {
    hide ScopeConflict, FenceViolation;
    var s1 := Acquired(EMPTY, "a", 1.0, {"n"}, 0.0);
    var s2 := Acquired(s1, "b", 1.0, {"n"}, 2.0);
    var s3 := Released(s2, "b");
    AcquirableExactly(EMPTY.holds, "a", 0.0, {"n"});
    AcquirableExactly(s1.holds, "b", 2.0, {"n"});
    assert After(EMPTY, LAPSE[..0]) == EMPTY;
    AfterStep(EMPTY, LAPSE, 0);
    AfterStep(EMPTY, LAPSE, 1);
    AfterStep(EMPTY, LAPSE, 2);
    assert LAPSE[..3] == LAPSE;
    assert After(EMPTY, LAPSE) == s3;
    var lease := AcquiredLease(EMPTY, "a", 1.0, {"n"}, 0.0);
    AcceptedExactly(lease, s3.holds, 3.0, Touched(Write(Some(lease), [], [row], 3.0)));
  }
}
