/** The run-side guard: a local check before every state write. */
module LeaseGuards {
  import opened Graphs
  import opened Values
  import opened Store

  /** The lease has lapsed, or is within `grace` of it; a run without a lease has nothing to guard. */
  predicate Lapsing(lease: Option<Lease>, grace: real, now: real) {
    lease.Some? && lease.value.expiresAt - now <= grace
  }

  class LeaseGuard {
    const grace: real
    var lease: Option<Lease>
    /** The loss every later check repeats. */
    var lost: bool

    constructor (grace: real)
      ensures this.grace == grace && lease == None && !lost
    {
      this.grace, lease, lost := grace, None, false;
    }

    method Renewed(fresher: Lease)
      modifies this`lease
      ensures lease == Some(fresher)
    {
      lease := Some(fresher);
    }

    method Fail()
      modifies this`lost
      ensures lost
    {
      lost := true;
    }

    /** Whether a write is refused; a refusal is remembered, whatever is renewed afterwards. */
    method Check(now: real) returns (refused: bool)
      modifies this`lost
      ensures refused <==> old(lost) || (lease.Some? && lease.value.expiresAt <= now + grace)
      ensures lost == refused
    {
      if !lost && Lapsing(lease, grace, now) { lost := true; }
      refused := lost;
    }
  }

  /** What a passed check is worth: while the store still records the guarded lease, no write within the grace period
   * is refused as expired, and the store's refusals then are never about this run's own hold. */
  lemma PassedCheckOutlastsGrace(lease: Lease, grace: real, now: real, held: Holds, id: Id, later: real)
    requires !Lapsing(Some(lease), grace, now) && later <= now + grace
    requires id in held ==> held[id] == lease || held[id].owner != lease.owner
    ensures var objection := Objection(lease, held, later, id);
            objection.Some? ==> objection.value.OutsideScope? || (objection.value.HeldByAnother? && id in held && held[id] != lease)
  {}
}
