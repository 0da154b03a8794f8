/** Statements as a whole: all or nothing, and what they do to log and clock. */
module Statements {
  import opened Clocks
  import opened Ops
  import opened Sorting
  import opened OpLogs
  import opened Planner
  import opened Rebuild
  import opened Peers
  import opened PeerInvariants

  predicate Moved(c: ClockState, c': ClockState) {
    Earlier(c.wall, c.logical, c'.wall, c'.logical)
  }

  lemma TicksMove(k: Ticker, n: nat)
    requires 0 < n && k.clock.logical + n < U32
    ensures Moved(k.clock, ClockAfter(k, n))
  {
    TickIsFresh(k, 0, n);
  }

  lemma ObserveMoves(c: ClockState, now: nat, h: Hlc)
    requires c.logical + 1 < U32 && NotPast(c, h)
    ensures Moved(c, ObserveOf(c, now, h.wall, h.logical).clock)
  {
  }

  lemma {:induction false} ObservingMoves(c: ClockState, ops: seq<Op>, now: nat -> nat, from: nat)
    requires c.logical + |ops| < U32 && |ops| > 0 && forall o :: o in ops ==> NotPast(c, o.hlc)
    ensures Moved(c, ObserveAll(c, ops, now, from))
  {
    var m := |ops| - 1;
    var before := ops[..m];
    assert ops[m] in ops && NotPast(c, ops[m].hlc);
    ObservingAdvances(c, before, now, from);
    ObserveMoves(ObserveAll(c, before, now, from), now(from + m), ops[m].hlc);
  }

  /** A statement that cannot be planned changes neither log nor state and has still moved the
      clock, if it tried a row; any other appends exactly its planned ops, all at once, and
      leaves the clock later than each of them. */
  lemma StatementIsAtomic(cfg: Config, p: Peer, stmt: Stmt, now: nat -> nat)
    requires CanExecute(cfg, p, stmt, now) && NoDup(p.log)
    ensures var plan, p' := PlanAt(cfg, p, stmt, now), ExecuteOf(cfg, p, stmt, now);
      && p'.id == p.id
      && (plan.error.Some? ==> p'.log == p.log && p'.state == p.state && (if plan.ticks > 0 then Moved(p.clock, p'.clock) else p'.clock == p.clock))
      && (plan.error.None? ==> p.log <= p'.log && Elements(p'.log) == Elements(p.log) + Elements(plan.ops))
      && (plan.error.None? ==> forall o :: o in plan.ops ==> Earlier(o.hlc.wall, o.hlc.logical, p'.clock.wall, p'.clock.logical))
  {
    var plan, k := PlanAt(cfg, p, stmt, now), TickerOf(p, now);
    if plan.ticks > 0 { TicksMove(k, plan.ticks); }
    if plan.error.None? {
      var ticked := ClockAfter(k, plan.ticks);
      AppendAllAdds(p.log, plan.ops);
      TicksAdvance(k, plan.ticks);
      forall o | o in plan.ops ensures NotPast(ticked, o.hlc) { PlannedTime(cfg, p, stmt, now, o); }
      if |plan.ops| > 0 { ObservingMoves(ticked, plan.ops, now, plan.ticks); }
    }
  }
}
