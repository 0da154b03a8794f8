/** Executing a statement on a rebuilt peer against rebuilding from its longer log. */
module LocalExecution {
  import opened ByteStrings
  import opened Clocks
  import opened Ops
  import opened RowStores
  import opened Sorting
  import opened OpLogs
  import opened FkResolution
  import opened Planner
  import opened Rebuild
  import opened Peers
  import opened PeerInvariants
  import opened Clusters
  import opened Incremental
  import Arbitration
  import U = Uniqueness

  // ----- Claims already on record -----

  ghost predicate HasClaim(u: UniqueState, o: Op)
    requires o.ReserveUnique?
  {
    exists e :: e in U.ListFor(Arbitration.IndexAt(u, o.table, o.column), o.value) && U.SameClaimant(e, Arbitration.ReservationFrom(o))
  }

  lemma ReserveKeepsClaimants(idx: U.Index, n: U.Reservation, v: Bytes, e: U.Reservation)
    requires e in U.ListFor(idx, v)
    ensures exists f :: f in U.ListFor(U.ReserveOf(idx, n), v) && U.SameClaimant(f, e)
  {
    var rs := U.ListFor(idx, n.value);
    if v != n.value || exists x :: x in rs && U.SameClaimant(x, n) {
      assert e in U.ListFor(U.ReserveOf(idx, n), v);
    } else {
      var i :| 0 <= i < |rs| && rs[i] == e;
      var js := U.Judge(rs + [n]);
      assert U.ListFor(U.ReserveOf(idx, n), v) == js;
      assert js[i] in js && U.SameClaimant(js[i], e);
    }
  }

  lemma ReserveRecords(idx: U.Index, n: U.Reservation)
    ensures exists f :: f in U.ListFor(U.ReserveOf(idx, n), n.value) && U.SameClaimant(f, n)
  {
    var rs := U.ListFor(idx, n.value);
    if x :| x in rs && U.SameClaimant(x, n) {
      assert x in U.ListFor(U.ReserveOf(idx, n), n.value);
    } else {
      var all := rs + [n];
      var js := U.Judge(all);
      assert all[|rs|] in all && js[|rs|] in js && U.SameClaimant(js[|rs|], n);
      assert U.ListFor(U.ReserveOf(idx, n), n.value) == if |all| == 1 then all else js;
    }
  }

  lemma ClaimStays(u: UniqueState, o: Op, p: Op)
    requires o.ReserveUnique? && (HasClaim(u, o) || p == o)
    ensures HasClaim(Arbitration.ReserveIn(u, p), o)
  {
    if p == o {
      ReserveRecords(Arbitration.IndexAt(u, o.table, o.column), Arbitration.ReservationFrom(o));
    } else if p.Reserves(o.table, o.column) {
      var e :| e in U.ListFor(Arbitration.IndexAt(u, o.table, o.column), o.value) && U.SameClaimant(e, Arbitration.ReservationFrom(o));
      ReserveKeepsClaimants(Arbitration.IndexAt(u, o.table, o.column), Arbitration.ReservationFrom(p), o.value, e);
    } else if p.ReserveUnique? {
      OtherLists(u, p, o.table, o.column, o.value);
    }
  }

  lemma {:induction false} ReplayedClaim(xs: seq<Op>, o: Op)
    requires o in xs && o.ReserveUnique?
    ensures HasClaim(Arbitration.ReplayUnique(xs), o)
  {
    var m := |xs| - 1;
    if o in xs[..m] { ReplayedClaim(xs[..m], o); }
    ClaimStays(Arbitration.ReplayUnique(xs[..m]), o, xs[m]);
  }

  lemma ClaimAgain(u: UniqueState, o: Op)
    requires o.ReserveUnique? && HasClaim(u, o)
    ensures Arbitration.ReserveIn(u, o) == u
  {
    var idx := Arbitration.IndexAt(u, o.table, o.column);
    assert U.ReserveOf(idx, Arbitration.ReservationFrom(o)) == idx;
    assert o.table in u && o.column in u[o.table];
    assert u[o.table][o.column := idx] == u[o.table];
  }

  /** A claim the log already holds changes nothing when it is made once more. */
  lemma RepeatedClaim(cfg: Config, log: seq<Op>, o: Op)
    requires NoDup(log) && o in log && o.ReserveUnique?
    ensures StateAfter(cfg, RebuildOf(cfg, log), o) == RebuildOf(cfg, log)
  {
    ReplayOrderSorts(log);
    assert o in ReplayOrder(log) by { assert o in Elements(log); }
    ReplayedClaim(ReplayOrder(log), o);
    ClaimAgain(RebuildOf(cfg, log).uniqueness, o);
  }

  // ----- Statements -----

  /** The peer can plan on a rebuilt state with a clock past everything it has logged. */
  ghost predicate Current(cfg: Config, p: Peer) {
    p.state == RebuildOf(cfg, p.log) && forall o :: o in p.log ==> NotPast(p.clock, o.hlc)
  }

  lemma LaterThanClock(c: ClockState, a: Hlc, b: Hlc)
    requires NotPast(c, a) && !NotPast(c, b)
    ensures Before(a, b)
  {
  }

  /** `o` can be applied to the state of `log`. */
  ghost predicate IsNext(log: seq<Op>, o: Op) {
    && ComesLast(log, o) && (o in log ==> o.ReserveUnique?)
    && TablesFirst(Elements(log)) && WellFormed(Elements(log) + {o})
  }

  lemma StateAfterIs(cfg: Config, d: Derived, o: Op)
    requires !cfg.policy.Cascade?
    ensures StateAfter(cfg, d, o) == Derived(ApplyOp(d.store, o), Arbitration.ReserveIn(d.uniqueness, o))
  {
  }

  lemma NewIsRebuild(cfg: Config, log: seq<Op>, o: Op)
    requires NoDup(log + [o]) && WellFormed(Elements(log + [o])) && ComesLast(log, o) && TablesFirst(Elements(log))
    requires !cfg.policy.Cascade? && NoneLost(RebuildOf(cfg, log + [o]).uniqueness)
    ensures StateAfter(cfg, RebuildOf(cfg, log), o) == RebuildOf(cfg, log + [o])
    ensures NoneLost(RebuildOf(cfg, log).uniqueness)
  {
    ApplyIsRebuild(cfg, log, o);
    StateAfterIs(cfg, RebuildOf(cfg, log), o);
  }

  lemma NextIsNew(log: seq<Op>, o: Op)
    requires NoDup(log) && IsNext(log, o) && o !in log
    ensures NoDup(log + [o]) && WellFormed(Elements(log + [o])) && AppendOf(log, o) == log + [o]
  {
    assert Elements(log + [o]) == Elements(log) + {o};
  }

  lemma NextIsRebuild(cfg: Config, log: seq<Op>, o: Op)
    requires NoDup(log) && IsNext(log, o) && !cfg.policy.Cascade?
    requires NoneLost(RebuildOf(cfg, AppendOf(log, o)).uniqueness)
    ensures StateAfter(cfg, RebuildOf(cfg, log), o) == RebuildOf(cfg, AppendOf(log, o))
    ensures NoneLost(RebuildOf(cfg, log).uniqueness)
  {
    if o in log {
      RepeatedClaim(cfg, log, o);
    } else {
      NextIsNew(log, o);
      NewIsRebuild(cfg, log, o);
    }
  }

  ghost predicate InTurn(log: seq<Op>, ops: seq<Op>) {
    |ops| > 0 ==> InTurn(log, ops[..|ops| - 1]) && IsNext(AppendAll(log, ops[..|ops| - 1]), ops[|ops| - 1])
  }

  lemma {:induction false} RunIsRebuild(cfg: Config, log: seq<Op>, ops: seq<Op>)
    requires NoDup(log) && InTurn(log, ops) && !cfg.policy.Cascade?
    requires NoneLost(RebuildOf(cfg, AppendAll(log, ops)).uniqueness)
    ensures StateAll(cfg, RebuildOf(cfg, log), ops) == RebuildOf(cfg, AppendAll(log, ops))
  {
    if |ops| > 0 {
      var m := |ops| - 1;
      AppendAllAdds(log, ops[..m]);
      NextIsRebuild(cfg, AppendAll(log, ops[..m]), ops[m]);
      RunIsRebuild(cfg, log, ops[..m]);
    }
  }

  lemma NextComesLast(cfg: Config, p: Peer, stmt: Stmt, now: nat -> nat, n: nat)
    requires CanExecute(cfg, p, stmt, now) && PlanAt(cfg, p, stmt, now).error.None? && n < |PlanAt(cfg, p, stmt, now).ops|
    requires NoDup(p.log) && forall o :: o in p.log ==> NotPast(p.clock, o.hlc)
    ensures var ops := PlanAt(cfg, p, stmt, now).ops; var log := AppendAll(p.log, ops[..n]);
      ComesLast(log, ops[n]) && (ops[n] in log ==> ops[n].ReserveUnique?)
  {
    var ops := PlanAt(cfg, p, stmt, now).ops;
    var o, log := ops[n], AppendAll(p.log, ops[..n]);
    AppendAllAdds(p.log, ops[..n]);
    PlannedTime(cfg, p, stmt, now, o);
    BeforeIsTotal(o.hlc, o.hlc);
    forall q | q in log ensures Before(q.hlc, o.hlc) || (q.hlc == o.hlc && o.ReserveUnique?) {
      assert q in Elements(log);
      if q in p.log {
        LaterThanClock(p.clock, q.hlc, o.hlc);
      } else {
        var m :| 0 <= m < n && ops[m] == q;
        PlanInOrder(cfg, p.state.store, stmt, TickerOf(p, now), m, n);
      }
    }
  }

  lemma {:induction false} PlanInTurn(cfg: Config, c: Cluster, i: nat, stmt: Stmt, now: nat -> nat, n: nat)
    requires Inv(cfg, c) && Enabled(cfg, c, Execute(i, stmt, now)) && PlanAt(cfg, c.peers[i], stmt, now).error.None?
    requires n <= |PlanAt(cfg, c.peers[i], stmt, now).ops| && forall o :: o in c.peers[i].log ==> NotPast(c.peers[i].clock, o.hlc)
    ensures InTurn(c.peers[i].log, PlanAt(cfg, c.peers[i], stmt, now).ops[..n])
  {
    if n > 0 {
      var p, ops := c.peers[i], PlanAt(cfg, c.peers[i], stmt, now).ops;
      PlanInTurn(cfg, c, i, stmt, now, n - 1);
      PlanNext(cfg, c, i, stmt, now, n - 1);
      assert ops[..n][..n - 1] == ops[..n - 1];
    }
  }

  lemma WellFormedPart(a: set<Op>, b: set<Op>)
    requires WellFormed(b) && a <= b
    ensures WellFormed(a)
  {
  }

  lemma OwnLog(c: Cluster, i: nat)
    requires i < |c.peers|
    ensures Elements(c.peers[i].log) <= AllOps(c)
  {
  }

  /** No two ops of the old log and the plan clash. */
  lemma PlanWellFormed(cfg: Config, c: Cluster, i: nat, stmt: Stmt, now: nat -> nat, n: nat)
    requires Inv(cfg, c) && Enabled(cfg, c, Execute(i, stmt, now)) && PlanAt(cfg, c.peers[i], stmt, now).error.None?
    requires n < |PlanAt(cfg, c.peers[i], stmt, now).ops|
    ensures var ops := PlanAt(cfg, c.peers[i], stmt, now).ops;
      WellFormed(Elements(c.peers[i].log) + Elements(ops[..n]) + {ops[n]})
  {
    var p, ops := c.peers[i], PlanAt(cfg, c.peers[i], stmt, now).ops;
    ExecutedGroups(cfg, c, i, stmt, now);
    OwnLog(c, i);
    assert Elements(ops[..n]) + {ops[n]} <= Elements(ops);
    WellFormedPart(Elements(p.log) + Elements(ops[..n]) + {ops[n]}, AllOps(c) + Elements(ops));
  }

  lemma PlanNext(cfg: Config, c: Cluster, i: nat, stmt: Stmt, now: nat -> nat, n: nat)
    requires Inv(cfg, c) && Enabled(cfg, c, Execute(i, stmt, now)) && PlanAt(cfg, c.peers[i], stmt, now).error.None?
    requires n < |PlanAt(cfg, c.peers[i], stmt, now).ops| && forall o :: o in c.peers[i].log ==> NotPast(c.peers[i].clock, o.hlc)
    ensures var ops := PlanAt(cfg, c.peers[i], stmt, now).ops; IsNext(AppendAll(c.peers[i].log, ops[..n]), ops[n])
  {
    assert NoDup(c.peers[i].log) by { assert PeerOk(cfg, c, i); }
    NextComesLast(cfg, c.peers[i], stmt, now, n);
    PlanWellFormed(cfg, c, i, stmt, now, n);
    PrefixLogOk(cfg, c, i, stmt, now, n);
    AppendAllAdds(c.peers[i].log, PlanAt(cfg, c.peers[i], stmt, now).ops[..n]);
  }

  lemma PrefixLogOk(cfg: Config, c: Cluster, i: nat, stmt: Stmt, now: nat -> nat, n: nat)
    requires Inv(cfg, c) && Enabled(cfg, c, Execute(i, stmt, now)) && PlanAt(cfg, c.peers[i], stmt, now).error.None?
    requires n <= |PlanAt(cfg, c.peers[i], stmt, now).ops|
    ensures TablesFirst(Elements(c.peers[i].log) + Elements(PlanAt(cfg, c.peers[i], stmt, now).ops[..n]))
  {
    var p, ops := c.peers[i], PlanAt(cfg, c.peers[i], stmt, now).ops;
    assert PeerOk(cfg, c, i);
    assert ClockOk(p, Elements(p.log)) by { assert forall o :: o in OpsAt(c, i) ==> o in AllOps(c); }
    PlanFits(cfg, p, stmt, now, n);
    StateAllOk(cfg, p.state, Elements(p.log), ops[..n]);
  }

  /** A statement keeps the clock past everything logged. */
  lemma ClockStaysAhead(cfg: Config, c: Cluster, i: nat, stmt: Stmt, now: nat -> nat)
    requires Inv(cfg, c) && Enabled(cfg, c, Execute(i, stmt, now))
    requires forall o :: o in c.peers[i].log ==> NotPast(c.peers[i].clock, o.hlc)
    ensures forall o :: o in ExecuteOf(cfg, c.peers[i], stmt, now).log ==> NotPast(ExecuteOf(cfg, c.peers[i], stmt, now).clock, o.hlc)
  {
    var p, p' := c.peers[i], ExecuteOf(cfg, c.peers[i], stmt, now);
    assert PeerOk(cfg, c, i);
    ExecutedClock(cfg, p, stmt, now);
    var ops := PlanAt(cfg, p, stmt, now).ops;
    AppendAllAdds(p.log, ops);
    forall o | o in p'.log ensures NotPast(p'.clock, o.hlc) {
      assert o in Elements(p'.log);
      if o in p.log { NotPastLater(p.clock, p'.clock, o.hlc); }
    }
  }

  /** Incremental execution refines rebuild: outside Cascade, a current peer that executes
      a statement ends in the state it would rebuild, as long as no claim is lost. */
  lemma ExecuteIsRebuild(cfg: Config, c: Cluster, i: nat, stmt: Stmt, now: nat -> nat)
    requires Inv(cfg, c) && Enabled(cfg, c, Execute(i, stmt, now)) && Current(cfg, c.peers[i]) && !cfg.policy.Cascade?
    requires NoneLost(RebuildOf(cfg, ExecuteOf(cfg, c.peers[i], stmt, now).log).uniqueness)
    ensures Current(cfg, ExecuteOf(cfg, c.peers[i], stmt, now))
  {
    var p := c.peers[i];
    ClockStaysAhead(cfg, c, i, stmt, now);
    if PlanAt(cfg, p, stmt, now).error.None? {
      var ops := PlanAt(cfg, p, stmt, now).ops;
      PlanInTurn(cfg, c, i, stmt, now, |ops|);
      assert ops[..|ops|] == ops;
      assert NoDup(p.log) by { assert PeerOk(cfg, c, i); }
      RunIsRebuild(cfg, p.log, ops);
    }
  }
}
