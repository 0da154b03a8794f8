/** Applying ops one by one, as a peer does locally, against rebuilding from the log. */
module Incremental {
  import opened ByteStrings
  import opened Clocks
  import opened Ops
  import opened RowStores
  import opened Replay
  import opened Sorting
  import opened Rebuild
  import Arbitration
  import U = Uniqueness

  type UniqueState = Arbitration.UniqueState

  /** `o` is later than every logged op, or claims a value for the row planned last. */
  ghost predicate ComesLast(log: seq<Op>, o: Op) {
    forall p :: p in log ==> Before(p.hlc, o.hlc) || (p.hlc == o.hlc && o.ReserveUnique?)
  }

  /** Rows are only written in tables the log creates. */
  ghost predicate TablesFirst(ops: set<Op>) {
    forall o :: o in ops && o.IsDml() ==> o.table in Created(ops)
  }

  ghost predicate NoneLost(u: UniqueState) {
    forall t, c, v, r :: !Arbitration.IsLost(u, t, c, v, r)
  }

  // ----- Uniqueness -----

  /** An op that is no reservation may go anywhere in the order. */
  lemma {:induction false} InsertionKeepsClaims(xs: seq<Op>, o: Op)
    requires !o.ReserveUnique?
    ensures Arbitration.ReplayUnique(InsertStable(ReplaysBefore, xs, o)) == Arbitration.ReplayUnique(xs)
  {
    var ys := InsertStable(ReplaysBefore, xs, o);
    if |xs| == 0 || !ReplaysBefore(o, xs[|xs| - 1]) {
      assert ys[..|ys| - 1] == xs;
    } else {
      var m := |xs| - 1;
      InsertionKeepsClaims(xs[..m], o);
      assert ys[..|ys| - 1] == InsertStable(ReplaysBefore, xs[..m], o);
    }
  }

  lemma ReplayOrderSnoc(log: seq<Op>, o: Op)
    ensures ReplayOrder(log + [o]) == InsertStable(ReplaysBefore, ReplayOrder(log), o)
  {
    assert (log + [o])[..|log|] == log;
  }

  /** A claim that comes last is replayed last. */
  lemma LastClaim(xs: seq<Op>, o: Op)
    requires o.ReserveUnique? && ComesLast(xs, o)
    ensures Arbitration.ReplayUnique(InsertStable(ReplaysBefore, xs, o)) == Arbitration.ReserveIn(Arbitration.ReplayUnique(xs), o)
  {
    if |xs| > 0 {
      var last := xs[|xs| - 1];
      assert last in xs;
      BeforeIsTotal(last.hlc, o.hlc);
      assert !ReplaysBefore(o, last);
    }
    assert InsertStable(ReplaysBefore, xs, o) == xs + [o];
    assert (xs + [o])[..|xs|] == xs;
  }

  lemma ClaimsStep(log: seq<Op>, o: Op)
    requires NoDup(log) && ComesLast(log, o)
    ensures Arbitration.ReplayUnique(ReplayOrder(log + [o]))
      == Arbitration.ReserveIn(Arbitration.ReplayUnique(ReplayOrder(log)), o)
  {
    ReplayOrderSnoc(log, o);
    var xs := ReplayOrder(log);
    if o.ReserveUnique? {
      ReplayOrderSorts(log);
      forall p | p in xs ensures p in log { assert p in Elements(xs); }
      LastClaim(xs, o);
    } else {
      InsertionKeepsClaims(xs, o);
    }
  }

  /** A reservation touches the list of its own value only. */
  lemma OtherLists(u: UniqueState, o: Op, t: Text, c: Text, v: Bytes)
    requires o.ReserveUnique? && !(o.Reserves(t, c) && o.value == v)
    ensures U.ListFor(Arbitration.IndexAt(Arbitration.ReserveIn(u, o), t, c), v) == U.ListFor(Arbitration.IndexAt(u, t, c), v)
  {
  }

  /** Once a claim is lost, some claim is lost. */
  lemma LostStaysLost(u: UniqueState, o: Op, t: Text, c: Text, v: Bytes, r: U.Reservation)
    requires NoneLost(Arbitration.ReserveIn(u, o))
    ensures !Arbitration.IsLost(u, t, c, v, r)
  {
    var u' := Arbitration.ReserveIn(u, o);
    assert !Arbitration.IsLost(u', t, c, v, r);
    if Arbitration.IsLost(u, t, c, v, r) {
      if o.Reserves(t, c) && o.value == v {
        SomeoneLoses(Arbitration.IndexAt(u, t, c), Arbitration.ReservationFrom(o), r);
        var e :| e in U.ListFor(Arbitration.IndexAt(u', t, c), v) && e.state.Lost?;
        assert Arbitration.IsLost(u', t, c, v, e);
      } else if o.ReserveUnique? {
        OtherLists(u, o, t, c, v);
      }
    }
  }

  lemma SomeoneLoses(idx: U.Index, n: U.Reservation, r: U.Reservation)
    requires r in U.ListFor(idx, n.value) && r.state.Lost?
    ensures exists e :: e in U.ListFor(U.ReserveOf(idx, n), n.value) && e.state.Lost?
  {
    var rs := U.ListFor(idx, n.value);
    if !exists e :: e in rs && U.SameClaimant(e, n) {
      var all := rs + [n];
      var js, k := U.Judge(all), if U.WinnerOf(all) == 0 then 1 else 0;
      assert js[k] in js && js[k].state.Lost?;
    }
  }

  lemma NothingToNull(u: UniqueState)
    requires NoneLost(u)
    ensures Arbitration.NullWrites(u) == []
  {
    var ns := Arbitration.NullWrites(u);
    assert |ns| > 0 ==> ns[0] in ns;
    forall n ensures n !in ns { Arbitration.NullWriteSource(u, n); }
  }

  // ----- Both halves -----

  lemma StoreStep(log: seq<Op>, o: Op)
    requires WellFormed(Elements(log + [o])) && ComesLast(log, o) && TablesFirst(Elements(log))
    ensures StateOf(Elements(log + [o])) == ApplyOp(StateOf(Elements(log)), o)
  {
    HlcOrder();
    var ops := Elements(log);
    assert Elements(log + [o]) == ops + {o};
    match o {
      case ReserveUnique(_, _, _, _, _) => ReserveStep(ops, o);
      case CreateTable(_, _, _) => CreateStep(ops, o);
      case _ => DmlStep(ops, o);
    }
  }

  /** Applying the op that comes last to the rebuilt state gives the state rebuilt
      from the longer log, as long as no claim is lost. */
  lemma ApplyIsRebuild(cfg: Config, log: seq<Op>, o: Op)
    requires !cfg.policy.Cascade?
    requires NoDup(log + [o]) && WellFormed(Elements(log + [o])) && ComesLast(log, o) && TablesFirst(Elements(log))
    requires NoneLost(RebuildOf(cfg, log + [o]).uniqueness)
    ensures var r := RebuildOf(cfg, log);
      && RebuildOf(cfg, log + [o]) == Derived(ApplyOp(r.store, o), Arbitration.ReserveIn(r.uniqueness, o))
      && NoneLost(r.uniqueness)
  {
    assert Elements(log) <= Elements(log + [o]) && (log + [o])[..|log|] == log;
    ClaimsStep(log, o);
    forall t, c, v, e ensures !Arbitration.IsLost(RebuildOf(cfg, log).uniqueness, t, c, v, e) {
      LostStaysLost(RebuildOf(cfg, log).uniqueness, o, t, c, v, e);
    }
    NothingToNull(RebuildOf(cfg, log).uniqueness);
    NothingToNull(RebuildOf(cfg, log + [o]).uniqueness);
    BaseIsStateOf(log);
    BaseIsStateOf(log + [o]);
    StoreStep(log, o);
  }
}
