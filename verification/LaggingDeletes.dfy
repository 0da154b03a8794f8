/** A DELETE on a peer whose clock lags behind what it received: hidden at once, shown again
    by the next rebuild. */
module LaggingDeletes {
  import opened ByteStrings
  import opened Clocks
  import opened Ops
  import opened RowStores
  import opened Replay
  import opened Sorting
  import opened OpLogs
  import opened FkResolution
  import opened Planner
  import opened Rebuild
  import opened Peers
  import opened Clusters
  import opened SoloRuns
  import AntiEntropy
  import Arbitration
  import Deletions
  import Effects
  import Executor
  import OrSets
  import PlannerLaws
  import SecondaryIndexes
  import U = Uniqueness
  import UniqueColumns

  /** The row is visible to the peer now. */
  ghost predicate Sees(s: Store, t: Text, r: Text) {
    t in s && OrSets.Visible(s[t].membership, r)
  }

  lemma RebuiltSees(cfg: Config, log: seq<Op>, t: Text, r: Text)
    requires NoDup(log) && WellFormed(Elements(log))
    ensures Sees(RebuildOf(cfg, log).store, t, r) <==> UniqueColumns.Shown(Elements(log), t, r) && !UniqueColumns.Cascaded(cfg, log, t, r)
  {
    UniqueColumns.FinallyVisibleIff(cfg, log, t, r);
  }

  lemma OneMoreDelete(ops: set<Op>, more: set<Op>, o: Op)
    requires o in more && o.DeleteRow? && forall p :: p in more ==> p.DeleteRow? && (p.row == o.row ==> p == o)
    ensures InsertTimes(ops + more, o.table, o.row) == InsertTimes(ops, o.table, o.row)
    ensures DeleteTimes(ops + more, o.table, o.row) == DeleteTimes(ops, o.table, o.row) + {o.hlc}
    ensures Created(ops + more) == Created(ops)
  {
    assert o.Deletes(o.table, o.row);
  }

  function DeletePlan(cfg: Config, p: Peer, t: Text, filter: Option<Executor.Expr>, now: nat -> nat): seq<Op>
    requires t in p.state.store
  {
    DeleteOps(t, Executor.MatchingIds(p.state.store[t], filter), cfg.policy.Tombstone?, TickerOf(p, now))
  }

  lemma OneDeleteARow(t: Text, ids: seq<Text>, fkTombstone: bool, k: Ticker, i: nat)
    requires NoDup(ids) && i < |ids|
    ensures var ops := DeleteOps(t, ids, fkTombstone, k);
      ops[i] in ops && forall o :: o in ops ==> o.DeleteRow? && (o.row == ids[i] ==> o == ops[i])
  {
    var ops := DeleteOps(t, ids, fkTombstone, k);
    forall o | o in ops ensures o.DeleteRow? && (o.row == ids[i] ==> o == ops[i]) {
      var j :| 0 <= j < |ids| && ops[j] == o;
      assert j < i ==> ids[j] != ids[i];
      assert i < j ==> ids[i] != ids[j];
    }
  }

  lemma DeleteLog(cfg: Config, p: Peer, t: Text, filter: Option<Executor.Expr>, now: nat -> nat)
    requires t in p.state.store && NoDup(p.log)
    ensures Elements(ExecuteOf(cfg, p, Delete(t, filter), now).log) == Elements(p.log) + Elements(DeletePlan(cfg, p, t, filter, now))
  {
    AppendAllAdds(p.log, DeletePlan(cfg, p, t, filter, now));
  }

  /** A DELETE statement adds one delete time to each matching row and no insert time. */
  lemma DeleteAddsTime(cfg: Config, p: Peer, t: Text, filter: Option<Executor.Expr>, now: nat -> nat, i: nat)
    requires t in p.state.store && i < |Executor.MatchingIds(p.state.store[t], filter)| && NoDup(p.log)
    ensures var r, d := Executor.MatchingIds(p.state.store[t], filter)[i], TimeOf(TickerOf(p, now), i);
      var ops := Elements(ExecuteOf(cfg, p, Delete(t, filter), now).log);
      && InsertTimes(ops, t, r) == InsertTimes(Elements(p.log), t, r)
      && DeleteTimes(ops, t, r) == DeleteTimes(Elements(p.log), t, r) + {d}
      && Created(ops) == Created(Elements(p.log))
  {
    var ids, ops := Executor.MatchingIds(p.state.store[t], filter), DeletePlan(cfg, p, t, filter, now);
    DeleteLog(cfg, p, t, filter, now);
    Effects.MatchingIdsDiffer(p.state.store[t], filter);
    OneDeleteARow(t, ids, cfg.policy.Tombstone?, TickerOf(p, now), i);
    OneMoreDelete(Elements(p.log), Elements(ops), ops[i]);
  }

  /** Some logged insert of the row is later than `d` and than every logged delete. */
  ghost predicate Outlives(ops: set<Op>, t: Text, r: Text, d: Hlc) {
    exists h :: h in InsertTimes(ops, t, r) && AllBefore(DeleteTimes(ops, t, r), h) && Before(d, h)
  }

  lemma RebuildAfterDelete(cfg: Config, p: Peer, t: Text, filter: Option<Executor.Expr>, now: nat -> nat, j: nat)
    requires t in p.state.store && j < |Executor.MatchingIds(p.state.store[t], filter)|
    requires NoDup(p.log) && t in Created(Elements(p.log))
    requires var log := ExecuteOf(cfg, p, Delete(t, filter), now).log; NoDup(log) && WellFormed(Elements(log))
    ensures var r, d := Executor.MatchingIds(p.state.store[t], filter)[j], TimeOf(TickerOf(p, now), j);
      var log := ExecuteOf(cfg, p, Delete(t, filter), now).log;
      Sees(RebuildOf(cfg, log).store, t, r) <==> Outlives(Elements(p.log), t, r, d) && !UniqueColumns.Cascaded(cfg, log, t, r)
  {
    var r, d := Executor.MatchingIds(p.state.store[t], filter)[j], TimeOf(TickerOf(p, now), j);
    DeleteAddsTime(cfg, p, t, filter, now, j);
    RebuiltSees(cfg, ExecuteOf(cfg, p, Delete(t, filter), now).log, t, r);
    var del := DeleteTimes(Elements(p.log), t, r);
    assert forall h :: AllBefore(del + {d}, h) <==> AllBefore(del, h) && Before(d, h);
  }

  lemma LogsOk(cfg: Config, c: Cluster, i: nat, stmt: Stmt, now: nat -> nat)
    requires Inv(cfg, c) && Enabled(cfg, c, Execute(i, stmt, now))
    ensures NoDup(c.peers[i].log)
    ensures var log := ExecuteOf(cfg, c.peers[i], stmt, now).log; NoDup(log) && WellFormed(Elements(log))
  {
    var c' := StepOf(cfg, c, Execute(i, stmt, now));
    ExecuteKeeps(cfg, c, i, stmt, now);
    assert PeerOk(cfg, c, i) && PeerOk(cfg, c', i);
    assert OpsAt(c', i) <= AllOps(c');
  }

  /** In every cluster that keeps the invariant: a row a DELETE matches is hidden from the
      deleting peer at once, and its next rebuild shows the row again if and only if an
      insert it had logged is later than this delete and every logged one, and the cascade, if
      that is the policy, does not take the row. */
  lemma DeleteUndoneIff(cfg: Config, c: Cluster, i: nat, t: Text, filter: Option<Executor.Expr>, now: nat -> nat, j: nat)
    requires Inv(cfg, c) && Enabled(cfg, c, Execute(i, Delete(t, filter), now))
    requires var s := c.peers[i].state.store; t in s && j < |Executor.MatchingIds(s[t], filter)|
    ensures var p := c.peers[i];
      var r, d, p' := Executor.MatchingIds(p.state.store[t], filter)[j], TimeOf(TickerOf(p, now), j), ExecuteOf(cfg, p, Delete(t, filter), now);
      && Sees(p.state.store, t, r) && !Sees(p'.state.store, t, r)
      && (Sees(RebuildOf(cfg, p'.log).store, t, r) <==> Outlives(Elements(p.log), t, r, d) && !UniqueColumns.Cascaded(cfg, p'.log, t, r))
  {
    var ids := Executor.MatchingIds(c.peers[i].state.store[t], filter);
    assert ids[j] in Elements(ids);
    HiddenAtOnce(cfg, c.peers[i], t, filter, now, ids[j]);
    LogsOk(cfg, c, i, Delete(t, filter), now);
    TableIsCreated(cfg, c, i, t);
    RebuildAfterDelete(cfg, c.peers[i], t, filter, now, j);
  }

  lemma TableIsCreated(cfg: Config, c: Cluster, i: nat, t: Text)
    requires Inv(cfg, c) && i < |c.peers|
    ensures t in c.peers[i].state.store <==> t in Created(OpsAt(c, i))
  {
    assert PeerOk(cfg, c, i);
  }

  lemma HiddenAtOnce(cfg: Config, p: Peer, t: Text, filter: Option<Executor.Expr>, now: nat -> nat, r: Text)
    requires t in p.state.store && r in Executor.Matching(p.state.store[t], filter)
    ensures !Sees(ExecuteOf(cfg, p, Delete(t, filter), now).state.store, t, r)
  {
    Deletions.DeletedRows(cfg, p, t, filter, now, t);
  }

  // ----- A run that shows it -----

  const A: Text := [65]
  const B: Text := [66]
  const T: Text := [116]
  const ID: Text := [105, 100]
  const R: Text := [49]
  const SCHEMA := Schema(T, [ColumnDef(ID, true, None, true, false)], [], [])
  const PEERS: seq<Text> := [A, B]

  const CREATION := CreateTable(T, Hlc(10, 0, A), SCHEMA)
  const INSERTION := InsertRow(T, R, Hlc(20, 0, A), [Cell(ID, Some(R))])

  predicate Plain(cfg: Config) {
    !cfg.policy.Cascade? && cfg.text(R) == R
  }

  /** Peer A creates a table at wall time 10 and inserts a row at 20; peer B receives both. */
  ghost function Steps(n: nat): seq<Step>
    requires n <= 3
  {
    if n == 0 then []
    else Steps(n - 1) + [
      if n == 1 then Execute(0, Create(SCHEMA), Fixed(10))
      else if n == 2 then Execute(0, Insert(T, [], [[Some(R)]]), Fixed(20))
      else SyncFrom(1, 0)
    ]
  }

  lemma CreationPlans(cfg: Config)
    ensures Plans(cfg, A, map[], Create(SCHEMA), 10, [CREATION], 1)
    ensures StoreAll(map[], [CREATION]) == map[T := Table(SCHEMA, map[], map[])]
  {
    forall k: Ticker | k.peer == A && k.now == Fixed(10) && k.clock.wall < 10 ensures TimeOf(k, 0) == Hlc(10, 0, A) { FixedTicks(k, 10, 0); }
    assert [CREATION][..0] == [];
  }

  lemma InsertionRow(cfg: Config, s: Store)
    requires Plain(cfg)
    ensures PlanRow(cfg, s, T, SCHEMA, ID, [Cell(ID, Some(R))], Hlc(20, 0, A)) == RowPlanned([INSERTION])
  {
    var cells, key := [Cell(ID, Some(R))], SCHEMA.columns[0];
    FlatMapTwo(key, key, (d: ColumnDef) => ReserveColumn(d, T, R, Hlc(20, 0, A), cells));
    assert ColumnClaims(SCHEMA, T, R, Hlc(20, 0, A), cells) == [] && CompositeClaims(SCHEMA, T, R, Hlc(20, 0, A), cells) == [];
    assert FirstCell(cells, ID) == Some(Some(R));
    assert forall d :: d in SCHEMA.columns ==> d == key;
    PlannerLaws.RowPlannedIff(cfg, s, T, SCHEMA, ID, cells, Hlc(20, 0, A));
    assert [INSERTION] + [] + [] == [INSERTION];
  }

  lemma InsertionPlan(cfg: Config, s: Store, k: Ticker)
    requires Plain(cfg) && T in s && s[T].schema == SCHEMA && k.peer == A && k.now == Fixed(20) && k.clock.wall < 20
    ensures PlanOf(cfg, s, Insert(T, [], [[Some(R)]]), k) == Plan([INSERTION], 1, None)
  {
    FixedTicks(k, 20, 0);
    InsertionRow(cfg, s);
    var values, row := [[Some(R)]], PlanRow(cfg, s, T, SCHEMA, ID, [Cell(ID, Some(R))], Hlc(20, 0, A));
    assert Executor.Names(SCHEMA.columns) == [ID] && CellsFor(SCHEMA, [], [Some(R)]) == [Cell(ID, Some(R))];
    assert PlannerLaws.RowPlans(cfg, s, T, SCHEMA, ID, [], values, k) == [row];
    PlannerLaws.PlanRowsIsFold(cfg, s, T, SCHEMA, ID, [], values, k, [row]);
    assert [row][..0] == [] && [] + row.ops == row.ops;
    assert SecondaryIndexes.PrimaryKey(SCHEMA.columns) == Some(ID);
  }

  lemma InsertionPlans(cfg: Config, s: Store)
    requires Plain(cfg) && T in s && s[T].schema == SCHEMA
    ensures Plans(cfg, A, s, Insert(T, [], [[Some(R)]]), 20, [INSERTION], 1)
  {
    forall k: Ticker | k.peer == A && k.now == Fixed(20) && k.clock.wall < 20
      ensures PlanOf(cfg, s, Insert(T, [], [[Some(R)]]), k) == Plan([INSERTION], 1, None)
    {
      InsertionPlan(cfg, s, k);
    }
  }

  ghost predicate BWaits(cfg: Config, n: nat)
    requires n <= 3
  {
    Runs(cfg, PEERS, Steps(n)) && |After(cfg, PEERS, Steps(n)).peers| == 2 && After(cfg, PEERS, Steps(n)).peers[1] == Open(B)
  }

  lemma AfterOne(cfg: Config)
    ensures Solo(cfg, PEERS, Steps(1), 0, 10, [CREATION], map[T := Table(SCHEMA, map[], map[])]) && BWaits(cfg, 1)
  {
    SoloStart(cfg, PEERS, 0);
    CreationPlans(cfg);
    assert Steps(0) == [] && [] + [CREATION] == [CREATION];
    SoloStep(cfg, PEERS, Steps(0), 0, 0, [], map[], Create(SCHEMA), 10, [CREATION], 1);
  }

  /** Peer A's part of the run; peer B is still as it started. */
  lemma AfterTwo(cfg: Config)
    requires Plain(cfg)
    ensures BWaits(cfg, 2) && After(cfg, PEERS, Steps(2)).peers[0].log == [CREATION, INSERTION]
  {
    var s := map[T := Table(SCHEMA, map[], map[])];
    AfterOne(cfg);
    InsertionPlans(cfg, s);
    SoloStep(cfg, PEERS, Steps(1), 0, 10, [CREATION], s, Insert(T, [], [[Some(R)]]), 20, [INSERTION], 1);
    assert [CREATION] + [INSERTION] == [CREATION, INSERTION];
  }

  /** What peer B holds after receiving from A. */
  ghost predicate Caught(cfg: Config, c: Cluster) {
    && Inv(cfg, c) && |c.peers| == 2
    && c.peers[1].id == B && c.peers[1].clock == ClockState(0, 0)
    && OpsAt(c, 1) == OpsAt(c, 0) == MADE && c.peers[1].state == RebuildOf(cfg, c.peers[1].log)
  }

  /** A peer without ops takes over all ops of the source. */
  lemma EmptyReceives(cfg: Config, c: Cluster, i: nat, j: nat)
    requires Inv(cfg, c) && i < |c.peers| && j < |c.peers| && i != j && c.peers[i].log == []
    ensures var c' := StepOf(cfg, c, SyncFrom(i, j));
      && Inv(cfg, c') && |c'.peers| == |c.peers| && c'.peers[j] == c.peers[j] && OpsAt(c', i) == OpsAt(c, j)
      && c'.peers[i].id == c.peers[i].id && c'.peers[i].clock == c.peers[i].clock
      && c'.peers[i].state == RebuildOf(cfg, c'.peers[i].log)
  {
    PeerIsSource(cfg, c, j);
    DeliverAddsNoOps(cfg, c, i, c.peers[j].log);
    SyncKeeps(cfg, c, i, j);
    assert OpsAt(c, i) == {};
  }

  lemma AfterThree(cfg: Config)
    requires Plain(cfg)
    ensures Runs(cfg, PEERS, Steps(3)) && Caught(cfg, After(cfg, PEERS, Steps(3)))
  {
    AfterTwo(cfg);
    InvAlways(cfg, PEERS, Steps(2));
    var c := After(cfg, PEERS, Steps(2));
    EmptyReceives(cfg, c, 1, 0);
    assert OpsAt(c, 0) == MADE;
    OneMoreStep(cfg, PEERS, Steps(2), SyncFrom(1, 0));
    assert Steps(3) == Steps(2) + [SyncFrom(1, 0)];
  }

  /** The ops of the run up to B's delete. */
  const MADE: set<Op> := {CREATION, INSERTION}

  lemma MadeTimes()
    ensures Created(MADE) == {T} && InsertedRows(MADE, T) == {R} && R in WrittenRows(MADE, T)
    ensures InsertTimes(MADE, T, R) == {INSERTION.hlc} && DeleteTimes(MADE, T, R) == {}
  {
    assert INSERTION.Inserts(T, R) && CREATION.schema.name == T;
  }

  lemma RowIsThere(log: seq<Op>)
    requires NoDup(log) && WellFormed(Elements(log)) && Elements(log) == MADE
    ensures T in ArbitratedStore(log) && R in ArbitratedStore(log)[T].rows
  {
    MadeTimes();
    BaseIsStateOf(log);
    Arbitration.ArbitrationKeepsMembership(ReplayOf(ReplayOrder(log)), Arbitration.NullWrites(Arbitration.ReplayUnique(ReplayOrder(log))));
  }

  lemma OneRowVisible(cfg: Config, log: seq<Op>)
    requires NoDup(log) && WellFormed(Elements(log)) && Elements(log) == MADE && !cfg.policy.Cascade?
    ensures var s := RebuildOf(cfg, log).store; T in s && VisibleRows(s[T]) == {R}
  {
    MadeTimes();
    RebuiltMembership(cfg, log);
    RebuiltSees(cfg, log, T, R);
    RowIsThere(log);
    assert RebuildOf(cfg, log).store[T].membership.Keys == {R};
  }

  lemma OneMatch(t: Table)
    requires VisibleRows(t) == {R}
    ensures Executor.MatchingIds(t, None) == [R]
  {
    assert Executor.Matching(t, None) == {R};
    U.LessIsStrictTotal();
    assert Elements([R]) == {R};
    StrictlySortedUnique(Less, Executor.MatchingIds(t, None), [R]);
  }

  /** B sees the row, and a DELETE of all rows matches it alone. */
  lemma BSeesRow(cfg: Config, c: Cluster)
    requires Plain(cfg) && Caught(cfg, c)
    ensures var s := c.peers[1].state.store; T in s && Executor.MatchingIds(s[T], None) == [R] && Sees(s, T, R)
  {
    var log := c.peers[1].log;
    assert NoDup(log) by { assert PeerOk(cfg, c, 1); }
    assert WellFormed(Elements(log)) by { assert OpsAt(c, 1) <= AllOps(c); }
    OneRowVisible(cfg, log);
    OneMatch(c.peers[1].state.store[T]);
    assert R in VisibleRows(c.peers[1].state.store[T]);
  }

  lemma BCanDelete(cfg: Config, c: Cluster)
    requires Plain(cfg) && Caught(cfg, c)
    ensures Enabled(cfg, c, Execute(1, Delete(T, None), Fixed(5)))
  {
    BSeesRow(cfg, c);
    var plan := PlanAt(cfg, c.peers[1], Delete(T, None), Fixed(5));
    assert plan.ticks == 1 == |plan.ops|;
  }

  lemma BDeletes(cfg: Config, c: Cluster)
    requires Plain(cfg) && Caught(cfg, c) && Enabled(cfg, c, Execute(1, Delete(T, None), Fixed(5)))
    ensures var p' := ExecuteOf(cfg, c.peers[1], Delete(T, None), Fixed(5));
      !Sees(p'.state.store, T, R) && Sees(RebuildOf(cfg, p'.log).store, T, R)
  {
    var k := TickerOf(c.peers[1], Fixed(5));
    BSeesRow(cfg, c);
    MadeTimes();
    FixedTicks(k, 5, 0);
    DeleteUndoneIff(cfg, c, 1, T, None, Fixed(5), 0);
    assert Outlives(MADE, T, R, TimeOf(k, 0)) by {
      assert INSERTION.hlc in InsertTimes(MADE, T, R) && Before(TimeOf(k, 0), INSERTION.hlc);
    }
  }

  /** A source with nothing new only makes the receiver rebuild. */
  lemma NothingNew(cfg: Config, c: Cluster, i: nat, j: nat)
    requires i < |c.peers| && j < |c.peers| && i != j && OpsAt(c, j) <= OpsAt(c, i)
    ensures StepOf(cfg, c, SyncFrom(i, j)).peers[i] == c.peers[i].(state := RebuildOf(cfg, c.peers[i].log))
  {
    AntiEntropy.ReceiveNothing(c.peers[i].log, c.peers[j].log);
  }

  lemma OwnOpsStay(cfg: Config, c: Cluster, i: nat, stmt: Stmt, now: nat -> nat)
    requires Inv(cfg, c) && Enabled(cfg, c, Execute(i, stmt, now))
    ensures OpsAt(c, i) <= OpsAt(StepOf(cfg, c, Execute(i, stmt, now)), i)
  {
    if PlanAt(cfg, c.peers[i], stmt, now).error.None? { ExecutedLog(cfg, c, i, stmt, now); }
  }

  lemma AfterBDeletes(cfg: Config, c: Cluster) returns (c1: Cluster)
    requires Plain(cfg) && Caught(cfg, c) && Enabled(cfg, c, Execute(1, Delete(T, None), Fixed(5)))
    ensures c1 == StepOf(cfg, c, Execute(1, Delete(T, None), Fixed(5))) && |c1.peers| == 2 && OpsAt(c1, 0) <= OpsAt(c1, 1)
    ensures !Sees(c1.peers[1].state.store, T, R) && Sees(RebuildOf(cfg, c1.peers[1].log).store, T, R)
  {
    BDeletes(cfg, c);
    OwnOpsStay(cfg, c, 1, Delete(T, None), Fixed(5));
    c1 := StepOf(cfg, c, Execute(1, Delete(T, None), Fixed(5)));
    assert c1.peers == c.peers[1 := ExecuteOf(cfg, c.peers[1], Delete(T, None), Fixed(5))];
    assert OpsAt(c1, 0) == OpsAt(c, 0);
  }

  /** What B's next two steps do, from where it has caught up. */
  lemma HiddenThenShown(cfg: Config, c: Cluster)
    requires Plain(cfg) && Caught(cfg, c)
    ensures Enabled(cfg, c, Execute(1, Delete(T, None), Fixed(5)))
    ensures var c1 := StepOf(cfg, c, Execute(1, Delete(T, None), Fixed(5)));
      && |c1.peers| == 2 && !Sees(c1.peers[1].state.store, T, R)
      && var c2 := StepOf(cfg, c1, SyncFrom(1, 0)); |c2.peers| == 2 && Sees(c2.peers[1].state.store, T, R)
  {
    BCanDelete(cfg, c);
    var c1 := AfterBDeletes(cfg, c);
    NothingNew(cfg, c1, 1, 0);
  }

  lemma OneMoreStep(cfg: Config, ids: seq<Text>, steps: seq<Step>, step: Step)
    requires Runs(cfg, ids, steps) && Enabled(cfg, After(cfg, ids, steps), step)
    ensures Runs(cfg, ids, steps + [step]) && After(cfg, ids, steps + [step]) == StepOf(cfg, After(cfg, ids, steps), step)
  {
    assert (steps + [step])[..|steps|] == steps;
  }

  /** The run can take its first `n` steps, and then B sees the row or does not. */
  ghost predicate BSees(cfg: Config, steps: seq<Step>, shown: bool) {
    && Runs(cfg, PEERS, steps) && |After(cfg, PEERS, steps).peers| == 2
    && (Sees(After(cfg, PEERS, steps).peers[1].state.store, T, R) <==> shown)
  }

  lemma BSeesAll(cfg: Config, steps: seq<Step>)
    requires Plain(cfg) && Runs(cfg, PEERS, steps) && Caught(cfg, After(cfg, PEERS, steps))
    ensures BSees(cfg, steps, true)
    ensures BSees(cfg, steps + [Execute(1, Delete(T, None), Fixed(5))], false)
    ensures BSees(cfg, steps + [Execute(1, Delete(T, None), Fixed(5))] + [SyncFrom(1, 0)], true)
  {
    var c := After(cfg, PEERS, steps);
    BSeesRow(cfg, c);
    HiddenThenShown(cfg, c);
    OneMoreStep(cfg, PEERS, steps, Execute(1, Delete(T, None), Fixed(5)));
    OneMoreStep(cfg, PEERS, steps + [Execute(1, Delete(T, None), Fixed(5))], SyncFrom(1, 0));
  }

  /** B sees the row it received; its delete hides it; its next sync, which brings nothing
      new, shows it again. */
  lemma DeleteIsUndone(cfg: Config)
    requires Plain(cfg)
    ensures BSees(cfg, Steps(3), true)
    ensures BSees(cfg, Steps(3) + [Execute(1, Delete(T, None), Fixed(5))], false)
    ensures BSees(cfg, Steps(3) + [Execute(1, Delete(T, None), Fixed(5))] + [SyncFrom(1, 0)], true)
  {
    AfterThree(cfg);
    BSeesAll(cfg, Steps(3));
  }
}
