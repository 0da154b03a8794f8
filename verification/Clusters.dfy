/** Peers that execute statements and sync with each other, as a step system. */
module Clusters {
  import opened ByteStrings
  import opened Clocks
  import opened Ops
  import opened RowStores
  import opened Replay
  import opened Sorting
  import opened OpLogs
  import opened FkResolution
  import opened Planner
  import opened Rebuild
  import opened Peers
  import opened PeerInvariants
  import opened AntiEntropy

  /** A foreign-key check that passed when `child` was planned: its parent row. */
  datatype Ref = Ref(child: Op, table: Text, row: Text)

  /** The peers, and the record of all checks that ever passed. */
  datatype Cluster = Cluster(peers: seq<Peer>, accepted: set<Ref>)

  datatype Step =
    | Execute(i: nat, stmt: Stmt, now: nat -> nat)
    | SyncWith(i: nat, j: nat)
    | SyncFrom(i: nat, j: nat)

  ghost function Start(ids: seq<Text>): Cluster {
    Cluster(seq(|ids|, i requires 0 <= i < |ids| => Open(ids[i])), {})
  }

  function KeyOf(cfg: Config, o: Op, fk: ForeignKey): Option<Text>
    requires o.InsertRow?
  {
    match Flatten(FirstCell(o.cells, fk.column))
    case None => None
    case Some(v) => Some(cfg.text(v))
  }

  /** The checks the planner makes for the rows of a plan: one for each non-null key. */
  ghost function ChecksOf(cfg: Config, s: Store, ops: seq<Op>): set<Ref> {
    set o, fk | o in ops && o.InsertRow? && o.table in s && fk in s[o.table].schema.foreignKeys && KeyOf(cfg, o, fk).Some?
      :: Ref(o, fk.refTable, KeyOf(cfg, o, fk).value)
  }

  ghost predicate Enabled(cfg: Config, c: Cluster, step: Step) {
    match step
    case Execute(i, stmt, now) => i < |c.peers| && CanExecute(cfg, c.peers[i], stmt, now)
    case SyncWith(i, j) => i < |c.peers| && j < |c.peers| && i != j
    case SyncFrom(i, j) => i < |c.peers| && j < |c.peers| && i != j
  }

  /** `peers[i]` receives the ops of `src`. */
  ghost function Deliver(cfg: Config, c: Cluster, i: nat, src: seq<Op>): Cluster
    requires i < |c.peers|
  {
    c.(peers := c.peers[i := ReceiveFrom(cfg, c.peers[i], src)])
  }

  ghost function StepOf(cfg: Config, c: Cluster, step: Step): Cluster
    requires Enabled(cfg, c, step)
  {
    match step
    case Execute(i, stmt, now) =>
      var plan := PlanAt(cfg, c.peers[i], stmt, now);
      Cluster(c.peers[i := ExecuteOf(cfg, c.peers[i], stmt, now)],
              c.accepted + if plan.error.Some? then {} else ChecksOf(cfg, c.peers[i].state.store, plan.ops))
    case SyncWith(i, j) => Deliver(cfg, Deliver(cfg, c, i, c.peers[j].log), j, c.peers[i].log)
    case SyncFrom(i, j) => Deliver(cfg, c, i, c.peers[j].log)
  }

  // ----- The invariant -----

  ghost function OpsAt(c: Cluster, i: nat): set<Op>
    requires i < |c.peers|
  {
    Elements(c.peers[i].log)
  }

  ghost function AllOps(c: Cluster): set<Op> {
    set i, o | 0 <= i < |c.peers| && o in c.peers[i].log :: o
  }

  ghost predicate DistinctIds(c: Cluster) {
    forall i, j :: 0 <= i < j < |c.peers| ==> c.peers[i].id != c.peers[j].id
  }

  /** Whoever holds a checked child holds an insert of its parent. */
  ghost predicate RefsOk(cfg: Config, refs: set<Ref>, ops: set<Op>) {
    !cfg.policy.Orphan? ==>
      forall ref :: ref in refs && ref.child in ops ==> ref.table in Created(ops) && ref.row in InsertedRows(ops, ref.table)
  }

  ghost predicate PeerOk(cfg: Config, c: Cluster, i: nat)
    requires i < |c.peers|
  {
    var p, ops := c.peers[i], OpsAt(c, i);
    && NoDup(p.log) && LogOk(cfg, ops) && StoreOk(cfg, p.state.store, ops)
    && HoldsWholeGroups(ops, AllOps(c))
    && RefsOk(cfg, c.accepted, ops)
    && ClockOk(p, AllOps(c))
  }

  ghost predicate Inv(cfg: Config, c: Cluster) {
    && DistinctIds(c)
    && WellFormed(AllOps(c))
    && (forall i :: 0 <= i < |c.peers| ==> PeerOk(cfg, c, i))
    && (forall ref :: ref in c.accepted ==> ref.child in AllOps(c))
    && (forall o :: o in AllOps(c) ==> exists i :: 0 <= i < |c.peers| && c.peers[i].id == o.hlc.peer)
  }

  // ----- Syncs keep it -----

  /** A log that some peer of the cluster has, or had. */
  ghost predicate SourceOk(cfg: Config, c: Cluster, src: seq<Op>) {
    && Elements(src) <= AllOps(c) && HoldsWholeGroups(Elements(src), AllOps(c))
    && LogOk(cfg, Elements(src)) && RefsOk(cfg, c.accepted, Elements(src))
  }

  lemma RefsUnion(cfg: Config, refs: set<Ref>, a: set<Op>, b: set<Op>)
    requires RefsOk(cfg, refs, a) && RefsOk(cfg, refs, b)
    ensures RefsOk(cfg, refs, a + b)
  {
    assert forall t :: InsertedRows(a, t) <= InsertedRows(a + b, t) && InsertedRows(b, t) <= InsertedRows(a + b, t);
    assert Created(a + b) == Created(a) + Created(b);
  }

  lemma DeliverAddsNoOps(cfg: Config, c: Cluster, i: nat, src: seq<Op>)
    requires Inv(cfg, c) && i < |c.peers| && SourceOk(cfg, c, src)
    ensures AllOps(Deliver(cfg, c, i, src)) == AllOps(c)
    ensures OpsAt(Deliver(cfg, c, i, src), i) == OpsAt(c, i) + Elements(src)
    ensures NoDup(Deliver(cfg, c, i, src).peers[i].log) && c.peers[i].log <= Deliver(cfg, c, i, src).peers[i].log
  {
    var c' := Deliver(cfg, c, i, src);
    assert PeerOk(cfg, c, i);
    ReceiveIsUnion(c.peers[i].log, src);
    assert OpsAt(c', i) == OpsAt(c, i) + Elements(src);
    forall o ensures o in AllOps(c') <==> o in AllOps(c) {
      assert o in c'.peers[i].log <==> o in OpsAt(c', i);
      if j :| 0 <= j < |c.peers| && o in c.peers[j].log { assert j == i || o in c'.peers[j].log; }
    }
  }

  lemma ReceiverOk(cfg: Config, c: Cluster, i: nat, src: seq<Op>)
    requires Inv(cfg, c) && i < |c.peers| && SourceOk(cfg, c, src)
    ensures PeerOk(cfg, Deliver(cfg, c, i, src), i)
  {
    var c' := Deliver(cfg, c, i, src);
    DeliverAddsNoOps(cfg, c, i, src);
    assert PeerOk(cfg, c, i);
    LogOkUnion(cfg, OpsAt(c, i), Elements(src));
    RefsUnion(cfg, c.accepted, OpsAt(c, i), Elements(src));
    assert WellFormed(OpsAt(c', i)) by { assert OpsAt(c', i) <= AllOps(c); }
    RebuiltOk(cfg, c'.peers[i].log);
  }

  lemma DeliverKeeps(cfg: Config, c: Cluster, i: nat, src: seq<Op>)
    requires Inv(cfg, c) && i < |c.peers| && SourceOk(cfg, c, src)
    ensures Inv(cfg, Deliver(cfg, c, i, src))
  {
    var c' := Deliver(cfg, c, i, src);
    DeliverAddsNoOps(cfg, c, i, src);
    ReceiverOk(cfg, c, i, src);
    forall j | 0 <= j < |c'.peers| && j != i ensures PeerOk(cfg, c', j) {
      assert PeerOk(cfg, c, j) && c'.peers[j] == c.peers[j];
    }
    assert forall j :: 0 <= j < |c.peers| ==> c'.peers[j].id == c.peers[j].id;
  }

  lemma PeerIsSource(cfg: Config, c: Cluster, j: nat)
    requires Inv(cfg, c) && j < |c.peers|
    ensures SourceOk(cfg, c, c.peers[j].log)
  {
    assert PeerOk(cfg, c, j);
  }

  lemma SourceStays(cfg: Config, c: Cluster, c': Cluster, src: seq<Op>)
    requires SourceOk(cfg, c, src) && AllOps(c') == AllOps(c) && c'.accepted == c.accepted
    ensures SourceOk(cfg, c', src)
  {
  }

  lemma SyncKeeps(cfg: Config, c: Cluster, i: nat, j: nat)
    requires Inv(cfg, c) && i < |c.peers| && j < |c.peers| && i != j
    ensures Inv(cfg, StepOf(cfg, c, SyncWith(i, j))) && Inv(cfg, StepOf(cfg, c, SyncFrom(i, j)))
  {
    PeerIsSource(cfg, c, i);
    PeerIsSource(cfg, c, j);
    var received := Deliver(cfg, c, i, c.peers[j].log);
    DeliverAddsNoOps(cfg, c, i, c.peers[j].log);
    DeliverKeeps(cfg, c, i, c.peers[j].log);
    SourceStays(cfg, c, received, c.peers[i].log);
    DeliverKeeps(cfg, received, j, c.peers[i].log);
    assert StepOf(cfg, c, SyncWith(i, j)) == Deliver(cfg, received, j, c.peers[i].log);
    assert StepOf(cfg, c, SyncFrom(i, j)) == received;
  }

  // ----- Statements keep it -----

  lemma NotPastLater(c: ClockState, c': ClockState, h: Hlc)
    requires NotPast(c, h) && NotBack(c, c')
    ensures NotPast(c', h)
  {
  }

  /** The clock after a statement is past all its old and new timestamps. */
  lemma ExecutedClock(cfg: Config, p: Peer, stmt: Stmt, now: nat -> nat)
    requires CanExecute(cfg, p, stmt, now)
    ensures NotBack(p.clock, ExecuteOf(cfg, p, stmt, now).clock)
    ensures var plan := PlanAt(cfg, p, stmt, now);
      plan.error.None? ==> forall o :: o in plan.ops ==> NotPast(ExecuteOf(cfg, p, stmt, now).clock, o.hlc)
  {
    var plan, k := PlanAt(cfg, p, stmt, now), TickerOf(p, now);
    var ticked := ClockAfter(k, plan.ticks);
    TicksAdvance(k, plan.ticks);
    if plan.error.None? {
      forall o | o in plan.ops ensures NotPast(ticked, o.hlc) { PlannedTime(cfg, p, stmt, now, o); }
      ObservingAdvances(ticked, plan.ops, now, plan.ticks);
      forall o | o in plan.ops ensures NotPast(ExecuteOf(cfg, p, stmt, now).clock, o.hlc) {
        NotPastLater(ticked, ExecuteOf(cfg, p, stmt, now).clock, o.hlc);
      }
    }
  }

  /** A planned timestamp is new in the whole cluster. */
  lemma PlannedIsFresh(cfg: Config, c: Cluster, i: nat, stmt: Stmt, now: nat -> nat, o: Op, q: Op)
    requires Inv(cfg, c) && Enabled(cfg, c, Execute(i, stmt, now))
    requires var plan := PlanAt(cfg, c.peers[i], stmt, now); plan.error.None? && o in plan.ops
    requires q in AllOps(c)
    ensures q.hlc != o.hlc && o.hlc.peer == c.peers[i].id
  {
    assert PeerOk(cfg, c, i);
    PlannedTime(cfg, c.peers[i], stmt, now, o);
  }

  /** Every foreign key of a planned row names a parent inserted in the planner's log. */
  lemma {:induction false} NoViolation(cfg: Config, s: Store, fks: seq<ForeignKey>, o: Op, fk: ForeignKey)
    requires o.InsertRow? && FirstViolation(cfg, s, fks, o.cells).None? && fk in fks && KeyOf(cfg, o, fk).Some?
    ensures ValidateInsert(cfg.policy, s, KeyOf(cfg, o, fk).value, fk.refTable).Accepted?
  {
    if fks[0] != fk { NoViolation(cfg, s, fks[1..], o, fk); }
  }

  lemma ParentKnown(cfg: Config, s: Store, ops: set<Op>, o: Op, fk: ForeignKey)
    requires StoreOk(cfg, s, ops) && !cfg.policy.Orphan?
    requires o.InsertRow? && o.table in s && FirstViolation(cfg, s, s[o.table].schema.foreignKeys, o.cells).None?
    requires fk in s[o.table].schema.foreignKeys && KeyOf(cfg, o, fk).Some?
    ensures fk.refTable in Created(ops) && KeyOf(cfg, o, fk).value in InsertedRows(ops, fk.refTable)
  {
    NoViolation(cfg, s, s[o.table].schema.foreignKeys, o, fk);
    assert TableOk(cfg, s[fk.refTable], fk.refTable, ops);
  }

  lemma ChecksHold(cfg: Config, p: Peer, stmt: Stmt, now: nat -> nat)
    requires CanExecute(cfg, p, stmt, now) && PlanAt(cfg, p, stmt, now).error.None?
    requires StoreOk(cfg, p.state.store, Elements(p.log)) && !cfg.policy.Orphan?
    ensures forall ref :: ref in ChecksOf(cfg, p.state.store, PlanAt(cfg, p, stmt, now).ops) ==>
      ref.table in Created(Elements(p.log)) && ref.row in InsertedRows(Elements(p.log), ref.table)
  {
    var s, ops := p.state.store, PlanAt(cfg, p, stmt, now).ops;
    forall o, fk | o in ops && o.InsertRow? && o.table in s && fk in s[o.table].schema.foreignKeys && KeyOf(cfg, o, fk).Some?
      ensures fk.refTable in Created(Elements(p.log)) && KeyOf(cfg, o, fk).value in InsertedRows(Elements(p.log), fk.refTable)
    {
      var i := PlannedOp(cfg, s, stmt, TickerOf(p, now), o);
      ParentKnown(cfg, s, Elements(p.log), o, fk);
    }
  }

  lemma ExecutedLog(cfg: Config, c: Cluster, i: nat, stmt: Stmt, now: nat -> nat)
    requires Inv(cfg, c) && Enabled(cfg, c, Execute(i, stmt, now)) && PlanAt(cfg, c.peers[i], stmt, now).error.None?
    ensures var c', ops := StepOf(cfg, c, Execute(i, stmt, now)), Elements(PlanAt(cfg, c.peers[i], stmt, now).ops);
      && NoDup(c'.peers[i].log) && c.peers[i].log <= c'.peers[i].log
      && OpsAt(c', i) == OpsAt(c, i) + ops && AllOps(c') == AllOps(c) + ops
  {
    var c', ops := StepOf(cfg, c, Execute(i, stmt, now)), PlanAt(cfg, c.peers[i], stmt, now).ops;
    assert PeerOk(cfg, c, i);
    AppendAllAdds(c.peers[i].log, ops);
    assert OpsAt(c', i) == OpsAt(c, i) + Elements(ops);
    forall o ensures o in AllOps(c') <==> o in AllOps(c) + Elements(ops) {
      assert o in c'.peers[i].log <==> o in OpsAt(c', i);
      if j :| 0 <= j < |c.peers| && o in c.peers[j].log { assert j == i || o in c'.peers[j].log; }
    }
  }

  lemma StoreAndSchemasOk(cfg: Config, c: Cluster, i: nat)
    requires Inv(cfg, c) && i < |c.peers|
    ensures forall t :: t in c.peers[i].state.store ==> NamesApart(c.peers[i].state.store[t].schema)
  {
    assert PeerOk(cfg, c, i);
    forall t | t in c.peers[i].state.store ensures NamesApart(c.peers[i].state.store[t].schema) {
      assert TableOk(cfg, c.peers[i].state.store[t], t, OpsAt(c, i));
    }
  }

  /** Old and new ops together are still well-formed. */
  lemma ExecutedGroups(cfg: Config, c: Cluster, i: nat, stmt: Stmt, now: nat -> nat)
    requires Inv(cfg, c) && Enabled(cfg, c, Execute(i, stmt, now)) && PlanAt(cfg, c.peers[i], stmt, now).error.None?
    ensures WellFormed(AllOps(c) + Elements(PlanAt(cfg, c.peers[i], stmt, now).ops))
  {
    var ops := PlanAt(cfg, c.peers[i], stmt, now).ops;
    StoreAndSchemasOk(cfg, c, i);
    forall a, b | a in AllOps(c) + Elements(ops) && b in AllOps(c) + Elements(ops) && a != b && a.hlc == b.hlc
      ensures SameGroup(a, b)
    {
      if a in ops && b in ops {
        PlannedGroup(cfg, c.peers[i].state.store, stmt, TickerOf(c.peers[i], now), a, b);
      } else if a in ops {
        PlannedIsFresh(cfg, c, i, stmt, now, a, b);
      } else if b in ops {
        PlannedIsFresh(cfg, c, i, stmt, now, b, a);
      }
    }
  }

  lemma ExecutedPeer(cfg: Config, c: Cluster, i: nat, stmt: Stmt, now: nat -> nat)
    requires Inv(cfg, c) && Enabled(cfg, c, Execute(i, stmt, now)) && PlanAt(cfg, c.peers[i], stmt, now).error.None?
    ensures var p, ops := c.peers[i], PlanAt(cfg, c.peers[i], stmt, now).ops;
      && LogOk(cfg, OpsAt(c, i) + Elements(ops))
      && StoreOk(cfg, ExecuteOf(cfg, p, stmt, now).state.store, OpsAt(c, i) + Elements(ops))
  {
    var p, ops := c.peers[i], PlanAt(cfg, c.peers[i], stmt, now).ops;
    assert PeerOk(cfg, c, i);
    assert ClockOk(p, Elements(p.log)) by { assert forall o :: o in OpsAt(c, i) ==> o in AllOps(c); }
    PlanFits(cfg, p, stmt, now, |ops|);
    assert ops[..|ops|] == ops;
    StateAllOk(cfg, p.state, OpsAt(c, i), ops);
  }

  lemma RefsGrow(cfg: Config, refs: set<Ref>, checks: set<Ref>, ops: set<Op>, more: set<Op>)
    requires RefsOk(cfg, refs, ops) && forall ref :: ref in refs ==> ref.child !in more
    requires forall ref :: ref in checks ==> ref.table in Created(ops) && ref.row in InsertedRows(ops, ref.table)
    ensures RefsOk(cfg, refs + checks, ops + more)
  {
    assert Created(ops) <= Created(ops + more);
    assert forall t :: InsertedRows(ops, t) <= InsertedRows(ops + more, t);
  }

  lemma NewChildren(cfg: Config, c: Cluster, i: nat, stmt: Stmt, now: nat -> nat)
    requires Inv(cfg, c) && Enabled(cfg, c, Execute(i, stmt, now)) && PlanAt(cfg, c.peers[i], stmt, now).error.None?
    ensures forall o :: o in PlanAt(cfg, c.peers[i], stmt, now).ops ==> o !in AllOps(c)
    ensures forall ref :: ref in c.accepted ==> ref.child !in PlanAt(cfg, c.peers[i], stmt, now).ops
  {
    forall o, q | o in PlanAt(cfg, c.peers[i], stmt, now).ops && q in AllOps(c) ensures q != o {
      PlannedIsFresh(cfg, c, i, stmt, now, o, q);
    }
  }

  /** The executing peer holds the parents of the rows it planned. */
  lemma ExecutedRefs(cfg: Config, c: Cluster, i: nat, stmt: Stmt, now: nat -> nat)
    requires Inv(cfg, c) && Enabled(cfg, c, Execute(i, stmt, now)) && PlanAt(cfg, c.peers[i], stmt, now).error.None?
    ensures RefsOk(cfg, StepOf(cfg, c, Execute(i, stmt, now)).accepted,
                   OpsAt(c, i) + Elements(PlanAt(cfg, c.peers[i], stmt, now).ops))
  {
    var p, ops := c.peers[i], PlanAt(cfg, c.peers[i], stmt, now).ops;
    assert PeerOk(cfg, c, i);
    if !cfg.policy.Orphan? {
      NewChildren(cfg, c, i, stmt, now);
      ChecksHold(cfg, p, stmt, now);
      RefsGrow(cfg, c.accepted, ChecksOf(cfg, p.state.store, ops), OpsAt(c, i), Elements(ops));
    }
  }

  lemma OthersRefs(cfg: Config, refs: set<Ref>, checks: set<Ref>, ops: set<Op>)
    requires RefsOk(cfg, refs, ops) && forall ref :: ref in checks ==> ref.child !in ops
    ensures RefsOk(cfg, refs + checks, ops)
  {
  }

  lemma ExecutorOk(cfg: Config, c: Cluster, i: nat, stmt: Stmt, now: nat -> nat)
    requires Inv(cfg, c) && Enabled(cfg, c, Execute(i, stmt, now)) && PlanAt(cfg, c.peers[i], stmt, now).error.None?
    ensures PeerOk(cfg, StepOf(cfg, c, Execute(i, stmt, now)), i)
  {
    var c', ops := StepOf(cfg, c, Execute(i, stmt, now)), PlanAt(cfg, c.peers[i], stmt, now).ops;
    assert PeerOk(cfg, c, i);
    ExecutedLog(cfg, c, i, stmt, now);
    ExecutedPeer(cfg, c, i, stmt, now);
    ExecutedRefs(cfg, c, i, stmt, now);
    ExecutedClock(cfg, c.peers[i], stmt, now);
    assert HoldsWholeGroups(OpsAt(c', i), AllOps(c')) by {
      forall o, p | o in AllOps(c') && p in OpsAt(c', i) && p.hlc == o.hlc ensures o in OpsAt(c', i) {
        if o in AllOps(c) && p in ops { PlannedIsFresh(cfg, c, i, stmt, now, p, o); }
      }
    }
    forall o | o in AllOps(c') && o.hlc.peer == c'.peers[i].id ensures NotPast(c'.peers[i].clock, o.hlc) {
      if o in AllOps(c) { NotPastLater(c.peers[i].clock, c'.peers[i].clock, o.hlc); }
    }
  }

  lemma BystanderOk(cfg: Config, c: Cluster, i: nat, stmt: Stmt, now: nat -> nat, j: nat)
    requires Inv(cfg, c) && Enabled(cfg, c, Execute(i, stmt, now)) && PlanAt(cfg, c.peers[i], stmt, now).error.None?
    requires j < |c.peers| && j != i
    ensures PeerOk(cfg, StepOf(cfg, c, Execute(i, stmt, now)), j)
  {
    var c', ops := StepOf(cfg, c, Execute(i, stmt, now)), PlanAt(cfg, c.peers[i], stmt, now).ops;
    assert PeerOk(cfg, c, j) && c'.peers[j] == c.peers[j] && OpsAt(c, j) <= AllOps(c);
    assert c.peers[i].id != c.peers[j].id;
    ExecutedLog(cfg, c, i, stmt, now);
    NewChildren(cfg, c, i, stmt, now);
    OthersRefs(cfg, c.accepted, ChecksOf(cfg, c.peers[i].state.store, ops), OpsAt(c, j));
    forall o, q | o in ops && q in AllOps(c) ensures o.hlc != q.hlc && o.hlc.peer == c.peers[i].id {
      PlannedIsFresh(cfg, c, i, stmt, now, o, q);
    }
    forall o | o in ops ensures o.hlc.peer == c.peers[i].id { PlannedTime(cfg, c.peers[i], stmt, now, o); }
  }

  /** A statement that cannot be planned only moves its peer's clock. */
  lemma RefusedKeeps(cfg: Config, c: Cluster, i: nat, stmt: Stmt, now: nat -> nat)
    requires Inv(cfg, c) && Enabled(cfg, c, Execute(i, stmt, now)) && PlanAt(cfg, c.peers[i], stmt, now).error.Some?
    ensures Inv(cfg, StepOf(cfg, c, Execute(i, stmt, now)))
  {
    var c' := StepOf(cfg, c, Execute(i, stmt, now));
    assert forall j :: 0 <= j < |c.peers| ==> c'.peers[j].log == c.peers[j].log;
    assert AllOps(c') == AllOps(c);
    ExecutedClock(cfg, c.peers[i], stmt, now);
    forall j | 0 <= j < |c'.peers| ensures PeerOk(cfg, c', j) {
      assert PeerOk(cfg, c, j);
      forall o | o in AllOps(c') && o.hlc.peer == c'.peers[j].id ensures NotPast(c'.peers[j].clock, o.hlc) {
        if j == i { NotPastLater(c.peers[i].clock, c'.peers[i].clock, o.hlc); }
      }
    }
    forall o | o in AllOps(c') ensures exists j :: 0 <= j < |c'.peers| && c'.peers[j].id == o.hlc.peer {
      var j :| 0 <= j < |c.peers| && c.peers[j].id == o.hlc.peer;
      assert c'.peers[j].id == o.hlc.peer;
    }
  }

  lemma ExecutedOrigin(cfg: Config, c: Cluster, i: nat, stmt: Stmt, now: nat -> nat, o: Op)
    requires Inv(cfg, c) && Enabled(cfg, c, Execute(i, stmt, now)) && PlanAt(cfg, c.peers[i], stmt, now).error.None?
    requires o in AllOps(c) + Elements(PlanAt(cfg, c.peers[i], stmt, now).ops)
    ensures var c' := StepOf(cfg, c, Execute(i, stmt, now)); exists j :: 0 <= j < |c'.peers| && c'.peers[j].id == o.hlc.peer
  {
    var c' := StepOf(cfg, c, Execute(i, stmt, now));
    if o in AllOps(c) {
      var j :| 0 <= j < |c.peers| && c.peers[j].id == o.hlc.peer;
      assert c'.peers[j].id == o.hlc.peer;
    } else {
      PlannedTime(cfg, c.peers[i], stmt, now, o);
      assert c'.peers[i].id == o.hlc.peer;
    }
  }

  lemma ExecuteKeeps(cfg: Config, c: Cluster, i: nat, stmt: Stmt, now: nat -> nat)
    requires Inv(cfg, c) && Enabled(cfg, c, Execute(i, stmt, now))
    ensures Inv(cfg, StepOf(cfg, c, Execute(i, stmt, now)))
  {
    if PlanAt(cfg, c.peers[i], stmt, now).error.Some? {
      RefusedKeeps(cfg, c, i, stmt, now);
    } else {
      var c', ops := StepOf(cfg, c, Execute(i, stmt, now)), PlanAt(cfg, c.peers[i], stmt, now).ops;
      ExecutedLog(cfg, c, i, stmt, now);
      ExecutedGroups(cfg, c, i, stmt, now);
      forall j | 0 <= j < |c'.peers| ensures PeerOk(cfg, c', j) {
        if j == i { ExecutorOk(cfg, c, i, stmt, now); } else { BystanderOk(cfg, c, i, stmt, now, j); }
      }
      forall o | o in AllOps(c') ensures exists j :: 0 <= j < |c'.peers| && c'.peers[j].id == o.hlc.peer {
        ExecutedOrigin(cfg, c, i, stmt, now, o);
      }
    }
  }

  lemma StepKeeps(cfg: Config, c: Cluster, step: Step)
    requires Inv(cfg, c) && Enabled(cfg, c, step)
    ensures Inv(cfg, StepOf(cfg, c, step))
  {
    match step
    case Execute(i, stmt, now) => ExecuteKeeps(cfg, c, i, stmt, now);
    case SyncWith(i, j) => SyncKeeps(cfg, c, i, j);
    case SyncFrom(i, j) => SyncKeeps(cfg, c, i, j);
  }

  // ----- Runs -----

  /** The cluster that starts with fresh peers of the given names and takes the steps in turn. */
  ghost predicate Runs(cfg: Config, ids: seq<Text>, steps: seq<Step>)
    decreases |steps|, 0
  {
    |steps| > 0 ==> Runs(cfg, ids, steps[..|steps| - 1]) && Enabled(cfg, After(cfg, ids, steps[..|steps| - 1]), steps[|steps| - 1])
  }

  ghost function After(cfg: Config, ids: seq<Text>, steps: seq<Step>): Cluster
    requires Runs(cfg, ids, steps)
    decreases |steps|, 1
  {
    if |steps| == 0 then Start(ids) else StepOf(cfg, After(cfg, ids, steps[..|steps| - 1]), steps[|steps| - 1])
  }

  /** The invariant holds after every run of peers with distinct names. */
  lemma {:induction false} InvAlways(cfg: Config, ids: seq<Text>, steps: seq<Step>)
    requires Runs(cfg, ids, steps) && NoDup(ids)
    ensures Inv(cfg, After(cfg, ids, steps))
  {
    if |steps| == 0 {
      var c := Start(ids);
      assert AllOps(c) == {};
      forall i | 0 <= i < |c.peers| ensures PeerOk(cfg, c, i) { }
    } else {
      InvAlways(cfg, ids, steps[..|steps| - 1]);
      StepKeeps(cfg, After(cfg, ids, steps[..|steps| - 1]), steps[|steps| - 1]);
    }
  }
}
