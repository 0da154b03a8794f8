/** What holds of a peer's log and store at every moment, and why each step keeps it. */
module PeerInvariants {
  import opened ByteStrings
  import opened Clocks
  import opened Ops
  import opened RowStores
  import opened Replay
  import opened Sorting
  import opened FkResolution
  import opened Planner
  import opened Rebuild
  import opened Peers
  import Cascade
  import OrSets
  import ReplayLaws

  /** A log is causally closed: rows are written in created tables, updates and deletes
      follow an insert of their row; and deletes and schemas are as planned. */
  ghost predicate LogOk(cfg: Config, ops: set<Op>) {
    && (forall o :: o in ops && o.IsDml() ==> o.table in Created(ops))
    && (forall o :: o in ops && (o.UpdateCells? || o.DeleteRow?) ==> o.row in InsertedRows(ops, o.table))
    && (forall o :: o in ops && o.DeleteRow? ==> o.fkTombstone == cfg.policy.Tombstone?)
    && (forall o :: o in ops && o.CreateTable? ==> NamesApart(o.schema) && o.table == o.schema.name)
  }

  lemma LogOkUnion(cfg: Config, a: set<Op>, b: set<Op>)
    requires LogOk(cfg, a) && LogOk(cfg, b)
    ensures LogOk(cfg, a + b)
  {
    assert forall t :: InsertedRows(a, t) <= InsertedRows(a + b, t) && InsertedRows(b, t) <= InsertedRows(a + b, t);
    assert Created(a + b) == Created(a) + Created(b);
  }

  /** The entry's tokens are insertion times of the row. */
  ghost predicate EntryOk(ops: set<Op>, t: Text, r: Text, e: OrSets.OrEntry) {
    e.live + e.removed <= InsertTimes(ops, t, r)
  }

  ghost predicate TableOk(cfg: Config, table: Table, t: Text, ops: set<Op>) {
    && NamesApart(table.schema)
    && table.membership.Keys == InsertedRows(ops, t)
    && (forall r :: r in table.membership ==> EntryOk(ops, t, r, table.membership[r]))
    && (cfg.policy.Tombstone? ==> forall r :: r in table.membership ==> table.membership[r].ExistsForFk())
  }

  /** The store knows exactly the log's tables and inserted rows; under Tombstone every
      row ever inserted exists for foreign keys. */
  ghost predicate StoreOk(cfg: Config, s: Store, ops: set<Op>) {
    && s.Keys == Created(ops)
    && (forall t :: t in s ==> TableOk(cfg, s[t], t, ops))
  }

  // ----- After a rebuild -----

  lemma RebuiltEntry(cfg: Config, ops: set<Op>, t: Text, r: Text)
    requires LogOk(cfg, ops) && r in InsertedRows(ops, t)
    ensures EntryOk(ops, t, r, EntryFor(ops, t, r))
    ensures cfg.policy.Tombstone? ==> EntryFor(ops, t, r).ExistsForFk()
  {
    if cfg.policy.Tombstone? { ReplayLaws.InsertedExistsForFk(ops, t, r); }
  }

  lemma RebuiltSchema(cfg: Config, ops: set<Op>, t: Text)
    requires LogOk(cfg, ops) && t in Created(ops)
    ensures NamesApart(SchemaFor(ops, t))
  {
    HasFirstCreate(ops, t);
    var o :| IsFirstCreate(ops, t, o) && SchemaFor(ops, t) == o.schema;
  }

  /** Hiding rows keeps the invariant, where hiding without tombstones is allowed. */
  lemma KillKeeps(cfg: Config, s: Store, d: set<Cascade.Node>, ops: set<Op>)
    requires StoreOk(cfg, s, ops) && !cfg.policy.Tombstone?
    ensures StoreOk(cfg, Cascade.Kill(s, d), ops)
  {
  }

  /** What a rebuild makes of a well-formed, closed log satisfies the invariant. */
  lemma RebuiltOk(cfg: Config, log: seq<Op>)
    requires NoDup(log) && WellFormed(Elements(log)) && LogOk(cfg, Elements(log))
    ensures StoreOk(cfg, RebuildOf(cfg, log).store, Elements(log))
  {
    var ops, s := Elements(log), ArbitratedStore(log);
    ArbitratedMembership(log);
    forall t | t in s ensures TableOk(cfg, s[t], t, ops) {
      RebuiltSchema(cfg, ops, t);
      forall r | r in s[t].membership
        ensures EntryOk(ops, t, r, s[t].membership[r]) && (cfg.policy.Tombstone? ==> s[t].membership[r].ExistsForFk())
      {
        RebuiltEntry(cfg, ops, t, r);
      }
    }
    if cfg.policy.Cascade? { KillKeeps(cfg, s, Cascade.Doomed(s, cfg.text), ops); }
  }

  // ----- After a local op -----

  /** What a local op finds in the log it is appended to. */
  ghost predicate OpOk(cfg: Config, ops: set<Op>, o: Op) {
    && (o.CreateTable? ==> NamesApart(o.schema) && o.table == o.schema.name)
    && (o.IsDml() ==> o.table in Created(ops))
    && (o.UpdateCells? || o.DeleteRow? ==> o.row in InsertedRows(ops, o.table))
    && (o.DeleteRow? ==> o.fkTombstone == cfg.policy.Tombstone?)
    && (o.InsertRow? ==> o.hlc !in InsertTimes(ops, o.table, o.row))
  }

  lemma LogGrows(cfg: Config, ops: set<Op>, o: Op)
    requires LogOk(cfg, ops) && OpOk(cfg, ops, o)
    ensures LogOk(cfg, ops + {o})
  {
    assert forall t :: InsertedRows(ops, t) <= InsertedRows(ops + {o}, t);
    assert Created(ops) <= Created(ops + {o});
  }

  lemma OtherTable(cfg: Config, table: Table, t: Text, ops: set<Op>, o: Op)
    requires TableOk(cfg, table, t, ops) && (o.InsertRow? ==> o.table != t)
    ensures TableOk(cfg, table, t, ops + {o})
  {
    assert InsertedRows(ops + {o}, t) == InsertedRows(ops, t);
    assert forall r :: InsertTimes(ops, t, r) <= InsertTimes(ops + {o}, t, r);
  }

  lemma InsertedTable(cfg: Config, table: Table, t: Text, ops: set<Op>, o: Op)
    requires TableOk(cfg, table, t, ops) && o.InsertRow? && o.table == t && OpOk(cfg, ops, o)
    ensures TableOk(cfg, InsertRowOf(table, o.row, o.hlc, o.cells), t, ops + {o})
  {
    assert InsertedRows(ops + {o}, t) == InsertedRows(ops, t) + {o.row};
    assert forall r :: InsertTimes(ops, t, r) <= InsertTimes(ops + {o}, t, r);
    assert o.hlc in InsertTimes(ops + {o}, t, o.row);
    var e := OrSets.EntryOf(table.membership, o.row);
    assert o.hlc in e.live + {o.hlc} - e.removed;
  }

  lemma DeletedTable(cfg: Config, table: Table, t: Text, ops: set<Op>, o: Op)
    requires TableOk(cfg, table, t, ops) && o.DeleteRow? && OpOk(cfg, ops, o)
    ensures TableOk(cfg, DeleteRowOf(table, o.row, o.hlc, o.fkTombstone), t, ops)
  {
  }

  lemma AppliedTable(cfg: Config, s: Store, t: Text, ops: set<Op>, o: Op)
    requires t in s && TableOk(cfg, s[t], t, ops) && OpOk(cfg, ops, o)
    ensures t in ApplyOp(s, o) && TableOk(cfg, ApplyOp(s, o)[t], t, ops + {o})
  {
    if o.InsertRow? && o.table == t {
      InsertedTable(cfg, s[t], t, ops, o);
    } else {
      if o.DeleteRow? && o.table == t { DeletedTable(cfg, s[t], t, ops, o); }
      OtherTable(cfg, ApplyOp(s, o)[t], t, ops, o);
    }
  }

  lemma NewTable(cfg: Config, ops: set<Op>, o: Op)
    requires LogOk(cfg, ops) && o.CreateTable? && OpOk(cfg, ops, o) && o.schema.name !in Created(ops)
    ensures TableOk(cfg, Table(o.schema, map[], map[]), o.schema.name, ops + {o})
  {
    assert forall p :: p in ops && p.InsertRow? ==> p.table in Created(ops);
    assert InsertedRows(ops + {o}, o.schema.name) == {};
  }

  lemma AppliedKeys(s: Store, ops: set<Op>, o: Op)
    requires s.Keys == Created(ops)
    ensures ApplyOp(s, o).Keys == Created(ops + {o}) == s.Keys + if o.CreateTable? then {o.schema.name} else {}
  {
    assert Created(ops + {o}) == Created(ops) + if o.CreateTable? then {o.schema.name} else {};
  }

  /** Applying a fitting op to the store and logging it keeps the invariant. */
  lemma AppliedOk(cfg: Config, s: Store, ops: set<Op>, o: Op)
    requires StoreOk(cfg, s, ops) && OpOk(cfg, ops, o) && LogOk(cfg, ops)
    ensures StoreOk(cfg, ApplyOp(s, o), ops + {o})
  {
    AppliedKeys(s, ops, o);
    forall t | t in s ensures TableOk(cfg, ApplyOp(s, o)[t], t, ops + {o}) { AppliedTable(cfg, s, t, ops, o); }
    if o.CreateTable? && o.schema.name !in s { NewTable(cfg, ops, o); }
  }

  lemma StateAfterOk(cfg: Config, d: Derived, ops: set<Op>, o: Op)
    requires StoreOk(cfg, d.store, ops) && OpOk(cfg, ops, o) && LogOk(cfg, ops)
    ensures StoreOk(cfg, StateAfter(cfg, d, o).store, ops + {o})
  {
    AppliedOk(cfg, d.store, ops, o);
    if o.DeleteRow? && cfg.policy.Cascade? {
      var s := ApplyOp(d.store, o);
      KillKeeps(cfg, s, Children(s, o.table, o.row), ops + {o});
    }
  }

  // ----- After a statement -----

  /** The peer's own logged timestamps are not later than its clock. */
  ghost predicate ClockOk(p: Peer, ops: set<Op>) {
    forall o :: o in ops && o.hlc.peer == p.id ==> NotPast(p.clock, o.hlc)
  }

  /** What a statement requires: counters that will not wrap, and, of a new schema, claim
      names that do not collide. */
  ghost predicate CanExecute(cfg: Config, p: Peer, stmt: Stmt, now: nat -> nat) {
    var plan := PlanAt(cfg, p, stmt, now);
    && Room(TickerOf(p, now), plan.ticks + |plan.ops|)
    && (stmt.Create? ==> NamesApart(stmt.schema))
  }

  lemma PlannedTime(cfg: Config, p: Peer, stmt: Stmt, now: nat -> nat, o: Op)
    requires CanExecute(cfg, p, stmt, now) && PlanAt(cfg, p, stmt, now).error.None? && o in PlanAt(cfg, p, stmt, now).ops
    ensures o.hlc.peer == p.id && !NotPast(p.clock, o.hlc)
    ensures NotPast(ClockAfter(TickerOf(p, now), PlanAt(cfg, p, stmt, now).ticks), o.hlc)
  {
    var i := PlannedOp(cfg, p.state.store, stmt, TickerOf(p, now), o);
    TickIsFresh(TickerOf(p, now), i, PlanAt(cfg, p, stmt, now).ticks);
  }

  lemma PlannedOpOk(cfg: Config, p: Peer, stmt: Stmt, now: nat -> nat, n: nat)
    requires CanExecute(cfg, p, stmt, now) && PlanAt(cfg, p, stmt, now).error.None? && n < |PlanAt(cfg, p, stmt, now).ops|
    requires StoreOk(cfg, p.state.store, Elements(p.log)) && ClockOk(p, Elements(p.log))
    ensures var ops := PlanAt(cfg, p, stmt, now).ops; OpOk(cfg, Elements(p.log) + Elements(ops[..n]), ops[n])
  {
    var ops := PlanAt(cfg, p, stmt, now).ops;
    var old', all, o := Elements(p.log), Elements(p.log) + Elements(ops[..n]), ops[n];
    assert o in ops;
    var i := PlannedOp(cfg, p.state.store, stmt, TickerOf(p, now), o);
    PlannedTime(cfg, p, stmt, now, o);
    assert Created(old') <= Created(all);
    assert forall t :: InsertedRows(old', t) <= InsertedRows(all, t);
    if o.InsertRow? {
      forall q | q in all && q.Inserts(o.table, o.row) ensures q.hlc != o.hlc {
        if q in ops[..n] {
          var m :| 0 <= m < n && ops[m] == q;
          PlanInOrder(cfg, p.state.store, stmt, TickerOf(p, now), m, n);
          BeforeIsTotal(q.hlc, o.hlc);
        }
      }
    }
  }

  /** Every op of the list fits the log it is appended to. */
  ghost predicate AllFit(cfg: Config, log: set<Op>, ops: seq<Op>) {
    |ops| > 0 ==>
      && AllFit(cfg, log, ops[..|ops| - 1])
      && OpOk(cfg, log + Elements(ops[..|ops| - 1]), ops[|ops| - 1])
  }

  lemma OneMoreFits(cfg: Config, log: set<Op>, ops: seq<Op>, n: nat)
    requires 0 < n <= |ops| && AllFit(cfg, log, ops[..n - 1]) && OpOk(cfg, log + Elements(ops[..n - 1]), ops[n - 1])
    ensures AllFit(cfg, log, ops[..n])
  {
    assert ops[..n][..n - 1] == ops[..n - 1];
  }

  lemma {:induction false} PlanFits(cfg: Config, p: Peer, stmt: Stmt, now: nat -> nat, n: nat)
    requires CanExecute(cfg, p, stmt, now) && PlanAt(cfg, p, stmt, now).error.None? && n <= |PlanAt(cfg, p, stmt, now).ops|
    requires StoreOk(cfg, p.state.store, Elements(p.log)) && ClockOk(p, Elements(p.log))
    ensures AllFit(cfg, Elements(p.log), PlanAt(cfg, p, stmt, now).ops[..n])
  {
    if n > 0 {
      var ops := PlanAt(cfg, p, stmt, now).ops;
      PlanFits(cfg, p, stmt, now, n - 1);
      PlannedOpOk(cfg, p, stmt, now, n - 1);
      OneMoreFits(cfg, Elements(p.log), ops, n);
    }
  }

  /** One more fitting op keeps store and log in step. */
  lemma NextOk(cfg: Config, d: Derived, ops: set<Op>, o: Op)
    requires StoreOk(cfg, d.store, ops) && LogOk(cfg, ops) && OpOk(cfg, ops, o)
    ensures StoreOk(cfg, StateAfter(cfg, d, o).store, ops + {o}) && LogOk(cfg, ops + {o})
  {
    StateAfterOk(cfg, d, ops, o);
    LogGrows(cfg, ops, o);
  }

  lemma LastElement(log: set<Op>, ops: seq<Op>)
    requires |ops| > 0
    ensures log + Elements(ops) == log + Elements(ops[..|ops| - 1]) + {ops[|ops| - 1]}
  {
    assert ops == ops[..|ops| - 1] + [ops[|ops| - 1]];
  }

  lemma {:induction false} StateAllOk(cfg: Config, d: Derived, log: set<Op>, ops: seq<Op>)
    requires StoreOk(cfg, d.store, log) && LogOk(cfg, log) && AllFit(cfg, log, ops)
    ensures StoreOk(cfg, StateAll(cfg, d, ops).store, log + Elements(ops)) && LogOk(cfg, log + Elements(ops))
  {
    if |ops| == 0 {
      assert log + Elements(ops) == log;
    } else {
      var m := |ops| - 1;
      StateAllOk(cfg, d, log, ops[..m]);
      NextOk(cfg, StateAll(cfg, d, ops[..m]), log + Elements(ops[..m]), ops[m]);
      LastElement(log, ops);
    }
  }
}
