/** A peer's whole state and what statements and syncs do to it. */
module Peers {
  import opened ByteStrings
  import opened Clocks
  import opened Ops
  import opened RowStores
  import opened Sorting
  import opened OpLogs
  import opened FkResolution
  import opened Planner
  import opened Rebuild
  import Arbitration
  import AntiEntropy
  import Executor
  import SecondaryIndexes

  datatype Peer = Peer(id: Text, clock: ClockState, log: seq<Op>, state: Derived)

  const NOTHING := Derived(map[], map[])

  function Open(id: Text): Peer {
    Peer(id, ClockState(0, 0), [], NOTHING)
  }

  // ----- Local ops -----

  /** The derived state after one op: a claim enters the uniqueness state, any other
      op the store, where a delete takes its direct children along under Cascade. */
  ghost function StateAfter(cfg: Config, d: Derived, o: Op): Derived {
    if o.ReserveUnique? then d.(uniqueness := Arbitration.ReserveIn(d.uniqueness, o))
    else
      var s := ApplyOp(d.store, o);
      d.(store := if o.DeleteRow? && cfg.policy.Cascade? then EagerCascade(s, o.table, o.row) else s)
  }

  ghost function StateAll(cfg: Config, d: Derived, ops: seq<Op>): Derived {
    if |ops| == 0 then d else StateAfter(cfg, StateAll(cfg, d, ops[..|ops| - 1]), ops[|ops| - 1])
  }

  /** The clock after observing each op; the `i`-th reading is `now(from + i)`. */
  function ObserveAll(c: ClockState, ops: seq<Op>, now: nat -> nat, from: nat): ClockState {
    if |ops| == 0 then c
    else
      var m := |ops| - 1;
      ObserveOf(ObserveAll(c, ops[..m], now, from), now(from + m), ops[m].hlc.wall, ops[m].hlc.logical).clock
  }

  /** Observe, apply and log an op. */
  ghost function ApplyOne(cfg: Config, p: Peer, o: Op, now: nat): Peer {
    Peer(p.id, ObserveOf(p.clock, now, o.hlc.wall, o.hlc.logical).clock, AppendOf(p.log, o), StateAfter(cfg, p.state, o))
  }

  ghost function ApplyAll(cfg: Config, p: Peer, ops: seq<Op>, now: nat -> nat, from: nat): Peer {
    Peer(p.id, ObserveAll(p.clock, ops, now, from), AppendAll(p.log, ops), StateAll(cfg, p.state, ops))
  }

  lemma ApplyNext(cfg: Config, p: Peer, ops: seq<Op>, now: nat -> nat, from: nat, i: nat)
    requires i < |ops|
    ensures ApplyAll(cfg, p, ops[..i + 1], now, from) == ApplyOne(cfg, ApplyAll(cfg, p, ops[..i], now, from), ops[i], now(from + i))
  {
    assert ops[..i + 1][..i] == ops[..i];
  }

  function TickerOf(p: Peer, now: nat -> nat): Ticker {
    Ticker(p.id, p.clock, now)
  }

  function PlanAt(cfg: Config, p: Peer, stmt: Stmt, now: nat -> nat): Plan {
    PlanOf(cfg, p.state.store, stmt, TickerOf(p, now))
  }

  /** A statement: plan it, then apply the ops one by one.  A statement that cannot be
      planned has still moved the clock. */
  ghost function ExecuteOf(cfg: Config, p: Peer, stmt: Stmt, now: nat -> nat): Peer {
    var plan := PlanAt(cfg, p, stmt, now);
    var ticked := ClockAfter(TickerOf(p, now), plan.ticks);
    if plan.error.Some? then p.(clock := ticked) else ApplyAll(cfg, p.(clock := ticked), plan.ops, now, plan.ticks)
  }

  /** Receive the ops of another log and rebuild. */
  ghost function ReceiveFrom(cfg: Config, p: Peer, src: seq<Op>): Peer {
    var log := AntiEntropy.Receive(p.log, src);
    p.(log := log, state := RebuildOf(cfg, log))
  }

  // ----- Timestamps of a plan -----

  /** `h` is not later than the clock. */
  predicate NotPast(c: ClockState, h: Hlc) {
    !Earlier(c.wall, c.logical, h.wall, h.logical)
  }

  predicate NotBack(c: ClockState, c': ClockState) {
    !Earlier(c'.wall, c'.logical, c.wall, c.logical)
  }

  lemma {:induction false} TicksAdvance(k: Ticker, n: nat)
    requires k.clock.logical + n < U32
    ensures NotBack(k.clock, ClockAfter(k, n)) && ClockAfter(k, n).logical <= k.clock.logical + n
  {
    if n > 0 {
      TicksAdvance(k, n - 1);
      EventAdvances(ClockAfter(k, n - 1), Event.Tick(k.now(n - 1)));
    }
  }

  /** The `i`-th timestamp is later than everything before the statement and than the
      timestamps before it. */
  lemma {:induction false} TickIsFresh(k: Ticker, i: nat, n: nat)
    requires i < n && k.clock.logical + n < U32
    ensures !NotPast(k.clock, TimeOf(k, i)) && NotPast(ClockAfter(k, n), TimeOf(k, i))
  {
    TicksAdvance(k, i);
    EventAdvances(ClockAfter(k, i), Event.Tick(k.now(i)));
    if i < n - 1 {
      TickIsFresh(k, i, n - 1);
      TicksAdvance(k, n - 1);
      EventAdvances(ClockAfter(k, n - 1), Event.Tick(k.now(n - 1)));
    }
  }

  lemma TicksIncrease(k: Ticker, i: nat, j: nat, n: nat)
    requires i < j < n && k.clock.logical + n < U32
    ensures Before(TimeOf(k, i), TimeOf(k, j))
  {
    TickIsFresh(k, i, j);
    TicksAdvance(k, j);
    EventAdvances(ClockAfter(k, j), Event.Tick(k.now(j)));
  }

  lemma TicksDiffer(k: Ticker, i: nat, j: nat, n: nat)
    requires i < n && j < n && k.clock.logical + n < U32 && TimeOf(k, i) == TimeOf(k, j)
    ensures i == j
  {
    BeforeIsTotal(TimeOf(k, i), TimeOf(k, j));
    if i < j { TicksIncrease(k, i, j, n); }
    if j < i { TicksIncrease(k, j, i, n); }
  }

  lemma ObserveAdvances(c: ClockState, now: nat, h: Hlc)
    requires c.logical + 1 < U32 && NotPast(c, h)
    ensures var c' := ObserveOf(c, now, h.wall, h.logical).clock;
            NotBack(c, c') && NotPast(c', h) && c'.logical <= c.logical + 1
  {
  }

  lemma {:induction false} ObservingAdvances(c: ClockState, ops: seq<Op>, now: nat -> nat, from: nat)
    requires c.logical + |ops| < U32 && forall o :: o in ops ==> NotPast(c, o.hlc)
    ensures NotBack(c, ObserveAll(c, ops, now, from)) && ObserveAll(c, ops, now, from).logical <= c.logical + |ops|
  {
    if |ops| > 0 {
      var m := |ops| - 1;
      ObservingAdvances(c, ops[..m], now, from);
      assert ops[m] in ops && NotPast(c, ops[m].hlc);
      ObserveAdvances(ObserveAll(c, ops[..m], now, from), now(from + m), ops[m].hlc);
    }
  }

  // ----- What a plan consists of -----

  /** `o` fits the store it was planned on. */
  ghost predicate Fits(cfg: Config, s: Store, o: Op) {
    !o.CreateTable? ==>
      && o.table in s
      && (o.UpdateCells? || o.DeleteRow? ==> o.row in s[o.table].membership)
      && (o.DeleteRow? ==> o.fkTombstone == cfg.policy.Tombstone?)
      && (o.InsertRow? ==> FirstViolation(cfg, s, s[o.table].schema.foreignKeys, o.cells).None?)
  }

  lemma PlannedInsert(cfg: Config, s: Store, stmt: Stmt, k: Ticker, o: Op) returns (i: nat)
    requires stmt.Insert? && PlanOf(cfg, s, stmt, k).error.None? && o in PlanOf(cfg, s, stmt, k).ops
    ensures i < PlanOf(cfg, s, stmt, k).ticks && o.hlc == TimeOf(k, i) && !o.CreateTable? && Fits(cfg, s, o)
  {
    var t, schema := stmt.table, s[stmt.table].schema;
    var pk := SecondaryIndexes.PrimaryKey(schema.columns).value;
    PlanRowsTicks(cfg, s, t, schema, pk, stmt.columns, stmt.values, k);
    var cells, r;
    i, cells, r := InsertedOp(cfg, s, t, schema, pk, stmt.columns, stmt.values, k, o);
  }

  lemma UpdatedRow(schema: Schema, t: Text, ids: seq<Text>, cells: seq<Cell>, k: Ticker, o: Op) returns (i: nat)
    requires o in UpdateOps(schema, t, ids, cells, k)
    ensures i < |ids| && InGroup(o, t, ids[i], TimeOf(k, i)) && !o.InsertRow? && !o.DeleteRow?
  {
    i := UpdatedOp(schema, t, ids, cells, k, o);
  }

  lemma PlannedUpdate(cfg: Config, s: Store, stmt: Stmt, k: Ticker, o: Op) returns (i: nat)
    requires stmt.Update? && PlanOf(cfg, s, stmt, k).error.None? && o in PlanOf(cfg, s, stmt, k).ops
    ensures i < PlanOf(cfg, s, stmt, k).ticks && o.hlc == TimeOf(k, i) && !o.CreateTable? && Fits(cfg, s, o)
  {
    var table := s[stmt.table];
    var ids := Executor.MatchingIds(table, stmt.filter);
    i := UpdatedRow(table.schema, stmt.table, ids, stmt.assignments, k, o);
    assert ids[i] in Elements(ids);
  }

  lemma PlannedDelete(cfg: Config, s: Store, stmt: Stmt, k: Ticker, o: Op) returns (i: nat)
    requires stmt.Delete? && PlanOf(cfg, s, stmt, k).error.None? && o in PlanOf(cfg, s, stmt, k).ops
    ensures i < PlanOf(cfg, s, stmt, k).ticks && o.hlc == TimeOf(k, i) && !o.CreateTable? && Fits(cfg, s, o)
  {
    var ids := Executor.MatchingIds(s[stmt.table], stmt.filter);
    i :| 0 <= i < |ids| && PlanOf(cfg, s, stmt, k).ops[i] == o;
    assert ids[i] in Elements(ids);
  }

  /** Every planned op carries one of the plan's ticks and fits the store it was planned on. */
  lemma PlannedOp(cfg: Config, s: Store, stmt: Stmt, k: Ticker, o: Op) returns (i: nat)
    requires PlanOf(cfg, s, stmt, k).error.None? && o in PlanOf(cfg, s, stmt, k).ops
    ensures i < PlanOf(cfg, s, stmt, k).ticks && o.hlc == TimeOf(k, i) && Fits(cfg, s, o)
    ensures stmt.Create? <==> o.CreateTable?
    ensures stmt.Create? ==> o.schema == stmt.schema && o.table == o.schema.name
  {
    i := 0;
    match stmt
    case Create(_) =>
    case CreateIndex =>
    case Insert(_, _, _) => i := PlannedInsert(cfg, s, stmt, k, o);
    case Update(_, _, _) => i := PlannedUpdate(cfg, s, stmt, k, o);
    case Delete(_, _) => i := PlannedDelete(cfg, s, stmt, k, o);
  }

  lemma {:induction false} PlanRowsTicks(cfg: Config, s: Store, t: Text, schema: Schema, pk: Text, columns: seq<Text>,
                                         values: seq<seq<Option<Bytes>>>, k: Ticker)
    ensures var p := PlanRows(cfg, s, t, schema, pk, columns, values, k);
      p.ticks <= |values| && (p.error.None? ==> p.ticks == |values|)
  {
    if |values| > 0 { PlanRowsTicks(cfg, s, t, schema, pk, columns, values[..|values| - 1], k); }
  }

  ghost predicate Room(k: Ticker, n: nat) {
    k.clock.logical + n < U32
  }

  /** The ops of a plan that share a timestamp were planned for one row. */
  lemma InsertsGroup(cfg: Config, s: Store, t: Text, schema: Schema, pk: Text, columns: seq<Text>,
                     values: seq<seq<Option<Bytes>>>, k: Ticker, a: Op, b: Op)
    requires var p := PlanRows(cfg, s, t, schema, pk, columns, values, k); p.error.None? && a in p.ops && b in p.ops
    requires a.hlc == b.hlc && a != b && NamesApart(schema) && Room(k, |values|)
    ensures SameGroup(a, b)
  {
    var i, cells, r := InsertedOp(cfg, s, t, schema, pk, columns, values, k, a);
    var j, cells', r' := InsertedOp(cfg, s, t, schema, pk, columns, values, k, b);
    InsertedAt(schema, t, r, TimeOf(k, i), cells, a);
    InsertedAt(schema, t, r', TimeOf(k, j), cells', b);
    TicksDiffer(k, i, j, |values|);
    InsertedGroup(schema, t, r, TimeOf(k, i), cells, a, b);
  }

  lemma InsertGroup(cfg: Config, s: Store, stmt: Stmt, k: Ticker, a: Op, b: Op)
    requires stmt.Insert? && PlanOf(cfg, s, stmt, k).error.None? && Room(k, PlanOf(cfg, s, stmt, k).ticks)
    requires a in PlanOf(cfg, s, stmt, k).ops && b in PlanOf(cfg, s, stmt, k).ops && a.hlc == b.hlc && a != b
    requires NamesApart(s[stmt.table].schema)
    ensures SameGroup(a, b)
  {
    var t, schema := stmt.table, s[stmt.table].schema;
    var pk := SecondaryIndexes.PrimaryKey(schema.columns).value;
    PlanRowsTicks(cfg, s, t, schema, pk, stmt.columns, stmt.values, k);
    InsertsGroup(cfg, s, t, schema, pk, stmt.columns, stmt.values, k, a, b);
  }

  lemma UpdatesGroup(schema: Schema, t: Text, ids: seq<Text>, cells: seq<Cell>, k: Ticker, a: Op, b: Op)
    requires a in UpdateOps(schema, t, ids, cells, k) && b in UpdateOps(schema, t, ids, cells, k)
    requires a.hlc == b.hlc && a != b && NamesApart(schema) && Room(k, |ids|)
    ensures SameGroup(a, b)
  {
    var i := UpdatedOp(schema, t, ids, cells, k, a);
    var j := UpdatedOp(schema, t, ids, cells, k, b);
    TicksDiffer(k, i, j, |ids|);
    RowGroup(schema, t, ids[i], TimeOf(k, i), cells, UpdateCells(t, ids[i], TimeOf(k, i), cells), a, b);
  }

  lemma UpdateGroup(cfg: Config, s: Store, stmt: Stmt, k: Ticker, a: Op, b: Op)
    requires stmt.Update? && PlanOf(cfg, s, stmt, k).error.None? && Room(k, PlanOf(cfg, s, stmt, k).ticks)
    requires a in PlanOf(cfg, s, stmt, k).ops && b in PlanOf(cfg, s, stmt, k).ops && a.hlc == b.hlc && a != b
    requires NamesApart(s[stmt.table].schema)
    ensures SameGroup(a, b)
  {
    var table := s[stmt.table];
    UpdatesGroup(table.schema, stmt.table, Executor.MatchingIds(table, stmt.filter), stmt.assignments, k, a, b);
  }

  lemma PlannedGroup(cfg: Config, s: Store, stmt: Stmt, k: Ticker, a: Op, b: Op)
    requires PlanOf(cfg, s, stmt, k).error.None? && Room(k, PlanOf(cfg, s, stmt, k).ticks)
    requires a in PlanOf(cfg, s, stmt, k).ops && b in PlanOf(cfg, s, stmt, k).ops && a.hlc == b.hlc && a != b
    requires forall t :: t in s ==> NamesApart(s[t].schema)
    ensures SameGroup(a, b)
  {
    match stmt
    case Insert(_, _, _) => InsertGroup(cfg, s, stmt, k, a, b);
    case Update(_, _, _) => UpdateGroup(cfg, s, stmt, k, a, b);
    case Delete(t, filter) =>
      var ids := Executor.MatchingIds(s[t], filter);
      var i :| 0 <= i < |ids| && PlanOf(cfg, s, stmt, k).ops[i] == a;
      var j :| 0 <= j < |ids| && PlanOf(cfg, s, stmt, k).ops[j] == b;
      TicksDiffer(k, i, j, |ids|);
    case _ =>
  }

  /** `b` follows `a` in a plan: it is later, or claims a value for the same row. */
  ghost predicate Follows(a: Op, b: Op) {
    Before(a.hlc, b.hlc) || (a.hlc == b.hlc && b.ReserveUnique?)
  }

  /** The ops of one row: a write, then its claims, all at one time. */
  lemma RowInOrder(schema: Schema, t: Text, r: Text, h: Hlc, cells: seq<Cell>, first: Op, row: seq<Op>, n: nat)
    requires first.hlc == h && n < |row|
    requires row == [first] + ColumnClaims(schema, t, r, h, cells)
      || row == [first] + ColumnClaims(schema, t, r, h, cells) + CompositeClaims(schema, t, r, h, cells)
    ensures row[n].hlc == h && (n > 0 ==> row[n].ReserveUnique?)
  {
    if n > 0 {
      var claims := row[1..];
      assert row[n] == claims[n - 1] && row[n] in claims;
      assert claims == ColumnClaims(schema, t, r, h, cells)
        || claims == ColumnClaims(schema, t, r, h, cells) + CompositeClaims(schema, t, r, h, cells);
      ClaimElements(schema, t, r, h, cells, row[n]);
    }
  }

  lemma InsertedTime(cfg: Config, s: Store, t: Text, schema: Schema, pk: Text, columns: seq<Text>,
                     values: seq<seq<Option<Bytes>>>, k: Ticker, o: Op) returns (i: nat)
    requires var p := PlanRows(cfg, s, t, schema, pk, columns, values, k); p.error.None? && o in p.ops
    ensures i < |values| && o.hlc == TimeOf(k, i)
  {
    var cells, r;
    i, cells, r := InsertedOp(cfg, s, t, schema, pk, columns, values, k, o);
    InsertedAt(schema, t, r, TimeOf(k, i), cells, o);
  }

  lemma PlannedRowInOrder(cfg: Config, s: Store, t: Text, schema: Schema, pk: Text, cells: seq<Cell>, h: Hlc, row: seq<Op>, n: nat)
    requires PlanRow(cfg, s, t, schema, pk, cells, h) == RowPlanned(row) && n < |row|
    ensures row[n].hlc == h && (n > 0 ==> row[n].ReserveUnique?)
  {
    var r := cfg.text(Flatten(FirstCell(cells, pk)).value);
    RowInOrder(schema, t, r, h, cells, InsertRow(t, r, h, cells), row, n);
  }

  lemma {:induction false} InsertsInOrder(cfg: Config, s: Store, t: Text, schema: Schema, pk: Text, columns: seq<Text>,
                                          values: seq<seq<Option<Bytes>>>, k: Ticker, m: nat, n: nat)
    requires Room(k, |values|)
    requires var p := PlanRows(cfg, s, t, schema, pk, columns, values, k); p.error.None? && m < n < |p.ops|
    ensures var ops := PlanRows(cfg, s, t, schema, pk, columns, values, k).ops; Follows(ops[m], ops[n])
  {
    var z := |values| - 1;
    var cells, h := CellsFor(schema, columns, values[z]), TimeOf(k, z);
    var before, row := PlanRows(cfg, s, t, schema, pk, columns, values[..z], k).ops, PlanRow(cfg, s, t, schema, pk, cells, h).ops;
    if n < |before| {
      InsertsInOrder(cfg, s, t, schema, pk, columns, values[..z], k, m, n);
    } else {
      PlannedRowInOrder(cfg, s, t, schema, pk, cells, h, row, n - |before|);
      if m < |before| {
        var i := InsertedTime(cfg, s, t, schema, pk, columns, values[..z], k, before[m]);
        TicksIncrease(k, i, z, |values|);
      } else {
        PlannedRowInOrder(cfg, s, t, schema, pk, cells, h, row, m - |before|);
      }
    }
  }

  lemma {:induction false} UpdatesInOrder(schema: Schema, t: Text, ids: seq<Text>, cells: seq<Cell>, k: Ticker, m: nat, n: nat)
    requires Room(k, |ids|) && m < n < |UpdateOps(schema, t, ids, cells, k)|
    ensures Follows(UpdateOps(schema, t, ids, cells, k)[m], UpdateOps(schema, t, ids, cells, k)[n])
  {
    var z := |ids| - 1;
    var before, h := UpdateOps(schema, t, ids[..z], cells, k), TimeOf(k, z);
    var row := [UpdateCells(t, ids[z], h, cells)] + ColumnClaims(schema, t, ids[z], h, cells);
    assert UpdateOps(schema, t, ids, cells, k) == before + row;
    if n < |before| {
      UpdatesInOrder(schema, t, ids[..z], cells, k, m, n);
    } else {
      RowInOrder(schema, t, ids[z], h, cells, UpdateCells(t, ids[z], h, cells), row, n - |before|);
      if m < |before| {
        var i := UpdatedOp(schema, t, ids[..z], cells, k, before[m]);
        TicksIncrease(k, i, z, |ids|);
      } else {
        RowInOrder(schema, t, ids[z], h, cells, UpdateCells(t, ids[z], h, cells), row, m - |before|);
      }
    }
  }

  /** A plan lists its rows in the order of their times, each row's write before its claims. */
  lemma PlanInOrder(cfg: Config, s: Store, stmt: Stmt, k: Ticker, m: nat, n: nat)
    requires var p := PlanOf(cfg, s, stmt, k); p.error.None? && Room(k, p.ticks) && m < n < |p.ops|
    ensures Follows(PlanOf(cfg, s, stmt, k).ops[m], PlanOf(cfg, s, stmt, k).ops[n])
  {
    if stmt.Insert? {
      var t := stmt.table;
      var pk := SecondaryIndexes.PrimaryKey(s[t].schema.columns).value;
      PlanRowsTicks(cfg, s, t, s[t].schema, pk, stmt.columns, stmt.values, k);
      InsertsInOrder(cfg, s, t, s[t].schema, pk, stmt.columns, stmt.values, k, m, n);
    } else if stmt.Update? {
      UpdatesInOrder(s[stmt.table].schema, stmt.table, Executor.MatchingIds(s[stmt.table], stmt.filter), stmt.assignments, k, m, n);
    } else if stmt.Delete? {
      TicksIncrease(k, m, n, |Executor.MatchingIds(s[stmt.table], stmt.filter)|);
    }
  }
}
