/** The planner's loops, ticking the peer's shared clock. */
module Planning {
  import opened ByteStrings
  import opened Clocks
  import opened Ops
  import opened RowStores
  import opened Sorting
  import opened FkResolution
  import opened Planner
  import opened Rebuild
  import Executor
  import SecondaryIndexes
  import U = Uniqueness

  /** The visible rows a filter selects, in row order. */
  method Scan(t: Table, filter: Option<Executor.Expr>) returns (ids: seq<Text>)
    ensures ids == Executor.MatchingIds(t, filter)
  {
    U.LessIsStrictTotal();
    var rows := InOrder(Less, VisibleRows(t));
    ids := [];
    for i := 0 to |rows|
      invariant StrictlySorted(Less, ids)
      invariant forall r :: r in ids <==> r in rows[..i] && Executor.Passes(filter, RowAt(t.rows, r))
    {
      assert rows[..i + 1] == rows[..i] + [rows[i]];
      if Executor.Passes(filter, RowAt(t.rows, rows[i])) {
        forall k | 0 <= k < |ids| ensures Less(ids[k], rows[i]) {
          assert ids[k] in ids;
          var j :| 0 <= j < i && rows[j] == ids[k];
        }
        ids := ids + [rows[i]];
      }
    }
    assert rows[..|rows|] == rows;
    forall r ensures r in Elements(ids) <==> r in Executor.Matching(t, filter) { assert r in rows <==> r in Elements(rows); }
    StrictlySortedUnique(Less, ids, Executor.MatchingIds(t, filter));
  }

  // ----- One inserted row -----

  method CheckForeignKeys(cfg: Config, s: Store, fks: seq<ForeignKey>, cells: seq<Cell>) returns (bad: Option<FkError>)
    ensures bad == FirstViolation(cfg, s, fks, cells)
  {
    for i := 0 to |fks|
      invariant FirstViolation(cfg, s, fks, cells) == FirstViolation(cfg, s, fks[i..], cells)
    {
      assert fks[i..][0] == fks[i] && fks[i..][1..] == fks[i + 1..];
      var key := Flatten(FirstCell(cells, fks[i].column));
      if key.Some? {
        var checked := ValidateInsert(cfg.policy, s, cfg.text(key.value), fks[i].refTable);
        if checked.Rejected? { return Some(checked.error); }
      }
    }
    bad := None;
  }

  method CheckNotNull(columns: seq<ColumnDef>, cells: seq<Cell>) returns (missing: Option<Text>)
    ensures missing == FirstMissing(columns, cells)
  {
    for i := 0 to |columns|
      invariant FirstMissing(columns, cells) == FirstMissing(columns[i..], cells)
    {
      assert columns[i..][0] == columns[i] && columns[i..][1..] == columns[i + 1..];
      var d := columns[i];
      if d.notNull && !d.primaryKey {
        if !HasValue(cells, d.name) && d.default.None? { return Some(d.name); }
      }
    }
    missing := None;
  }

  method ClaimColumns(schema: Schema, t: Text, r: Text, h: Hlc, cells: seq<Cell>) returns (ops: seq<Op>)
    ensures ops == ColumnClaims(schema, t, r, h, cells)
  {
    ops := [];
    ghost var f := (d: ColumnDef) => ReserveColumn(d, t, r, h, cells);
    for i := 0 to |schema.columns|
      invariant ops == FlatMap(schema.columns[..i], f)
    {
      assert schema.columns[..i + 1][..i] == schema.columns[..i];
      var d := schema.columns[i];
      if d.unique {
        var v := Flatten(FirstCell(cells, d.name));
        if v.Some? { ops := ops + [ReserveUnique(t, r, h, d.name, v.value)]; }
      }
    }
    assert schema.columns[..|schema.columns|] == schema.columns;
  }

  method ClaimComposites(schema: Schema, t: Text, r: Text, h: Hlc, cells: seq<Cell>) returns (ops: seq<Op>)
    ensures ops == CompositeClaims(schema, t, r, h, cells)
  {
    ops := [];
    ghost var f := (cols: seq<Text>) => ReserveComposite(cols, t, r, h, cells);
    for i := 0 to |schema.compositeUnique|
      invariant ops == FlatMap(schema.compositeUnique[..i], f)
    {
      assert schema.compositeUnique[..i + 1][..i] == schema.compositeUnique[..i];
      var cols := schema.compositeUnique[i];
      ops := ops + [ReserveUnique(t, r, h, CompositeName(cols), CompositeValue(cols, cells))];
    }
    assert schema.compositeUnique[..|schema.compositeUnique|] == schema.compositeUnique;
  }

  method PlanOneRow(cfg: Config, s: Store, t: Text, schema: Schema, pk: Text, cells: seq<Cell>, h: Hlc) returns (plan: RowPlan)
    ensures plan == PlanRow(cfg, s, t, schema, pk, cells, h)
  {
    var key := Flatten(FirstCell(cells, pk));
    if key.None? { return RowRefused(ColumnNotFound(pk, t)); }
    var bad := CheckForeignKeys(cfg, s, schema.foreignKeys, cells);
    if bad.Some? { return RowRefused(FkViolation(bad.value)); }
    var missing := CheckNotNull(schema.columns, cells);
    if missing.Some? { return RowRefused(NullConstraint(missing.value)); }
    var r := cfg.text(key.value);
    var columns := ClaimColumns(schema, t, r, h, cells);
    var composites := ClaimComposites(schema, t, r, h, cells);
    plan := RowPlanned([InsertRow(t, r, h, cells)] + columns + composites);
  }

  // ----- Statements -----

  lemma {:induction false} ErrorSticks(cfg: Config, s: Store, t: Text, schema: Schema, pk: Text, columns: seq<Text>,
                                       values: seq<seq<Option<Bytes>>>, k: Ticker, i: nat)
    requires i <= |values| && PlanRows(cfg, s, t, schema, pk, columns, values[..i], k).error.Some?
    ensures PlanRows(cfg, s, t, schema, pk, columns, values, k) == PlanRows(cfg, s, t, schema, pk, columns, values[..i], k)
    decreases |values|
  {
    if i < |values| {
      assert values[..|values| - 1][..i] == values[..i];
      ErrorSticks(cfg, s, t, schema, pk, columns, values[..|values| - 1], k, i);
    } else {
      assert values[..i] == values;
    }
  }

  lemma RowsStep(cfg: Config, s: Store, t: Text, schema: Schema, pk: Text, columns: seq<Text>,
                 values: seq<seq<Option<Bytes>>>, k: Ticker, i: nat, ops: seq<Op>, row: RowPlan)
    requires i < |values| && PlanRows(cfg, s, t, schema, pk, columns, values[..i], k) == Plan(ops, i, None)
    requires row == PlanRow(cfg, s, t, schema, pk, CellsFor(schema, columns, values[i]), TimeOf(k, i))
    ensures PlanRows(cfg, s, t, schema, pk, columns, values[..i + 1], k)
      == if row.RowPlanned? then Plan(ops + row.ops, i + 1, None) else Plan([], i + 1, Some(row.error))
  {
    assert values[..i + 1][..i] == values[..i];
  }

  method PlanInsert(cfg: Config, clock: HlcClock, s: Store, t: Text, schema: Schema, pk: Text, columns: seq<Text>,
                    values: seq<seq<Option<Bytes>>>, now: nat -> nat) returns (plan: Plan)
    modifies clock
    ensures var k := Ticker(clock.peer, old(clock.State()), now);
      plan == PlanRows(cfg, s, t, schema, pk, columns, values, k) && clock.State() == ClockAfter(k, plan.ticks)
  {
    ghost var k := Ticker(clock.peer, clock.State(), now);
    var ops := [];
    for i := 0 to |values|
      invariant clock.State() == ClockAfter(k, i)
      invariant PlanRows(cfg, s, t, schema, pk, columns, values[..i], k) == Plan(ops, i, None)
    {
      var h := clock.Tick(now(i));
      var row := PlanOneRow(cfg, s, t, schema, pk, CellsFor(schema, columns, values[i]), h);
      RowsStep(cfg, s, t, schema, pk, columns, values, k, i, ops, row);
      if row.RowRefused? {
        ErrorSticks(cfg, s, t, schema, pk, columns, values, k, i + 1);
        return Plan([], i + 1, Some(row.error));
      }
      ops := ops + row.ops;
    }
    assert values[..|values|] == values;
    plan := Plan(ops, |values|, None);
  }

  method PlanUpdate(clock: HlcClock, schema: Schema, t: Text, ids: seq<Text>, cells: seq<Cell>, now: nat -> nat) returns (ops: seq<Op>)
    modifies clock
    ensures var k := Ticker(clock.peer, old(clock.State()), now);
      ops == UpdateOps(schema, t, ids, cells, k) && clock.State() == ClockAfter(k, |ids|)
  {
    ghost var k := Ticker(clock.peer, clock.State(), now);
    ops := [];
    for i := 0 to |ids|
      invariant clock.State() == ClockAfter(k, i) && ops == UpdateOps(schema, t, ids[..i], cells, k)
    {
      assert ids[..i + 1][..i] == ids[..i];
      var h := clock.Tick(now(i));
      var claims := ClaimColumns(schema, t, ids[i], h, cells);
      ops := ops + [UpdateCells(t, ids[i], h, cells)] + claims;
    }
    assert ids[..|ids|] == ids;
  }

  method PlanDelete(clock: HlcClock, t: Text, ids: seq<Text>, fkTombstone: bool, now: nat -> nat) returns (ops: seq<Op>)
    modifies clock
    ensures var k := Ticker(clock.peer, old(clock.State()), now);
      ops == DeleteOps(t, ids, fkTombstone, k) && clock.State() == ClockAfter(k, |ids|)
  {
    ghost var k := Ticker(clock.peer, clock.State(), now);
    ops := [];
    for i := 0 to |ids|
      invariant clock.State() == ClockAfter(k, i) && ops == DeleteOps(t, ids[..i], fkTombstone, k)
    {
      var h := clock.Tick(now(i));
      ops := ops + [DeleteRow(t, ids[i], h, fkTombstone)];
    }
    assert ids[..|ids|] == ids;
  }

  method PlanStatement(cfg: Config, clock: HlcClock, s: Store, stmt: Stmt, now: nat -> nat) returns (plan: Plan)
    modifies clock
    ensures var k := Ticker(clock.peer, old(clock.State()), now);
      plan == PlanOf(cfg, s, stmt, k) && clock.State() == ClockAfter(k, plan.ticks)
  {
    match stmt
    case Create(schema) =>
      var h := clock.Tick(now(0));
      plan := Plan([CreateTable(schema.name, h, schema)], 1, None);
    case CreateIndex => plan := Plan([], 0, None);
    case Insert(t, columns, values) =>
      if t !in s { return Plan([], 0, Some(TableNotFound(t))); }
      var pk := SecondaryIndexes.PrimaryKey(s[t].schema.columns);
      if pk.None? { return Plan([], 0, Some(NoPrimaryKey(t))); }
      plan := PlanInsert(cfg, clock, s, t, s[t].schema, pk.value, columns, values, now);
    case Update(t, cells, filter) =>
      if t !in s { return Plan([], 0, Some(TableNotFound(t))); }
      if SecondaryIndexes.PrimaryKey(s[t].schema.columns).None? { return Plan([], 0, Some(NoPrimaryKey(t))); }
      var ids := Scan(s[t], filter);
      var ops := PlanUpdate(clock, s[t].schema, t, ids, cells, now);
      plan := Plan(ops, |ids|, None);
    case Delete(t, filter) =>
      if t !in s { return Plan([], 0, Some(TableNotFound(t))); }
      var ids := Scan(s[t], filter);
      var ops := PlanDelete(clock, t, ids, cfg.policy.Tombstone?, now);
      plan := Plan(ops, |ids|, None);
  }
}
