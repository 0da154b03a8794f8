/** Statements planned into ops; every planned row gets one timestamp of its own. */
module Planner {
  import opened ByteStrings
  import opened Clocks
  import opened Ops
  import opened RowStores
  import opened Sorting
  import opened Splitting
  import opened FkResolution
  import Executor
  import SecondaryIndexes
  import Arbitration
  import Rebuild

  datatype PlanError =
    | TableNotFound(table: Text)
    | ColumnNotFound(column: Text, table: Text)
    | FkViolation(why: FkError)
    | NoPrimaryKey(table: Text)
    | NullConstraint(column: Text)

  /** Values are already resolved to bytes; `None` is NULL. */
  datatype Stmt =
    | Create(schema: Schema)
    | CreateIndex
    | Insert(table: Text, columns: seq<Text>, values: seq<seq<Option<Bytes>>>)
    | Update(table: Text, assignments: seq<Cell>, filter: Option<Executor.Expr>)
    | Delete(table: Text, filter: Option<Executor.Expr>)

  /** Ops planned, clock ticks taken, and the error that stopped planning, if any. */
  datatype Plan = Plan(ops: seq<Op>, ticks: nat, error: Option<PlanError>)

  /** A peer's clock together with the physical readings its next events will get. */
  datatype Ticker = Ticker(peer: Text, clock: ClockState, now: nat -> nat)

  function ClockAfter(k: Ticker, n: nat): ClockState {
    if n == 0 then k.clock else TickOf(ClockAfter(k, n - 1), k.now(n - 1)).clock
  }

  /** The timestamp of the `i`-th tick. */
  function TimeOf(k: Ticker, i: nat): Hlc {
    var r := TickOf(ClockAfter(k, i), k.now(i));
    Hlc(r.wall, r.logical, k.peer)
  }

  // ----- One inserted row -----

  function Zip(names: seq<Text>, values: seq<Option<Bytes>>): seq<Cell> {
    var n := if |names| < |values| then |names| else |values|;
    seq(n, i requires 0 <= i < n => Cell(names[i], values[i]))
  }

  function CellsFor(schema: Schema, columns: seq<Text>, values: seq<Option<Bytes>>): seq<Cell> {
    Zip(if |columns| == 0 then Executor.Names(schema.columns) else columns, values)
  }

  function Flatten(v: Option<Option<Bytes>>): Option<Bytes> {
    match v
    case None => None
    case Some(x) => x
  }

  /** The first foreign key whose value has no acceptable parent. */
  function FirstViolation(cfg: Rebuild.Config, s: Store, fks: seq<ForeignKey>, cells: seq<Cell>): Option<FkError> {
    if |fks| == 0 then None
    else
      var key := Flatten(FirstCell(cells, fks[0].column));
      var checked := if key.None? then Accepted else ValidateInsert(cfg.policy, s, cfg.text(key.value), fks[0].refTable);
      if checked.Rejected? then Some(checked.error) else FirstViolation(cfg, s, fks[1..], cells)
  }

  predicate HasValue(cells: seq<Cell>, c: Text) {
    exists cell :: cell in cells && cell.col == c && cell.value.Some?
  }

  function FirstMissing(columns: seq<ColumnDef>, cells: seq<Cell>): Option<Text> {
    if |columns| == 0 then None
    else
      var d := columns[0];
      if d.notNull && !d.primaryKey && !HasValue(cells, d.name) && d.default.None? then Some(d.name)
      else FirstMissing(columns[1..], cells)
  }

  function ReserveColumn(d: ColumnDef, t: Text, r: Text, h: Hlc, cells: seq<Cell>): seq<Op> {
    var v := Flatten(FirstCell(cells, d.name));
    if d.unique && v.Some? then [ReserveUnique(t, r, h, d.name, v.value)] else []
  }

  function CompositeName(cols: seq<Text>): Text {
    Arbitration.COMPOSITE + Join(COMMA, cols) + Arbitration.UNDERSCORES
  }

  function PartOf(cells: seq<Cell>, c: Text): Bytes {
    match Flatten(FirstCell(cells, c))
    case None => []
    case Some(v) => v
  }

  function Parts(cols: seq<Text>, cells: seq<Cell>): seq<Bytes> {
    seq(|cols|, i requires 0 <= i < |cols| => PartOf(cells, cols[i]))
  }

  /** Parts separated by a zero byte; missing parts are empty. */
  function CompositeValue(cols: seq<Text>, cells: seq<Cell>): Bytes {
    Join(0, Parts(cols, cells))
  }

  function ReserveComposite(cols: seq<Text>, t: Text, r: Text, h: Hlc, cells: seq<Cell>): seq<Op> {
    [ReserveUnique(t, r, h, CompositeName(cols), CompositeValue(cols, cells))]
  }

  function ColumnClaims(schema: Schema, t: Text, r: Text, h: Hlc, cells: seq<Cell>): seq<Op> {
    FlatMap(schema.columns, (d: ColumnDef) => ReserveColumn(d, t, r, h, cells))
  }

  function CompositeClaims(schema: Schema, t: Text, r: Text, h: Hlc, cells: seq<Cell>): seq<Op> {
    FlatMap(schema.compositeUnique, (cols: seq<Text>) => ReserveComposite(cols, t, r, h, cells))
  }

  datatype RowPlan = RowPlanned(ops: seq<Op>) | RowRefused(error: PlanError)

  function PlanRow(cfg: Rebuild.Config, s: Store, t: Text, schema: Schema, pk: Text, cells: seq<Cell>, h: Hlc): RowPlan {
    var key := Flatten(FirstCell(cells, pk));
    if key.None? then RowRefused(ColumnNotFound(pk, t))
    else
      var bad := FirstViolation(cfg, s, schema.foreignKeys, cells);
      if bad.Some? then RowRefused(FkViolation(bad.value))
      else
        var missing := FirstMissing(schema.columns, cells);
        if missing.Some? then RowRefused(NullConstraint(missing.value))
        else
          var r := cfg.text(key.value);
          RowPlanned([InsertRow(t, r, h, cells)] + ColumnClaims(schema, t, r, h, cells) + CompositeClaims(schema, t, r, h, cells))
  }

  // ----- Statements -----

  function PlanRows(cfg: Rebuild.Config, s: Store, t: Text, schema: Schema, pk: Text, columns: seq<Text>,
                    values: seq<seq<Option<Bytes>>>, k: Ticker): Plan {
    if |values| == 0 then Plan([], 0, None)
    else
      var n := |values| - 1;
      var before := PlanRows(cfg, s, t, schema, pk, columns, values[..n], k);
      if before.error.Some? then before
      else match PlanRow(cfg, s, t, schema, pk, CellsFor(schema, columns, values[n]), TimeOf(k, n))
        case RowPlanned(ops) => Plan(before.ops + ops, n + 1, None)
        case RowRefused(e) => Plan([], n + 1, Some(e))
  }

  function UpdateOps(schema: Schema, t: Text, ids: seq<Text>, cells: seq<Cell>, k: Ticker): seq<Op> {
    if |ids| == 0 then []
    else
      var n := |ids| - 1;
      UpdateOps(schema, t, ids[..n], cells, k)
        + [UpdateCells(t, ids[n], TimeOf(k, n), cells)] + ColumnClaims(schema, t, ids[n], TimeOf(k, n), cells)
  }

  function DeleteOps(t: Text, ids: seq<Text>, fkTombstone: bool, k: Ticker): seq<Op> {
    seq(|ids|, i requires 0 <= i < |ids| => DeleteRow(t, ids[i], TimeOf(k, i), fkTombstone))
  }

  function PlanOf(cfg: Rebuild.Config, s: Store, stmt: Stmt, k: Ticker): Plan {
    match stmt
    case Create(schema) => Plan([CreateTable(schema.name, TimeOf(k, 0), schema)], 1, None)
    case CreateIndex => Plan([], 0, None)
    case Insert(t, columns, values) =>
      if t !in s then Plan([], 0, Some(TableNotFound(t)))
      else (match SecondaryIndexes.PrimaryKey(s[t].schema.columns)
        case None => Plan([], 0, Some(NoPrimaryKey(t)))
        case Some(pk) => PlanRows(cfg, s, t, s[t].schema, pk, columns, values, k))
    case Update(t, cells, filter) =>
      if t !in s then Plan([], 0, Some(TableNotFound(t)))
      else if SecondaryIndexes.PrimaryKey(s[t].schema.columns).None? then Plan([], 0, Some(NoPrimaryKey(t)))
      else
        var ids := Executor.MatchingIds(s[t], filter);
        Plan(UpdateOps(s[t].schema, t, ids, cells, k), |ids|, None)
    case Delete(t, filter) =>
      if t !in s then Plan([], 0, Some(TableNotFound(t)))
      else
        var ids := Executor.MatchingIds(s[t], filter);
        Plan(DeleteOps(t, ids, cfg.policy.Tombstone?, k), |ids|, None)
  }

  /** Unique columns and composite keys do not share a reservation name. */
  predicate NamesApart(schema: Schema) {
    && (forall a, b :: a in schema.compositeUnique && b in schema.compositeUnique && CompositeName(a) == CompositeName(b) ==> a == b)
    && (forall d, a :: d in schema.columns && d.unique && a in schema.compositeUnique ==> d.name != CompositeName(a))
  }

  // ----- What a plan looks like -----

  /** `o` is an op planned for row `r` at `h`. */
  ghost predicate InGroup(o: Op, t: Text, r: Text, h: Hlc) {
    !o.CreateTable? && o.table == t && o.row == r && o.hlc == h
  }

  ghost predicate ColumnClaim(schema: Schema, t: Text, r: Text, h: Hlc, cells: seq<Cell>, o: Op) {
    exists d :: d in schema.columns && o in ReserveColumn(d, t, r, h, cells)
  }

  ghost predicate CompositeClaim(schema: Schema, t: Text, r: Text, h: Hlc, cells: seq<Cell>, o: Op) {
    exists cols :: cols in schema.compositeUnique && o in ReserveComposite(cols, t, r, h, cells)
  }

  lemma ClaimElements(schema: Schema, t: Text, r: Text, h: Hlc, cells: seq<Cell>, o: Op)
    ensures o in ColumnClaims(schema, t, r, h, cells) <==> ColumnClaim(schema, t, r, h, cells, o)
    ensures o in CompositeClaims(schema, t, r, h, cells) <==> CompositeClaim(schema, t, r, h, cells, o)
  {
    FlatMapElements(schema.columns, (d: ColumnDef) => ReserveColumn(d, t, r, h, cells), o);
    FlatMapElements(schema.compositeUnique, (cols: seq<Text>) => ReserveComposite(cols, t, r, h, cells), o);
  }

  /** The ops of one planned row form one well-formed group. */
  lemma RowGroup(schema: Schema, t: Text, r: Text, h: Hlc, cells: seq<Cell>, first: Op, a: Op, b: Op)
    requires NamesApart(schema) && first.IsDml() && InGroup(first, t, r, h)
    requires a == first || ColumnClaim(schema, t, r, h, cells, a) || CompositeClaim(schema, t, r, h, cells, a)
    requires b == first || ColumnClaim(schema, t, r, h, cells, b) || CompositeClaim(schema, t, r, h, cells, b)
    ensures InGroup(a, t, r, h) && InGroup(b, t, r, h)
    ensures a != b ==> SameGroup(a, b)
  {
  }

  /** `o` inserts the row or is one of its claims. */
  ghost predicate InsertedFor(schema: Schema, t: Text, r: Text, h: Hlc, cells: seq<Cell>, o: Op) {
    o == InsertRow(t, r, h, cells) || ColumnClaim(schema, t, r, h, cells, o) || CompositeClaim(schema, t, r, h, cells, o)
  }

  lemma InsertedGroup(schema: Schema, t: Text, r: Text, h: Hlc, cells: seq<Cell>, a: Op, b: Op)
    requires NamesApart(schema) && InsertedFor(schema, t, r, h, cells, a) && InsertedFor(schema, t, r, h, cells, b)
    ensures InGroup(a, t, r, h) && InGroup(b, t, r, h) && (a != b ==> SameGroup(a, b))
  {
    RowGroup(schema, t, r, h, cells, InsertRow(t, r, h, cells), a, b);
  }

  lemma InsertedAt(schema: Schema, t: Text, r: Text, h: Hlc, cells: seq<Cell>, o: Op)
    requires InsertedFor(schema, t, r, h, cells, o)
    ensures InGroup(o, t, r, h)
  {
  }

  /** Every op of a multi-row plan belongs to the group of one of its ticks. */
  lemma {:induction false} InsertedOp(cfg: Rebuild.Config, s: Store, t: Text, schema: Schema, pk: Text, columns: seq<Text>,
                                      values: seq<seq<Option<Bytes>>>, k: Ticker, o: Op) returns (i: nat, cells: seq<Cell>, r: Text)
    requires var p := PlanRows(cfg, s, t, schema, pk, columns, values, k); p.error.None? && o in p.ops
    ensures i < |values| && cells == CellsFor(schema, columns, values[i])
    ensures Flatten(FirstCell(cells, pk)).Some? && r == cfg.text(Flatten(FirstCell(cells, pk)).value)
    ensures FirstViolation(cfg, s, schema.foreignKeys, cells).None?
    ensures InsertedFor(schema, t, r, TimeOf(k, i), cells, o)
  {
    var n := |values| - 1;
    var before := PlanRows(cfg, s, t, schema, pk, columns, values[..n], k);
    if o in before.ops {
      i, cells, r := InsertedOp(cfg, s, t, schema, pk, columns, values[..n], k, o);
    } else {
      i, cells := n, CellsFor(schema, columns, values[n]);
      r := cfg.text(Flatten(FirstCell(cells, pk)).value);
      ClaimElements(schema, t, r, TimeOf(k, n), cells, o);
    }
  }

  lemma {:induction false} UpdatedOp(schema: Schema, t: Text, ids: seq<Text>, cells: seq<Cell>, k: Ticker, o: Op) returns (i: nat)
    requires o in UpdateOps(schema, t, ids, cells, k)
    ensures i < |ids|
    ensures o == UpdateCells(t, ids[i], TimeOf(k, i), cells) || ColumnClaim(schema, t, ids[i], TimeOf(k, i), cells, o)
  {
    var n := |ids| - 1;
    if o in UpdateOps(schema, t, ids[..n], cells, k) {
      i := UpdatedOp(schema, t, ids[..n], cells, k, o);
    } else {
      i := n;
      ClaimElements(schema, t, ids[n], TimeOf(k, n), cells, o);
    }
  }
}
