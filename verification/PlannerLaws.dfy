/** When a row is planned, which ops it becomes, and what a composite claim's name means. */
module PlannerLaws {
  import opened ByteStrings
  import opened Clocks
  import opened Ops
  import opened RowStores
  import opened FkResolution
  import opened Planner
  import opened Rebuild
  import opened Sorting
  import opened Splitting
  import Arbitration
  import Executor
  import SecondaryIndexes

  // ----- Checks -----

  /** The first cell under the key, if it holds a value, names a parent that fits. */
  predicate KeyAccepted(cfg: Config, s: Store, fk: ForeignKey, cells: seq<Cell>) {
    match FirstCell(cells, fk.column)
    case Some(Some(v)) => ParentFits(cfg.policy, s, fk.refTable, cfg.text(v))
    case _ => true
  }

  /** `e` tells why the key is refused: its table is unknown, or else its row. */
  predicate TellsWhy(cfg: Config, s: Store, fk: ForeignKey, cells: seq<Cell>, e: FkError) {
    match FirstCell(cells, fk.column)
    case Some(Some(v)) => e == if fk.refTable in s then NoSuchParent(fk.refTable, cfg.text(v)) else NoSuchTable(fk.refTable)
    case _ => false
  }

  predicate ViolatesKey(cfg: Config, s: Store, schema: Schema, cells: seq<Cell>, e: FkError) {
    exists fk :: fk in schema.foreignKeys && !KeyAccepted(cfg, s, fk, cells) && TellsWhy(cfg, s, fk, cells, e)
  }

  lemma HeadViolation(cfg: Config, s: Store, fks: seq<ForeignKey>, cells: seq<Cell>)
    requires |fks| > 0
    ensures KeyAccepted(cfg, s, fks[0], cells) ==> FirstViolation(cfg, s, fks, cells) == FirstViolation(cfg, s, fks[1..], cells)
    ensures !KeyAccepted(cfg, s, fks[0], cells) ==>
      FirstViolation(cfg, s, fks, cells).Some? && TellsWhy(cfg, s, fks[0], cells, FirstViolation(cfg, s, fks, cells).value)
  {
    match FirstCell(cells, fks[0].column)
    case Some(Some(v)) => ValidateInsertIff(cfg.policy, s, cfg.text(v), fks[0].refTable);
    case _ =>
  }

  /** The check stops at the first key that is not accepted, with that key's error. */
  lemma {:induction false} FirstViolationIs(cfg: Config, s: Store, fks: seq<ForeignKey>, cells: seq<Cell>) returns (i: nat)
    ensures i <= |fks| && forall j :: 0 <= j < i ==> KeyAccepted(cfg, s, fks[j], cells)
    ensures i == |fks| <==> FirstViolation(cfg, s, fks, cells).None?
    ensures i < |fks| ==> !KeyAccepted(cfg, s, fks[i], cells) && TellsWhy(cfg, s, fks[i], cells, FirstViolation(cfg, s, fks, cells).value)
  {
    if |fks| == 0 {
      i := 0;
    } else {
      HeadViolation(cfg, s, fks, cells);
      if KeyAccepted(cfg, s, fks[0], cells) {
        var k := FirstViolationIs(cfg, s, fks[1..], cells);
        i := k + 1;
        forall j | 0 <= j < i ensures KeyAccepted(cfg, s, fks[j], cells) { assert j > 0 ==> fks[1..][j - 1] == fks[j]; }
      } else {
        i := 0;
      }
    }
  }

  /** A required column without a default gets a value. */
  predicate Supplied(d: ColumnDef, cells: seq<Cell>) {
    d.notNull && !d.primaryKey && d.default.None? ==> exists i :: 0 <= i < |cells| && cells[i].col == d.name && cells[i].value.Some?
  }

  lemma {:induction false} FirstMissingIs(columns: seq<ColumnDef>, cells: seq<Cell>) returns (i: nat)
    ensures i <= |columns| && forall j :: 0 <= j < i ==> Supplied(columns[j], cells)
    ensures i == |columns| <==> FirstMissing(columns, cells).None?
    ensures i < |columns| ==> !Supplied(columns[i], cells) && FirstMissing(columns, cells) == Some(columns[i].name)
  {
    if |columns| == 0 || !Supplied(columns[0], cells) {
      i := 0;
    } else {
      var k := FirstMissingIs(columns[1..], cells);
      i := k + 1;
      forall j | 0 <= j < i ensures Supplied(columns[j], cells) { assert j > 0 ==> columns[1..][j - 1] == columns[j]; }
    }
  }

  /** A row is planned exactly when its key is given, every foreign key is accepted and
      every required column has a value; the error names the first check that fails. */
  lemma RowPlannedIff(cfg: Config, s: Store, t: Text, schema: Schema, pk: Text, cells: seq<Cell>, h: Hlc)
    ensures var plan, keyed := PlanRow(cfg, s, t, schema, pk, cells, h), exists v :: FirstCell(cells, pk) == Some(Some(v));
      var fits, full := forall fk :: fk in schema.foreignKeys ==> KeyAccepted(cfg, s, fk, cells),
                        forall d :: d in schema.columns ==> Supplied(d, cells);
      && (plan.RowPlanned? <==> keyed && fits && full)
      && (!keyed ==> plan == RowRefused(ColumnNotFound(pk, t)))
      && (keyed && !fits ==> plan.RowRefused? && plan.error.FkViolation? && ViolatesKey(cfg, s, schema, cells, plan.error.why))
      && (keyed && fits && !full ==>
           exists d :: d in schema.columns && !Supplied(d, cells) && plan == RowRefused(NullConstraint(d.name)))
  {
    var i := FirstViolationIs(cfg, s, schema.foreignKeys, cells);
    var j := FirstMissingIs(schema.columns, cells);
    assert i < |schema.foreignKeys| ==> schema.foreignKeys[i] in schema.foreignKeys;
    assert j < |schema.columns| ==> schema.columns[j] in schema.columns;
    match FirstCell(cells, pk)
    case Some(Some(v)) => assert Flatten(FirstCell(cells, pk)) == Some(v);
    case _ =>
  }

  /** A planned row is one insert and one claim for each unique column that has a value and
      for each composite key, all at one time. */
  lemma RowBecomes(cfg: Config, s: Store, t: Text, schema: Schema, pk: Text, cells: seq<Cell>, h: Hlc, o: Op)
    requires PlanRow(cfg, s, t, schema, pk, cells, h).RowPlanned?
    ensures var r := cfg.text(Flatten(FirstCell(cells, pk)).value);
      o in PlanRow(cfg, s, t, schema, pk, cells, h).ops <==>
        || o == InsertRow(t, r, h, cells)
        || (exists d, v :: d in schema.columns && d.unique && FirstCell(cells, d.name) == Some(Some(v)) && o == ReserveUnique(t, r, h, d.name, v))
        || (exists cols :: cols in schema.compositeUnique && o == ReserveUnique(t, r, h, CompositeName(cols), CompositeValue(cols, cells)))
  {
    var r := cfg.text(Flatten(FirstCell(cells, pk)).value);
    ClaimElements(schema, t, r, h, cells, o);
    if d, v :| d in schema.columns && d.unique && FirstCell(cells, d.name) == Some(Some(v)) && o == ReserveUnique(t, r, h, d.name, v) {
      assert o in ReserveColumn(d, t, r, h, cells);
    }
    if cols :| cols in schema.compositeUnique && o == ReserveUnique(t, r, h, CompositeName(cols), CompositeValue(cols, cells)) {
      assert o in ReserveComposite(cols, t, r, h, cells);
    }
  }

  // ----- Composite keys -----

  /** A lost composite claim nulls exactly the columns of its constraint, if and only if
      the constraint has columns and none of their names contains a comma. */
  lemma CompositeNamesItsColumns(cols: seq<Text>)
    ensures Arbitration.ColsToNull(CompositeName(cols)) == cols <==> |cols| > 0 && forall c :: c in cols ==> COMMA !in c
  {
    var name := CompositeName(cols);
    assert name[|Arbitration.COMPOSITE|..|name| - 2] == Join(COMMA, cols);
    PartsRecoveredIff(COMMA, cols);
  }

  /** The row's values under the key's columns; a null or missing one counts as empty. */
  predicate KeyParts(cols: seq<Text>, cells: seq<Cell>, parts: seq<Bytes>) {
    && |parts| == |cols|
    && forall i :: 0 <= i < |cols| ==> match FirstCell(cells, cols[i])
                                       case Some(Some(v)) => parts[i] == v
                                       case _ => parts[i] == []
  }

  lemma PartsAre(cols: seq<Text>, cells: seq<Cell>, parts: seq<Bytes>)
    requires KeyParts(cols, cells, parts)
    ensures parts == Parts(cols, cells)
  {
    forall i | 0 <= i < |cols| ensures parts[i] == Parts(cols, cells)[i] {
      match FirstCell(cells, cols[i])
      case Some(Some(v)) => assert Flatten(FirstCell(cells, cols[i])) == Some(v);
      case _ =>
    }
  }

  /** Two rows claim one composite value exactly when their parts, cut at every zero byte
      inside them, give one list of pieces. */
  lemma CompositeValuesCollideIff(cols: seq<Text>, a: seq<Cell>, b: seq<Cell>, x: seq<Bytes>, y: seq<Bytes>)
    requires KeyParts(cols, a, x) && KeyParts(cols, b, y)
    ensures CompositeValue(cols, a) == CompositeValue(cols, b) <==> Pieces(0, x) == Pieces(0, y)
  {
    PartsAre(cols, a, x);
    PartsAre(cols, b, y);
    if |cols| > 0 { JoinsAgreeIff(0, x, y); }
  }

  /** Column by column the two rows hold equally many zero bytes. */
  ghost predicate SameZeros(cols: seq<Text>, a: seq<Cell>, b: seq<Cell>) {
    forall c :: c in cols ==> Count(0, PartOf(a, c)) == Count(0, PartOf(b, c))
  }

  /** Such rows claim one composite value exactly when they agree on every part; a null part
      counts as an empty one. */
  lemma CompositeValuesAgreeIff(cols: seq<Text>, a: seq<Cell>, b: seq<Cell>)
    requires SameZeros(cols, a, b)
    ensures CompositeValue(cols, a) == CompositeValue(cols, b) <==> forall c :: c in cols ==> PartOf(a, c) == PartOf(b, c)
  {
    CompositeValuesCollideIff(cols, a, b, Parts(cols, a), Parts(cols, b));
    if CompositeValue(cols, a) == CompositeValue(cols, b) {
      forall i | 0 <= i < |cols| ensures Count(0, Parts(cols, a)[i]) == Count(0, Parts(cols, b)[i]) { assert cols[i] in cols; }
      SamePieces(0, Parts(cols, a), Parts(cols, b));
      forall i | 0 <= i < |cols| ensures PartOf(a, cols[i]) == PartOf(b, cols[i]) { assert Parts(cols, a)[i] == Parts(cols, b)[i]; }
    }
    if forall c :: c in cols ==> PartOf(a, c) == PartOf(b, c) { SameParts(cols, a, b); }
  }

  lemma SameParts(cols: seq<Text>, a: seq<Cell>, b: seq<Cell>)
    requires forall c :: c in cols ==> PartOf(a, c) == PartOf(b, c)
    ensures Parts(cols, a) == Parts(cols, b)
  {
    forall i | 0 <= i < |cols| ensures Parts(cols, a)[i] == Parts(cols, b)[i] { assert cols[i] in cols; }
  }

  lemma TwoParts(x: Text, y: Text, u: Bytes, v: Bytes)
    requires x != y
    ensures Parts([x, y], [Cell(x, Some(u)), Cell(y, Some(v))]) == [u, v]
    ensures CompositeValue([x, y], [Cell(x, Some(u)), Cell(y, Some(v))]) == u + [0] + v
  {
    var cells := [Cell(x, Some(u)), Cell(y, Some(v))];
    assert cells[1..] == [Cell(y, Some(v))];
    assert FirstCell(cells, x) == Some(Some(u)) && FirstCell(cells, y) == Some(Some(v));
    JoinSnoc(0, [u], v);
    assert [u] + [v] == [u, v];
  }

  /** Different keys can collide: a zero byte may end one part or begin the next. */
  lemma CompositeValuesCanCollide(x: Text, y: Text) returns (a: seq<Cell>, b: seq<Cell>)
    requires x != y
    ensures CompositeValue([x, y], a) == CompositeValue([x, y], b) && PartOf(a, x) != PartOf(b, x)
  {
    a, b := [Cell(x, Some([0])), Cell(y, Some([]))], [Cell(x, Some([])), Cell(y, Some([0]))];
    TwoParts(x, y, [0], []);
    TwoParts(x, y, [], [0]);
    assert PartOf(a, x) == Parts([x, y], a)[0] && PartOf(b, x) == Parts([x, y], b)[0];
  }

  // ----- Whole statements -----

  /** The plans of the rows of an INSERT, each at its tick. */
  function RowPlans(cfg: Config, s: Store, t: Text, schema: Schema, pk: Text, columns: seq<Text>,
                    values: seq<seq<Option<Bytes>>>, k: Ticker): seq<RowPlan> {
    seq(|values|, i requires 0 <= i < |values| => PlanRow(cfg, s, t, schema, pk, CellsFor(schema, columns, values[i]), TimeOf(k, i)))
  }

  /** The `n`-th row joins the plan of the rows before it. */
  function AddRow(before: Plan, row: RowPlan, n: nat): Plan {
    if before.error.Some? then before
    else if row.RowPlanned? then Plan(before.ops + row.ops, n, None)
    else Plan([], n, Some(row.error))
  }

  /** One statement out of row plans: everything or, from the first refusal on, nothing. */
  function FoldRows(rows: seq<RowPlan>): Plan {
    if |rows| == 0 then Plan([], 0, None) else AddRow(FoldRows(rows[..|rows| - 1]), rows[|rows| - 1], |rows|)
  }

  lemma LastRow(cfg: Config, s: Store, t: Text, schema: Schema, pk: Text, columns: seq<Text>,
                values: seq<seq<Option<Bytes>>>, k: Ticker, row: RowPlan)
    requires |values| > 0
    requires row == PlanRow(cfg, s, t, schema, pk, CellsFor(schema, columns, values[|values| - 1]), TimeOf(k, |values| - 1))
    ensures PlanRows(cfg, s, t, schema, pk, columns, values, k)
      == AddRow(PlanRows(cfg, s, t, schema, pk, columns, values[..|values| - 1], k), row, |values|)
  {
  }

  lemma {:induction false} PlanRowsIsFold(cfg: Config, s: Store, t: Text, schema: Schema, pk: Text, columns: seq<Text>,
                                          values: seq<seq<Option<Bytes>>>, k: Ticker, rows: seq<RowPlan>)
    requires rows == RowPlans(cfg, s, t, schema, pk, columns, values, k)
    ensures PlanRows(cfg, s, t, schema, pk, columns, values, k) == FoldRows(rows)
  {
    if |values| > 0 {
      var m := |values| - 1;
      PlanRowsIsFold(cfg, s, t, schema, pk, columns, values[..m], k, rows[..m]);
      LastRow(cfg, s, t, schema, pk, columns, values, k, rows[m]);
    }
  }

  lemma {:induction false} FoldStopsAt(rows: seq<RowPlan>) returns (n: nat)
    ensures n <= |rows| && forall i :: 0 <= i < n ==> rows[i].RowPlanned?
    ensures n == |rows| <==> FoldRows(rows).error.None?
    ensures n < |rows| ==> rows[n].RowRefused? && FoldRows(rows) == Plan([], n + 1, Some(rows[n].error))
  {
    if |rows| == 0 {
      n := 0;
    } else {
      var m := |rows| - 1;
      n := FoldStopsAt(rows[..m]);
      if n == m && rows[m].RowPlanned? { n := m + 1; }
    }
  }

  lemma {:induction false} FoldBecomes(rows: seq<RowPlan>, o: Op)
    requires FoldRows(rows).error.None?
    ensures o in FoldRows(rows).ops <==> exists i :: 0 <= i < |rows| && rows[i].RowPlanned? && o in rows[i].ops
  {
    if |rows| > 0 {
      var m := |rows| - 1;
      FoldBecomes(rows[..m], o);
      assert FoldRows(rows).ops == FoldRows(rows[..m]).ops + rows[m].ops;
      if o in FoldRows(rows[..m]).ops {
        var i :| 0 <= i < m && rows[..m][i].RowPlanned? && o in rows[..m][i].ops;
        assert rows[i] == rows[..m][i];
      }
      if i :| 0 <= i < |rows| && rows[i].RowPlanned? && o in rows[i].ops {
        if i < m { assert rows[..m][i] == rows[i]; }
      }
    }
  }

  /** An INSERT stops at the first refused row: it has planned all rows before it, keeps
      none of their ops, and fails with that row's error; it succeeds if no row is refused,
      and then its ops are exactly those of its rows. */
  lemma InsertBecomes(cfg: Config, s: Store, t: Text, schema: Schema, pk: Text, columns: seq<Text>,
                      values: seq<seq<Option<Bytes>>>, k: Ticker, o: Op) returns (n: nat)
    ensures n <= |values|
    ensures var rows, plan := RowPlans(cfg, s, t, schema, pk, columns, values, k), PlanRows(cfg, s, t, schema, pk, columns, values, k);
      && (forall i :: 0 <= i < n ==> rows[i].RowPlanned?)
      && (n < |rows| ==> rows[n].RowRefused? && plan == Plan([], n + 1, Some(rows[n].error)))
      && (n == |rows| ==> plan.error.None? && (o in plan.ops <==> exists i :: 0 <= i < |rows| && rows[i].RowPlanned? && o in rows[i].ops))
  {
    var rows := RowPlans(cfg, s, t, schema, pk, columns, values, k);
    PlanRowsIsFold(cfg, s, t, schema, pk, columns, values, k, rows);
    n := FoldStopsAt(rows);
    if n == |rows| { FoldBecomes(rows, o); }
  }

  /** `o` is the write of the `i`-th row of an UPDATE or one of its claims. */
  ghost predicate OfUpdate(schema: Schema, t: Text, ids: seq<Text>, cells: seq<Cell>, k: Ticker, i: nat, o: Op) {
    i < |ids| && (o == UpdateCells(t, ids[i], TimeOf(k, i), cells) || ColumnClaim(schema, t, ids[i], TimeOf(k, i), cells, o))
  }

  /** An UPDATE's ops are exactly one write for each matching row and its claims. */
  lemma {:induction false} UpdateBecomes(schema: Schema, t: Text, ids: seq<Text>, cells: seq<Cell>, k: Ticker, o: Op)
    ensures o in UpdateOps(schema, t, ids, cells, k) <==> exists i: nat :: OfUpdate(schema, t, ids, cells, k, i, o)
  {
    if o in UpdateOps(schema, t, ids, cells, k) {
      var i := UpdatedOp(schema, t, ids, cells, k, o);
      assert OfUpdate(schema, t, ids, cells, k, i, o);
    }
    if i: nat :| OfUpdate(schema, t, ids, cells, k, i, o) { UpdateHas(schema, t, ids, cells, k, i, o); }
  }

  lemma {:induction false} UpdateHas(schema: Schema, t: Text, ids: seq<Text>, cells: seq<Cell>, k: Ticker, i: nat, o: Op)
    requires OfUpdate(schema, t, ids, cells, k, i, o)
    ensures o in UpdateOps(schema, t, ids, cells, k)
  {
    var m := |ids| - 1;
    if i < m {
      UpdateHas(schema, t, ids[..m], cells, k, i, o);
    } else {
      ClaimElements(schema, t, ids[m], TimeOf(k, m), cells, o);
    }
  }

  predicate NoKey(schema: Schema) {
    forall d :: d in schema.columns ==> !d.primaryKey
  }

  lemma NoKeyIff(schema: Schema)
    ensures SecondaryIndexes.PrimaryKey(schema.columns).None? <==> NoKey(schema)
  {
    SecondaryIndexes.PrimaryKeyIs(schema.columns);
  }

  /** The error of the first refused row, or none. */
  ghost predicate ErrorOfRows(rows: seq<RowPlan>, error: Option<PlanError>) {
    if forall i :: 0 <= i < |rows| ==> rows[i].RowPlanned? then error.None?
    else exists i :: 0 <= i < |rows| && rows[i].RowRefused? && error == Some(rows[i].error) && forall e :: 0 <= e < i ==> rows[e].RowPlanned?
  }

  /** Which statements fail: INSERT, UPDATE and DELETE on an unknown table, INSERT and UPDATE on
      a table without a primary key, INSERT also on a row that is refused; no other does. */
  lemma StatementFailsIff(cfg: Config, s: Store, stmt: Stmt, k: Ticker)
    ensures var error := PlanOf(cfg, s, stmt, k).error;
      match stmt
      case Create(_) => error.None?
      case CreateIndex => error.None?
      case Delete(t, _) => error == if t in s then None else Some(TableNotFound(t))
      case Update(t, _, _) => error == if t !in s then Some(TableNotFound(t)) else if NoKey(s[t].schema) then Some(NoPrimaryKey(t)) else None
      case Insert(t, columns, values) =>
        if t !in s then error == Some(TableNotFound(t))
        else if NoKey(s[t].schema) then error == Some(NoPrimaryKey(t))
        else
          exists pk :: SecondaryIndexes.IsPrimaryKey(s[t].schema.columns, pk)
                       && ErrorOfRows(RowPlans(cfg, s, t, s[t].schema, pk, columns, values, k), error)
  {
    match stmt
    case Update(t, _, _) => if t in s { NoKeyIff(s[t].schema); }
    case Insert(t, columns, values) =>
      if t in s {
        NoKeyIff(s[t].schema);
        SecondaryIndexes.PrimaryKeyIs(s[t].schema.columns);
        if !NoKey(s[t].schema) {
          var pk := SecondaryIndexes.PrimaryKey(s[t].schema.columns).value;
          var rows := RowPlans(cfg, s, t, s[t].schema, pk, columns, values, k);
          PlanRowsIsFold(cfg, s, t, s[t].schema, pk, columns, values, k, rows);
          var n := FoldStopsAt(rows);
        }
      }
    case _ =>
  }

  // ----- Writes and their claims -----

  /** No column is named twice. */
  ghost predicate DistinctNames(cells: seq<Cell>) {
    forall i, j :: 0 <= i < j < |cells| ==> cells[i].col != cells[j].col
  }

  /** Claims read the first cell of a name and registers keep the last: with distinct names
      they are one. */
  lemma {:induction false} FirstIsLast(cells: seq<Cell>, c: Text)
    requires DistinctNames(cells)
    ensures FirstCell(cells, c) == LastCell(cells, c)
  {
    if |cells| > 0 {
      FirstIsAt(cells, c);
      LastIsAt(cells, c);
    }
  }

  /** `i` is the first place of the name. */
  ghost predicate FirstAt(cells: seq<Cell>, c: Text, i: nat) {
    i < |cells| && cells[i].col == c && forall e :: 0 <= e < i ==> cells[e].col != c
  }

  ghost predicate LastAt(cells: seq<Cell>, c: Text, i: nat) {
    i < |cells| && cells[i].col == c && forall e :: i < e < |cells| ==> cells[e].col != c
  }

  /** `FirstCell` reads the first place of a name. */
  lemma {:induction false} FirstIsAt(cells: seq<Cell>, c: Text)
    ensures FirstCell(cells, c).None? ==> forall i :: 0 <= i < |cells| ==> cells[i].col != c
    ensures FirstCell(cells, c).Some? ==> exists i: nat :: FirstAt(cells, c, i) && cells[i].value == FirstCell(cells, c).value
  {
    if |cells| > 0 {
      if cells[0].col == c {
        assert FirstAt(cells, c, 0);
      } else {
        FirstIsAt(cells[1..], c);
        forall i | 0 < i < |cells| ensures cells[i] == cells[1..][i - 1] { }
        if FirstCell(cells, c).Some? {
          var i: nat :| FirstAt(cells[1..], c, i) && cells[1..][i].value == FirstCell(cells, c).value;
          forall e | 0 <= e < i + 1 ensures cells[e].col != c { assert e > 0 ==> cells[e] == cells[1..][e - 1]; }
          assert FirstAt(cells, c, i + 1);
        }
      }
    }
  }

  /** `LastCell` reads the last place of a name. */
  lemma {:induction false} LastIsAt(cells: seq<Cell>, c: Text)
    ensures LastCell(cells, c).None? ==> forall i :: 0 <= i < |cells| ==> cells[i].col != c
    ensures LastCell(cells, c).Some? ==> exists i: nat :: LastAt(cells, c, i) && cells[i].value == LastCell(cells, c).value
  {
    if |cells| > 0 {
      var m := |cells| - 1;
      if cells[m].col == c {
        assert LastAt(cells, c, m);
      } else {
        LastIsAt(cells[..m], c);
        if LastCell(cells, c).Some? {
          var i: nat :| LastAt(cells[..m], c, i) && cells[..m][i].value == LastCell(cells, c).value;
          assert LastAt(cells, c, i);
        }
      }
    }
  }

  lemma MatchUnion(a: set<Op>, b: set<Op>, t: Text, c: Text)
    requires ClaimsMatchWrites(a, t, c) && ClaimsMatchWrites(b, t, c)
    ensures ClaimsMatchWrites(a + b, t, c)
  {
    forall p | p in a + b && p.Reserves(t, c)
      ensures exists o :: o in a + b && o.WritesCell(t, p.row, c) && o.hlc == p.hlc && LastCell(o.cells, c) == Some(Some(p.value))
    {
      if p in a {
        var o :| o in a && o.WritesCell(t, p.row, c) && o.hlc == p.hlc && LastCell(o.cells, c) == Some(Some(p.value));
        assert o in a + b;
      } else {
        var o :| o in b && o.WritesCell(t, p.row, c) && o.hlc == p.hlc && LastCell(o.cells, c) == Some(Some(p.value));
        assert o in a + b;
      }
    }
  }

  /** The schema declares the column unique. */
  ghost predicate IsUnique(schema: Schema, c: Text) {
    exists d :: d in schema.columns && d.unique && d.name == c
  }

  /** A row's claims on a unique column: the value its first cell of the name gives. */
  lemma RowClaims(schema: Schema, t: Text, r: Text, h: Hlc, cells: seq<Cell>, c: Text, o: Op)
    requires IsUnique(schema, c) && NamesApart(schema) && o.Reserves(t, c)
    ensures o in ColumnClaims(schema, t, r, h, cells) <==> o.row == r && o.hlc == h && FirstCell(cells, c) == Some(Some(o.value))
    ensures o !in CompositeClaims(schema, t, r, h, cells)
  {
    ClaimElements(schema, t, r, h, cells, o);
    var d :| d in schema.columns && d.unique && d.name == c;
    if FirstCell(cells, c) == Some(Some(o.value)) && o.row == r && o.hlc == h { assert o in ReserveColumn(d, t, r, h, cells); }
  }

  /** A row's write with the row's claims. */
  ghost predicate IsRowGroup(schema: Schema, t: Text, r: Text, h: Hlc, cells: seq<Cell>, row: seq<Op>) {
    || row == [InsertRow(t, r, h, cells)] + ColumnClaims(schema, t, r, h, cells) + CompositeClaims(schema, t, r, h, cells)
    || row == [UpdateCells(t, r, h, cells)] + ColumnClaims(schema, t, r, h, cells)
  }

  lemma RowMatches(schema: Schema, t: Text, r: Text, h: Hlc, cells: seq<Cell>, c: Text, row: seq<Op>)
    requires IsUnique(schema, c) && NamesApart(schema) && DistinctNames(cells) && IsRowGroup(schema, t, r, h, cells, row)
    ensures ClaimsMatchWrites(Elements(row), t, c)
  {
    var first := row[0];
    FirstIsLast(cells, c);
    forall o, r' | o in row && o.WritesCell(t, r', c) && LastCell(o.cells, c).value.Some?
      ensures ReserveUnique(t, r', o.hlc, c, LastCell(o.cells, c).value.value) in row
    {
      ClaimElements(schema, t, r, h, cells, o);
      RowClaims(schema, t, r, h, cells, c, ReserveUnique(t, r, h, c, LastCell(cells, c).value.value));
    }
    forall p | p in row && p.Reserves(t, c)
      ensures first in row && first.WritesCell(t, p.row, c) && first.hlc == p.hlc && LastCell(first.cells, c) == Some(Some(p.value))
    {
      RowClaims(schema, t, r, h, cells, c, p);
    }
  }

  lemma CellsAreDistinct(schema: Schema, columns: seq<Text>, values: seq<Option<Bytes>>)
    requires NoDup(Executor.Names(schema.columns)) && NoDup(columns)
    ensures DistinctNames(CellsFor(schema, columns, values))
  {
  }

  lemma PlannedRowMatches(cfg: Config, s: Store, t: Text, schema: Schema, pk: Text, cells: seq<Cell>, h: Hlc, c: Text)
    requires IsUnique(schema, c) && NamesApart(schema) && DistinctNames(cells)
    requires PlanRow(cfg, s, t, schema, pk, cells, h).RowPlanned?
    ensures ClaimsMatchWrites(Elements(PlanRow(cfg, s, t, schema, pk, cells, h).ops), t, c)
  {
    RowMatches(schema, t, cfg.text(Flatten(FirstCell(cells, pk)).value), h, cells, c, PlanRow(cfg, s, t, schema, pk, cells, h).ops);
  }

  lemma MatchConcat(a: seq<Op>, b: seq<Op>, t: Text, c: Text)
    requires ClaimsMatchWrites(Elements(a), t, c) && ClaimsMatchWrites(Elements(b), t, c)
    ensures ClaimsMatchWrites(Elements(a + b), t, c)
  {
    MatchUnion(Elements(a), Elements(b), t, c);
    assert Elements(a + b) == Elements(a) + Elements(b);
  }

  lemma {:induction false} FoldMatches(rows: seq<RowPlan>, t: Text, c: Text)
    requires FoldRows(rows).error.None?
    requires forall i :: 0 <= i < |rows| && rows[i].RowPlanned? ==> ClaimsMatchWrites(Elements(rows[i].ops), t, c)
    ensures ClaimsMatchWrites(Elements(FoldRows(rows).ops), t, c)
  {
    if |rows| > 0 {
      var m := |rows| - 1;
      FoldMatches(rows[..m], t, c);
      MatchConcat(FoldRows(rows[..m]).ops, rows[m].ops, t, c);
    }
  }

  lemma InsertsMatch(cfg: Config, s: Store, t: Text, schema: Schema, pk: Text, columns: seq<Text>,
                     values: seq<seq<Option<Bytes>>>, k: Ticker, c: Text)
    requires IsUnique(schema, c) && NamesApart(schema) && NoDup(Executor.Names(schema.columns)) && NoDup(columns)
    requires PlanRows(cfg, s, t, schema, pk, columns, values, k).error.None?
    ensures ClaimsMatchWrites(Elements(PlanRows(cfg, s, t, schema, pk, columns, values, k).ops), t, c)
  {
    var rows := RowPlans(cfg, s, t, schema, pk, columns, values, k);
    PlanRowsIsFold(cfg, s, t, schema, pk, columns, values, k, rows);
    forall i | 0 <= i < |rows| && rows[i].RowPlanned? ensures ClaimsMatchWrites(Elements(rows[i].ops), t, c) {
      CellsAreDistinct(schema, columns, values[i]);
      PlannedRowMatches(cfg, s, t, schema, pk, CellsFor(schema, columns, values[i]), TimeOf(k, i), c);
    }
    FoldMatches(rows, t, c);
  }

  lemma LastUpdate(schema: Schema, t: Text, ids: seq<Text>, cells: seq<Cell>, k: Ticker, m: nat, row: seq<Op>)
    requires m + 1 == |ids|
    requires row == [UpdateCells(t, ids[m], TimeOf(k, m), cells)] + ColumnClaims(schema, t, ids[m], TimeOf(k, m), cells)
    ensures UpdateOps(schema, t, ids, cells, k) == UpdateOps(schema, t, ids[..m], cells, k) + row
  {
  }

  lemma {:induction false} UpdatesMatch(schema: Schema, t: Text, ids: seq<Text>, cells: seq<Cell>, k: Ticker, c: Text)
    requires IsUnique(schema, c) && NamesApart(schema) && DistinctNames(cells)
    ensures ClaimsMatchWrites(Elements(UpdateOps(schema, t, ids, cells, k)), t, c)
  {
    if |ids| > 0 {
      var m := |ids| - 1;
      var h := TimeOf(k, m);
      var row := [UpdateCells(t, ids[m], h, cells)] + ColumnClaims(schema, t, ids[m], h, cells);
      UpdatesMatch(schema, t, ids[..m], cells, k, c);
      RowMatches(schema, t, ids[m], h, cells, c, row);
      MatchConcat(UpdateOps(schema, t, ids[..m], cells, k), row, t, c);
      LastUpdate(schema, t, ids, cells, k, m, row);
    }
  }

  /** The statement names no column twice. */
  ghost predicate NamesOnce(stmt: Stmt) {
    match stmt
    case Insert(_, columns, _) => NoDup(columns)
    case Update(_, cells, _) => DistinctNames(cells)
    case _ => true
  }

  /** A name under which rows of the table claim values. */
  ghost predicate ClaimName(schema: Schema, x: Text) {
    IsUnique(schema, x) || exists cols :: cols in schema.compositeUnique && x == CompositeName(cols)
  }

  lemma ClaimsAreNamed(schema: Schema, t: Text, r: Text, h: Hlc, cells: seq<Cell>, o: Op)
    requires ColumnClaim(schema, t, r, h, cells, o) || CompositeClaim(schema, t, r, h, cells, o)
    ensures o.ReserveUnique? && o.table == t && ClaimName(schema, o.column)
  {
  }

  lemma PlannedTable(cfg: Config, s: Store, stmt: Stmt, k: Ticker, o: Op)
    requires (stmt.Insert? || stmt.Update?) && PlanOf(cfg, s, stmt, k).error.None? && o in PlanOf(cfg, s, stmt, k).ops
    ensures o.table in s && o.table == stmt.table && !o.CreateTable?
    ensures o.ReserveUnique? ==> ClaimName(s[o.table].schema, o.column)
  {
    var t := stmt.table;
    var schema := s[t].schema;
    if stmt.Insert? {
      var i, cells, r := InsertedOp(cfg, s, t, schema, SecondaryIndexes.PrimaryKey(schema.columns).value, stmt.columns, stmt.values, k, o);
      if o.ReserveUnique? { ClaimsAreNamed(schema, t, r, TimeOf(k, i), cells, o); }
    } else {
      var ids, cells := Executor.MatchingIds(s[t], stmt.filter), stmt.assignments;
      var i := UpdatedOp(schema, t, ids, cells, k, o);
      if o.ReserveUnique? { ClaimsAreNamed(schema, t, ids[i], TimeOf(k, i), cells, o); }
    }
  }

  lemma OtherTableMatches(cfg: Config, s: Store, stmt: Stmt, k: Ticker, t: Text, c: Text)
    requires PlanOf(cfg, s, stmt, k).error.None? && ((stmt.Insert? || stmt.Update?) ==> stmt.table != t)
    ensures ClaimsMatchWrites(Elements(PlanOf(cfg, s, stmt, k).ops), t, c)
  {
    forall o | o in PlanOf(cfg, s, stmt, k).ops ensures o.DeleteRow? || o.CreateTable? || o.table != t {
      if stmt.Insert? || stmt.Update? { PlannedTable(cfg, s, stmt, k, o); }
    }
  }

  /** A statement that names no column twice writes a value into a unique column exactly
      where it claims it. */
  lemma PlanMatches(cfg: Config, s: Store, stmt: Stmt, k: Ticker, t: Text, c: Text)
    requires PlanOf(cfg, s, stmt, k).error.None? && NamesOnce(stmt)
    requires t in s ==> IsUnique(s[t].schema, c) && NamesApart(s[t].schema) && NoDup(Executor.Names(s[t].schema.columns))
    ensures ClaimsMatchWrites(Elements(PlanOf(cfg, s, stmt, k).ops), t, c)
  {
    if (stmt.Insert? || stmt.Update?) && stmt.table == t {
      var schema := s[t].schema;
      if stmt.Insert? {
        InsertsMatch(cfg, s, t, schema, SecondaryIndexes.PrimaryKey(schema.columns).value, stmt.columns, stmt.values, k, c);
      } else {
        UpdatesMatch(schema, t, Executor.MatchingIds(s[t], stmt.filter), stmt.assignments, k, c);
      }
    } else {
      OtherTableMatches(cfg, s, stmt, k, t, c);
    }
  }

  // ----- Inserts and their composite claims -----

  /** Every inserted row claims its composite key. */
  ghost predicate KeyClaimed(ops: set<Op>, t: Text, cols: seq<Text>) {
    forall o :: o in ops && o.InsertRow? && o.table == t
      ==> ReserveUnique(t, o.row, o.hlc, CompositeName(cols), CompositeValue(cols, o.cells)) in ops
  }

  lemma KeyConcat(a: seq<Op>, b: seq<Op>, t: Text, cols: seq<Text>)
    requires KeyClaimed(Elements(a), t, cols) && KeyClaimed(Elements(b), t, cols)
    ensures KeyClaimed(Elements(a + b), t, cols)
  {
  }

  lemma PlannedRowClaimsKey(cfg: Config, s: Store, t: Text, schema: Schema, pk: Text, cells: seq<Cell>, h: Hlc, cols: seq<Text>)
    requires cols in schema.compositeUnique && PlanRow(cfg, s, t, schema, pk, cells, h).RowPlanned?
    ensures KeyClaimed(Elements(PlanRow(cfg, s, t, schema, pk, cells, h).ops), t, cols)
  {
    var r := cfg.text(Flatten(FirstCell(cells, pk)).value);
    var claim := ReserveUnique(t, r, h, CompositeName(cols), CompositeValue(cols, cells));
    RowBecomes(cfg, s, t, schema, pk, cells, h, claim);
    forall o | o in PlanRow(cfg, s, t, schema, pk, cells, h).ops && o.InsertRow? ensures o == InsertRow(t, r, h, cells) {
      RowBecomes(cfg, s, t, schema, pk, cells, h, o);
    }
  }

  lemma {:induction false} FoldClaimsKey(rows: seq<RowPlan>, t: Text, cols: seq<Text>)
    requires FoldRows(rows).error.None?
    requires forall i :: 0 <= i < |rows| && rows[i].RowPlanned? ==> KeyClaimed(Elements(rows[i].ops), t, cols)
    ensures KeyClaimed(Elements(FoldRows(rows).ops), t, cols)
  {
    if |rows| > 0 {
      var m := |rows| - 1;
      FoldClaimsKey(rows[..m], t, cols);
      KeyConcat(FoldRows(rows[..m]).ops, rows[m].ops, t, cols);
    }
  }

  lemma InsertsClaimKey(cfg: Config, s: Store, t: Text, schema: Schema, pk: Text, columns: seq<Text>,
                        values: seq<seq<Option<Bytes>>>, k: Ticker, cols: seq<Text>)
    requires cols in schema.compositeUnique && PlanRows(cfg, s, t, schema, pk, columns, values, k).error.None?
    ensures KeyClaimed(Elements(PlanRows(cfg, s, t, schema, pk, columns, values, k).ops), t, cols)
  {
    var rows := RowPlans(cfg, s, t, schema, pk, columns, values, k);
    PlanRowsIsFold(cfg, s, t, schema, pk, columns, values, k, rows);
    forall i | 0 <= i < |rows| && rows[i].RowPlanned? ensures KeyClaimed(Elements(rows[i].ops), t, cols) {
      PlannedRowClaimsKey(cfg, s, t, schema, pk, CellsFor(schema, columns, values[i]), TimeOf(k, i), cols);
    }
    FoldClaimsKey(rows, t, cols);
  }

  lemma UpdatesInsertNothing(schema: Schema, t: Text, ids: seq<Text>, cells: seq<Cell>, k: Ticker, o: Op)
    requires o in UpdateOps(schema, t, ids, cells, k)
    ensures !o.InsertRow?
  {
    UpdateBecomes(schema, t, ids, cells, k, o);
  }

  /** A statement claims, for every row it inserts into a table, each of the table's composite keys. */
  lemma PlanClaimsKey(cfg: Config, s: Store, stmt: Stmt, k: Ticker, t: Text, cols: seq<Text>)
    requires PlanOf(cfg, s, stmt, k).error.None? && (t in s ==> cols in s[t].schema.compositeUnique)
    ensures KeyClaimed(Elements(PlanOf(cfg, s, stmt, k).ops), t, cols)
  {
    if stmt.Insert? && stmt.table == t {
      var schema := s[t].schema;
      InsertsClaimKey(cfg, s, t, schema, SecondaryIndexes.PrimaryKey(schema.columns).value, stmt.columns, stmt.values, k, cols);
    } else {
      forall o | o in PlanOf(cfg, s, stmt, k).ops ensures o.InsertRow? ==> o.table != t {
        if stmt.Insert? { PlannedTable(cfg, s, stmt, k, o); }
        if stmt.Update? {
          var table := s[stmt.table];
          UpdatesInsertNothing(table.schema, stmt.table, Executor.MatchingIds(table, stmt.filter), stmt.assignments, k, o);
        }
      }
    }
  }
}
