/** The materialized state: tables of rows of multi-value registers. */
module RowStores {
  import opened ByteStrings
  import opened Clocks
  import opened Ops
  import MvRegisters
  import OrSets

  type Row = map<Text, MvRegisters.Register>

  datatype Table = Table(schema: Schema, membership: OrSets.Membership, rows: map<Text, Row>)

  type Store = map<Text, Table>

  function RegisterAt(row: Row, c: Text): MvRegisters.Register {
    if c in row then row[c] else map[]
  }

  function RowAt(rows: map<Text, Row>, r: Text): Row {
    if r in rows then rows[r] else map[]
  }

  function ReadCell(row: Row, c: Text): Option<Bytes> {
    if c in row then MvRegisters.Read(row[c]) else None
  }

  /** Rows SELECT can see: visible members that have row data. */
  predicate IsVisible(t: Table, r: Text) {
    OrSets.Visible(t.membership, r) && r in t.rows
  }

  function VisibleRows(t: Table): set<Text> {
    set r | r in t.membership && IsVisible(t, r)
  }

  // ----- Ops -----

  function WriteCell(row: Row, c: Text, h: Hlc, v: Option<Bytes>): Row {
    row[c := MvRegisters.WriteOf(RegisterAt(row, c), h, v)]
  }

  function WriteCells(row: Row, h: Hlc, cells: seq<Cell>): Row {
    if |cells| == 0 then row
    else
      var last := cells[|cells| - 1];
      WriteCell(WriteCells(row, h, cells[..|cells| - 1]), last.col, h, last.value)
  }

  function UpdateRow(t: Table, r: Text, h: Hlc, cells: seq<Cell>): Table {
    t.(rows := t.rows[r := WriteCells(RowAt(t.rows, r), h, cells)])
  }

  function InsertRowOf(t: Table, r: Text, h: Hlc, cells: seq<Cell>): Table {
    UpdateRow(t, r, h, cells).(membership := OrSets.InsertOf(t.membership, r, h))
  }

  function DeleteRowOf(t: Table, r: Text, h: Hlc, fkTombstone: bool): Table {
    t.(membership := OrSets.DeleteOf(t.membership, r, h, fkTombstone))
  }

  function ApplyOp(s: Store, op: Op): Store {
    match op
    case CreateTable(_, _, schema) =>
      if schema.name in s then s else s[schema.name := Table(schema, map[], map[])]
    case InsertRow(t, r, h, cells) =>
      if t in s then s[t := InsertRowOf(s[t], r, h, cells)] else s
    case UpdateCells(t, r, h, cells) =>
      if t in s then s[t := UpdateRow(s[t], r, h, cells)] else s
    case DeleteRow(t, r, h, fk) =>
      if t in s then s[t := DeleteRowOf(s[t], r, h, fk)] else s
    case ReserveUnique(_, _, _, _, _) => s
  }

  /** Writing a list of cells writes, in each named column, the last value given. */
  lemma {:induction false} WriteCellsAt(row: Row, h: Hlc, cells: seq<Cell>)
    ensures var w := WriteCells(row, h, cells);
      && (forall c :: c in w <==> c in row || LastCell(cells, c).Some?)
      && (forall c :: c in w ==> w[c] == match LastCell(cells, c)
            case None => row[c]
            case Some(v) => MvRegisters.WriteOf(RegisterAt(row, c), h, v))
  {
    if |cells| > 0 {
      var m := |cells| - 1;
      WriteCellsAt(row, h, cells[..m]);
      var w := WriteCells(row, h, cells[..m]);
      var c, v := cells[m].col, cells[m].value;
      assert MvRegisters.WriteOf(RegisterAt(w, c), h, v) == MvRegisters.WriteOf(RegisterAt(row, c), h, v);
    }
  }

  // ----- State-based merge -----

  function MergeRows(a: Row, b: Row): Row {
    map c | c in a.Keys + b.Keys :: if c in b then MvRegisters.MergeOf(RegisterAt(a, c), b[c]) else a[c]
  }

  function MergeRowData(a: map<Text, Row>, b: map<Text, Row>): map<Text, Row> {
    map r | r in a.Keys + b.Keys :: if r in b then MergeRows(RowAt(a, r), b[r]) else a[r]
  }

  function MergeTables(a: Table, b: Table): Table {
    Table(a.schema, OrSets.MergeOf(a.membership, b.membership), MergeRowData(a.rows, b.rows))
  }

  function TableOr(s: Store, name: Text, schema: Schema): Table {
    if name in s then s[name] else Table(schema, map[], map[])
  }

  function MergeStores(a: Store, b: Store): Store {
    map n | n in a.Keys + b.Keys :: if n in b then MergeTables(TableOr(a, n, b[n].schema), b[n]) else a[n]
  }

  predicate RowsAgree(a: Row, b: Row) {
    forall c :: c in a && c in b ==> MvRegisters.Agree(a[c], b[c])
  }

  /** Shared tables have one schema, shared timestamps one value. */
  predicate TablesAgree(a: Table, b: Table) {
    a.schema == b.schema && DataAgree(a.rows, b.rows)
  }

  predicate Agree(a: Store, b: Store) {
    forall n :: n in a && n in b ==> TablesAgree(a[n], b[n])
  }

  predicate RowCompacted(a: Row) {
    forall c :: c in a ==> MvRegisters.OnePerPeer(a[c])
  }

  /** The laws of one register, an absent register being the empty one. */
  lemma RegisterLaws(x: MvRegisters.Register, y: MvRegisters.Register, z: MvRegisters.Register)
    requires MvRegisters.OnePerPeer(x) && MvRegisters.OnePerPeer(y) && MvRegisters.OnePerPeer(z)
    requires MvRegisters.Agree(x, y) && MvRegisters.Agree(y, z) && MvRegisters.Agree(x, z)
    ensures
      && MvRegisters.MergeOf(x, y) == MvRegisters.MergeOf(y, x)
      && MvRegisters.MergeOf(MvRegisters.MergeOf(x, y), z) == MvRegisters.MergeOf(x, MvRegisters.MergeOf(y, z))
      && MvRegisters.MergeOf(x, x) == x && MvRegisters.MergeOf(map[], x) == x && MvRegisters.MergeOf(x, map[]) == x
      && MvRegisters.MergeOf(map[], y) == y && MvRegisters.MergeOf(map[], z) == z
      && MvRegisters.OnePerPeer(MvRegisters.MergeOf(x, y))
  {
    MvRegisters.MergeCommutes(x, y);
    MvRegisters.MergeAssociates(x, y, z);
    MvRegisters.MergeIdempotent(x);
    MvRegisters.MergeIdempotent(y);
    MvRegisters.MergeIdempotent(z);
    MvRegisters.OperationsKeepOnePerPeer(x, y, Hlc(0, 0, []), None);
  }

  lemma RowLookup(a: Row, b: Row, c: Text)
    requires RowCompacted(a) && RowCompacted(b)
    ensures RegisterAt(MergeRows(a, b), c) == MvRegisters.MergeOf(RegisterAt(a, c), RegisterAt(b, c))
    ensures MvRegisters.OnePerPeer(RegisterAt(MergeRows(a, b), c))
  {
    MvRegisters.MergeIdempotent(RegisterAt(a, c));
    MvRegisters.OperationsKeepOnePerPeer(RegisterAt(a, c), RegisterAt(b, c), Hlc(0, 0, []), None);
  }

  lemma SameRegisters(x: Row, y: Row)
    requires x.Keys == y.Keys && forall c :: c in x ==> RegisterAt(x, c) == RegisterAt(y, c)
    ensures x == y
  {
    forall c | c in x ensures x[c] == y[c] { assert RegisterAt(x, c) == RegisterAt(y, c); }
  }

  lemma RowsMergeCompacted(a: Row, b: Row)
    requires RowCompacted(a) && RowCompacted(b)
    ensures RowCompacted(MergeRows(a, b))
  {
    forall c | c in MergeRows(a, b) ensures MvRegisters.OnePerPeer(MergeRows(a, b)[c]) { RowLookup(a, b, c); }
  }

  lemma RowLawsAt(a: Row, b: Row, c: Row, k: Text)
    requires RowCompacted(a) && RowCompacted(b) && RowCompacted(c)
    requires RowsAgree(a, b) && RowsAgree(b, c) && RowsAgree(a, c)
    ensures RegisterAt(MergeRows(a, b), k) == RegisterAt(MergeRows(b, a), k)
    ensures RegisterAt(MergeRows(MergeRows(a, b), c), k) == RegisterAt(MergeRows(a, MergeRows(b, c)), k)
    ensures RegisterAt(MergeRows(a, a), k) == RegisterAt(a, k) == RegisterAt(MergeRows(map[], a), k)
  {
    RowsMergeCompacted(a, b);
    RowsMergeCompacted(b, c);
    RowLookup(a, b, k);
    RowLookup(b, a, k);
    RowLookup(b, c, k);
    RowLookup(MergeRows(a, b), c, k);
    RowLookup(a, MergeRows(b, c), k);
    RowLookup(a, a, k);
    RowLookup(map[], a, k);
    RegisterLaws(RegisterAt(a, k), RegisterAt(b, k), RegisterAt(c, k));
  }

  lemma RowAssociates(a: Row, b: Row, c: Row)
    requires RowCompacted(a) && RowCompacted(b) && RowCompacted(c)
    requires RowsAgree(a, b) && RowsAgree(b, c) && RowsAgree(a, c)
    ensures MergeRows(MergeRows(a, b), c) == MergeRows(a, MergeRows(b, c))
  {
    var l, r := MergeRows(MergeRows(a, b), c), MergeRows(a, MergeRows(b, c));
    forall k ensures RegisterAt(l, k) == RegisterAt(r, k) { RowLawsAt(a, b, c, k); }
    SameRegisters(l, r);
  }

  lemma RowLaws(a: Row, b: Row)
    requires RowCompacted(a) && RowCompacted(b) && RowsAgree(a, b)
    ensures MergeRows(a, b) == MergeRows(b, a)
    ensures MergeRows(a, a) == a && MergeRows(map[], a) == a
  {
    forall k ensures RegisterAt(MergeRows(a, b), k) == RegisterAt(MergeRows(b, a), k) { RowLawsAt(a, b, map[], k); }
    SameRegisters(MergeRows(a, b), MergeRows(b, a));
    forall k ensures RegisterAt(MergeRows(a, a), k) == RegisterAt(a, k) == RegisterAt(MergeRows(map[], a), k) {
      RowLawsAt(a, b, map[], k);
    }
    SameRegisters(MergeRows(a, a), a);
    SameRegisters(MergeRows(map[], a), a);
  }

  // ----- Rows of a table -----

  predicate DataCompacted(a: map<Text, Row>) {
    forall r :: r in a ==> RowCompacted(a[r])
  }

  predicate DataAgree(a: map<Text, Row>, b: map<Text, Row>) {
    forall r :: r in a && r in b ==> RowsAgree(a[r], b[r])
  }

  lemma DataLookup(a: map<Text, Row>, b: map<Text, Row>, r: Text)
    requires DataCompacted(a) && DataCompacted(b) && DataAgree(a, b)
    ensures RowAt(MergeRowData(a, b), r) == MergeRows(RowAt(a, r), RowAt(b, r))
    ensures RowCompacted(RowAt(MergeRowData(a, b), r))
  {
    RowLaws(RowAt(a, r), RowAt(b, r));
    RowLaws(RowAt(b, r), RowAt(a, r));
    RowsMergeCompacted(RowAt(a, r), RowAt(b, r));
  }

  lemma SameRows(x: map<Text, Row>, y: map<Text, Row>)
    requires x.Keys == y.Keys && forall r :: r in x ==> RowAt(x, r) == RowAt(y, r)
    ensures x == y
  {
    forall r | r in x ensures x[r] == y[r] { assert RowAt(x, r) == RowAt(y, r); }
  }

  lemma DataMergeCompacted(a: map<Text, Row>, b: map<Text, Row>)
    requires DataCompacted(a) && DataCompacted(b) && DataAgree(a, b)
    ensures DataCompacted(MergeRowData(a, b))
  {
    forall r | r in MergeRowData(a, b) ensures RowCompacted(MergeRowData(a, b)[r]) { DataLookup(a, b, r); }
  }

  /** A merge agrees with whatever its parts agree with. */
  lemma DataMergeAgrees(a: map<Text, Row>, b: map<Text, Row>, c: map<Text, Row>)
    requires DataAgree(a, c) && DataAgree(b, c)
    ensures DataAgree(MergeRowData(a, b), c) && DataAgree(c, MergeRowData(a, b))
  {
    forall r, k | r in MergeRowData(a, b) && r in c && k in MergeRowData(a, b)[r] && k in c[r]
      ensures MvRegisters.Agree(MergeRowData(a, b)[r][k], c[r][k])
    {
      assert MvRegisters.Agree(RegisterAt(RowAt(a, r), k), c[r][k]);
      assert MvRegisters.Agree(RegisterAt(RowAt(b, r), k), c[r][k]);
    }
  }

  lemma DataLawsAt(a: map<Text, Row>, b: map<Text, Row>, c: map<Text, Row>, k: Text)
    requires DataCompacted(a) && DataCompacted(b) && DataCompacted(c)
    requires DataAgree(a, b) && DataAgree(b, c) && DataAgree(a, c)
    ensures RowAt(MergeRowData(a, b), k) == RowAt(MergeRowData(b, a), k)
    ensures RowAt(MergeRowData(MergeRowData(a, b), c), k) == RowAt(MergeRowData(a, MergeRowData(b, c)), k)
    ensures RowAt(MergeRowData(a, a), k) == RowAt(a, k) == RowAt(MergeRowData(map[], a), k)
  {
    DataMergeCompacted(a, b);
    DataMergeCompacted(b, c);
    DataMergeAgrees(a, b, c);
    DataMergeAgrees(b, c, a);
    DataLookup(a, b, k);
    DataLookup(b, a, k);
    DataLookup(b, c, k);
    DataLookup(MergeRowData(a, b), c, k);
    DataLookup(a, MergeRowData(b, c), k);
    DataLookup(a, a, k);
    DataLookup(map[], a, k);
    RowLaws(RowAt(a, k), RowAt(b, k));
    RowAssociates(RowAt(a, k), RowAt(b, k), RowAt(c, k));
  }

  lemma DataAssociates(a: map<Text, Row>, b: map<Text, Row>, c: map<Text, Row>)
    requires DataCompacted(a) && DataCompacted(b) && DataCompacted(c)
    requires DataAgree(a, b) && DataAgree(b, c) && DataAgree(a, c)
    ensures MergeRowData(MergeRowData(a, b), c) == MergeRowData(a, MergeRowData(b, c))
  {
    var l, r := MergeRowData(MergeRowData(a, b), c), MergeRowData(a, MergeRowData(b, c));
    forall k ensures RowAt(l, k) == RowAt(r, k) { DataLawsAt(a, b, c, k); }
    SameRows(l, r);
  }

  lemma DataLaws(a: map<Text, Row>, b: map<Text, Row>)
    requires DataCompacted(a) && DataCompacted(b) && DataAgree(a, b)
    ensures MergeRowData(a, b) == MergeRowData(b, a)
    ensures MergeRowData(a, a) == a && MergeRowData(map[], a) == a
  {
    forall k ensures RowAt(MergeRowData(a, b), k) == RowAt(MergeRowData(b, a), k) { DataLawsAt(a, b, map[], k); }
    SameRows(MergeRowData(a, b), MergeRowData(b, a));
    forall k ensures RowAt(MergeRowData(a, a), k) == RowAt(a, k) == RowAt(MergeRowData(map[], a), k) {
      DataLawsAt(a, b, map[], k);
    }
    SameRows(MergeRowData(a, a), a);
    SameRows(MergeRowData(map[], a), a);
  }

  // ----- Tables of a store -----

  lemma TableLaws(a: Table, b: Table, c: Table)
    requires DataCompacted(a.rows) && DataCompacted(b.rows) && DataCompacted(c.rows)
    requires TablesAgree(a, b) && TablesAgree(b, c) && TablesAgree(a, c)
    ensures MergeTables(a, b) == MergeTables(b, a)
    ensures MergeTables(MergeTables(a, b), c) == MergeTables(a, MergeTables(b, c))
    ensures MergeTables(a, a) == a && MergeTables(Table(a.schema, map[], map[]), a) == a
  {
    DataLaws(a.rows, b.rows);
    DataAssociates(a.rows, b.rows, c.rows);
    OrSets.MergeCommutes(a.membership, b.membership);
    OrSets.MergeAssociates(a.membership, b.membership, c.membership);
    OrSets.MergeIdempotent(a.membership);
  }

  predicate Compacted(s: Store) {
    forall n :: n in s ==> DataCompacted(s[n].rows)
  }

  /** The schema the stores that have table `n` give it. */
  predicate HasSchema(s: Store, n: Text, schema: Schema) {
    n in s ==> s[n].schema == schema
  }

  lemma StoreLookup(a: Store, b: Store, n: Text, schema: Schema)
    requires Compacted(a) && Compacted(b) && Agree(a, b)
    requires HasSchema(a, n, schema) && HasSchema(b, n, schema)
    ensures TableOr(MergeStores(a, b), n, schema) == MergeTables(TableOr(a, n, schema), TableOr(b, n, schema))
    ensures HasSchema(MergeStores(a, b), n, schema)
  {
    var t := Table(schema, map[], map[]);
    TableLaws(TableOr(a, n, schema), t, t);
    TableLaws(t, TableOr(a, n, schema), t);
  }

  ghost function TableIn(s: Store, n: Text): Table {
    if n in s then s[n] else Table(Schema([], [], [], []), map[], map[])
  }

  /** What a merged store holds: the tables of either side, the first side's schema where both
      have one, in every cell the merge of both registers, in every row the merge of both entries. */
  lemma MergeHolds(a: Store, b: Store, n: Text, r: Text, c: Text)
    requires Compacted(a) && Compacted(b)
    ensures var m := MergeStores(a, b);
      && (n in m <==> n in a || n in b)
      && (n in m ==> m[n].schema == if n in a then a[n].schema else b[n].schema)
      && RegisterAt(RowAt(TableIn(m, n).rows, r), c)
           == MvRegisters.MergeOf(RegisterAt(RowAt(TableIn(a, n).rows, r), c), RegisterAt(RowAt(TableIn(b, n).rows, r), c))
      && OrSets.EntryOf(TableIn(m, n).membership, r)
           == OrSets.MergeEntries(OrSets.EntryOf(TableIn(a, n).membership, r), OrSets.EntryOf(TableIn(b, n).membership, r))
  {
    var x, y := TableIn(a, n), TableIn(b, n);
    OrSets.MergeLookup(x.membership, y.membership, r);
    OrSets.EntryLaws(OrSets.EntryOf(x.membership, r), OrSets.NO_ENTRY, OrSets.NO_ENTRY);
    RowLookup(RowAt(x.rows, r), RowAt(y.rows, r), c);
    MvRegisters.MergeIdempotent(RegisterAt(RowAt(x.rows, r), c));
    MvRegisters.MergeIdempotent(RegisterAt(RowAt(y.rows, r), c));
    MvRegisters.MergeIdempotent(map[]);
  }

  lemma MergedStore(a: Store, b: Store, c: Store)
    requires Compacted(a) && Compacted(b) && Agree(a, b) && Agree(a, c) && Agree(b, c)
    ensures Compacted(MergeStores(a, b))
    ensures Agree(MergeStores(a, b), c) && Agree(c, MergeStores(a, b))
  {
    var m := MergeStores(a, b);
    forall n | n in m ensures DataCompacted(m[n].rows) {
      if n in b { DataMergeCompacted(TableOr(a, n, b[n].schema).rows, b[n].rows); }
    }
    forall n | n in m && n in c ensures TablesAgree(m[n], c[n]) && TablesAgree(c[n], m[n]) {
      DataMergeAgrees(TableOr(a, n, c[n].schema).rows, TableOr(b, n, c[n].schema).rows, c[n].rows);
    }
  }

  lemma StoreLawsAt(a: Store, b: Store, c: Store, n: Text, schema: Schema)
    requires Compacted(a) && Compacted(b) && Compacted(c)
    requires Agree(a, b) && Agree(b, c) && Agree(a, c)
    requires HasSchema(a, n, schema) && HasSchema(b, n, schema) && HasSchema(c, n, schema)
    ensures TableOr(MergeStores(a, b), n, schema) == TableOr(MergeStores(b, a), n, schema)
    ensures TableOr(MergeStores(MergeStores(a, b), c), n, schema) == TableOr(MergeStores(a, MergeStores(b, c)), n, schema)
    ensures TableOr(MergeStores(a, a), n, schema) == TableOr(a, n, schema)
  {
    MergedStore(a, b, c);
    MergedStore(b, c, a);
    StoreLookup(a, b, n, schema);
    StoreLookup(b, a, n, schema);
    StoreLookup(b, c, n, schema);
    StoreLookup(MergeStores(a, b), c, n, schema);
    StoreLookup(a, MergeStores(b, c), n, schema);
    StoreLookup(a, a, n, schema);
    TableLaws(TableOr(a, n, schema), TableOr(b, n, schema), TableOr(c, n, schema));
  }

  function SchemaIn(a: Store, b: Store, c: Store, n: Text): Schema
    requires n in a || n in b || n in c
  {
    if n in a then a[n].schema else if n in b then b[n].schema else c[n].schema
  }

  lemma StoresCommute(a: Store, b: Store)
    requires Compacted(a) && Compacted(b) && Agree(a, b)
    ensures MergeStores(a, b) == MergeStores(b, a)
    ensures MergeStores(a, a) == a
  {
    forall n | n in a || n in b ensures
      MergeStores(a, b)[n] == MergeStores(b, a)[n] && (n in a ==> MergeStores(a, a)[n] == a[n])
    {
      StoreLawsAt(a, b, a, n, SchemaIn(a, b, a, n));
    }
  }

  lemma StoresAssociateAt(a: Store, b: Store, c: Store, n: Text)
    requires Compacted(a) && Compacted(b) && Compacted(c)
    requires Agree(a, b) && Agree(b, c) && Agree(a, c)
    requires n in a || n in b || n in c
    ensures MergeStores(MergeStores(a, b), c)[n] == MergeStores(a, MergeStores(b, c))[n]
  {
    var schema := SchemaIn(a, b, c, n);
    StoreLawsAt(a, b, c, n, schema);
    var l, r := MergeStores(MergeStores(a, b), c), MergeStores(a, MergeStores(b, c));
    assert TableOr(l, n, schema) == TableOr(r, n, schema);
  }

  lemma StoresAssociate(a: Store, b: Store, c: Store)
    requires Compacted(a) && Compacted(b) && Compacted(c)
    requires Agree(a, b) && Agree(b, c) && Agree(a, c)
    ensures MergeStores(MergeStores(a, b), c) == MergeStores(a, MergeStores(b, c))
  {
    var l, r := MergeStores(MergeStores(a, b), c), MergeStores(a, MergeStores(b, c));
    assert l.Keys == a.Keys + b.Keys + c.Keys == r.Keys;
    forall n | n in l ensures l[n] == r[n] { StoresAssociateAt(a, b, c, n); }
  }

  /** Applying an op keeps every register at one entry a peer. */
  lemma ApplyKeepsCompacted(s: Store, op: Op)
    requires Compacted(s)
    ensures Compacted(ApplyOp(s, op))
  {
    if (op.InsertRow? || op.UpdateCells?) && op.table in s {
      var row := RowAt(s[op.table].rows, op.row);
      var w := WriteCells(row, op.hlc, op.cells);
      WriteCellsAt(row, op.hlc, op.cells);
      forall c | c in w ensures MvRegisters.OnePerPeer(w[c]) {
        MvRegisters.OperationsKeepOnePerPeer(RegisterAt(row, c), map[], op.hlc, None);
        forall v { MvRegisters.OperationsKeepOnePerPeer(RegisterAt(row, c), map[], op.hlc, v); }
      }
    }
  }
}
