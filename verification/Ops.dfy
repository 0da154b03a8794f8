/** Operations as recorded in the log, and the schemas they carry. */
module Ops {
  import opened ByteStrings
  import opened Clocks

  /** A named cell value; `None` is SQL NULL. */
  datatype Cell = Cell(col: Text, value: Option<Bytes>)

  datatype ColumnDef = ColumnDef(name: Text, notNull: bool, default: Option<Bytes>, primaryKey: bool, unique: bool)

  datatype ForeignKey = ForeignKey(column: Text, refTable: Text, refColumn: Text)

  datatype Schema = Schema(name: Text, columns: seq<ColumnDef>, foreignKeys: seq<ForeignKey>,
                           compositeUnique: seq<seq<Text>>)

  datatype Op =
    | InsertRow(table: Text, row: Text, hlc: Hlc, cells: seq<Cell>)
    | UpdateCells(table: Text, row: Text, hlc: Hlc, cells: seq<Cell>)
    | DeleteRow(table: Text, row: Text, hlc: Hlc, fkTombstone: bool)
    | ReserveUnique(table: Text, row: Text, hlc: Hlc, column: Text, value: Bytes)
    | CreateTable(table: Text, hlc: Hlc, schema: Schema)
  {
    /** Inserts, updates and deletes: the ops that change row state. */
    predicate IsDml() {
      InsertRow? || UpdateCells? || DeleteRow?
    }

    predicate WritesRow(t: Text, r: Text) {
      (InsertRow? || UpdateCells?) && table == t && row == r
    }

    predicate WritesCell(t: Text, r: Text, c: Text) {
      WritesRow(t, r) && LastCell(cells, c).Some?
    }

    predicate Inserts(t: Text, r: Text) {
      InsertRow? && table == t && row == r
    }

    predicate Deletes(t: Text, r: Text) {
      DeleteRow? && table == t && row == r
    }

    predicate Creates(t: Text) {
      CreateTable? && schema.name == t
    }

    predicate Reserves(t: Text, c: Text) {
      ReserveUnique? && table == t && column == c
    }
  }

  /** The value the last cell named `c` writes, if any cell is named so. */
  function LastCell(cells: seq<Cell>, c: Text): Option<Option<Bytes>> {
    if |cells| == 0 then None
    else if cells[|cells| - 1].col == c then Some(cells[|cells| - 1].value)
    else LastCell(cells[..|cells| - 1], c)
  }

  /** The first cell named `c`: what `find` returns. */
  function FirstCell(cells: seq<Cell>, c: Text): Option<Option<Bytes>> {
    if |cells| == 0 then None
    else if cells[0].col == c then Some(cells[0].value)
    else FirstCell(cells[1..], c)
  }

  /** Ops with one timestamp come from one planned row: at most one changes row
      state, the others claim values of different columns. */
  predicate SameGroup(a: Op, b: Op) {
    && !a.CreateTable? && !b.CreateTable?
    && a.table == b.table && a.row == b.row
    && (a.ReserveUnique? || b.ReserveUnique?)
    && (a.ReserveUnique? && b.ReserveUnique? ==> a.column != b.column)
  }

  predicate WellFormed(ops: set<Op>) {
    forall a, b :: a in ops && b in ops && a != b && a.hlc == b.hlc ==> SameGroup(a, b)
  }

  /** Writing a value into the column and claiming it go together, at one timestamp. */
  ghost predicate ClaimsMatchWrites(ops: set<Op>, t: Text, c: Text) {
    && (forall o, r :: o in ops && o.WritesCell(t, r, c) && LastCell(o.cells, c).value.Some? ==>
          ReserveUnique(t, r, o.hlc, c, LastCell(o.cells, c).value.value) in ops)
    && (forall p :: p in ops && p.Reserves(t, c) ==>
          exists o :: o in ops && o.WritesCell(t, p.row, c) && o.hlc == p.hlc && LastCell(o.cells, c) == Some(Some(p.value)))
  }

  // ----- The order of replay -----

  function Tier(op: Op): nat {
    if op.CreateTable? then 0 else if op.ReserveUnique? then 2 else 1
  }

  predicate ReplaysBefore(a: Op, b: Op) {
    Tier(a) < Tier(b) || (Tier(a) == Tier(b) && Before(a.hlc, b.hlc))
  }
}
