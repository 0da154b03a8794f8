/** The row store as objects updated in place.  The source nests rows in tables
    and registers in rows as owned values; a method works on a nested value by
    loading it into an object of its class and storing the result back. */
module StoreObjects {
  import opened ByteStrings
  import opened Clocks
  import opened Ops
  import opened RowStores
  import MvRegisters
  import OrSets

  class CrdtRow {
    var cells: Row

    constructor (cells: Row)
      ensures this.cells == cells
    {
      this.cells := cells;
    }

    method WriteOne(c: Text, h: Hlc, v: Option<Bytes>)
      modifies this
      ensures cells == WriteCell(old(cells), c, h, v)
    {
      var reg := new MvRegisters.MvRegister(RegisterAt(cells, c));
      reg.Write(h, v);
      cells := cells[c := reg.entries];
    }

    method WriteAll(h: Hlc, values: seq<Cell>)
      modifies this
      ensures cells == WriteCells(old(cells), h, values)
    {
      for i := 0 to |values|
        invariant cells == WriteCells(old(cells), h, values[..i])
      {
        WriteOne(values[i].col, h, values[i].value);
        assert values[..i + 1][..i] == values[..i];
      }
      assert values[..|values|] == values;
    }

    method Merge(other: Row)
      modifies this
      ensures cells == MergeRows(old(cells), other)
    {
      var todo := other.Keys;
      while todo != {}
        invariant todo <= other.Keys
        invariant cells.Keys == old(cells).Keys + (other.Keys - todo)
        invariant forall c :: c in cells ==>
          cells[c] == if c in other && c !in todo then MvRegisters.MergeOf(RegisterAt(old(cells), c), other[c]) else old(cells)[c]
        decreases todo
      {
        var c :| c in todo;
        var reg := new MvRegisters.MvRegister(RegisterAt(cells, c));
        reg.Merge(other[c]);
        cells := cells[c := reg.entries];
        todo := todo - {c};
      }
    }
  }

  class TableState {
    const schema: Schema
    var membership: OrSets.Membership
    var rows: map<Text, Row>

    ghost function State(): Table reads this {
      Table(schema, membership, rows)
    }

    constructor (t: Table)
      ensures State() == t
    {
      schema, membership, rows := t.schema, t.membership, t.rows;
    }

    method Insert(r: Text, h: Hlc, cells: seq<Cell>)
      modifies this
      ensures State() == InsertRowOf(old(State()), r, h, cells)
    {
      var m := new OrSets.OrMap(membership);
      m.Insert(r, h);
      membership := m.rows;
      Update(r, h, cells);
    }

    method Update(r: Text, h: Hlc, cells: seq<Cell>)
      modifies this
      ensures State() == UpdateRow(old(State()), r, h, cells)
    {
      var row := new CrdtRow(RowAt(rows, r));
      row.WriteAll(h, cells);
      rows := rows[r := row.cells];
    }

    method Delete(r: Text, h: Hlc, fkTombstone: bool)
      modifies this
      ensures State() == DeleteRowOf(old(State()), r, h, fkTombstone)
    {
      var m := new OrSets.OrMap(membership);
      m.Delete(r, h, fkTombstone);
      membership := m.rows;
    }

    method MergeData(other: map<Text, Row>)
      modifies `rows
      ensures rows == MergeRowData(old(rows), other)
    {
      var todo := other.Keys;
      while todo != {}
        invariant todo <= other.Keys
        invariant rows.Keys == old(rows).Keys + (other.Keys - todo)
        invariant forall r :: r in rows ==>
          rows[r] == if r in other && r !in todo then MergeRows(RowAt(old(rows), r), other[r]) else old(rows)[r]
        decreases todo
      {
        var r :| r in todo;
        var row := new CrdtRow(RowAt(rows, r));
        row.Merge(other[r]);
        rows := rows[r := row.cells];
        todo := todo - {r};
      }
    }

    method Merge(other: Table)
      modifies this
      ensures State() == MergeTables(old(State()), other)
    {
      var m := new OrSets.OrMap(membership);
      m.Merge(other.membership);
      membership := m.rows;
      MergeData(other.rows);
    }
  }

  class RowStore {
    var tables: Store

    constructor ()
      ensures tables == map[]
    {
      tables := map[];
    }

    method Apply(op: Op)
      modifies this
      ensures tables == ApplyOp(old(tables), op)
    {
      if op.CreateTable? {
        if op.schema.name !in tables {
          tables := tables[op.schema.name := Table(op.schema, map[], map[])];
        }
      } else if op.IsDml() && op.table in tables {
        var t := new TableState(tables[op.table]);
        match op {
          case InsertRow(_, r, h, cells) => t.Insert(r, h, cells);
          case UpdateCells(_, r, h, cells) => t.Update(r, h, cells);
          case DeleteRow(_, r, h, fk) => t.Delete(r, h, fk);
        }
        tables := tables[op.table := Table(t.schema, t.membership, t.rows)];
      }
    }

    method Merge(other: Store)
      modifies this
      ensures tables == MergeStores(old(tables), other)
    {
      var todo := other.Keys;
      while todo != {}
        invariant todo <= other.Keys
        invariant tables.Keys == old(tables).Keys + (other.Keys - todo)
        invariant forall n :: n in tables ==>
          tables[n] == if n in other && n !in todo then MergeTables(TableOr(old(tables), n, other[n].schema), other[n])
                       else old(tables)[n]
        decreases todo
      {
        var n :| n in todo;
        var t := new TableState(TableOr(tables, n, other[n].schema));
        t.Merge(other[n]);
        tables := tables[n := Table(t.schema, t.membership, t.rows)];
        todo := todo - {n};
      }
    }
  }
}
