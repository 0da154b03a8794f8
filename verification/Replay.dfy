/** What a log means: a closed form of the replayed store over the set of ops,
    and the proof that one more op in replay order moves it as `apply_op` does. */
module Replay {
  import opened ByteStrings
  import opened Clocks
  import opened Ops
  import opened RowStores
  import OrSets
  import MvRegisters
  import Sorting

  // ----- Membership -----

  /** The tokens of all inserts of a row. */
  ghost function InsertTimes(ops: set<Op>, t: Text, r: Text): set<Hlc> {
    set o | o in ops && o.Inserts(t, r) :: o.hlc
  }

  ghost function DeleteTimes(ops: set<Op>, t: Text, r: Text): set<Hlc> {
    set o | o in ops && o.Deletes(t, r) :: o.hlc
  }

  ghost predicate AllBefore(hs: set<Hlc>, h: Hlc) {
    forall k :: k in hs ==> Before(k, h)
  }

  /** The tokens below some delete of the row. */
  ghost function RemovedTimes(ops: set<Op>, t: Text, r: Text): set<Hlc> {
    set h | h in InsertTimes(ops, t, r) && exists d :: d in DeleteTimes(ops, t, r) && Before(h, d)
  }

  /** Tombstoning deletes later than every insert of the row. */
  ghost function TombstoneTimes(ops: set<Op>, t: Text, r: Text): set<Hlc> {
    set o | o in ops && o.Deletes(t, r) && o.fkTombstone && AllBefore(InsertTimes(ops, t, r), o.hlc) :: o.hlc
  }

  ghost function EntryFor(ops: set<Op>, t: Text, r: Text): OrSets.OrEntry {
    var ts := TombstoneTimes(ops, t, r);
    OrSets.OrEntry(InsertTimes(ops, t, r), RemovedTimes(ops, t, r), if ts == {} then None else Some(Latest(ts)))
  }

  ghost function InsertedRows(ops: set<Op>, t: Text): set<Text> {
    set o | o in ops && o.InsertRow? && o.table == t :: o.row
  }

  ghost function MembershipFor(ops: set<Op>, t: Text): OrSets.Membership {
    map r | r in InsertedRows(ops, t) :: EntryFor(ops, t, r)
  }

  // ----- Cells -----

  /** Writes of a cell that no later write of the same peer covers. */
  ghost function LatestWrites(ops: set<Op>, t: Text, r: Text, c: Text): set<Hlc> {
    var times := WriteTimes(ops, t, r, c);
    set h | h in times && forall k :: k in times && k.peer == h.peer ==> !Before(h, k)
  }

  ghost function WriteTimes(ops: set<Op>, t: Text, r: Text, c: Text): set<Hlc> {
    set o | o in ops && o.WritesCell(t, r, c) :: o.hlc
  }

  ghost function ValueAt(ops: set<Op>, t: Text, r: Text, c: Text, h: Hlc): Option<Bytes>
    requires h in WriteTimes(ops, t, r, c)
  {
    var o :| o in ops && o.WritesCell(t, r, c) && o.hlc == h;
    LastCell(o.cells, c).value
  }

  /** Exactly the latest write of every peer. */
  ghost function RegisterFor(ops: set<Op>, t: Text, r: Text, c: Text): MvRegisters.Register {
    map h | h in LatestWrites(ops, t, r, c) :: ValueAt(ops, t, r, c, h)
  }

  ghost function WrittenCols(ops: set<Op>, t: Text, r: Text): set<Text> {
    set o, i | o in ops && o.WritesRow(t, r) && 0 <= i < |o.cells| :: o.cells[i].col
  }

  ghost function RowFor(ops: set<Op>, t: Text, r: Text): Row {
    map c | c in WrittenCols(ops, t, r) :: RegisterFor(ops, t, r, c)
  }

  ghost function WrittenRows(ops: set<Op>, t: Text): set<Text> {
    set o | o in ops && (o.InsertRow? || o.UpdateCells?) && o.table == t :: o.row
  }

  ghost function RowsFor(ops: set<Op>, t: Text): map<Text, Row> {
    map r | r in WrittenRows(ops, t) :: RowFor(ops, t, r)
  }

  // ----- Tables -----

  ghost function Created(ops: set<Op>): set<Text> {
    set o | o in ops && o.CreateTable? :: o.schema.name
  }

  ghost predicate IsFirstCreate(ops: set<Op>, t: Text, o: Op) {
    o in ops && o.Creates(t) && forall p :: p in ops && p.Creates(t) ==> !Before(p.hlc, o.hlc)
  }

  lemma {:induction false} HasFirstCreate(ops: set<Op>, t: Text)
    requires t in Created(ops)
    ensures exists o :: IsFirstCreate(ops, t, o)
    decreases |ops|
  {
    HlcOrder();
    var p :| p in ops && p.Creates(t);
    var rest := ops - {p};
    if t in Created(rest) {
      HasFirstCreate(rest, t);
      var q :| IsFirstCreate(rest, t, q);
      assert IsFirstCreate(ops, t, if Before(p.hlc, q.hlc) then p else q);
    } else {
      assert forall q :: q in ops && q.Creates(t) && q != p ==> q in rest && q.schema.name in Created(rest);
      assert IsFirstCreate(ops, t, p);
    }
  }

  /** The schema of the earliest CREATE TABLE. */
  ghost function SchemaFor(ops: set<Op>, t: Text): Schema
    requires t in Created(ops)
  {
    HasFirstCreate(ops, t);
    var o :| IsFirstCreate(ops, t, o);
    o.schema
  }

  lemma SchemaForIs(ops: set<Op>, t: Text, o: Op)
    requires WellFormed(ops) && IsFirstCreate(ops, t, o)
    ensures t in Created(ops) && SchemaFor(ops, t) == o.schema
  {
    HlcOrder();
    assert o.schema.name in Created(ops);
    HasFirstCreate(ops, t);
    var p :| IsFirstCreate(ops, t, p) && SchemaFor(ops, t) == p.schema;
  }

  ghost function TableFor(ops: set<Op>, t: Text): Table
    requires t in Created(ops)
  {
    Table(SchemaFor(ops, t), MembershipFor(ops, t), RowsFor(ops, t))
  }

  /** The store a set of ops stands for. */
  ghost function StateOf(ops: set<Op>): Store {
    map t | t in Created(ops) :: TableFor(ops, t)
  }

  // ----- One more op -----

  /** `o` comes after every op of its row that is already there. */
  ghost predicate AfterRow(ops: set<Op>, o: Op)
    requires o.IsDml()
  {
    forall p :: p in ops && p.IsDml() && p.table == o.table && p.row == o.row ==> Before(p.hlc, o.hlc)
  }

  lemma MembershipFrame(ops: set<Op>, o: Op, t: Text, r: Text)
    requires !o.Inserts(t, r) && !o.Deletes(t, r)
    ensures EntryFor(ops + {o}, t, r) == EntryFor(ops, t, r)
  {
    assert InsertTimes(ops + {o}, t, r) == InsertTimes(ops, t, r);
    assert DeleteTimes(ops + {o}, t, r) == DeleteTimes(ops, t, r);
    assert RemovedTimes(ops + {o}, t, r) == RemovedTimes(ops, t, r);
    assert TombstoneTimes(ops + {o}, t, r) == TombstoneTimes(ops, t, r);
  }

  lemma EntryAfterInsert(ops: set<Op>, o: Op)
    requires o.InsertRow? && AfterRow(ops, o)
    ensures var e := EntryFor(ops, o.table, o.row);
            EntryFor(ops + {o}, o.table, o.row) == OrSets.OrEntry(e.live + {o.hlc}, e.removed, None)
  {
    HlcOrder();
    var t, r := o.table, o.row;
    assert InsertTimes(ops + {o}, t, r) == InsertTimes(ops, t, r) + {o.hlc};
    assert DeleteTimes(ops + {o}, t, r) == DeleteTimes(ops, t, r);
    assert RemovedTimes(ops + {o}, t, r) == RemovedTimes(ops, t, r);
    assert TombstoneTimes(ops + {o}, t, r) == {};
  }

  lemma EntryAfterDelete(ops: set<Op>, o: Op)
    requires o.DeleteRow? && AfterRow(ops, o)
    ensures var e := EntryFor(ops, o.table, o.row);
            EntryFor(ops + {o}, o.table, o.row)
              == OrSets.OrEntry(e.live, e.removed + e.live, if o.fkTombstone then Some(o.hlc) else e.tombstone)
  {
    HlcOrder();
    var t, r := o.table, o.row;
    assert InsertTimes(ops + {o}, t, r) == InsertTimes(ops, t, r);
    assert DeleteTimes(ops + {o}, t, r) == DeleteTimes(ops, t, r) + {o.hlc};
    assert forall h :: h in InsertTimes(ops, t, r) ==> Before(h, o.hlc);
    assert RemovedTimes(ops + {o}, t, r) == InsertTimes(ops, t, r);
    assert RemovedTimes(ops, t, r) + InsertTimes(ops, t, r) == InsertTimes(ops, t, r);
    var before, now := TombstoneTimes(ops, t, r), TombstoneTimes(ops + {o}, t, r);
    if o.fkTombstone {
      assert now == before + {o.hlc};
      LatestIsUnique(now, Latest(now), o.hlc);
    } else {
      assert now == before;
    }
  }

  /** Entries of the rows of a table other than the op's own do not move. */
  lemma MembershipOthers(ops: set<Op>, o: Op, r: Text)
    requires o.InsertRow? || o.DeleteRow?
    requires r != o.row
    ensures r in InsertedRows(ops + {o}, o.table) <==> r in InsertedRows(ops, o.table)
    ensures EntryFor(ops + {o}, o.table, r) == EntryFor(ops, o.table, r)
  {
    MembershipFrame(ops, o, o.table, r);
  }

  lemma MembershipStepAt(ops: set<Op>, o: Op, r: Text)
    requires (o.InsertRow? || o.DeleteRow?) && AfterRow(ops, o) && r in InsertedRows(ops + {o}, o.table)
    ensures var m := MembershipFor(ops, o.table);
            EntryFor(ops + {o}, o.table, r)
              == (if o.InsertRow? then OrSets.InsertOf(m, o.row, o.hlc) else OrSets.DeleteOf(m, o.row, o.hlc, o.fkTombstone))[r]
  {
    if r != o.row {
      MembershipOthers(ops, o, r);
    } else if o.InsertRow? {
      EntryAfterInsert(ops, o);
      if r !in InsertedRows(ops, o.table) { AbsentEntry(ops, o.table, r); }
    } else {
      EntryAfterDelete(ops, o);
    }
  }

  lemma MembershipStep(ops: set<Op>, o: Op)
    requires o.InsertRow? || o.DeleteRow?
    requires AfterRow(ops, o)
    ensures var m := MembershipFor(ops, o.table);
            MembershipFor(ops + {o}, o.table)
              == if o.InsertRow? then OrSets.InsertOf(m, o.row, o.hlc) else OrSets.DeleteOf(m, o.row, o.hlc, o.fkTombstone)
  {
    assert InsertedRows(ops + {o}, o.table) == InsertedRows(ops, o.table) + if o.InsertRow? then {o.row} else {};
    forall r | r in InsertedRows(ops + {o}, o.table) { MembershipStepAt(ops, o, r); }
  }

  lemma AbsentEntry(ops: set<Op>, t: Text, r: Text)
    requires r !in InsertedRows(ops, t)
    ensures InsertTimes(ops, t, r) == {} && RemovedTimes(ops, t, r) == {}
  {
    assert forall o :: o in ops && o.Inserts(t, r) ==> o.row in InsertedRows(ops, t);
  }

  // ----- Cells under one more op -----

  /** Well-formedness makes the writer of a cell at a given time unique. */
  lemma ValueAtIs(ops: set<Op>, t: Text, r: Text, c: Text, o: Op)
    requires WellFormed(ops) && o in ops && o.WritesCell(t, r, c)
    ensures o.hlc in WriteTimes(ops, t, r, c)
    ensures ValueAt(ops, t, r, c, o.hlc) == LastCell(o.cells, c).value
  {
    var p :| p in ops && p.WritesCell(t, r, c) && p.hlc == o.hlc && ValueAt(ops, t, r, c, o.hlc) == LastCell(p.cells, c).value;
    assert p != o ==> SameGroup(p, o);
  }

  lemma ValueAtGrows(ops: set<Op>, more: set<Op>, t: Text, r: Text, c: Text, h: Hlc)
    requires WellFormed(ops) && WellFormed(more) && ops <= more && h in WriteTimes(ops, t, r, c)
    ensures h in WriteTimes(more, t, r, c) && ValueAt(more, t, r, c, h) == ValueAt(ops, t, r, c, h)
  {
    var p :| p in ops && p.WritesCell(t, r, c) && p.hlc == h;
    ValueAtIs(ops, t, r, c, p);
    ValueAtIs(more, t, r, c, p);
  }

  lemma RegisterFrame(ops: set<Op>, o: Op, t: Text, r: Text, c: Text)
    requires !o.WritesCell(t, r, c) && WellFormed(ops + {o})
    ensures RegisterFor(ops + {o}, t, r, c) == RegisterFor(ops, t, r, c)
  {
    assert WriteTimes(ops + {o}, t, r, c) == WriteTimes(ops, t, r, c);
    forall h | h in LatestWrites(ops, t, r, c) ensures ValueAt(ops + {o}, t, r, c, h) == ValueAt(ops, t, r, c, h) {
      ValueAtGrows(ops, ops + {o}, t, r, c, h);
    }
  }

  lemma LatestWritesStep(ops: set<Op>, o: Op, c: Text)
    requires o.IsDml() && AfterRow(ops, o) && o.WritesCell(o.table, o.row, c)
    ensures LatestWrites(ops + {o}, o.table, o.row, c)
      == (set h | h in LatestWrites(ops, o.table, o.row, c) && h.peer != o.hlc.peer) + {o.hlc}
  {
    var t, r := o.table, o.row;
    var times, times' := WriteTimes(ops, t, r, c), WriteTimes(ops + {o}, t, r, c);
    assert times' == times + {o.hlc};
    forall h | h in times ensures Before(h, o.hlc) && !Before(o.hlc, h) { BeforeIsTotal(h, o.hlc); }
    BeforeIsTotal(o.hlc, o.hlc);
  }

  lemma RegisterStepAt(ops: set<Op>, o: Op, c: Text, h: Hlc)
    requires o.IsDml() && AfterRow(ops, o) && WellFormed(ops + {o}) && o.WritesCell(o.table, o.row, c)
    requires h in LatestWrites(ops + {o}, o.table, o.row, c)
    ensures ValueAt(ops + {o}, o.table, o.row, c, h)
      == if h == o.hlc then LastCell(o.cells, c).value
         else if h in LatestWrites(ops, o.table, o.row, c) then ValueAt(ops, o.table, o.row, c, h) else None
  {
    LatestWritesStep(ops, o, c);
    if h == o.hlc { ValueAtIs(ops + {o}, o.table, o.row, c, o); } else { ValueAtGrows(ops, ops + {o}, o.table, o.row, c, h); }
  }

  lemma RegisterStep(ops: set<Op>, o: Op, c: Text)
    requires o.IsDml() && AfterRow(ops, o) && WellFormed(ops + {o})
    requires o.WritesCell(o.table, o.row, c)
    ensures RegisterFor(ops + {o}, o.table, o.row, c)
      == MvRegisters.WriteOf(RegisterFor(ops, o.table, o.row, c), o.hlc, LastCell(o.cells, c).value)
  {
    var want := MvRegisters.WriteOf(RegisterFor(ops, o.table, o.row, c), o.hlc, LastCell(o.cells, c).value);
    var got := RegisterFor(ops + {o}, o.table, o.row, c);
    LatestWritesStep(ops, o, c);
    assert got.Keys == want.Keys;
    forall h | h in got ensures got[h] == want[h] { RegisterStepAt(ops, o, c, h); }
  }

  lemma {:induction false} NamedCell(cells: seq<Cell>, c: Text)
    ensures LastCell(cells, c).Some? <==> exists i :: 0 <= i < |cells| && cells[i].col == c
  {
    if |cells| > 0 {
      var m := |cells| - 1;
      NamedCell(cells[..m], c);
      if cells[m].col != c && exists i :: 0 <= i < |cells| && cells[i].col == c {
        var i :| 0 <= i < |cells| && cells[i].col == c;
        assert cells[..m][i].col == c;
      }
    }
  }

  lemma ColumnStep(ops: set<Op>, o: Op, t: Text, r: Text, c: Text)
    ensures c in WrittenCols(ops + {o}, t, r) <==> c in WrittenCols(ops, t, r) || o.WritesCell(t, r, c)
  {
    if o.WritesRow(t, r) { NamedCell(o.cells, c); }
  }

  lemma UnwrittenColumn(ops: set<Op>, t: Text, r: Text, c: Text)
    requires c !in WrittenCols(ops, t, r)
    ensures RegisterFor(ops, t, r, c) == map[]
  {
    forall o | o in ops ensures !o.WritesCell(t, r, c) {
      if o.WritesRow(t, r) { NamedCell(o.cells, c); }
    }
    assert WriteTimes(ops, t, r, c) == {};
  }

  lemma RowStep(ops: set<Op>, o: Op)
    requires o.InsertRow? || o.UpdateCells?
    requires AfterRow(ops, o) && WellFormed(ops + {o})
    ensures RowFor(ops + {o}, o.table, o.row) == WriteCells(RowFor(ops, o.table, o.row), o.hlc, o.cells)
  {
    var t, r := o.table, o.row;
    var row := RowFor(ops, t, r);
    WriteCellsAt(row, o.hlc, o.cells);
    forall c ensures c in WrittenCols(ops + {o}, t, r) <==> c in row || LastCell(o.cells, c).Some? {
      ColumnStep(ops, o, t, r, c);
    }
    forall c | c in WrittenCols(ops + {o}, t, r)
      ensures RegisterFor(ops + {o}, t, r, c) == WriteCells(row, o.hlc, o.cells)[c]
    {
      if c !in row { UnwrittenColumn(ops, t, r, c); }
      if o.WritesCell(t, r, c) { RegisterStep(ops, o, c); } else { RegisterFrame(ops, o, t, r, c); }
    }
  }

  lemma RowFrame(ops: set<Op>, o: Op, t: Text, r: Text)
    requires !o.WritesRow(t, r) && WellFormed(ops + {o})
    ensures RowFor(ops + {o}, t, r) == RowFor(ops, t, r)
  {
    forall c ensures c in WrittenCols(ops + {o}, t, r) <==> c in WrittenCols(ops, t, r) { ColumnStep(ops, o, t, r, c); }
    forall c ensures RegisterFor(ops + {o}, t, r, c) == RegisterFor(ops, t, r, c) { RegisterFrame(ops, o, t, r, c); }
  }

  lemma RowForIsRowAt(ops: set<Op>, t: Text, r: Text)
    ensures RowFor(ops, t, r) == RowAt(RowsFor(ops, t), r)
  {
    if r !in WrittenRows(ops, t) {
      assert forall o :: o in ops && (o.InsertRow? || o.UpdateCells?) && o.table == t ==> o.row in WrittenRows(ops, t);
      assert WrittenCols(ops, t, r) == {};
    }
  }

  lemma RowsStepAt(ops: set<Op>, o: Op, r: Text)
    requires o.InsertRow? || o.UpdateCells?
    requires AfterRow(ops, o) && WellFormed(ops + {o})
    ensures RowFor(ops + {o}, o.table, r)
      == if r == o.row then WriteCells(RowAt(RowsFor(ops, o.table), r), o.hlc, o.cells) else RowFor(ops, o.table, r)
  {
    if r == o.row {
      RowForIsRowAt(ops, o.table, r);
      RowStep(ops, o);
    } else {
      RowFrame(ops, o, o.table, r);
    }
  }

  lemma RowsStep(ops: set<Op>, o: Op)
    requires o.InsertRow? || o.UpdateCells?
    requires AfterRow(ops, o) && WellFormed(ops + {o})
    ensures var rows := RowsFor(ops, o.table);
            RowsFor(ops + {o}, o.table) == rows[o.row := WriteCells(RowAt(rows, o.row), o.hlc, o.cells)]
  {
    var rows, rows' := RowsFor(ops, o.table), RowsFor(ops + {o}, o.table);
    var want := rows[o.row := WriteCells(RowAt(rows, o.row), o.hlc, o.cells)];
    assert WrittenRows(ops + {o}, o.table) == WrittenRows(ops, o.table) + {o.row};
    forall r | r in rows' ensures rows'[r] == want[r] {
      RowsStepAt(ops, o, r);
    }
  }

  // ----- The store under one more op -----

  lemma RowsFrame(ops: set<Op>, o: Op, t: Text)
    requires (o.InsertRow? || o.UpdateCells?) ==> o.table != t
    requires WellFormed(ops + {o})
    ensures RowsFor(ops + {o}, t) == RowsFor(ops, t)
  {
    assert WrittenRows(ops + {o}, t) == WrittenRows(ops, t);
    forall r ensures RowFor(ops + {o}, t, r) == RowFor(ops, t, r) { RowFrame(ops, o, t, r); }
  }

  lemma MembersFrame(ops: set<Op>, o: Op, t: Text)
    requires (o.InsertRow? || o.DeleteRow?) ==> o.table != t
    ensures MembershipFor(ops + {o}, t) == MembershipFor(ops, t)
  {
    assert InsertedRows(ops + {o}, t) == InsertedRows(ops, t);
    forall r ensures EntryFor(ops + {o}, t, r) == EntryFor(ops, t, r) { MembershipFrame(ops, o, t, r); }
  }

  lemma SchemaFrame(ops: set<Op>, o: Op, t: Text)
    requires WellFormed(ops + {o}) && t in Created(ops)
    requires o.Creates(t) ==> forall p :: p in ops && p.Creates(t) ==> Before(p.hlc, o.hlc)
    ensures t in Created(ops + {o}) && SchemaFor(ops + {o}, t) == SchemaFor(ops, t)
  {
    HlcOrder();
    HasFirstCreate(ops, t);
    var p :| IsFirstCreate(ops, t, p);
    assert WellFormed(ops);
    SchemaForIs(ops, t, p);
    SchemaForIs(ops + {o}, t, p);
  }

  lemma DmlStepTable(ops: set<Op>, o: Op, t: Text)
    requires o.IsDml() && AfterRow(ops, o) && WellFormed(ops + {o}) && t in Created(ops)
    ensures t in Created(ops + {o})
    ensures TableFor(ops + {o}, t) == ApplyOp(StateOf(ops), o)[t]
  {
    SchemaFrame(ops, o, t);
    if o.table == t {
      if !o.UpdateCells? { MembershipStep(ops, o); } else { MembersFrame(ops, o, t); }
      if !o.DeleteRow? { RowsStep(ops, o); } else { RowsFrame(ops, o, t); }
    } else {
      MembersFrame(ops, o, t);
      RowsFrame(ops, o, t);
    }
  }

  /** Applying an insert, update or delete that comes after the ops of its row. */
  lemma DmlStep(ops: set<Op>, o: Op)
    requires o.IsDml() && AfterRow(ops, o) && WellFormed(ops + {o})
    ensures StateOf(ops + {o}) == ApplyOp(StateOf(ops), o)
  {
    assert Created(ops + {o}) == Created(ops);
    forall t | t in Created(ops) ensures TableFor(ops + {o}, t) == ApplyOp(StateOf(ops), o)[t] { DmlStepTable(ops, o, t); }
  }

  lemma CreateFrame(ops: set<Op>, o: Op, t: Text)
    requires o.CreateTable? && WellFormed(ops + {o}) && t in Created(ops)
    requires forall p :: p in ops && p.Creates(o.schema.name) ==> Before(p.hlc, o.hlc)
    ensures t in Created(ops + {o}) && TableFor(ops + {o}, t) == TableFor(ops, t)
  {
    SchemaFrame(ops, o, t);
    MembersFrame(ops, o, t);
    RowsFrame(ops, o, t);
  }

  lemma CreateFirst(ops: set<Op>, o: Op)
    requires o.CreateTable? && WellFormed(ops + {o}) && o.schema.name !in Created(ops)
    requires forall p :: p in ops && p.IsDml() ==> p.table != o.schema.name
    ensures o.schema.name in Created(ops + {o})
    ensures TableFor(ops + {o}, o.schema.name) == Table(o.schema, map[], map[])
  {
    var n := o.schema.name;
    assert forall p :: p in ops && p.CreateTable? ==> p.schema.name in Created(ops);
    BeforeIsTotal(o.hlc, o.hlc);
    SchemaForIs(ops + {o}, n, o);
    assert InsertedRows(ops + {o}, n) == {} && WrittenRows(ops + {o}, n) == {};
  }

  /** Applying a CREATE TABLE: a later one changes nothing, a first one finds no data. */
  lemma CreateStep(ops: set<Op>, o: Op)
    requires o.CreateTable? && WellFormed(ops + {o})
    requires forall p :: p in ops && p.Creates(o.schema.name) ==> Before(p.hlc, o.hlc)
    requires o.schema.name !in Created(ops) ==> forall p :: p in ops && p.IsDml() ==> p.table != o.schema.name
    ensures StateOf(ops + {o}) == ApplyOp(StateOf(ops), o)
  {
    var n, s := o.schema.name, StateOf(ops);
    assert Created(ops + {o}) == Created(ops) + {n};
    forall t | t in s ensures TableFor(ops + {o}, t) == s[t] { CreateFrame(ops, o, t); }
    if n in s {
      StateIs(ops + {o}, s);
    } else {
      CreateFirst(ops, o);
      StateIs(ops + {o}, s[n := Table(o.schema, map[], map[])]);
    }
  }

  lemma StateIs(ops: set<Op>, s: Store)
    requires s.Keys == Created(ops) && forall t :: t in s ==> TableFor(ops, t) == s[t]
    ensures StateOf(ops) == s
  {
  }

  lemma ReserveStep(ops: set<Op>, o: Op)
    requires o.ReserveUnique? && WellFormed(ops + {o})
    ensures StateOf(ops + {o}) == StateOf(ops)
  {
    assert Created(ops + {o}) == Created(ops);
    forall t | t in Created(ops) ensures TableFor(ops + {o}, t) == TableFor(ops, t) {
      SchemaFrame(ops, o, t);
      MembersFrame(ops, o, t);
      RowsFrame(ops, o, t);
    }
  }

  // ----- The replay fold -----

  /** Folding ops, in the order given, into an empty store. */
  function ReplayOf(ops: seq<Op>): Store {
    if |ops| == 0 then map[] else ApplyOp(ReplayOf(ops[..|ops| - 1]), ops[|ops| - 1])
  }

  lemma ReplayOrderIsWeak()
    ensures Sorting.WeakOrder(ReplaysBefore)
  {
    HlcOrder();
  }

  /** In replay order each op finds what its step assumes. */
  lemma SortedStep(before: set<Op>, o: Op)
    requires WellFormed(before + {o}) && forall p :: p in before ==> p != o && !ReplaysBefore(o, p)
    ensures StateOf(before + {o}) == ApplyOp(StateOf(before), o)
  {
    HlcOrder();
    forall p | p in before ensures p.hlc == o.hlc ==> SameGroup(p, o) { }
    if o.ReserveUnique? {
      ReserveStep(before, o);
    } else if o.CreateTable? {
      CreateStep(before, o);
    } else {
      DmlStep(before, o);
    }
  }

  /** Replaying in (tier, time) order yields the closed form of the set of ops. */
  lemma {:induction false} ReplayIsStateOf(ops: seq<Op>)
    requires Sorting.Sorted(ReplaysBefore, ops) && Sorting.NoDup(ops) && WellFormed(Sorting.Elements(ops))
    ensures ReplayOf(ops) == StateOf(Sorting.Elements(ops))
  {
    if |ops| > 0 {
      var m := |ops| - 1;
      var before := Sorting.Elements(ops[..m]);
      assert Sorting.Elements(ops) == before + {ops[m]} by { assert ops == ops[..m] + [ops[m]]; }
      ReplayIsStateOf(ops[..m]);
      forall p | p in before ensures p != ops[m] && !ReplaysBefore(ops[m], p) {
        var i :| 0 <= i < m && ops[i] == p;
      }
      SortedStep(before, ops[m]);
    }
  }
}
