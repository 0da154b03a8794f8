/** Where the values of an INSERT end up in the executing peer's store. */
module InsertedCells {
  import opened ByteStrings
  import opened Clocks
  import opened Ops
  import opened RowStores
  import opened Planner
  import opened PlannerLaws
  import opened Rebuild
  import opened Peers
  import opened Clusters
  import opened Effects
  import MvRegisters
  import OrSets
  import SecondaryIndexes

  // ----- Reading a value list -----

  /** Position `j` of a value list is for column `c`: the statement's `j`-th column, or the
      schema's if the statement lists none. */
  ghost predicate Listed(schema: Schema, columns: seq<Text>, j: nat, c: Text) {
    if |columns| == 0 then j < |schema.columns| && schema.columns[j].name == c else j < |columns| && columns[j] == c
  }

  ghost predicate Gives(schema: Schema, columns: seq<Text>, vals: seq<Option<Bytes>>, c: Text, v: Option<Bytes>) {
    exists j: nat :: j < |vals| && Listed(schema, columns, j, c) && vals[j] == v
  }

  /** The statement's columns, or else the schema's, are named apart. */
  ghost predicate ListedOnce(schema: Schema, columns: seq<Text>) {
    forall i: nat, j: nat, c :: Listed(schema, columns, i, c) && Listed(schema, columns, j, c) ==> i == j
  }

  /** `r` is the text of a value listed under the primary key. */
  ghost predicate RowOfValues(cfg: Config, schema: Schema, columns: seq<Text>, vals: seq<Option<Bytes>>, r: Text) {
    exists pk, b :: SecondaryIndexes.IsPrimaryKey(schema.columns, pk) && Gives(schema, columns, vals, pk, Some(b)) && cfg.text(b) == r
  }

  lemma CellIsListed(schema: Schema, columns: seq<Text>, vals: seq<Option<Bytes>>, j: nat)
    ensures j < |CellsFor(schema, columns, vals)| <==> j < |vals| && exists c :: Listed(schema, columns, j, c)
    ensures j < |CellsFor(schema, columns, vals)| ==>
      Listed(schema, columns, j, CellsFor(schema, columns, vals)[j].col) && CellsFor(schema, columns, vals)[j].value == vals[j]
  {
    if |columns| == 0 {
      assert j < |schema.columns| ==> Listed(schema, columns, j, schema.columns[j].name);
    } else {
      assert j < |columns| ==> Listed(schema, columns, j, columns[j]);
    }
  }

  /** The first cell under a name was listed under it. */
  lemma FirstIsGiven(schema: Schema, columns: seq<Text>, vals: seq<Option<Bytes>>, c: Text)
    ensures FirstCell(CellsFor(schema, columns, vals), c).Some? ==>
      Gives(schema, columns, vals, c, FirstCell(CellsFor(schema, columns, vals), c).value)
  {
    var cells := CellsFor(schema, columns, vals);
    FirstIsAt(cells, c);
    if FirstCell(cells, c).Some? {
      var j: nat :| FirstAt(cells, c, j) && cells[j].value == FirstCell(cells, c).value;
      CellIsListed(schema, columns, vals, j);
    }
  }

  /** Under distinct names what is listed is what every reader of the cells finds. */
  lemma GivenIsCell(schema: Schema, columns: seq<Text>, vals: seq<Option<Bytes>>, c: Text, v: Option<Bytes>)
    requires ListedOnce(schema, columns)
    ensures Gives(schema, columns, vals, c, v) <==> FirstCell(CellsFor(schema, columns, vals), c) == Some(v)
    ensures FirstCell(CellsFor(schema, columns, vals), c) == LastCell(CellsFor(schema, columns, vals), c)
  {
    var cells := CellsFor(schema, columns, vals);
    forall j: nat ensures j < |cells| ==> Listed(schema, columns, j, cells[j].col) { CellIsListed(schema, columns, vals, j); }
    FirstIsLast(cells, c);
    FirstIsGiven(schema, columns, vals, c);
    if Gives(schema, columns, vals, c, v) {
      var j: nat :| j < |vals| && Listed(schema, columns, j, c) && vals[j] == v;
      CellIsListed(schema, columns, vals, j);
      assert cells[j] == Cell(c, v);
      FirstIsAt(cells, c);
    }
  }

  // ----- The writes of a statement -----

  /** One inserted row: its id, time and cells. */
  datatype RowWrite = RowWrite(row: Text, hlc: Hlc, cells: seq<Cell>)

  ghost function AfterWrites(t: Table, ws: seq<RowWrite>): Table {
    if |ws| == 0 then t
    else
      var w := ws[|ws| - 1];
      InsertRowOf(AfterWrites(t, ws[..|ws| - 1]), w.row, w.hlc, w.cells)
  }

  /** The ops of one inserted row write it and nothing else into the store. */
  lemma InsertOne(cfg: Config, d: Derived, schema: Schema, t: Text, r: Text, h: Hlc, cells: seq<Cell>, row: seq<Op>)
    requires t in d.store && row == [InsertRow(t, r, h, cells)] + ColumnClaims(schema, t, r, h, cells) + CompositeClaims(schema, t, r, h, cells)
    ensures StateAll(cfg, d, row).store == d.store[t := InsertRowOf(d.store[t], r, h, cells)]
  {
    var write, claims := [InsertRow(t, r, h, cells)], ColumnClaims(schema, t, r, h, cells) + CompositeClaims(schema, t, r, h, cells);
    assert row == write + claims;
    StateAllConcat(cfg, d, write, claims);
    forall o | o in claims ensures o.ReserveUnique? { ClaimElements(schema, t, r, h, cells, o); }
    ClaimsKeepStore(cfg, StateAll(cfg, d, write), claims);
    assert write[..0] == [];
  }

  /** `w` is the write of the `i`-th value list. */
  ghost predicate WriteOfList(cfg: Config, schema: Schema, columns: seq<Text>, values: seq<seq<Option<Bytes>>>, k: Ticker, i: nat, w: RowWrite)
    requires i < |values|
  {
    w.hlc == TimeOf(k, i) && w.cells == CellsFor(schema, columns, values[i]) && RowOfValues(cfg, schema, columns, values[i], w.row)
  }

  lemma KeyIsRow(cfg: Config, schema: Schema, pk: Text, columns: seq<Text>, vals: seq<Option<Bytes>>)
    requires SecondaryIndexes.PrimaryKey(schema.columns) == Some(pk) && Flatten(FirstCell(CellsFor(schema, columns, vals), pk)).Some?
    ensures RowOfValues(cfg, schema, columns, vals, cfg.text(Flatten(FirstCell(CellsFor(schema, columns, vals), pk)).value))
  {
    SecondaryIndexes.PrimaryKeyIs(schema.columns);
    FirstIsGiven(schema, columns, vals, pk);
    assert Gives(schema, columns, vals, pk, Some(Flatten(FirstCell(CellsFor(schema, columns, vals), pk)).value));
  }

  lemma NextRow(cfg: Config, d: Derived, before: seq<Op>, table: Table, schema: Schema, t: Text, w: RowWrite, row: seq<Op>)
    requires t in d.store && StateAll(cfg, d, before).store == d.store[t := table]
    requires row == [InsertRow(t, w.row, w.hlc, w.cells)] + ColumnClaims(schema, t, w.row, w.hlc, w.cells)
      + CompositeClaims(schema, t, w.row, w.hlc, w.cells)
    ensures StateAll(cfg, d, before + row).store == d.store[t := InsertRowOf(table, w.row, w.hlc, w.cells)]
  {
    StateAllConcat(cfg, d, before, row);
    InsertOne(cfg, StateAll(cfg, d, before), schema, t, w.row, w.hlc, w.cells, row);
  }

  lemma WritesSnoc(t: Table, ws: seq<RowWrite>, w: RowWrite)
    ensures AfterWrites(t, ws + [w]) == InsertRowOf(AfterWrites(t, ws), w.row, w.hlc, w.cells)
  {
    assert (ws + [w])[..|ws|] == ws;
  }

  ghost predicate WritesOfLists(cfg: Config, schema: Schema, columns: seq<Text>, values: seq<seq<Option<Bytes>>>, k: Ticker, ws: seq<RowWrite>) {
    |ws| == |values| && forall i :: 0 <= i < |ws| ==> WriteOfList(cfg, schema, columns, values, k, i, ws[i])
  }

  lemma ListsSnoc(cfg: Config, schema: Schema, columns: seq<Text>, values: seq<seq<Option<Bytes>>>, k: Ticker, m: nat,
                  ws: seq<RowWrite>, w: RowWrite)
    requires m + 1 == |values| && WritesOfLists(cfg, schema, columns, values[..m], k, ws)
    requires WriteOfList(cfg, schema, columns, values, k, m, w)
    ensures WritesOfLists(cfg, schema, columns, values, k, ws + [w])
  {
    forall i | 0 <= i < m ensures WriteOfList(cfg, schema, columns, values, k, i, ws[i]) {
      assert WriteOfList(cfg, schema, columns, values[..m], k, i, ws[i]);
    }
  }

  lemma PlannedLast(cfg: Config, s: Store, t: Text, schema: Schema, pk: Text, columns: seq<Text>,
                    values: seq<seq<Option<Bytes>>>, k: Ticker, m: nat, before: Plan, row: RowPlan)
    requires m + 1 == |values| && before == PlanRows(cfg, s, t, schema, pk, columns, values[..m], k)
    requires row == PlanRow(cfg, s, t, schema, pk, CellsFor(schema, columns, values[m]), TimeOf(k, m))
    requires PlanRows(cfg, s, t, schema, pk, columns, values, k).error.None?
    ensures before.error.None? && row.RowPlanned?
    ensures PlanRows(cfg, s, t, schema, pk, columns, values, k).ops == before.ops + row.ops
  {
  }

  lemma PlannedOps(cfg: Config, s: Store, t: Text, schema: Schema, pk: Text, cells: seq<Cell>, h: Hlc) returns (r: Text)
    requires PlanRow(cfg, s, t, schema, pk, cells, h).RowPlanned?
    ensures Flatten(FirstCell(cells, pk)).Some? && r == cfg.text(Flatten(FirstCell(cells, pk)).value)
    ensures PlanRow(cfg, s, t, schema, pk, cells, h).ops
      == [InsertRow(t, r, h, cells)] + ColumnClaims(schema, t, r, h, cells) + CompositeClaims(schema, t, r, h, cells)
  {
    r := cfg.text(Flatten(FirstCell(cells, pk)).value);
  }

  /** The planned rows are the writes, one for each value list. */
  lemma {:induction false} PlanWrites(cfg: Config, d: Derived, s: Store, t: Text, schema: Schema, pk: Text, columns: seq<Text>,
                                      values: seq<seq<Option<Bytes>>>, k: Ticker) returns (ws: seq<RowWrite>)
    requires t in d.store && SecondaryIndexes.PrimaryKey(schema.columns) == Some(pk)
    requires PlanRows(cfg, s, t, schema, pk, columns, values, k).error.None?
    ensures WritesOfLists(cfg, schema, columns, values, k, ws)
    ensures StateAll(cfg, d, PlanRows(cfg, s, t, schema, pk, columns, values, k).ops).store == d.store[t := AfterWrites(d.store[t], ws)]
  {
    if |values| == 0 {
      ws := [];
    } else {
      var m := |values| - 1;
      var cells, h := CellsFor(schema, columns, values[m]), TimeOf(k, m);
      var before, row := PlanRows(cfg, s, t, schema, pk, columns, values[..m], k), PlanRow(cfg, s, t, schema, pk, cells, h);
      PlannedLast(cfg, s, t, schema, pk, columns, values, k, m, before, row);
      var r := PlannedOps(cfg, s, t, schema, pk, cells, h);
      var firsts := PlanWrites(cfg, d, s, t, schema, pk, columns, values[..m], k);
      var w := RowWrite(r, h, cells);
      ws := firsts + [w];
      KeyIsRow(cfg, schema, pk, columns, values[m]);
      ListsSnoc(cfg, schema, columns, values, k, m, firsts, w);
      NextRow(cfg, d, before.ops, AfterWrites(d.store[t], firsts), schema, t, w, row.ops);
      WritesSnoc(d.store[t], firsts, w);
    }
  }

  // ----- Registers after the writes -----

  ghost function Register(t: Table, r: Text, c: Text): MvRegisters.Register {
    RegisterAt(RowAt(t.rows, r), c)
  }

  lemma OneWrite(t: Table, w: RowWrite, r: Text, c: Text)
    ensures var t' := InsertRowOf(t, w.row, w.hlc, w.cells);
      Register(t', r, c) == if w.row == r && LastCell(w.cells, c).Some?
                            then MvRegisters.WriteOf(Register(t, r, c), w.hlc, LastCell(w.cells, c).value) else Register(t, r, c)
    ensures var t' := InsertRowOf(t, w.row, w.hlc, w.cells);
      t'.schema == t.schema && (w.row != r ==> OrSets.EntryOf(t'.membership, r) == OrSets.EntryOf(t.membership, r))
  {
    WriteCellsAt(RowAt(t.rows, w.row), w.hlc, w.cells);
  }

  /** A row no write names keeps its entry. */
  lemma {:induction false} Unnamed(t: Table, ws: seq<RowWrite>, r: Text)
    ensures AfterWrites(t, ws).schema == t.schema
    ensures (forall i :: 0 <= i < |ws| ==> ws[i].row != r) ==>
      OrSets.EntryOf(AfterWrites(t, ws).membership, r) == OrSets.EntryOf(t.membership, r)
  {
    if |ws| > 0 {
      var m := |ws| - 1;
      Unnamed(t, ws[..m], r);
      OneWrite(AfterWrites(t, ws[..m]), ws[m], r, []);
    }
  }

  /** The writes of one peer leave the entries of the others. */
  lemma {:induction false} OthersKept(t: Table, ws: seq<RowWrite>, r: Text, c: Text, h: Hlc)
    requires forall i :: 0 <= i < |ws| ==> ws[i].hlc.peer != h.peer
    ensures var reg, reg' := Register(t, r, c), Register(AfterWrites(t, ws), r, c);
      (h in reg' <==> h in reg) && (h in reg ==> reg'[h] == reg[h])
  {
    if |ws| > 0 {
      var m := |ws| - 1;
      OthersKept(t, ws[..m], r, c, h);
      OneWrite(AfterWrites(t, ws[..m]), ws[m], r, c);
    }
  }

  lemma AfterLast(t: Table, ws: seq<RowWrite>, r: Text, c: Text)
    requires |ws| > 0
    ensures var w, reg := ws[|ws| - 1], Register(AfterWrites(t, ws[..|ws| - 1]), r, c);
      Register(AfterWrites(t, ws), r, c)
        == if w.row == r && LastCell(w.cells, c).Some? then MvRegisters.WriteOf(reg, w.hlc, LastCell(w.cells, c).value) else reg
  {
    OneWrite(AfterWrites(t, ws[..|ws| - 1]), ws[|ws| - 1], r, c);
  }

  predicate Misses(w: RowWrite, r: Text, c: Text) {
    w.row == r ==> LastCell(w.cells, c).None?
  }

  /** Writes that miss a cell keep its register. */
  lemma {:induction false} KeptAfter(t: Table, ws: seq<RowWrite>, i: nat, r: Text, c: Text)
    requires i <= |ws| && forall n :: i <= n < |ws| ==> Misses(ws[n], r, c)
    ensures Register(AfterWrites(t, ws), r, c) == Register(AfterWrites(t, ws[..i]), r, c)
  {
    if i == |ws| {
      assert ws[..i] == ws;
    } else {
      var before := ws[..|ws| - 1];
      assert before[..i] == ws[..i];
      KeptAfter(t, before, i, r, c);
      AfterLast(t, ws, r, c);
      assert Misses(ws[|ws| - 1], r, c);
    }
  }

  /** The last write to give a cell is in its register. */
  lemma LastGiven(t: Table, ws: seq<RowWrite>, i: nat, c: Text)
    requires i < |ws| && LastCell(ws[i].cells, c).Some? && forall n :: i < n < |ws| ==> Misses(ws[n], ws[i].row, c)
    ensures Register(AfterWrites(t, ws), ws[i].row, c)
      == MvRegisters.WriteOf(Register(AfterWrites(t, ws[..i]), ws[i].row, c), ws[i].hlc, LastCell(ws[i].cells, c).value)
  {
    var upTo := ws[..i + 1];
    KeptAfter(t, ws, i + 1, ws[i].row, c);
    assert upTo[..i] == ws[..i] && upTo[i] == ws[i];
    AfterLast(t, upTo, ws[i].row, c);
  }

  /** The cell then reads as the last write gives it, unless another peer's entry is later. */
  lemma GivenIsRead(t: Table, ws: seq<RowWrite>, i: nat, c: Text, v: Option<Bytes>)
    requires i < |ws| && LastCell(ws[i].cells, c) == Some(v) && forall n :: i < n < |ws| ==> Misses(ws[n], ws[i].row, c)
    requires forall n :: 0 <= n < |ws| ==> ws[n].hlc.peer == ws[i].hlc.peer
    ensures var reg, h := Register(t, ws[i].row, c), ws[i].hlc;
      ReadCell(RowAt(AfterWrites(t, ws).rows, ws[i].row), c) == if Later(reg, h) == {} then v else reg[Latest(Later(reg, h))]
  {
    var r, h := ws[i].row, ws[i].hlc;
    var reg, mid := Register(t, r, c), Register(AfterWrites(t, ws[..i]), r, c);
    LastGiven(t, ws, i, c);
    MvRegisters.ReadAfterWrite(mid, h, v);
    forall e: Hlc | e.peer != h.peer ensures (e in mid <==> e in reg) && (e in reg ==> mid[e] == reg[e]) {
      OthersKept(t, ws[..i], r, c, e);
    }
    assert Later(mid, h) == Later(reg, h);
  }

  // ----- The statement -----

  lemma InsertWrites(cfg: Config, p: Peer, t: Text, columns: seq<Text>, values: seq<seq<Option<Bytes>>>, now: nat -> nat)
    returns (ws: seq<RowWrite>)
    requires PlanAt(cfg, p, Insert(t, columns, values), now).error.None?
    ensures t in p.state.store && WritesOfLists(cfg, p.state.store[t].schema, columns, values, TickerOf(p, now), ws)
    ensures ExecuteOf(cfg, p, Insert(t, columns, values), now).state.store == p.state.store[t := AfterWrites(p.state.store[t], ws)]
  {
    var s := p.state.store;
    var schema := s[t].schema;
    ws := PlanWrites(cfg, p.state, s, t, schema, SecondaryIndexes.PrimaryKey(schema.columns).value, columns, values, TickerOf(p, now));
  }

  /** The list names the column. */
  ghost predicate NamesColumn(schema: Schema, columns: seq<Text>, vals: seq<Option<Bytes>>, c: Text) {
    exists v :: Gives(schema, columns, vals, c, v)
  }

  /** List `n` is for row `r` and names the column. */
  ghost predicate Touches(cfg: Config, schema: Schema, columns: seq<Text>, vals: seq<Option<Bytes>>, r: Text, c: Text) {
    RowOfValues(cfg, schema, columns, vals, r) && NamesColumn(schema, columns, vals, c)
  }

  lemma OneRowOfValues(cfg: Config, schema: Schema, columns: seq<Text>, vals: seq<Option<Bytes>>, r: Text, r': Text)
    requires ListedOnce(schema, columns) && RowOfValues(cfg, schema, columns, vals, r) && RowOfValues(cfg, schema, columns, vals, r')
    ensures r == r'
  {
    var pk, b :| SecondaryIndexes.IsPrimaryKey(schema.columns, pk) && Gives(schema, columns, vals, pk, Some(b)) && cfg.text(b) == r;
    var pk', b' :| SecondaryIndexes.IsPrimaryKey(schema.columns, pk') && Gives(schema, columns, vals, pk', Some(b')) && cfg.text(b') == r';
    SecondaryIndexes.PrimaryKeyIsOne(schema.columns, pk, pk');
    var j: nat :| j < |vals| && Listed(schema, columns, j, pk) && vals[j] == Some(b);
    var j': nat :| j' < |vals| && Listed(schema, columns, j', pk) && vals[j'] == Some(b');
  }

  lemma UntouchedMisses(cfg: Config, schema: Schema, columns: seq<Text>, values: seq<seq<Option<Bytes>>>, k: Ticker, ws: seq<RowWrite>,
                        n: nat, r: Text, c: Text)
    requires ListedOnce(schema, columns) && WritesOfLists(cfg, schema, columns, values, k, ws)
    requires n < |ws| && !Touches(cfg, schema, columns, values[n], r, c)
    ensures Misses(ws[n], r, c)
  {
    assert WriteOfList(cfg, schema, columns, values, k, n, ws[n]);
    GivenIsCell(schema, columns, values[n], c, if LastCell(ws[n].cells, c).Some? then LastCell(ws[n].cells, c).value else None);
  }

  /** No list from the `from`-th on names the column for the row. */
  ghost predicate Untouched(cfg: Config, schema: Schema, columns: seq<Text>, values: seq<seq<Option<Bytes>>>, from: nat, r: Text, c: Text) {
    forall n :: from <= n < |values| ==> !Touches(cfg, schema, columns, values[n], r, c)
  }

  /** The cell reads as `v`, or as the latest of the entries other peers have made after `h`. */
  ghost predicate ReadsAs(s: Store, s': Store, t: Text, r: Text, c: Text, h: Hlc, v: Option<Bytes>)
    requires t in s && t in s'
  {
    var reg := RegisterAt(RowAt(s[t].rows, r), c);
    ReadCell(RowAt(s'[t].rows, r), c) == if Later(reg, h) == {} then v else reg[Latest(Later(reg, h))]
  }

  /** With columns named apart, the `i`-th list of an INSERT is written into the row its
      primary-key value spells: every value reads back under its column, unless a later list
      for that row names the column again or another peer's entry is later than the tick. */
  lemma InsertIsRead(cfg: Config, p: Peer, t: Text, columns: seq<Text>, values: seq<seq<Option<Bytes>>>, now: nat -> nat, i: nat)
    returns (r: Text)
    requires PlanAt(cfg, p, Insert(t, columns, values), now).error.None? && i < |values|
    requires t in p.state.store && ListedOnce(p.state.store[t].schema, columns)
    ensures forall r' :: RowOfValues(cfg, p.state.store[t].schema, columns, values[i], r') <==> r' == r
    ensures var s, s' := p.state.store, ExecuteOf(cfg, p, Insert(t, columns, values), now).state.store;
      && t in s'
      && forall c, v :: Gives(s[t].schema, columns, values[i], c, v) && Untouched(cfg, s[t].schema, columns, values, i + 1, r, c) ==>
           ReadsAs(s, s', t, r, c, TimeOf(TickerOf(p, now), i), v)
  {
    var table, k := p.state.store[t], TickerOf(p, now);
    var schema := table.schema;
    var ws := InsertWrites(cfg, p, t, columns, values, now);
    assert WriteOfList(cfg, schema, columns, values, k, i, ws[i]);
    r := ws[i].row;
    forall r' | RowOfValues(cfg, schema, columns, values[i], r') ensures r' == r { OneRowOfValues(cfg, schema, columns, values[i], r, r'); }
    forall n | 0 <= n < |ws| ensures ws[n].hlc.peer == p.id { assert WriteOfList(cfg, schema, columns, values, k, n, ws[n]); }
    forall c, v | Gives(schema, columns, values[i], c, v) && Untouched(cfg, schema, columns, values, i + 1, r, c)
      ensures var reg, h := RegisterAt(RowAt(table.rows, r), c), TimeOf(k, i);
        ReadCell(RowAt(AfterWrites(table, ws).rows, r), c) == if Later(reg, h) == {} then v else reg[Latest(Later(reg, h))]
    {
      GivenIsCell(schema, columns, values[i], c, v);
      forall n | i < n < |ws| ensures Misses(ws[n], r, c) { UntouchedMisses(cfg, schema, columns, values, k, ws, n, r, c); }
      GivenIsRead(table, ws, i, c, v);
    }
  }

  /** A cell that no list names for its row keeps its register, in every row. */
  lemma InsertKeepsCells(cfg: Config, p: Peer, t: Text, columns: seq<Text>, values: seq<seq<Option<Bytes>>>, now: nat -> nat, r: Text, c: Text)
    requires PlanAt(cfg, p, Insert(t, columns, values), now).error.None?
    requires t in p.state.store && ListedOnce(p.state.store[t].schema, columns)
    requires Untouched(cfg, p.state.store[t].schema, columns, values, 0, r, c)
    ensures var s' := ExecuteOf(cfg, p, Insert(t, columns, values), now).state.store;
      t in s' && RegisterAt(RowAt(s'[t].rows, r), c) == RegisterAt(RowAt(p.state.store[t].rows, r), c)
  {
    var table, k := p.state.store[t], TickerOf(p, now);
    var ws := InsertWrites(cfg, p, t, columns, values, now);
    forall n | 0 <= n < |ws| ensures Misses(ws[n], r, c) { UntouchedMisses(cfg, table.schema, columns, values, k, ws, n, r, c); }
    KeptAfter(table, ws, 0, r, c);
  }

  /** INSERT changes no schema and no other table, and no membership entry but those of the
      rows its lists are for. */
  lemma InsertKeepsRest(cfg: Config, p: Peer, t: Text, columns: seq<Text>, values: seq<seq<Option<Bytes>>>, now: nat -> nat, r: Text)
    requires PlanAt(cfg, p, Insert(t, columns, values), now).error.None? && t in p.state.store
    ensures var s, s' := p.state.store, ExecuteOf(cfg, p, Insert(t, columns, values), now).state.store;
      && s'.Keys == s.Keys && (forall u :: u in s && u != t ==> s'[u] == s[u]) && s'[t].schema == s[t].schema
      && ((forall n :: 0 <= n < |values| ==> !RowOfValues(cfg, s[t].schema, columns, values[n], r)) ==>
            OrSets.EntryOf(s'[t].membership, r) == OrSets.EntryOf(s[t].membership, r))
  {
    var table, k := p.state.store[t], TickerOf(p, now);
    var ws := InsertWrites(cfg, p, t, columns, values, now);
    Unnamed(table, ws, r);
    forall n | 0 <= n < |ws| ensures RowOfValues(cfg, table.schema, columns, values[n], ws[n].row) {
      assert WriteOfList(cfg, table.schema, columns, values, k, n, ws[n]);
    }
  }

  // ----- Visibility -----

  /** `o` inserts the row of the value list. */
  ghost predicate InsertsList(cfg: Config, t: Text, schema: Schema, columns: seq<Text>, vals: seq<Option<Bytes>>, o: Op) {
    o.InsertRow? && o.table == t && RowOfValues(cfg, schema, columns, vals, o.row)
  }

  lemma RowInsertsList(cfg: Config, s: Store, t: Text, schema: Schema, pk: Text, columns: seq<Text>, vals: seq<Option<Bytes>>, h: Hlc)
    returns (o: Op)
    requires SecondaryIndexes.PrimaryKey(schema.columns) == Some(pk)
    requires PlanRow(cfg, s, t, schema, pk, CellsFor(schema, columns, vals), h).RowPlanned?
    ensures o in PlanRow(cfg, s, t, schema, pk, CellsFor(schema, columns, vals), h).ops && InsertsList(cfg, t, schema, columns, vals, o)
  {
    var r := PlannedOps(cfg, s, t, schema, pk, CellsFor(schema, columns, vals), h);
    KeyIsRow(cfg, schema, pk, columns, vals);
    o := InsertRow(t, r, h, CellsFor(schema, columns, vals));
  }

  lemma {:induction false} FoldHas(rows: seq<RowPlan>, n: nat)
    requires FoldRows(rows).error.None? && n < |rows|
    ensures rows[n].RowPlanned? && forall o :: o in rows[n].ops ==> o in FoldRows(rows).ops
  {
    var m := |rows| - 1;
    if n < m { FoldHas(rows[..m], n); }
  }

  lemma RowsInsertLists(cfg: Config, s: Store, t: Text, schema: Schema, pk: Text, columns: seq<Text>,
                        values: seq<seq<Option<Bytes>>>, k: Ticker, n: nat) returns (o: Op)
    requires SecondaryIndexes.PrimaryKey(schema.columns) == Some(pk) && n < |values|
    requires PlanRows(cfg, s, t, schema, pk, columns, values, k).error.None?
    ensures o in PlanRows(cfg, s, t, schema, pk, columns, values, k).ops && InsertsList(cfg, t, schema, columns, values[n], o)
  {
    var rows := RowPlans(cfg, s, t, schema, pk, columns, values, k);
    PlanRowsIsFold(cfg, s, t, schema, pk, columns, values, k, rows);
    FoldHas(rows, n);
    o := RowInsertsList(cfg, s, t, schema, pk, columns, values[n], TimeOf(k, n));
  }

  /** In every cluster that keeps the invariant the row of every list is visible to the
      inserter at once, even if it had been deleted, tombstoned or cascaded away before. */
  lemma ListedRowIsVisible(cfg: Config, c: Cluster, i: nat, t: Text, columns: seq<Text>, values: seq<seq<Option<Bytes>>>, now: nat -> nat,
                           n: nat, r: Text)
    requires Inv(cfg, c) && Enabled(cfg, c, Execute(i, Insert(t, columns, values), now))
    requires PlanAt(cfg, c.peers[i], Insert(t, columns, values), now).error.None? && n < |values|
    requires var s := c.peers[i].state.store;
      t in s && ListedOnce(s[t].schema, columns) && RowOfValues(cfg, s[t].schema, columns, values[n], r)
    ensures var s' := ExecuteOf(cfg, c.peers[i], Insert(t, columns, values), now).state.store; t in s' && IsVisible(s'[t], r)
  {
    var p := c.peers[i];
    var schema := p.state.store[t].schema;
    var o := RowsInsertLists(cfg, p.state.store, t, schema, SecondaryIndexes.PrimaryKey(schema.columns).value, columns, values,
                             TickerOf(p, now), n);
    OneRowOfValues(cfg, schema, columns, values[n], r, o.row);
    InsertedIsVisible(cfg, c, i, Insert(t, columns, values), now, o);
  }
}
