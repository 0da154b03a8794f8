/** What UPDATE and INSERT statements leave in the executing peer's store. */
module Effects {
  import opened ByteStrings
  import opened Clocks
  import opened Ops
  import opened RowStores
  import opened Sorting
  import opened Planner
  import opened Rebuild
  import opened Peers
  import opened PeerInvariants
  import opened Clusters
  import Executor
  import MvRegisters
  import OrSets
  import SecondaryIndexes

  // ----- UPDATE -----

  /** The rows after writing `cells` into each listed row at its tick. */
  ghost function Rewritten(rows: map<Text, Row>, ids: seq<Text>, cells: seq<Cell>, k: Ticker): map<Text, Row> {
    if |ids| == 0 then rows
    else
      var m := |ids| - 1;
      var before := Rewritten(rows, ids[..m], cells, k);
      before[ids[m] := WriteCells(RowAt(before, ids[m]), TimeOf(k, m), cells)]
  }

  lemma StateAllSnoc(cfg: Config, d: Derived, xs: seq<Op>, o: Op, all: seq<Op>)
    requires all == xs + [o]
    ensures StateAll(cfg, d, all) == StateAfter(cfg, StateAll(cfg, d, xs), o)
  {
    assert all[..|all| - 1] == xs;
  }

  lemma {:induction false} StateAllConcat(cfg: Config, d: Derived, xs: seq<Op>, ys: seq<Op>)
    ensures StateAll(cfg, d, xs + ys) == StateAll(cfg, StateAll(cfg, d, xs), ys)
  {
    if |ys| == 0 {
      assert xs + ys == xs;
    } else {
      var m := |ys| - 1;
      StateAllConcat(cfg, d, xs, ys[..m]);
      StateAllSnoc(cfg, d, xs + ys[..m], ys[m], xs + ys);
      StateAllSnoc(cfg, StateAll(cfg, d, xs), ys[..m], ys[m], ys);
    }
  }

  lemma {:induction false} ClaimsKeepStore(cfg: Config, d: Derived, ops: seq<Op>)
    requires forall o :: o in ops ==> o.ReserveUnique?
    ensures StateAll(cfg, d, ops).store == d.store
  {
    if |ops| > 0 {
      assert ops[|ops| - 1] in ops;
      ClaimsKeepStore(cfg, d, ops[..|ops| - 1]);
    }
  }

  /** The ops of one updated row write its cells and nothing else into the store. */
  lemma UpdateOne(cfg: Config, d: Derived, schema: Schema, t: Text, r: Text, h: Hlc, cells: seq<Cell>)
    requires t in d.store
    ensures StateAll(cfg, d, [UpdateCells(t, r, h, cells)] + ColumnClaims(schema, t, r, h, cells)).store
      == d.store[t := UpdateRow(d.store[t], r, h, cells)]
  {
    var write, claims := [UpdateCells(t, r, h, cells)], ColumnClaims(schema, t, r, h, cells);
    StateAllConcat(cfg, d, write, claims);
    forall o | o in claims ensures o.ReserveUnique? { ClaimElements(schema, t, r, h, cells, o); }
    ClaimsKeepStore(cfg, StateAll(cfg, d, write), claims);
    assert write[..0] == [];
  }

  lemma {:induction false} UpdateAll(cfg: Config, d: Derived, schema: Schema, t: Text, ids: seq<Text>, cells: seq<Cell>, k: Ticker)
    requires t in d.store
    ensures StateAll(cfg, d, UpdateOps(schema, t, ids, cells, k)).store
      == d.store[t := d.store[t].(rows := Rewritten(d.store[t].rows, ids, cells, k))]
  {
    if |ids| > 0 {
      var m := |ids| - 1;
      var before, row := UpdateOps(schema, t, ids[..m], cells, k),
        [UpdateCells(t, ids[m], TimeOf(k, m), cells)] + ColumnClaims(schema, t, ids[m], TimeOf(k, m), cells);
      assert UpdateOps(schema, t, ids, cells, k) == before + row;
      UpdateAll(cfg, d, schema, t, ids[..m], cells, k);
      StateAllConcat(cfg, d, before, row);
      UpdateOne(cfg, StateAll(cfg, d, before), schema, t, ids[m], TimeOf(k, m), cells);
    }
  }

  lemma {:induction false} NotRewritten(rows: map<Text, Row>, ids: seq<Text>, cells: seq<Cell>, k: Ticker, r: Text)
    requires r !in ids
    ensures RowAt(Rewritten(rows, ids, cells, k), r) == RowAt(rows, r)
  {
    if |ids| > 0 {
      assert ids[|ids| - 1] in ids;
      NotRewritten(rows, ids[..|ids| - 1], cells, k, r);
    }
  }

  lemma {:induction false} RewrittenAt(rows: map<Text, Row>, ids: seq<Text>, cells: seq<Cell>, k: Ticker, i: nat)
    requires NoDup(ids) && i < |ids|
    ensures RowAt(Rewritten(rows, ids, cells, k), ids[i]) == WriteCells(RowAt(rows, ids[i]), TimeOf(k, i), cells)
  {
    var m := |ids| - 1;
    if i < m {
      RewrittenAt(rows, ids[..m], cells, k, i);
    } else {
      NotRewritten(rows, ids[..m], cells, k, ids[m]);
    }
  }

  /** UPDATE rewrites rows of its table and touches no schema, membership or other table. */
  lemma UpdateRewrites(cfg: Config, p: Peer, t: Text, cells: seq<Cell>, filter: Option<Executor.Expr>, now: nat -> nat)
    requires PlanAt(cfg, p, Update(t, cells, filter), now).error.None?
    ensures t in p.state.store
    ensures var table := p.state.store[t];
      ExecuteOf(cfg, p, Update(t, cells, filter), now).state.store
        == p.state.store[t := table.(rows := Rewritten(table.rows, Executor.MatchingIds(table, filter), cells, TickerOf(p, now)))]
  {
    var table := p.state.store[t];
    UpdateAll(cfg, p.state, table.schema, t, Executor.MatchingIds(table, filter), cells, TickerOf(p, now));
  }

  lemma MatchingIdsDiffer(t: Table, filter: Option<Executor.Expr>)
    ensures NoDup(Executor.MatchingIds(t, filter))
    ensures forall r :: r in Executor.MatchingIds(t, filter) <==> r in Executor.Matching(t, filter)
  {
    var ids := Executor.MatchingIds(t, filter);
    forall i, j | 0 <= i < j < |ids| ensures ids[i] != ids[j] { LessTotal(ids[i], ids[j]); }
    forall r ensures r in ids <==> r in Executor.Matching(t, filter) { assert r in ids <==> r in Elements(ids); }
  }

  /** The matching rows are written, the `i`-th of them at the `i`-th tick; no other row is. */
  lemma UpdateEffect(cfg: Config, p: Peer, t: Text, cells: seq<Cell>, filter: Option<Executor.Expr>, now: nat -> nat, r: Text)
    requires PlanAt(cfg, p, Update(t, cells, filter), now).error.None?
    ensures var s, s' := p.state.store, ExecuteOf(cfg, p, Update(t, cells, filter), now).state.store;
      && t in s && t in s'
      && (r !in Executor.Matching(s[t], filter) ==> RowAt(s'[t].rows, r) == RowAt(s[t].rows, r))
      && (forall i :: 0 <= i < |Executor.MatchingIds(s[t], filter)| && Executor.MatchingIds(s[t], filter)[i] == r ==>
           RowAt(s'[t].rows, r) == WriteCells(RowAt(s[t].rows, r), TimeOf(TickerOf(p, now), i), cells))
  {
    UpdateRewrites(cfg, p, t, cells, filter, now);
    var rows, k, ids := p.state.store[t].rows, TickerOf(p, now), Executor.MatchingIds(p.state.store[t], filter);
    MatchingIdsDiffer(p.state.store[t], filter);
    if r in ids {
      forall i | 0 <= i < |ids| && ids[i] == r
        ensures RowAt(Rewritten(rows, ids, cells, k), r) == WriteCells(RowAt(rows, r), TimeOf(k, i), cells)
      {
        RewrittenAt(rows, ids, cells, k, i);
      }
    } else {
      NotRewritten(rows, ids, cells, k, r);
    }
  }

  /** Later entries other peers have made on a cell. */
  ghost function Later(reg: MvRegisters.Register, h: Hlc): set<Hlc> {
    set e | e in reg && e.peer != h.peer && Before(h, e)
  }

  /** An updated cell reads as the value written, unless another peer's entry is already
      later than the statement's tick, and then as the latest such entry. */
  lemma UpdateIsRead(cfg: Config, p: Peer, t: Text, cells: seq<Cell>, filter: Option<Executor.Expr>, now: nat -> nat, i: nat, c: Text)
    requires PlanAt(cfg, p, Update(t, cells, filter), now).error.None?
    requires t in p.state.store && i < |Executor.MatchingIds(p.state.store[t], filter)|
    ensures var s, s' := p.state.store, ExecuteOf(cfg, p, Update(t, cells, filter), now).state.store;
      var r, h := Executor.MatchingIds(s[t], filter)[i], TimeOf(TickerOf(p, now), i);
      var reg := RegisterAt(RowAt(s[t].rows, r), c);
      t in s' && ReadCell(RowAt(s'[t].rows, r), c) == match LastCell(cells, c)
        case None => ReadCell(RowAt(s[t].rows, r), c)
        case Some(v) => if Later(reg, h) == {} then v else reg[Latest(Later(reg, h))]
  {
    var s := p.state.store;
    var r, h := Executor.MatchingIds(s[t], filter)[i], TimeOf(TickerOf(p, now), i);
    UpdateEffect(cfg, p, t, cells, filter, now, r);
    WriteCellsAt(RowAt(s[t].rows, r), h, cells);
    if LastCell(cells, c).Some? { MvRegisters.ReadAfterWrite(RegisterAt(RowAt(s[t].rows, r), c), h, LastCell(cells, c).value); }
  }

  // ----- INSERT -----

  predicate Shown(s: Store, t: Text, r: Text) {
    t in s && IsVisible(s[t], r)
  }

  /** An insert shows its row, re-inserts included, and neither inserts nor claims hide a row. */
  lemma InsertShows(cfg: Config, d: Derived, ops: set<Op>, o: Op, t: Text, r: Text)
    requires StoreOk(cfg, d.store, ops) && OpOk(cfg, ops, o) && (o.InsertRow? || o.ReserveUnique?)
    requires Shown(d.store, t, r) || o.Inserts(t, r)
    ensures Shown(StateAfter(cfg, d, o).store, t, r)
  {
    if o.Inserts(t, r) {
      assert TableOk(cfg, d.store[t], t, ops);
      var e := OrSets.EntryOf(d.store[t].membership, r);
      if r in d.store[t].membership { assert EntryOk(ops, t, r, e); }
      assert o.hlc in e.live + {o.hlc} - e.removed;
    }
  }

  lemma {:induction false} InsertsShow(cfg: Config, d: Derived, log: set<Op>, ops: seq<Op>, o: Op)
    requires StoreOk(cfg, d.store, log) && LogOk(cfg, log) && AllFit(cfg, log, ops)
    requires forall p :: p in ops ==> p.InsertRow? || p.ReserveUnique?
    requires o in ops && o.InsertRow?
    ensures Shown(StateAll(cfg, d, ops).store, o.table, o.row)
  {
    var m := |ops| - 1;
    assert ops[m] in ops && ops == ops[..m] + [ops[m]];
    StateAllOk(cfg, d, log, ops[..m]);
    if o in ops[..m] { InsertsShow(cfg, d, log, ops[..m], o); }
    InsertShows(cfg, StateAll(cfg, d, ops[..m]), log + Elements(ops[..m]), ops[m], o.table, o.row);
  }

  lemma InsertPlans(cfg: Config, s: Store, stmt: Stmt, k: Ticker, o: Op)
    requires stmt.Insert? && PlanOf(cfg, s, stmt, k).error.None? && o in PlanOf(cfg, s, stmt, k).ops
    ensures o.InsertRow? || o.ReserveUnique?
  {
    var schema := s[stmt.table].schema;
    var i, cells, r := InsertedOp(cfg, s, stmt.table, schema, SecondaryIndexes.PrimaryKey(schema.columns).value, stmt.columns, stmt.values, k, o);
  }

  /** In every cluster that keeps the invariant, a row is visible to its inserter at once,
      even if it had been deleted, tombstoned or cascaded away before. */
  lemma InsertedIsVisible(cfg: Config, c: Cluster, i: nat, stmt: Stmt, now: nat -> nat, o: Op)
    requires Inv(cfg, c) && Enabled(cfg, c, Execute(i, stmt, now)) && stmt.Insert?
    requires var plan := PlanAt(cfg, c.peers[i], stmt, now); plan.error.None? && o in plan.ops && o.InsertRow?
    ensures Shown(ExecuteOf(cfg, c.peers[i], stmt, now).state.store, o.table, o.row)
  {
    var p, ops := c.peers[i], PlanAt(cfg, c.peers[i], stmt, now).ops;
    assert PeerOk(cfg, c, i);
    assert ClockOk(p, Elements(p.log)) by { assert forall q :: q in OpsAt(c, i) ==> q in AllOps(c); }
    PlanFits(cfg, p, stmt, now, |ops|);
    assert ops[..|ops|] == ops;
    forall q | q in ops ensures q.InsertRow? || q.ReserveUnique? { InsertPlans(cfg, p.state.store, stmt, TickerOf(p, now), q); }
    InsertsShow(cfg, p.state, Elements(p.log), ops, o);
  }
}
