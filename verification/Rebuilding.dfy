/** The loops of the rebuild: replay into a fresh store, elect, null the losers, cascade. */
module Rebuilding {
  import opened ByteStrings
  import opened Ops
  import opened RowStores
  import opened Replay
  import opened Sorting
  import opened Arbitration
  import opened Rebuild
  import opened StoreObjects
  import C = Cascade
  import OrSets
  import U = Uniqueness

  /** Uniqueness state updated in place: load the column's index, reserve, store it back. */
  method ReserveInto(u: UniqueState, o: Op) returns (u': UniqueState)
    requires o.ReserveUnique?
    ensures u' == ReserveIn(u, o)
  {
    var cols := if o.table in u then u[o.table] else map[];
    var idx := new U.UniqueIndex(if o.column in cols then cols[o.column] else U.EMPTY);
    idx.Reserve(U.Reservation(o.value, o.row, o.hlc.peer, o.hlc, U.Provisional));
    u' := u[o.table := cols[o.column := U.Index(idx.reservations, idx.conflictLog)]];
  }

  /** Replay in order: claims into the uniqueness state, everything else into the store. */
  method ReplayAll(ops: seq<Op>) returns (store: RowStore, u: UniqueState)
    ensures fresh(store) && store.tables == ReplayOf(ops) && u == ReplayUnique(ops)
  {
    store := new RowStore();
    u := map[];
    for i := 0 to |ops|
      invariant fresh(store) && store.tables == ReplayOf(ops[..i]) && u == ReplayUnique(ops[..i])
    {
      assert ops[..i + 1][..i] == ops[..i];
      if ops[i].ReserveUnique? {
        u := ReserveInto(u, ops[i]);
      } else {
        store.Apply(ops[i]);
      }
    }
    assert ops[..|ops|] == ops;
  }

  // ----- Nulling the losers -----

  lemma {:induction false} ArbitrateConcat(s: Store, xs: seq<NullWrite>, ys: seq<NullWrite>)
    ensures Arbitrate(s, xs + ys) == Arbitrate(Arbitrate(s, xs), ys)
  {
    if |ys| == 0 {
      assert xs + ys == xs;
    } else {
      var m, zs := |ys| - 1, xs + ys;
      assert zs[..|zs| - 1] == xs + ys[..m] && zs[|zs| - 1] == ys[m];
      ArbitrateConcat(s, xs, ys[..m]);
      assert Arbitrate(s, zs) == ArbitrateOne(Arbitrate(s, xs + ys[..m]), ys[m]);
    }
  }

  lemma FlatMapSnoc<K, V>(ks: seq<K>, i: nat, f: K -> seq<V>)
    requires i < |ks|
    ensures FlatMap(ks[..i + 1], f) == FlatMap(ks[..i], f) + f(ks[i])
  {
    assert ks[..i + 1][..i] == ks[..i];
  }

  lemma ArbitrateNext<K>(s: Store, ks: seq<K>, i: nat, f: K -> seq<NullWrite>)
    requires i < |ks|
    ensures Arbitrate(s, FlatMap(ks[..i + 1], f)) == Arbitrate(Arbitrate(s, FlatMap(ks[..i], f)), f(ks[i]))
  {
    FlatMapSnoc(ks, i, f);
    ArbitrateConcat(s, FlatMap(ks[..i], f), f(ks[i]));
  }

  method NullReservation(store: RowStore, t: Text, c: Text, cols: seq<Text>, r: U.Reservation)
    requires cols == ColsToNull(c)
    modifies store
    ensures store.tables == Arbitrate(old(store.tables), NullsOfReservation(t, c, r))
  {
    assert NullsOfReservation(t, c, r)[..0] == [];
    if r.state.Lost? && t in store.tables && OrSets.Visible(store.tables[t].membership, r.row) {
      var table := new TableState(store.tables[t]);
      table.Update(r.row, NullHlc(r.hlc), NullCells(cols));
      store.tables := store.tables[t := Table(table.schema, table.membership, table.rows)];
    }
  }

  method NullList(store: RowStore, t: Text, c: Text, cols: seq<Text>, rs: seq<U.Reservation>)
    requires cols == ColsToNull(c)
    modifies store
    ensures store.tables == Arbitrate(old(store.tables), NullsOfList(t, c, rs))
  {
    for i := 0 to |rs|
      invariant store.tables == Arbitrate(old(store.tables), NullsOfList(t, c, rs[..i]))
    {
      ArbitrateNext(old(store.tables), rs, i, OfReservation(t, c));
      NullReservation(store, t, c, cols, rs[i]);
    }
    assert rs[..|rs|] == rs;
  }

  method NullColumn(store: RowStore, t: Text, c: Text, idx: U.Index)
    modifies store
    ensures store.tables == Arbitrate(old(store.tables), NullsOfColumn(t, c, idx))
  {
    var vs, cols := SortedKeys(idx.reservations), ColsToNull(c);
    ghost var f, s := OfValue(t, c, idx), store.tables;
    for i := 0 to |vs|
      invariant store.tables == Arbitrate(s, FlatMap(vs[..i], f))
    {
      ArbitrateNext(s, vs, i, f);
      NullList(store, t, c, cols, U.ListFor(idx, vs[i]));
    }
    assert vs[..|vs|] == vs;
  }

  method NullTable(store: RowStore, u: UniqueState, t: Text)
    modifies store
    ensures store.tables == Arbitrate(old(store.tables), NullsOfTable(u, t))
  {
    var cs := SortedKeys(ColumnsOf(u, t));
    ghost var f := OfColumn(u, t);
    for i := 0 to |cs|
      invariant store.tables == Arbitrate(old(store.tables), FlatMap(cs[..i], f))
    {
      ArbitrateNext(old(store.tables), cs, i, f);
      NullColumn(store, t, cs[i], IndexAt(u, t, cs[i]));
    }
    assert cs[..|cs|] == cs;
  }

  /** Tables, columns and values in key order, then reservations in list order. */
  method NullLosers(store: RowStore, u: UniqueState)
    modifies store
    ensures store.tables == Arbitrate(old(store.tables), NullWrites(u))
  {
    var ts := SortedKeys(u);
    ghost var f := OfTable(u);
    for i := 0 to |ts|
      invariant store.tables == Arbitrate(old(store.tables), FlatMap(ts[..i], f))
    {
      ArbitrateNext(old(store.tables), ts, i, f);
      NullTable(store, u, ts[i]);
    }
    assert ts[..|ts|] == ts;
  }

  /** The state a log determines. */
  method RebuildStore(cfg: Config, log: seq<Op>) returns (d: Derived)
    ensures d == RebuildOf(cfg, log)
  {
    var ops := ReplayOrder(log);
    var store, u := ReplayAll(ops);
    NullLosers(store, u);
    var tables := store.tables;
    if cfg.policy.Cascade? { tables := C.RunCascade(tables, cfg.text); }
    d := Derived(tables, u);
  }
}
