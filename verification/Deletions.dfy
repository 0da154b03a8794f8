/** What a DELETE statement does to later queries. */
module Deletions {
  import opened ByteStrings
  import opened Clocks
  import opened Ops
  import opened RowStores
  import opened Sorting
  import opened FkResolution
  import opened Planner
  import opened Rebuild
  import opened Peers
  import Cascade
  import Executor

  /** `t'` is `t` with some rows hidden. */
  ghost predicate Hides(t: Table, t': Table) {
    t'.schema == t.schema && t'.rows == t.rows && VisibleRows(t') <= VisibleRows(t)
  }

  lemma DeleteHides(t: Table, r: Text, h: Hlc, fkTombstone: bool)
    ensures Hides(t, DeleteRowOf(t, r, h, fkTombstone))
    ensures VisibleRows(DeleteRowOf(t, r, h, fkTombstone)) == VisibleRows(t) - {r}
  {
    var t' := DeleteRowOf(t, r, h, fkTombstone);
    if r in t.membership { assert t'.membership[r].live - t'.membership[r].removed == {}; }
  }

  lemma KillHides(s: Store, d: set<Cascade.Node>, t: Text)
    requires t in s
    ensures Hides(s[t], Cascade.Kill(s, d)[t])
  {
    var t' := Cascade.Kill(s, d)[t];
    forall r | r in VisibleRows(t') ensures r in VisibleRows(s[t]) { Cascade.KillSeen(s, d, (t, r)); }
  }

  /** One delete op hides its row, under Cascade perhaps more, and touches nothing else. */
  lemma DeleteStep(cfg: Config, d: Derived, o: Op, t: Text)
    requires o.DeleteRow? && t in d.store
    ensures var s' := StateAfter(cfg, d, o).store;
      && t in s' && Hides(d.store[t], s'[t]) && (o.table == t ==> o.row !in VisibleRows(s'[t]))
      && (!cfg.policy.Cascade? ==> VisibleRows(s'[t]) == VisibleRows(d.store[t]) - if o.table == t then {o.row} else {})
  {
    var s := ApplyOp(d.store, o);
    if o.table == t { DeleteHides(d.store[t], o.row, o.hlc, o.fkTombstone); }
    if cfg.policy.Cascade? { KillHides(s, Children(s, o.table, o.row), t); }
  }

  lemma {:induction false} DeleteAll(cfg: Config, d: Derived, u: Text, ids: seq<Text>, fkTombstone: bool, k: Ticker, t: Text)
    requires t in d.store
    ensures var s' := StateAll(cfg, d, DeleteOps(u, ids, fkTombstone, k)).store;
      && t in s' && Hides(d.store[t], s'[t]) && (u == t ==> VisibleRows(s'[t]) !! Elements(ids))
      && (!cfg.policy.Cascade? ==> VisibleRows(s'[t]) == VisibleRows(d.store[t]) - if u == t then Elements(ids) else {})
  {
    if |ids| > 0 {
      var m := |ids| - 1;
      var ops, before := DeleteOps(u, ids, fkTombstone, k), StateAll(cfg, d, DeleteOps(u, ids[..m], fkTombstone, k));
      assert ops[..m] == DeleteOps(u, ids[..m], fkTombstone, k);
      DeleteAll(cfg, d, u, ids[..m], fkTombstone, k, t);
      DeleteStep(cfg, before, ops[m], t);
      assert Elements(ids) == Elements(ids[..m]) + {ids[m]} by { assert ids == ids[..m] + [ids[m]]; }
    }
  }

  lemma DeletedRows(cfg: Config, p: Peer, t: Text, filter: Option<Executor.Expr>, now: nat -> nat, u: Text)
    requires t in p.state.store && u in p.state.store
    ensures var s' := ExecuteOf(cfg, p, Delete(t, filter), now).state.store;
      && u in s' && Hides(p.state.store[u], s'[u])
      && (u == t ==> VisibleRows(s'[u]) !! Executor.Matching(p.state.store[t], filter))
      && (!cfg.policy.Cascade? ==>
           VisibleRows(s'[u]) == VisibleRows(p.state.store[u]) - if u == t then Executor.Matching(p.state.store[t], filter) else {})
  {
    DeleteAll(cfg, p.state, t, Executor.MatchingIds(p.state.store[t], filter), cfg.policy.Tombstone?, TickerOf(p, now), u);
  }

  /** After DELETE WHERE f, under any policy, SELECT WHERE f returns nothing. */
  lemma DeletedAreGone(cfg: Config, p: Peer, t: Text, filter: Option<Executor.Expr>, now: nat -> nat, q: Executor.Query)
    requires t in p.state.store && q.table == t && q.filter == filter
    ensures Executor.Select(ExecuteOf(cfg, p, Delete(t, filter), now).state.store, q) == Some([])
  {
    DeletedRows(cfg, p, t, filter, now, t);
    var t' := ExecuteOf(cfg, p, Delete(t, filter), now).state.store[t];
    assert Executor.Matching(t', filter) == {};
    NoElements(Executor.MatchingIds(t', filter));
  }

  lemma SameMatching(t: Table, t': Table, f: Option<Executor.Expr>, gone: set<Text>)
    requires Hides(t, t') && VisibleRows(t') == VisibleRows(t) - gone
    requires forall r :: r in gone ==> !Executor.Passes(f, RowAt(t.rows, r))
    ensures Executor.Matching(t', f) == Executor.Matching(t, f)
  {
  }

  /** Unless deletes cascade, a query that matches no deleted row answers as before. */
  lemma OthersStay(cfg: Config, p: Peer, t: Text, filter: Option<Executor.Expr>, now: nat -> nat, q: Executor.Query)
    requires t in p.state.store && !cfg.policy.Cascade?
    requires q.table == t ==> forall row :: Executor.Passes(q.filter, row) ==> !Executor.Passes(filter, row)
    ensures Executor.Select(ExecuteOf(cfg, p, Delete(t, filter), now).state.store, q) == Executor.Select(p.state.store, q)
  {
    var s' := ExecuteOf(cfg, p, Delete(t, filter), now).state.store;
    SameTables(cfg, p.state, DeleteOps(t, Executor.MatchingIds(p.state.store[t], filter), cfg.policy.Tombstone?, TickerOf(p, now)));
    if q.table in p.state.store {
      DeletedRows(cfg, p, t, filter, now, q.table);
      var s := p.state.store;
      var gone := if q.table == t then Executor.Matching(s[t], filter) else {};
      SameMatching(s[q.table], s'[q.table], q.filter, gone);
      Executor.SelectDependsOnMatching(s', p.state.store, q);
    }
  }

  lemma DeleteKeepsTables(cfg: Config, d: Derived, o: Op)
    requires o.DeleteRow?
    ensures StateAfter(cfg, d, o).store.Keys == d.store.Keys
  {
  }

  lemma {:induction false} SameTables(cfg: Config, d: Derived, ops: seq<Op>)
    requires forall o :: o in ops ==> o.DeleteRow?
    ensures StateAll(cfg, d, ops).store.Keys == d.store.Keys
  {
    if |ops| > 0 {
      var m := |ops| - 1;
      assert ops[m] in ops;
      SameTables(cfg, d, ops[..m]);
      DeleteKeepsTables(cfg, StateAll(cfg, d, ops[..m]), ops[m]);
    }
  }
}
