/** What a DELETE statement under Cascade hides from the deleting peer at once. */
module CascadedDeletes {
  import opened ByteStrings
  import opened Clocks
  import opened Ops
  import opened RowStores
  import opened Sorting
  import opened FkResolution
  import opened Planner
  import opened Rebuild
  import opened Peers
  import Cascade
  import Deletions
  import Executor
  import OrSets

  /** A key of the row's table refers to `t`, and the row's cell under it holds exactly `m`. */
  ghost predicate PointsAt(s: Store, u: Text, r: Text, t: Text, m: Text) {
    u in s && exists fk :: fk in s[u].schema.foreignKeys && fk.refTable == t && ReadCell(RowAt(s[u].rows, r), fk.column) == Some(m)
  }

  /** The row is one of the rows `ms` of `t`, or points at one of them. */
  ghost predicate Hit(s: Store, t: Text, ms: set<Text>, u: Text, r: Text) {
    (u == t && r in ms) || exists m :: m in ms && PointsAt(s, u, r, t, m)
  }

  /** `s'` is `s` with exactly the hit rows hidden; schemas, cells and other entries are the same. */
  ghost predicate HidesHit(s: Store, s': Store, t: Text, ms: set<Text>) {
    && s'.Keys == s.Keys && (forall u :: u in s ==> s'[u].schema == s[u].schema && s'[u].rows == s[u].rows)
    && (forall u, r :: u in s ==> (IsVisible(s'[u], r) <==> IsVisible(s[u], r) && !Hit(s, t, ms, u, r)))
    && (forall u, r :: u in s && !Hit(s, t, ms, u, r) ==> OrSets.EntryOf(s'[u].membership, r) == OrSets.EntryOf(s[u].membership, r))
  }

  lemma ChildIff(s: Store, u: Text, r: Text, t: Text, m: Text)
    ensures (u, r) in Children(s, t, m) <==> u in s && IsVisible(s[u], r) && PointsAt(s, u, r, t, m)
  {
  }

  /** One delete op hides its row and the visible rows that point at it. */
  lemma DeleteHits(s: Store, t: Text, m: Text, h: Hlc)
    requires t in s
    ensures HidesHit(s, EagerCascade(ApplyOp(s, DeleteRow(t, m, h, false)), t, m), t, {m})
  {
    var mid := ApplyOp(s, DeleteRow(t, m, h, false));
    var d := Children(mid, t, m);
    var s' := Cascade.Kill(mid, d);
    Deletions.DeleteHides(s[t], m, h, false);
    forall u, r | u in s
      ensures IsVisible(s'[u], r) <==> IsVisible(s[u], r) && !Hit(s, t, {m}, u, r)
      ensures !Hit(s, t, {m}, u, r) ==> OrSets.EntryOf(s'[u].membership, r) == OrSets.EntryOf(s[u].membership, r)
    {
      ChildIff(mid, u, r, t, m);
      Cascade.KillSeen(mid, d, (u, r));
      assert r in VisibleRows(mid[u]) <==> r in VisibleRows(s[u]) && !(u == t && r == m);
      assert PointsAt(mid, u, r, t, m) <==> PointsAt(s, u, r, t, m);
      assert Hit(s, t, {m}, u, r) <==> (u == t && r == m) || PointsAt(s, u, r, t, m);
    }
  }

  lemma HitsAdd(s: Store, s1: Store, s2: Store, t: Text, ms: set<Text>, m: Text, all: set<Text>)
    requires HidesHit(s, s1, t, ms) && HidesHit(s1, s2, t, {m}) && all == ms + {m}
    ensures HidesHit(s, s2, t, all)
  {
    forall u, r | u in s
      ensures Hit(s, t, all, u, r) <==> Hit(s, t, ms, u, r) || Hit(s1, t, {m}, u, r)
    {
      assert forall n :: PointsAt(s1, u, r, t, n) <==> PointsAt(s, u, r, t, n);
    }
  }

  lemma HidesNothing(s: Store, t: Text)
    ensures HidesHit(s, s, t, {})
  {
  }

  lemma LastDelete(cfg: Config, d: Derived, t: Text, ids: seq<Text>, rest: seq<Text>, m: nat, k: Ticker)
    requires cfg.policy.Cascade? && m + 1 == |ids| && rest == ids[..m]
    ensures StateAll(cfg, d, DeleteOps(t, ids, false, k)).store
      == EagerCascade(ApplyOp(StateAll(cfg, d, DeleteOps(t, rest, false, k)).store, DeleteRow(t, ids[m], TimeOf(k, m), false)), t, ids[m])
  {
    assert DeleteOps(t, ids, false, k)[..m] == DeleteOps(t, rest, false, k);
  }

  lemma LastElement(ids: seq<Text>, rest: seq<Text>, m: nat)
    requires m + 1 == |ids| && rest == ids[..m]
    ensures Elements(ids) == Elements(rest) + {ids[m]}
  {
    assert ids == rest + [ids[m]];
  }

  lemma {:induction false} DeletesHit(cfg: Config, d: Derived, t: Text, ids: seq<Text>, k: Ticker)
    requires cfg.policy.Cascade? && t in d.store
    ensures HidesHit(d.store, StateAll(cfg, d, DeleteOps(t, ids, false, k)).store, t, Elements(ids))
  {
    if |ids| == 0 {
      assert Elements(ids) == {};
      HidesNothing(d.store, t);
    } else {
      var m := |ids| - 1;
      var rest := ids[..m];
      var before, after := StateAll(cfg, d, DeleteOps(t, rest, false, k)).store, StateAll(cfg, d, DeleteOps(t, ids, false, k)).store;
      DeletesHit(cfg, d, t, rest, k);
      LastDelete(cfg, d, t, ids, rest, m, k);
      DeleteHits(before, t, ids[m], TimeOf(k, m));
      LastElement(ids, rest, m);
      HitsAdd(d.store, before, after, t, Elements(rest), ids[m], Elements(ids));
    }
  }

  /** DELETE under Cascade hides exactly the visible rows that match and the visible rows one
      of whose keys holds the id of a matching row; it changes no schema, no cell and the
      membership of no other row. */
  lemma DeleteCascades(cfg: Config, p: Peer, t: Text, filter: Option<Executor.Expr>, now: nat -> nat)
    requires cfg.policy.Cascade? && t in p.state.store
    ensures HidesHit(p.state.store, ExecuteOf(cfg, p, Delete(t, filter), now).state.store, t, Executor.Matching(p.state.store[t], filter))
  {
    DeletesHit(cfg, p.state, t, Executor.MatchingIds(p.state.store[t], filter), TickerOf(p, now));
  }
}
