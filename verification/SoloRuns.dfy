/** Runs in which a peer's statements are planned at given wall times. */
module SoloRuns {
  import opened ByteStrings
  import opened Clocks
  import opened Ops
  import opened RowStores
  import opened Sorting
  import opened OpLogs
  import opened Planner
  import opened Rebuild
  import opened Peers
  import opened Clusters

  /** A physical clock that reads `w` throughout a statement. */
  function Fixed(w: nat): nat -> nat {
    (i: nat) => w
  }

  ghost function StoreAll(s: Store, ops: seq<Op>): Store {
    if |ops| == 0 then s else ApplyOp(StoreAll(s, ops[..|ops| - 1]), ops[|ops| - 1])
  }

  lemma {:induction false} StoreAllIs(cfg: Config, d: Derived, ops: seq<Op>)
    requires forall o :: o in ops ==> !o.DeleteRow?
    ensures StateAll(cfg, d, ops).store == StoreAll(d.store, ops)
  {
    if |ops| > 0 {
      assert ops[|ops| - 1] in ops;
      StoreAllIs(cfg, d, ops[..|ops| - 1]);
    }
  }

  /** After the steps peer `i` has this log and store, and last read the wall time `w`. */
  ghost predicate Solo(cfg: Config, ids: seq<Text>, steps: seq<Step>, i: nat, w: nat, log: seq<Op>, s: Store) {
    && Runs(cfg, ids, steps) && i < |ids| == |After(cfg, ids, steps).peers|
    && var p := After(cfg, ids, steps).peers[i];
       p.id == ids[i] && p.clock.wall == w && p.clock.logical < 100 && p.log == log && p.state.store == s
  }

  lemma SoloStart(cfg: Config, ids: seq<Text>, i: nat)
    requires i < |ids|
    ensures Solo(cfg, ids, [], i, 0, [], map[])
  {
  }

  /** `n` ticks at one wall time count up. */
  lemma {:induction false} FixedTicks(k: Ticker, w: nat, i: nat)
    requires k.now == Fixed(w) && k.clock.wall < w && i < 100
    ensures TimeOf(k, i) == Hlc(w, i, k.peer) && ClockAfter(k, i + 1) == ClockState(w, i)
  {
    if i > 0 { FixedTicks(k, w, i - 1); }
  }

  lemma FixedObservation(c: ClockState, w: nat, h: Hlc)
    requires c.wall == w == h.wall && h.logical <= c.logical < 100
    ensures ObserveOf(c, w, h.wall, h.logical).clock == ClockState(w, c.logical + 1)
  {
  }

  lemma {:induction false} FixedObservations(c: ClockState, ops: seq<Op>, w: nat, from: nat)
    requires c.wall == w && c.logical + |ops| < 100
    requires forall o :: o in ops ==> o.hlc.wall == w && o.hlc.logical <= c.logical
    ensures ObserveAll(c, ops, Fixed(w), from) == ClockState(w, c.logical + |ops|)
  {
    if |ops| > 0 {
      var m := |ops| - 1;
      assert ops[m] in ops;
      FixedObservations(c, ops[..m], w, from);
      FixedObservation(ClockState(w, c.logical + m), w, ops[m].hlc);
    }
  }

  lemma {:induction false} AppendAllNew(log: seq<Op>, ops: seq<Op>)
    requires NoDup(log + ops)
    ensures AppendAll(log, ops) == log + ops
  {
    if |ops| == 0 {
      assert log + ops == log;
    } else {
      var m, all, before := |ops| - 1, log + ops, log + ops[..|ops| - 1];
      assert before == all[..|before|] && all[|before|] == ops[m];
      forall i | 0 <= i < |before| ensures before[i] != ops[m] { assert before[i] == all[i]; }
      AppendAllNew(log, ops[..m]);
      assert all == before + [ops[m]];
    }
  }

  /** What the statement plans at wall time `w`, whatever the peer's earlier clock. */
  ghost predicate Plans(cfg: Config, id: Text, s: Store, stmt: Stmt, w: nat, ops: seq<Op>, ticks: nat) {
    forall k: Ticker :: k.peer == id && k.now == Fixed(w) && k.clock.wall < w ==> PlanOf(cfg, s, stmt, k) == Plan(ops, ticks, None)
  }

  /** A statement at a later wall time extends log and store by its ops; the other peers stay. */
  lemma SoloStep(cfg: Config, ids: seq<Text>, steps: seq<Step>, i: nat, w: nat, log: seq<Op>, s: Store,
                 stmt: Stmt, w': nat, ops: seq<Op>, ticks: nat)
    requires Solo(cfg, ids, steps, i, w, log, s) && w < w' && 0 < ticks && ticks + |ops| < 50
    requires Plans(cfg, ids[i], s, stmt, w', ops, ticks) && (stmt.Create? ==> NamesApart(stmt.schema))
    requires forall o :: o in ops ==> !o.DeleteRow? && o.hlc.wall == w' && o.hlc.logical < ticks
    requires NoDup(log + ops)
    ensures var next := steps + [Execute(i, stmt, Fixed(w'))];
      && Solo(cfg, ids, next, i, w', log + ops, StoreAll(s, ops))
      && forall j :: 0 <= j < |ids| && j != i ==> After(cfg, ids, next).peers[j] == After(cfg, ids, steps).peers[j]
  {
    var c, step := After(cfg, ids, steps), Execute(i, stmt, Fixed(w'));
    var p, k := c.peers[i], TickerOf(c.peers[i], Fixed(w'));
    assert PlanAt(cfg, p, stmt, Fixed(w')) == Plan(ops, ticks, None);
    FixedTicks(k, w', ticks - 1);
    FixedObservations(ClockState(w', ticks - 1), ops, w', ticks);
    AppendAllNew(log, ops);
    StoreAllIs(cfg, p.state, ops);
    assert (steps + [step])[..|steps|] == steps;
  }
}
