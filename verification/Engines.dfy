/** The database engine of one peer: log, store, uniqueness state and indexes, updated in place. */
module Engines {
  import opened ByteStrings
  import opened Clocks
  import opened Ops
  import opened RowStores
  import opened FkResolution
  import opened Planner
  import opened Rebuild
  import opened Peers
  import opened OpLogs
  import opened StoreObjects
  import AntiEntropy
  import Arbitration
  import C = Cascade
  import Executor
  import Planning
  import Rebuilding
  import SecondaryIndexes

  // ----- Secondary indexes of a table -----

  datatype IndexData = IndexData(columns: seq<Text>, entries: map<SecondaryIndexes.IndexKey, Text>)

  type Manager = map<Text, IndexData>

  ghost predicate Exact(m: Manager, t: Table, text: Bytes -> Text) {
    forall n :: n in m ==> SecondaryIndexes.IsIndexOf(m[n].entries, t, m[n].columns, text)
  }

  ghost predicate SameColumns(m: Manager, m': Manager) {
    m'.Keys == m.Keys && forall n :: n in m ==> m'[n].columns == m[n].columns
  }

  /** The same indexes on the same columns; only their entries may differ. */
  ghost predicate SameIndexes(indexes: map<Text, Manager>, indexes': map<Text, Manager>) {
    indexes'.Keys == indexes.Keys && forall t :: t in indexes ==> SameColumns(indexes[t], indexes'[t])
  }

  method RebuildAll(m: Manager, t: Table, text: Bytes -> Text) returns (m': Manager)
    ensures Exact(m', t, text) && SameColumns(m, m')
  {
    m' := m;
    var todo := m.Keys;
    while todo != {}
      invariant todo <= m.Keys && SameColumns(m, m')
      invariant forall n :: n in m && n !in todo ==> SecondaryIndexes.IsIndexOf(m'[n].entries, t, m'[n].columns, text)
      decreases todo
    {
      var n :| n in todo;
      var idx := new SecondaryIndexes.SecondaryIndex(m[n].columns);
      idx.RebuildFrom(t, text);
      m' := m'[n := IndexData(m[n].columns, idx.entries)];
      todo := todo - {n};
    }
  }

  function ManagerOf(indexes: map<Text, Manager>, t: Text): Manager {
    if t in indexes then indexes[t] else map[]
  }

  /** Every index of a table the store has is the index of that table's visible rows. */
  ghost predicate AllExact(indexes: map<Text, Manager>, s: Store, text: Bytes -> Text) {
    forall t :: t in indexes && t in s ==> Exact(indexes[t], s[t], text)
  }

  method RebuildEvery(indexes: map<Text, Manager>, s: Store, text: Bytes -> Text) returns (indexes': map<Text, Manager>)
    ensures AllExact(indexes', s, text) && SameIndexes(indexes, indexes')
  {
    indexes' := indexes;
    var todo := indexes.Keys;
    while todo != {}
      invariant todo <= indexes.Keys && SameIndexes(indexes, indexes')
      invariant forall t :: t in indexes && t !in todo && t in s ==> Exact(indexes'[t], s[t], text)
      decreases todo
    {
      var t :| t in todo;
      if t in s {
        var m := RebuildAll(indexes[t], s[t], text);
        indexes' := indexes'[t := m];
      }
      todo := todo - {t};
    }
  }

  /** An op as the planner makes it names the table it creates. */
  predicate NamesItsTable(o: Op) {
    o.CreateTable? ==> o.table == o.schema.name
  }

  lemma OtherTableStays(s: Store, o: Op, t: Text)
    requires NamesItsTable(o) && t != o.table
    ensures t in ApplyOp(s, o) <==> t in s
    ensures t in s ==> ApplyOp(s, o)[t] == s[t]
  {
  }

  // ----- The engine -----

  class Engine {
    const peerId: Text
    const cfg: Config
    const clock: HlcClock
    const log: OpLog
    const store: RowStore
    var uniqueness: Arbitration.UniqueState
    var indexes: map<Text, Manager>

    ghost predicate Valid() reads this, log {
      log.Valid() && clock.peer == peerId
    }

    ghost function Footprint(): set<object> {
      {this, clock, log, store}
    }

    ghost function State(): Peer reads this, clock, log, store {
      Peer(peerId, clock.State(), log.Ops(), Derived(store.tables, uniqueness))
    }

    ghost predicate IndexesExact() reads this, store {
      AllExact(indexes, store.tables, cfg.text)
    }

    constructor (peerId: Text, cfg: Config)
      ensures Valid() && State() == Open(peerId) && IndexesExact()
      ensures this.peerId == peerId && this.cfg == cfg && fresh(Footprint())
    {
      this.peerId, this.cfg := peerId, cfg;
      clock := new HlcClock(peerId);
      log := new OpLog();
      store := new RowStore();
      uniqueness, indexes := map[], map[];
    }

    // ----- Local ops -----

    /** The eager cascade of a local delete.  Deleting the affected rows once more, as the
        source does, changes nothing. */
    method CascadeEagerly(table: Text, row: Text, h: Hlc)
      modifies store
      ensures store.tables == EagerCascade(old(store.tables), table, row)
    {
      ghost var s0 := store.tables;
      var affected;
      store.tables, affected := CascadeDelete(store.tables, table, row, h);
      ghost var d := affected;
      while affected != {}
        invariant affected <= d && store.tables == C.Kill(s0, d)
        decreases affected
      {
        var x :| x in affected;
        var again := Hlc(h.wall, Succ32(h.logical), Ascii("__cascade__") + h.peer);
        C.KillOne(s0, d, x, again);
        assert d + {x} == d;
        store.Apply(DeleteRow(x.0, x.1, again, false));
        affected := affected - {x};
      }
    }

    method RefreshIndexes(t: Text)
      modifies `indexes
      ensures t in indexes && t in store.tables ==> Exact(indexes[t], store.tables[t], cfg.text)
      ensures SameIndexes(old(indexes), indexes) && forall u :: u in indexes && u != t ==> indexes[u] == old(indexes)[u]
    {
      if t in store.tables && t in indexes {
        var m := RebuildAll(indexes[t], store.tables[t], cfg.text);
        indexes := indexes[t := m];
      }
    }

    method ApplyOp(o: Op, now: nat)
      requires Valid()
      modifies Footprint()
      ensures Valid()
      ensures State() == ApplyOne(cfg, old(State()), o, now)
      ensures SameIndexes(old(indexes), indexes)
      ensures old(IndexesExact()) && NamesItsTable(o) && !cfg.policy.Cascade? ==> IndexesExact()
    {
      var _ := clock.Observe(now, o.hlc);
      if o.ReserveUnique? {
        uniqueness := Rebuilding.ReserveInto(uniqueness, o);
      } else {
        store.Apply(o);
        if o.DeleteRow? && cfg.policy.Cascade? { CascadeEagerly(o.table, o.row, o.hlc); }
        RefreshIndexes(o.table);
        if old(IndexesExact()) && NamesItsTable(o) && !cfg.policy.Cascade? {
          forall t | t in indexes && t in store.tables ensures Exact(indexes[t], store.tables[t], cfg.text) {
            if t != o.table { OtherTableStays(old(store.tables), o, t); }
          }
        }
      }
      var _ := log.Append(o);
    }

    method ApplyEach(ops: seq<Op>, now: nat -> nat, from: nat)
      requires Valid() && forall o :: o in ops ==> NamesItsTable(o)
      modifies Footprint()
      ensures Valid()
      ensures State() == ApplyAll(cfg, old(State()), ops, now, from)
      ensures SameIndexes(old(indexes), indexes)
      ensures old(IndexesExact()) && !cfg.policy.Cascade? ==> IndexesExact()
    {
      ghost var p := State();
      for i := 0 to |ops|
        invariant Valid()
        invariant State() == ApplyAll(cfg, p, ops[..i], now, from)
        invariant SameIndexes(old(indexes), indexes)
        invariant old(IndexesExact()) && !cfg.policy.Cascade? ==> IndexesExact()
      {
        assert ops[i] in ops;
        ApplyNext(cfg, p, ops, now, from, i);
        ApplyOp(ops[i], now(from + i));
      }
      assert ops[..|ops|] == ops;
    }

    /** A statement: plan it against the current store, then apply the ops in turn. */
    method Execute(stmt: Stmt, now: nat -> nat) returns (error: Option<PlanError>)
      requires Valid()
      modifies Footprint()
      ensures Valid()
      ensures error == PlanAt(cfg, old(State()), stmt, now).error
      ensures State() == ExecuteOf(cfg, old(State()), stmt, now)
      ensures SameIndexes(old(indexes), indexes)
      ensures old(IndexesExact()) && !cfg.policy.Cascade? ==> IndexesExact()
    {
      ghost var p := State();
      var plan := Planning.PlanStatement(cfg, clock, store.tables, stmt, now);
      assert plan == PlanAt(cfg, p, stmt, now);
      if plan.error.Some? { return plan.error; }
      forall o | o in plan.ops ensures NamesItsTable(o) { PlanNamesTables(cfg, p, stmt, now, o); }
      ApplyEach(plan.ops, now, plan.ticks);
      error := None;
    }

    /** A query reads the current store. */
    method Query(q: Executor.Query) returns (rows: Option<seq<Executor.ResultRow>>)
      ensures rows == Executor.Select(State().state.store, q)
    {
      rows := Executor.Select(store.tables, q);
    }

    // ----- Rebuild and sync -----

    /** Replace the derived state by what the log determines. */
    method Rebuild()
      requires Valid()
      modifies `uniqueness, `indexes, store
      ensures Valid() && IndexesExact() && SameIndexes(old(indexes), indexes)
      ensures State() == old(State()).(state := RebuildOf(cfg, old(log.Ops())))
    {
      var d := Rebuilding.RebuildStore(cfg, OpsOf(log.entries));
      indexes := RebuildEvery(indexes, d.store, cfg.text);
      store.tables, uniqueness := d.store, d.uniqueness;
    }

    /** The logs exchange their ops; nothing derived from them is touched yet. */
    method Exchange(other: Engine)
      requires Valid() && other.Valid() && Footprint() !! other.Footprint()
      modifies log, other.log
      ensures Valid() && other.Valid()
      ensures State() == old(State()).(log := AntiEntropy.Receive(old(log.Ops()), old(other.log.Ops())))
      ensures other.State() == old(other.State()).(log := AntiEntropy.Receive(old(other.log.Ops()), old(log.Ops())))
    {
      var _, _ := AntiEntropy.SyncPeers(log, other.log);
    }

    method SyncWith(other: Engine)
      requires Valid() && other.Valid() && Footprint() !! other.Footprint()
      modifies Footprint(), other.Footprint()
      ensures Valid() && other.Valid() && IndexesExact() && other.IndexesExact()
      ensures SameIndexes(old(indexes), indexes) && SameIndexes(old(other.indexes), other.indexes)
      ensures State() == ReceiveFrom(cfg, old(State()), old(other.log.Ops()))
      ensures other.State() == ReceiveFrom(other.cfg, old(other.State()), old(log.Ops()))
    {
      Exchange(other);
      Rebuild();
      other.Rebuild();
    }

    method SyncFrom(source: Engine)
      requires Valid() && source.Valid() && Footprint() !! source.Footprint()
      modifies Footprint()
      ensures Valid() && IndexesExact() && SameIndexes(old(indexes), indexes)
      ensures State() == ReceiveFrom(cfg, old(State()), source.log.Ops())
    {
      var seen := AntiEntropy.Fingerprints(log);
      var ops := AntiEntropy.Select(source.log, seen);
      AntiEntropy.AppendEach(log, ops);
      Rebuild();
    }

    /** Adds, or replaces, one index; every other index stays as it is. */
    method CreateIndex(t: Text, name: Text, columns: seq<Text>)
      modifies `indexes
      ensures State() == old(State()) && (old(IndexesExact()) ==> IndexesExact())
      ensures t in indexes && name in indexes[t] && indexes[t][name].columns == columns
      ensures if t in store.tables
              then SecondaryIndexes.IsIndexOf(indexes[t][name].entries, store.tables[t], columns, cfg.text)
              else indexes[t][name].entries == map[]
      ensures indexes == old(indexes)[t := ManagerOf(old(indexes), t)[name := indexes[t][name]]]
    {
      var m := ManagerOf(indexes, t);
      var idx := new SecondaryIndexes.SecondaryIndex(columns);
      if t in store.tables { idx.RebuildFrom(store.tables[t], cfg.text); }
      indexes := indexes[t := m[name := IndexData(columns, idx.entries)]];
    }
  }

  lemma PlanNamesTables(cfg: Config, p: Peer, stmt: Stmt, now: nat -> nat, o: Op)
    requires PlanAt(cfg, p, stmt, now).error.None? && o in PlanAt(cfg, p, stmt, now).ops
    ensures NamesItsTable(o)
  {
    var i := PlannedOp(cfg, p.state.store, stmt, TickerOf(p, now), o);
  }
}
