/** What every run of a cluster guarantees. */
module ClusterLaws {
  import opened ByteStrings
  import opened Clocks
  import opened Ops
  import opened RowStores
  import opened Sorting
  import opened FkResolution
  import opened Rebuild
  import opened Peers
  import opened PeerInvariants
  import opened AntiEntropy
  import opened Clusters
  import Arbitration
  import Executor
  import CascadedRows
  import OrSets
  import UniqueColumns

  /** The logs of a run are what replay, election and exchange assume of logs. */
  lemma ReachableLogs(cfg: Config, ids: seq<Text>, steps: seq<Step>, i: nat)
    requires Runs(cfg, ids, steps) && NoDup(ids) && i < |After(cfg, ids, steps).peers|
    ensures var c := After(cfg, ids, steps);
      && NoDup(c.peers[i].log) && WellFormed(AllOps(c)) && HoldsWholeGroups(OpsAt(c, i), AllOps(c))
      && (Arbitration.ARBITER !in ids ==> UniqueColumns.NoArbiter(AllOps(c)))
  {
    InvAlways(cfg, ids, steps);
    var c := After(cfg, ids, steps);
    assert PeerOk(cfg, c, i);
    IdsStay(cfg, ids, steps);
    forall o | o in AllOps(c) ensures o.hlc.peer in ids {
      var k :| 0 <= k < |c.peers| && c.peers[k].id == o.hlc.peer;
    }
  }

  lemma StepIds(cfg: Config, c: Cluster, step: Step)
    requires Enabled(cfg, c, step)
    ensures |StepOf(cfg, c, step).peers| == |c.peers|
    ensures forall k :: 0 <= k < |c.peers| ==> StepOf(cfg, c, step).peers[k].id == c.peers[k].id
  {
    match step
    case Execute(i, stmt, now) =>
    case SyncWith(i, j) =>
      var received := Deliver(cfg, c, i, c.peers[j].log);
      assert forall k :: 0 <= k < |c.peers| ==> received.peers[k].id == c.peers[k].id;
    case SyncFrom(i, j) =>
  }

  lemma {:induction false} IdsStay(cfg: Config, ids: seq<Text>, steps: seq<Step>)
    requires Runs(cfg, ids, steps)
    ensures var c := After(cfg, ids, steps); |c.peers| == |ids| && forall k :: 0 <= k < |ids| ==> c.peers[k].id == ids[k]
  {
    if |steps| > 0 {
      IdsStay(cfg, ids, steps[..|steps| - 1]);
      StepIds(cfg, After(cfg, ids, steps[..|steps| - 1]), steps[|steps| - 1]);
    }
  }

  /** Referential integrity: under Tombstone, wherever in the cluster a checked row has
      arrived, its parent exists for foreign keys, in the peer's current store and in
      every store it rebuilds, whatever was deleted, updated or synced anywhere. */
  lemma ReferentialIntegrity(cfg: Config, ids: seq<Text>, steps: seq<Step>, i: nat, ref: Ref)
    requires Runs(cfg, ids, steps) && NoDup(ids) && cfg.policy.Tombstone?
    requires var c := After(cfg, ids, steps); i < |c.peers| && ref in c.accepted && ref.child in c.peers[i].log
    ensures var p := After(cfg, ids, steps).peers[i];
      forall s: Store :: s == p.state.store || s == RebuildOf(cfg, p.log).store ==>
        ref.table in s && OrSets.ExistsForFk(s[ref.table].membership, ref.row)
  {
    InvAlways(cfg, ids, steps);
    var c := After(cfg, ids, steps);
    var p, ops := c.peers[i], OpsAt(c, i);
    assert PeerOk(cfg, c, i);
    assert WellFormed(ops) by { assert ops <= AllOps(c); }
    RebuiltOk(cfg, p.log);
    assert ref.child in ops;
    forall s: Store | s == p.state.store || s == RebuildOf(cfg, p.log).store
      ensures ref.table in s && OrSets.ExistsForFk(s[ref.table].membership, ref.row)
    {
      assert StoreOk(cfg, s, ops);
      assert TableOk(cfg, s[ref.table], ref.table, ops);
    }
  }

  /** Under Cascade a rebuilt child stays visible only while the parent it was checked
      against, and one of its keys still names, is live. */
  lemma CascadeIntegrity(cfg: Config, ids: seq<Text>, steps: seq<Step>, i: nat, ref: Ref, fk: ForeignKey)
    requires Runs(cfg, ids, steps) && NoDup(ids) && cfg.policy.Cascade?
    requires var c := After(cfg, ids, steps); i < |c.peers| && ref in c.accepted && ref.child in c.peers[i].log && ref.child.InsertRow?
    requires var s := RebuildOf(cfg, After(cfg, ids, steps).peers[i].log).store;
      && CascadedRows.Seen(s, ref.child.table, ref.child.row)
      && CascadedRows.HoldsKey(s, cfg.text, ref.child.table, ref.child.row, fk, ref.row) && fk.refTable == ref.table
    ensures var s := RebuildOf(cfg, After(cfg, ids, steps).peers[i].log).store;
      && ref.table in s && ref.row in s[ref.table].membership
      && s[ref.table].membership[ref.row].live - s[ref.table].membership[ref.row].removed != {}
  {
    RebuiltParent(cfg, ids, steps, i, ref);
    CascadedRows.RebuiltKeysAreLive(cfg, After(cfg, ids, steps).peers[i].log, ref.child.table, ref.child.row, fk, ref.row);
    CascadedRows.GoneIsDead(RebuildOf(cfg, After(cfg, ids, steps).peers[i].log).store, ref.table, ref.row);
  }

  /** Unless orphans are allowed, the parent of a checked row is known to every peer the row reaches. */
  lemma RebuiltParent(cfg: Config, ids: seq<Text>, steps: seq<Step>, i: nat, ref: Ref)
    requires Runs(cfg, ids, steps) && NoDup(ids) && !cfg.policy.Orphan?
    requires var c := After(cfg, ids, steps); i < |c.peers| && ref in c.accepted && ref.child in c.peers[i].log
    ensures var s := RebuildOf(cfg, After(cfg, ids, steps).peers[i].log).store; ref.table in s && ref.row in s[ref.table].membership
  {
    InvAlways(cfg, ids, steps);
    var c := After(cfg, ids, steps);
    var ops := OpsAt(c, i);
    assert PeerOk(cfg, c, i);
    assert WellFormed(ops) by { assert ops <= AllOps(c); }
    RebuiltOk(cfg, c.peers[i].log);
    assert ref.child in ops;
    assert TableOk(cfg, RebuildOf(cfg, c.peers[i].log).store[ref.table], ref.table, ops);
  }

  /** Two peers that hold the same ops, in whatever order they arrived, rebuild to the
      same state and answer every query alike. */
  lemma PeersConverge(cfg: Config, ids: seq<Text>, steps: seq<Step>, i: nat, j: nat)
    requires Runs(cfg, ids, steps) && NoDup(ids)
    requires var c := After(cfg, ids, steps); i < |c.peers| && j < |c.peers| && OpsAt(c, i) == OpsAt(c, j)
    ensures var a, b := RebuildOf(cfg, After(cfg, ids, steps).peers[i].log), RebuildOf(cfg, After(cfg, ids, steps).peers[j].log);
      a == b && forall q :: Executor.Select(a.store, q) == Executor.Select(b.store, q)
  {
    InvAlways(cfg, ids, steps);
    var c := After(cfg, ids, steps);
    assert PeerOk(cfg, c, i) && PeerOk(cfg, c, j);
    assert WellFormed(OpsAt(c, i)) by { assert OpsAt(c, i) <= AllOps(c); }
    Convergence(cfg, c.peers[i].log, c.peers[j].log);
  }

  lemma SyncLogs(cfg: Config, c: Cluster, i: nat, j: nat)
    requires Inv(cfg, c) && i < |c.peers| && j < |c.peers| && i != j
    ensures var c' := StepOf(cfg, c, SyncWith(i, j));
      && OpsAt(c', i) == OpsAt(c, i) + OpsAt(c, j) == OpsAt(c', j) && AllOps(c') == AllOps(c)
      && c.peers[i].log <= c'.peers[i].log && c.peers[j].log <= c'.peers[j].log
      && c'.peers[i].state == RebuildOf(cfg, c'.peers[i].log) && c'.peers[j].state == RebuildOf(cfg, c'.peers[j].log)
  {
    var received := Deliver(cfg, c, i, c.peers[j].log);
    PeerIsSource(cfg, c, i);
    PeerIsSource(cfg, c, j);
    DeliverAddsNoOps(cfg, c, i, c.peers[j].log);
    DeliverKeeps(cfg, c, i, c.peers[j].log);
    SourceStays(cfg, c, received, c.peers[i].log);
    DeliverAddsNoOps(cfg, received, j, c.peers[i].log);
    var c' := Deliver(cfg, received, j, c.peers[i].log);
    assert c' == StepOf(cfg, c, SyncWith(i, j));
    assert received.peers[j] == c.peers[j] && c'.peers[i] == received.peers[i];
    assert OpsAt(c, j) + OpsAt(c, i) == OpsAt(c, i) + OpsAt(c, j);
  }

  /** A two-way sync leaves both logs with the union of their ops, each old log a prefix
      of the new one, and both peers in the same state. */
  lemma SyncUnites(cfg: Config, c: Cluster, i: nat, j: nat)
    requires Inv(cfg, c) && i < |c.peers| && j < |c.peers| && i != j
    ensures var c' := StepOf(cfg, c, SyncWith(i, j));
      && OpsAt(c', i) == OpsAt(c, i) + OpsAt(c, j) == OpsAt(c', j)
      && c.peers[i].log <= c'.peers[i].log && c.peers[j].log <= c'.peers[j].log
      && c'.peers[i].state == c'.peers[j].state == RebuildOf(cfg, c'.peers[i].log)
      && (forall k :: 0 <= k < |c.peers| && k != i && k != j ==> c'.peers[k] == c.peers[k])
  {
    var c' := StepOf(cfg, c, SyncWith(i, j));
    SyncLogs(cfg, c, i, j);
    SyncKeeps(cfg, c, i, j);
    assert PeerOk(cfg, c', i) && PeerOk(cfg, c', j);
    assert WellFormed(OpsAt(c', i)) by { assert OpsAt(c', i) <= AllOps(c'); }
    Convergence(cfg, c'.peers[i].log, c'.peers[j].log);
  }

  /** Logs only grow: at every later moment the old log is a prefix of the new one. */
  lemma StepExtends(cfg: Config, c: Cluster, step: Step, k: nat)
    requires Inv(cfg, c) && Enabled(cfg, c, step) && k < |c.peers|
    ensures c.peers[k].log <= StepOf(cfg, c, step).peers[k].log
  {
    match step
    case Execute(i, stmt, now) =>
      if k == i && PlanAt(cfg, c.peers[i], stmt, now).error.None? { ExecutedLog(cfg, c, i, stmt, now); }
    case SyncWith(i, j) => SyncUnites(cfg, c, i, j);
    case SyncFrom(i, j) =>
      PeerIsSource(cfg, c, j);
      DeliverAddsNoOps(cfg, c, i, c.peers[j].log);
  }

  lemma {:induction false} LogsOnlyGrow(cfg: Config, ids: seq<Text>, steps: seq<Step>, m: nat, k: nat)
    requires Runs(cfg, ids, steps) && NoDup(ids) && m <= |steps| && k < |ids|
    ensures Runs(cfg, ids, steps[..m]) && |After(cfg, ids, steps).peers| == |After(cfg, ids, steps[..m]).peers| == |ids|
    ensures After(cfg, ids, steps[..m]).peers[k].log <= After(cfg, ids, steps).peers[k].log
  {
    IdsStay(cfg, ids, steps);
    if m == |steps| {
      assert steps[..m] == steps;
    } else {
      var n := |steps| - 1;
      assert steps[..n][..m] == steps[..m];
      LogsOnlyGrow(cfg, ids, steps[..n], m, k);
      InvAlways(cfg, ids, steps[..n]);
      StepExtends(cfg, After(cfg, ids, steps[..n]), steps[n], k);
    }
  }
}
