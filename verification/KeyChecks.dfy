/** Foreign keys of inserted rows: which are checked, accepted and kept. */
module KeyChecks {
  import opened ByteStrings
  import opened Ops
  import opened RowStores
  import opened Sorting
  import opened Replay
  import opened FkResolution
  import opened Planner
  import opened PlannerLaws
  import opened Rebuild
  import opened Peers
  import opened PeerInvariants
  import opened Clusters
  import opened InsertedCells
  import ClusterLaws
  import OrSets
  import SecondaryIndexes

  /** The step plans the insert `o` on a schema with the key `fk`, and `v` is the first value
      the insert gives for it. */
  ghost predicate InsertsChild(cfg: Config, c: Cluster, step: Step, o: Op, fk: ForeignKey, v: Bytes) {
    && step.Execute? && step.i < |c.peers| && o.InsertRow?
    && var s, plan := c.peers[step.i].state.store, PlanAt(cfg, c.peers[step.i], step.stmt, step.now);
       && plan.error.None? && o in plan.ops
       && o.table in s && fk in s[o.table].schema.foreignKeys && FirstCell(o.cells, fk.column) == Some(Some(v))
  }

  lemma RecordedAtOnce(cfg: Config, c: Cluster, step: Step, o: Op, fk: ForeignKey, v: Bytes)
    requires Enabled(cfg, c, step) && InsertsChild(cfg, c, step, o, fk, v)
    ensures Ref(o, fk.refTable, cfg.text(v)) in StepOf(cfg, c, step).accepted
  {
    assert KeyOf(cfg, o, fk) == Some(cfg.text(v));
  }

  lemma AcceptedGrows(cfg: Config, c: Cluster, step: Step)
    requires Enabled(cfg, c, step)
    ensures c.accepted <= StepOf(cfg, c, step).accepted
  {
  }

  lemma RecordStays(cfg: Config, ids: seq<Text>, steps: seq<Step>, before: seq<Step>, ref: Ref)
    requires Runs(cfg, ids, steps) && |steps| > 0 && before == steps[..|steps| - 1] && ref in After(cfg, ids, before).accepted
    ensures ref in After(cfg, ids, steps).accepted
  {
    AcceptedGrows(cfg, After(cfg, ids, before), steps[|steps| - 1]);
  }

  lemma RecordedLast(cfg: Config, ids: seq<Text>, steps: seq<Step>, before: seq<Step>, o: Op, fk: ForeignKey, v: Bytes)
    requires Runs(cfg, ids, steps) && |steps| > 0 && before == steps[..|steps| - 1]
    requires InsertsChild(cfg, After(cfg, ids, before), steps[|steps| - 1], o, fk, v)
    ensures Ref(o, fk.refTable, cfg.text(v)) in After(cfg, ids, steps).accepted
  {
    RecordedAtOnce(cfg, After(cfg, ids, before), steps[|steps| - 1], o, fk, v);
  }

  lemma FrontOfFront(steps: seq<Step>, m: nat, before: seq<Step>)
    requires m < |steps| && before == steps[..|steps| - 1]
    ensures if m < |before| then before[..m] == steps[..m] && before[m] == steps[m] else before == steps[..m]
  {
  }

  /** Every foreign key an insert gives a value, at the `m`-th step from the cluster `at`, is on
      record as checked, now and for the rest of the run. */
  lemma {:induction false} ChildIsRecorded(cfg: Config, ids: seq<Text>, steps: seq<Step>, m: nat, at: Cluster, o: Op, fk: ForeignKey, v: Bytes)
    requires Runs(cfg, ids, steps) && m < |steps| && Runs(cfg, ids, steps[..m]) && at == After(cfg, ids, steps[..m])
    requires InsertsChild(cfg, at, steps[m], o, fk, v)
    ensures Ref(o, fk.refTable, cfg.text(v)) in After(cfg, ids, steps).accepted
  {
    var before := steps[..|steps| - 1];
    FrontOfFront(steps, m, before);
    if m < |before| {
      ChildIsRecorded(cfg, ids, before, m, at, o, fk, v);
      RecordStays(cfg, ids, steps, before, Ref(o, fk.refTable, cfg.text(v)));
    } else {
      RecordedLast(cfg, ids, steps, before, o, fk, v);
    }
  }

  /** Referential integrity, from the inserts alone: under Tombstone, wherever an inserted row
      has arrived, the parent its key named exists for foreign keys at every later moment. */
  lemma InsertedKeysHold(cfg: Config, ids: seq<Text>, steps: seq<Step>, m: nat, o: Op, fk: ForeignKey, v: Bytes, j: nat)
    requires Runs(cfg, ids, steps) && NoDup(ids) && cfg.policy.Tombstone?
    requires m < |steps| && Runs(cfg, ids, steps[..m])
    requires InsertsChild(cfg, After(cfg, ids, steps[..m]), steps[m], o, fk, v)
    requires j < |After(cfg, ids, steps).peers| && o in After(cfg, ids, steps).peers[j].log
    ensures var p := After(cfg, ids, steps).peers[j];
      forall s: Store :: s == p.state.store || s == RebuildOf(cfg, p.log).store ==>
        fk.refTable in s && OrSets.ExistsForFk(s[fk.refTable].membership, cfg.text(v))
  {
    ChildIsRecorded(cfg, ids, steps, m, After(cfg, ids, steps[..m]), o, fk, v);
    ClusterLaws.ReferentialIntegrity(cfg, ids, steps, j, Ref(o, fk.refTable, cfg.text(v)));
  }

  // ----- Refusals -----

  /** A plan that fails on a key was stopped by a list whose first value for the key has no fitting parent. */
  lemma RefusedList(cfg: Config, s: Store, t: Text, schema: Schema, pk: Text, columns: seq<Text>, values: seq<seq<Option<Bytes>>>,
                    k: Ticker, e: FkError) returns (n: nat, fk: ForeignKey, v: Bytes)
    requires PlanRows(cfg, s, t, schema, pk, columns, values, k).error == Some(FkViolation(e))
    ensures n < |values| && fk in schema.foreignKeys && Gives(schema, columns, values[n], fk.column, Some(v))
    ensures !ParentFits(cfg.policy, s, fk.refTable, cfg.text(v))
    ensures e == if fk.refTable in s then NoSuchParent(fk.refTable, cfg.text(v)) else NoSuchTable(fk.refTable)
  {
    var rows := RowPlans(cfg, s, t, schema, pk, columns, values, k);
    PlanRowsIsFold(cfg, s, t, schema, pk, columns, values, k, rows);
    n := FoldStopsAt(rows);
    var cells := CellsFor(schema, columns, values[n]);
    RowPlannedIff(cfg, s, t, schema, pk, cells, TimeOf(k, n));
    fk :| fk in schema.foreignKeys && !KeyAccepted(cfg, s, fk, cells) && TellsWhy(cfg, s, fk, cells, e);
    v := FirstCell(cells, fk.column).value.value;
    FirstIsGiven(schema, columns, values[n], fk.column);
  }

  /** The log inserted no such row. */
  ghost predicate NeverInserted(log: seq<Op>, t: Text, r: Text) {
    forall o :: o in log ==> !o.Inserts(t, r)
  }

  /** In every reachable cluster under Tombstone an INSERT that fails on a foreign key gives
      the key a parent that no op in the planner's log ever inserted, or whose table none
      created: a parent that was deleted since does not stop it. */
  lemma RefusedParentIsUnknown(cfg: Config, ids: seq<Text>, steps: seq<Step>, i: nat, t: Text, columns: seq<Text>,
                               values: seq<seq<Option<Bytes>>>, now: nat -> nat, e: FkError)
    returns (n: nat, fk: ForeignKey, v: Bytes)
    requires Runs(cfg, ids, steps) && NoDup(ids) && cfg.policy.Tombstone? && i < |After(cfg, ids, steps).peers|
    requires PlanAt(cfg, After(cfg, ids, steps).peers[i], Insert(t, columns, values), now).error == Some(FkViolation(e))
    ensures var p := After(cfg, ids, steps).peers[i];
      && t in p.state.store && fk in p.state.store[t].schema.foreignKeys
      && n < |values| && Gives(p.state.store[t].schema, columns, values[n], fk.column, Some(v))
      && (if fk.refTable in Created(Elements(p.log))
          then e == NoSuchParent(fk.refTable, cfg.text(v)) && NeverInserted(p.log, fk.refTable, cfg.text(v))
          else e == NoSuchTable(fk.refTable))
  {
    InvAlways(cfg, ids, steps);
    var p := After(cfg, ids, steps).peers[i];
    assert PeerOk(cfg, After(cfg, ids, steps), i);
    var s := p.state.store;
    n, fk, v := RefusedList(cfg, s, t, s[t].schema, SecondaryIndexes.PrimaryKey(s[t].schema.columns).value, columns, values, TickerOf(p, now), e);
    if fk.refTable in s { InsertedFits(cfg, s, Elements(p.log), fk.refTable, cfg.text(v)); }
  }

  lemma InsertedFits(cfg: Config, s: Store, ops: set<Op>, t: Text, r: Text)
    requires StoreOk(cfg, s, ops) && cfg.policy.Tombstone? && t in s && !ParentFits(cfg.policy, s, t, r)
    ensures forall o :: o in ops ==> !o.Inserts(t, r)
  {
    assert TableOk(cfg, s[t], t, ops);
    assert r in s[t].membership ==> s[t].membership[r].ExistsForFk();
    forall o | o in ops ensures !o.Inserts(t, r) { assert o.Inserts(t, r) ==> r in InsertedRows(ops, t); }
  }
}
