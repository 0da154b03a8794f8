/** UNIQUE in runs: what statements must keep to for the rebuilt column to be unique. */
module UniqueRuns {
  import opened ByteStrings
  import opened Clocks
  import opened Ops
  import opened RowStores
  import opened Replay
  import opened Sorting
  import opened Splitting
  import opened Planner
  import opened PlannerLaws
  import opened Rebuild
  import opened Peers
  import opened AntiEntropy
  import opened Clusters
  import opened UniqueColumns
  import Arbitration
  import ClusterLaws
  import Executor
  import PeerInvariants

  /** A UNIQUE constraint of a table: on one column, or a composite key. */
  datatype Constraint = Column(name: Text) | Key(columns: seq<Text>)

  // ----- What the statements keep to -----

  /** The schema declares the constraint.  A unique column is claimed under no other name,
      and the schema names its columns apart. */
  ghost predicate Declares(schema: Schema, u: Constraint) {
    match u
    case Column(c) =>
      && NoDup(Executor.Names(schema.columns)) && IsUnique(schema, c) && c in Arbitration.ColsToNull(c)
      && forall x :: ClaimName(schema, x) && x != c ==> c !in Arbitration.ColsToNull(x)
    case Key(cols) => cols in schema.compositeUnique
  }

  ghost predicate StatementOk(stmt: Stmt, t: Text, u: Constraint) {
    && (u.Column? ==> NamesOnce(stmt))
    && (stmt.Create? && stmt.schema.name == t ==> Declares(stmt.schema, u))
  }

  /** Every CREATE TABLE of the table declares the constraint; where that is a column,
      statements name no column twice. */
  ghost predicate Orderly(steps: seq<Step>, t: Text, u: Constraint) {
    forall m :: 0 <= m < |steps| && steps[m].Execute? ==> StatementOk(steps[m].stmt, t, u)
  }

  // ----- What that keeps -----

  ghost predicate Declared(s: Store, t: Text, u: Constraint) {
    t in s ==> Declares(s[t].schema, u)
  }

  /** Values written into a unique column are claimed, and nulled under its own name only;
      every inserted row claims its composite key. */
  ghost predicate Followed(ops: set<Op>, t: Text, u: Constraint) {
    match u
    case Column(c) => ClaimsMatchWrites(ops, t, c) && NotCovered(ops, t, c)
    case Key(cols) => KeyClaimed(ops, t, cols)
  }

  ghost predicate OpsTidy(ops: set<Op>, t: Text, u: Constraint) {
    && Followed(ops, t, u) && HasSuccessors(ops)
    && forall o :: o in ops && o.Creates(t) ==> Declares(o.schema, u)
  }

  ghost predicate Tidy(c: Cluster, t: Text, u: Constraint) {
    OpsTidy(AllOps(c), t, u) && forall i :: 0 <= i < |c.peers| ==> Declared(c.peers[i].state.store, t, u)
  }

  lemma TidyUnion(a: set<Op>, b: set<Op>, t: Text, u: Constraint)
    requires OpsTidy(a, t, u) && OpsTidy(b, t, u)
    ensures OpsTidy(a + b, t, u)
  {
    if u.Column? { MatchUnion(a, b, t, u.name); }
  }

  lemma TickCounter(k: Ticker, i: nat)
    requires k.clock.logical + i + 1 < U32
    ensures TimeOf(k, i).logical <= k.clock.logical + i + 1
  {
    TicksAdvance(k, i);
  }

  /** The counters of planned timestamps are below the limit by at least one. */
  lemma PlannedCounter(cfg: Config, p: Peer, stmt: Stmt, now: nat -> nat, o: Op)
    requires PeerInvariants.CanExecute(cfg, p, stmt, now) && PlanAt(cfg, p, stmt, now).error.None? && o in PlanAt(cfg, p, stmt, now).ops
    ensures o.hlc.logical + 1 < U32
  {
    var plan := PlanAt(cfg, p, stmt, now);
    var i := PlannedOp(cfg, p.state.store, stmt, TickerOf(p, now), o);
    assert i < plan.ticks && 0 < |plan.ops| && p.clock.logical + plan.ticks + |plan.ops| < U32;
    TickCounter(TickerOf(p, now), i);
  }

  lemma PlannedFollows(cfg: Config, s: Store, stmt: Stmt, k: Ticker, t: Text, u: Constraint)
    requires PlanOf(cfg, s, stmt, k).error.None? && StatementOk(stmt, t, u) && Declared(s, t, u)
    requires t in s ==> NamesApart(s[t].schema)
    ensures Followed(Elements(PlanOf(cfg, s, stmt, k).ops), t, u)
  {
    match u
    case Column(c) =>
      PlanMatches(cfg, s, stmt, k, t, c);
      forall o | o in PlanOf(cfg, s, stmt, k).ops && o.ReserveUnique? && o.table == t && o.column != c
        ensures c !in Arbitration.ColsToNull(o.column)
      {
        if stmt.Insert? || stmt.Update? { PlannedTable(cfg, s, stmt, k, o); }
      }
    case Key(cols) =>
      PlanClaimsKey(cfg, s, stmt, k, t, cols);
  }

  lemma PlannedOpsTidy(cfg: Config, p: Peer, stmt: Stmt, now: nat -> nat, t: Text, u: Constraint)
    requires PeerInvariants.CanExecute(cfg, p, stmt, now) && PlanAt(cfg, p, stmt, now).error.None? && StatementOk(stmt, t, u)
    requires Declared(p.state.store, t, u) && (t in p.state.store ==> NamesApart(p.state.store[t].schema))
    ensures OpsTidy(Elements(PlanAt(cfg, p, stmt, now).ops), t, u)
  {
    var s, k := p.state.store, TickerOf(p, now);
    PlannedFollows(cfg, s, stmt, k, t, u);
    forall o | o in PlanAt(cfg, p, stmt, now).ops
      ensures o.hlc.logical + 1 < U32 && (o.Creates(t) ==> Declares(o.schema, u))
    {
      PlannedCounter(cfg, p, stmt, now, o);
      var i := PlannedOp(cfg, s, stmt, k, o);
    }
  }

  // ----- Stores -----

  lemma AppliedDeclared(cfg: Config, d: Derived, o: Op, t: Text, u: Constraint)
    requires Declared(d.store, t, u) && (o.Creates(t) ==> Declares(o.schema, u))
    ensures Declared(StateAfter(cfg, d, o).store, t, u)
  {
  }

  lemma {:induction false} StateAllDeclared(cfg: Config, d: Derived, ops: seq<Op>, t: Text, u: Constraint)
    requires Declared(d.store, t, u) && forall o :: o in ops && o.Creates(t) ==> Declares(o.schema, u)
    ensures Declared(StateAll(cfg, d, ops).store, t, u)
  {
    if |ops| > 0 {
      var m := |ops| - 1;
      assert ops[m] in ops && forall o :: o in ops[..m] ==> o in ops;
      StateAllDeclared(cfg, d, ops[..m], t, u);
      AppliedDeclared(cfg, StateAll(cfg, d, ops[..m]), ops[m], t, u);
    }
  }

  lemma RebuiltDeclared(cfg: Config, log: seq<Op>, t: Text, u: Constraint)
    requires NoDup(log) && WellFormed(Elements(log)) && forall o :: o in log && o.Creates(t) ==> Declares(o.schema, u)
    ensures Declared(RebuildOf(cfg, log).store, t, u)
  {
    RebuiltMembership(cfg, log);
    if t in Created(Elements(log)) {
      HasFirstCreate(Elements(log), t);
      var o :| IsFirstCreate(Elements(log), t, o) && SchemaFor(Elements(log), t) == o.schema;
    }
  }

  // ----- Runs -----

  lemma RefusedTidy(cfg: Config, c: Cluster, i: nat, stmt: Stmt, now: nat -> nat, t: Text, u: Constraint)
    requires Enabled(cfg, c, Execute(i, stmt, now)) && PlanAt(cfg, c.peers[i], stmt, now).error.Some? && Tidy(c, t, u)
    ensures Tidy(StepOf(cfg, c, Execute(i, stmt, now)), t, u)
  {
    var c' := StepOf(cfg, c, Execute(i, stmt, now));
    assert forall j :: 0 <= j < |c.peers| ==> c'.peers[j].log == c.peers[j].log && c'.peers[j].state == c.peers[j].state;
    assert AllOps(c') == AllOps(c);
  }

  lemma ExecutedStores(cfg: Config, c: Cluster, i: nat, stmt: Stmt, now: nat -> nat, t: Text, u: Constraint)
    requires Enabled(cfg, c, Execute(i, stmt, now)) && PlanAt(cfg, c.peers[i], stmt, now).error.None? && Tidy(c, t, u)
    requires OpsTidy(Elements(PlanAt(cfg, c.peers[i], stmt, now).ops), t, u)
    ensures var c' := StepOf(cfg, c, Execute(i, stmt, now));
      forall j :: 0 <= j < |c'.peers| ==> Declared(c'.peers[j].state.store, t, u)
  {
    StateAllDeclared(cfg, c.peers[i].state, PlanAt(cfg, c.peers[i], stmt, now).ops, t, u);
  }

  lemma ExecuteTidy(cfg: Config, c: Cluster, i: nat, stmt: Stmt, now: nat -> nat, t: Text, u: Constraint)
    requires Inv(cfg, c) && Enabled(cfg, c, Execute(i, stmt, now)) && Tidy(c, t, u)
    requires StatementOk(stmt, t, u)
    ensures Tidy(StepOf(cfg, c, Execute(i, stmt, now)), t, u)
  {
    var p := c.peers[i];
    var plan := PlanAt(cfg, p, stmt, now);
    if plan.error.Some? {
      RefusedTidy(cfg, c, i, stmt, now, t, u);
    } else {
      StoreAndSchemasOk(cfg, c, i);
      PlannedOpsTidy(cfg, p, stmt, now, t, u);
      ExecutedLog(cfg, c, i, stmt, now);
      TidyUnion(AllOps(c), Elements(plan.ops), t, u);
      ExecutedStores(cfg, c, i, stmt, now, t, u);
    }
  }

  lemma DeliverTidy(cfg: Config, c: Cluster, i: nat, src: seq<Op>, t: Text, u: Constraint)
    requires Inv(cfg, c) && i < |c.peers| && SourceOk(cfg, c, src) && Tidy(c, t, u)
    ensures Tidy(Deliver(cfg, c, i, src), t, u)
  {
    var c' := Deliver(cfg, c, i, src);
    DeliverAddsNoOps(cfg, c, i, src);
    assert OpsAt(c', i) <= AllOps(c');
    RebuiltDeclared(cfg, c'.peers[i].log, t, u);
  }

  lemma StepTidy(cfg: Config, c: Cluster, step: Step, t: Text, u: Constraint)
    requires Inv(cfg, c) && Enabled(cfg, c, step) && Tidy(c, t, u) && Orderly([step], t, u)
    ensures Tidy(StepOf(cfg, c, step), t, u)
  {
    match step
    case Execute(i, stmt, now) =>
      assert [step][0] == step;
      ExecuteTidy(cfg, c, i, stmt, now, t, u);
    case SyncWith(i, j) =>
      PeerIsSource(cfg, c, i);
      PeerIsSource(cfg, c, j);
      var received := Deliver(cfg, c, i, c.peers[j].log);
      DeliverAddsNoOps(cfg, c, i, c.peers[j].log);
      DeliverKeeps(cfg, c, i, c.peers[j].log);
      SourceStays(cfg, c, received, c.peers[i].log);
      DeliverTidy(cfg, c, i, c.peers[j].log, t, u);
      DeliverTidy(cfg, received, j, c.peers[i].log, t, u);
    case SyncFrom(i, j) =>
      PeerIsSource(cfg, c, j);
      DeliverTidy(cfg, c, i, c.peers[j].log, t, u);
  }

  lemma {:induction false} RunTidy(cfg: Config, ids: seq<Text>, steps: seq<Step>, t: Text, u: Constraint)
    requires Runs(cfg, ids, steps) && NoDup(ids) && Orderly(steps, t, u)
    ensures Tidy(After(cfg, ids, steps), t, u)
  {
    if |steps| == 0 {
      assert AllOps(Start(ids)) == {};
    } else {
      var m := |steps| - 1;
      RunTidy(cfg, ids, steps[..m], t, u);
      InvAlways(cfg, ids, steps[..m]);
      StepTidy(cfg, After(cfg, ids, steps[..m]), steps[m], t, u);
    }
  }

  /** What holds of all ops of the cluster holds of the whole groups one peer has. */
  lemma PartTidy(ops: set<Op>, all: set<Op>, t: Text, u: Constraint)
    requires OpsTidy(all, t, u) && ops <= all && HoldsWholeGroups(ops, all)
    ensures OpsTidy(ops, t, u)
  {
  }

  lemma PeerTidy(cfg: Config, ids: seq<Text>, steps: seq<Step>, t: Text, u: Constraint, i: nat)
    requires Runs(cfg, ids, steps) && NoDup(ids) && Orderly(steps, t, u) && i < |After(cfg, ids, steps).peers|
    ensures OpsTidy(OpsAt(After(cfg, ids, steps), i), t, u)
  {
    var c := After(cfg, ids, steps);
    RunTidy(cfg, ids, steps, t, u);
    ClusterLaws.ReachableLogs(cfg, ids, steps, i);
    assert OpsAt(c, i) <= AllOps(c);
    PartTidy(OpsAt(c, i), AllOps(c), t, u);
  }

  lemma LogIsFit(cfg: Config, ids: seq<Text>, steps: seq<Step>, i: nat)
    requires Runs(cfg, ids, steps) && NoDup(ids) && Arbitration.ARBITER !in ids && i < |After(cfg, ids, steps).peers|
    ensures var log := After(cfg, ids, steps).peers[i].log; NoDup(log) && WellFormed(Elements(log)) && NoArbiter(Elements(log))
  {
    ClusterLaws.ReachableLogs(cfg, ids, steps, i);
    assert OpsAt(After(cfg, ids, steps), i) <= AllOps(After(cfg, ids, steps));
  }

  // ----- What a rebuild then guarantees -----

  /** Every log of an orderly run claims the values it gives, claims no more, and leaves
      counters room. */
  lemma ReachableClaims(cfg: Config, ids: seq<Text>, steps: seq<Step>, t: Text, c: Text, i: nat)
    requires Runs(cfg, ids, steps) && NoDup(ids) && Arbitration.ARBITER !in ids && Orderly(steps, t, Column(c))
    requires i < |After(cfg, ids, steps).peers|
    ensures var ops := OpsAt(After(cfg, ids, steps), i);
      && ClaimsMatchWrites(ops, t, c) && NotCovered(ops, t, c) && HasSuccessors(ops)
      && (t in Created(ops) ==> UniqueColumns.Claimed(After(cfg, ids, steps).peers[i].log, t, c))
  {
    var ops := OpsAt(After(cfg, ids, steps), i);
    PeerTidy(cfg, ids, steps, t, Column(c), i);
    LogIsFit(cfg, ids, steps, i);
    if t in Created(ops) { var o :| o in ops && o.Creates(t); }
  }

  /** In an orderly run, while a peer's log gives no row a value of the column twice, the
      peer rebuilds no two visible rows that share one. */
  lemma ReachableUnique(cfg: Config, ids: seq<Text>, steps: seq<Step>, t: Text, c: Text, i: nat)
    requires Runs(cfg, ids, steps) && NoDup(ids) && Arbitration.ARBITER !in ids && Orderly(steps, t, Column(c))
    requires i < |After(cfg, ids, steps).peers| && ValuedOnce(OpsAt(After(cfg, ids, steps), i), t, c)
    ensures UniqueColumns.Unique(cfg, After(cfg, ids, steps).peers[i].log, t, c)
  {
    var log := After(cfg, ids, steps).peers[i].log;
    ReachableClaims(cfg, ids, steps, t, c, i);
    if t in Created(Elements(log)) {
      NotCoveredIsEnough(Elements(log), t, c);
      NoSharedValue(cfg, log, t, c);
    } else {
      LogIsFit(cfg, ids, steps, i);
      forall r1, r2, v ensures !Share(cfg, log, t, c, r1, r2, v) { FinallyVisibleIff(cfg, log, t, r1); }
    }
  }

  /** Composite keys: of two rows inserted with one value of the key, one reads null after
      every rebuild in each column of the key that no older claim covers. */
  lemma ReachableKey(cfg: Config, ids: seq<Text>, steps: seq<Step>, t: Text, cols: seq<Text>, i: nat, a: Op, b: Op) returns (r: Text)
    requires Runs(cfg, ids, steps) && NoDup(ids) && Arbitration.ARBITER !in ids && Orderly(steps, t, Key(cols))
    requires |cols| > 0 && (forall c :: c in cols ==> COMMA !in c) && i < |After(cfg, ids, steps).peers|
    requires var log := After(cfg, ids, steps).peers[i].log; a in log && b in log
    requires a.InsertRow? && b.InsertRow? && a.table == t == b.table && a.row != b.row
    requires CompositeValue(cols, a.cells) == CompositeValue(cols, b.cells)
    ensures r == a.row || r == b.row
    ensures var log := After(cfg, ids, steps).peers[i].log;
      forall c :: c in cols && NoOlderCover(Elements(log), t, c) ==> UniqueColumns.Emptied(cfg, log, t, r, c)
  {
    var log, x := After(cfg, ids, steps).peers[i].log, CompositeName(cols);
    PeerTidy(cfg, ids, steps, t, Key(cols), i);
    LogIsFit(cfg, ids, steps, i);
    CompositeNamesItsColumns(cols);
    var p := ReserveUnique(t, a.row, a.hlc, x, CompositeValue(cols, a.cells));
    var q := ReserveUnique(t, b.row, b.hlc, x, CompositeValue(cols, b.cells));
    assert a in OpsAt(After(cfg, ids, steps), i) && b in OpsAt(After(cfg, ids, steps), i);
    r := OneIsNulled(cfg, log, p, q);
  }
}
