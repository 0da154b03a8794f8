/** Two runs of one peer after which two visible rows share a UNIQUE value. */
module UniqueLimits {
  import opened ByteStrings
  import opened Clocks
  import opened Ops
  import opened RowStores
  import opened Replay
  import opened Sorting
  import opened Rebuild
  import opened Arbitration
  import opened FkResolution
  import opened Planner
  import opened LosingClaims
  import opened UniqueColumns
  import opened SoloRuns
  import Clusters
  import ClusterLaws
  import U = Uniqueness
  import Executor
  import PlannerLaws
  import Splitting
  import SecondaryIndexes

  const A: Text := [65]
  const T: Text := [116]
  const ID: Text := [105, 100]
  const EMAIL: Text := [69]
  const TEAM: Text := [84]
  const R1: Text := [49]
  const R2: Text := [50]
  const V: Bytes := [120]

  const KEY := ColumnDef(ID, true, None, true, false)
  const UNIQUE := ColumnDef(EMAIL, false, None, false, true)
  const PLAIN := ColumnDef(TEAM, false, None, false, false)

  function At(w: nat, i: nat): Hlc {
    Hlc(w, i, A)
  }

  /** Two rows are inserted and both claim `value` of the key `key` at once; then both are
      given the e-mail `V`. */
  datatype Case = Case(schema: Schema, columns: seq<Text>, values: seq<Option<Bytes>>, key: Text, value: Bytes)

  /** Rows are inserted with the e-mail, and the update writes and claims it again. */
  const RECLAIM := Case(Schema(T, [KEY, UNIQUE], [], []), [ID, EMAIL], [Some(V)], EMAIL, V)

  /** Rows are inserted without e-mail and team, which a composite key covers. */
  const COVERED := Case(Schema(T, [KEY, UNIQUE, PLAIN], [], [[EMAIL, TEAM]]), [ID], [], CompositeName([EMAIL, TEAM]), [0])

  function Row(k: Case, r: Text): seq<Cell> {
    Zip(k.columns, [Some(r)] + k.values)
  }

  // ----- The log -----

  function Insertion(k: Case, r: Text, i: nat): seq<Op> {
    [InsertRow(T, r, At(2, i), Row(k, r)), ReserveUnique(T, r, At(2, i), k.key, k.value)]
  }

  function Change(r: Text, i: nat): seq<Op> {
    [UpdateCells(T, r, At(3, i), [Cell(EMAIL, Some(V))]), ReserveUnique(T, r, At(3, i), EMAIL, V)]
  }

  function LogOf(k: Case): seq<Op> {
    [CreateTable(T, At(1, 0), k.schema)] + (Insertion(k, R1, 0) + Insertion(k, R2, 1)) + (Change(R1, 0) + Change(R2, 1))
  }

  predicate IsCase(k: Case) {
    k == RECLAIM || k == COVERED
  }

  /** The ops of the log, by kind. */
  lemma InLog(k: Case, o: Op)
    ensures o in LogOf(k) <==>
      || o == CreateTable(T, At(1, 0), k.schema)
      || o == InsertRow(T, R1, At(2, 0), Row(k, R1)) || o == InsertRow(T, R2, At(2, 1), Row(k, R2))
      || o == UpdateCells(T, R1, At(3, 0), [Cell(EMAIL, Some(V))]) || o == UpdateCells(T, R2, At(3, 1), [Cell(EMAIL, Some(V))])
      || IsClaim(k, o)
  {
  }

  predicate IsClaim(k: Case, o: Op) {
    || o == ReserveUnique(T, R1, At(2, 0), k.key, k.value) || o == ReserveUnique(T, R2, At(2, 1), k.key, k.value)
    || o == ReserveUnique(T, R1, At(3, 0), EMAIL, V) || o == ReserveUnique(T, R2, At(3, 1), EMAIL, V)
  }

  lemma Names()
    ensures Less(EMAIL, CompositeName([EMAIL, TEAM])) && EMAIL != CompositeName([EMAIL, TEAM])
    ensures ColsToNull(CompositeName([EMAIL, TEAM])) == [EMAIL, TEAM] && ColsToNull(EMAIL) == [EMAIL]
  {
    PlannerLaws.CompositeNamesItsColumns([EMAIL, TEAM]);
    assert CompositeName([EMAIL, TEAM])[0] == 95;
  }

  ghost function OpsOf(k: Case): set<Op> {
    Elements(LogOf(k))
  }

  lemma ReclaimIsIgnored(r: Text, p: Op)
    requires NullsLast(OpsOf(RECLAIM), T, r, EMAIL, p)
    ensures p.hlc.wall == 2
  {
    var p1, p2 := ReserveUnique(T, R1, At(2, 0), EMAIL, V), ReserveUnique(T, R2, At(2, 1), EMAIL, V);
    var q1, q2 := ReserveUnique(T, R1, At(3, 0), EMAIL, V), ReserveUnique(T, R2, At(3, 1), EMAIL, V);
    InLog(RECLAIM, p);
    InLog(RECLAIM, p1);
    InLog(RECLAIM, p2);
    assert SameClaimer(p1, q1) && SameClaimer(p2, q2);
  }

  /** The second row's composite claim is the last there is, so it is not lost. */
  lemma CoveredLoser(p: Op)
    requires Loses(OpsOf(COVERED), p)
    ensures p == ReserveUnique(T, R1, At(2, 0), COVERED.key, COVERED.value) || p == ReserveUnique(T, R1, At(3, 0), EMAIL, V)
  {
    Names();
    InLog(COVERED, p);
    forall q ensures q in OpsOf(COVERED) && q.ReserveUnique? ==> IsClaim(COVERED, q) { InLog(COVERED, q); }
  }

  lemma CoverNulls()
    ensures Nulls(OpsOf(COVERED), T, R1, EMAIL, ReserveUnique(T, R1, At(2, 0), COVERED.key, COVERED.value))
  {
    var p1, p2 := ReserveUnique(T, R1, At(2, 0), COVERED.key, COVERED.value), ReserveUnique(T, R2, At(2, 1), COVERED.key, COVERED.value);
    Names();
    InLog(COVERED, p1);
    InLog(COVERED, p2);
    forall q ensures q in OpsOf(COVERED) && q.ReserveUnique? ==> IsClaim(COVERED, q) { InLog(COVERED, q); }
    assert IsFirstClaim(OpsOf(COVERED), p1) && IsFirstClaim(OpsOf(COVERED), p2) && SameValue(p1, p2);
  }

  /** Whatever nulls an e-mail for good stems from the time of the inserts: in the first case
      the second claims are ignored, in the second the composite name sorts last. */
  lemma NulledEarly(k: Case, r: Text, p: Op)
    requires IsCase(k) && NullsLast(OpsOf(k), T, r, EMAIL, p)
    ensures p.hlc.wall == 2
  {
    if k == RECLAIM {
      ReclaimIsIgnored(r, p);
    } else {
      Names();
      CoveredLoser(p);
      CoverNulls();
      LessTotal(EMAIL, k.key);
    }
  }

  function RowAtIndex(i: nat): Text {
    if i == 0 then R1 else R2
  }

  lemma LastWrite(k: Case, i: nat)
    requires i < 2 && WellFormed(OpsOf(k))
    ensures At(3, i) in WriteTimes(OpsOf(k), T, RowAtIndex(i), EMAIL)
    ensures LastWritten(OpsOf(k), T, RowAtIndex(i), EMAIL) == Some(V)
  {
    var ops, r, w := OpsOf(k), RowAtIndex(i), UpdateCells(T, RowAtIndex(i), At(3, i), [Cell(EMAIL, Some(V))]);
    InLog(k, w);
    assert w.WritesCell(T, r, EMAIL);
    ValueAtIs(ops, T, r, EMAIL, w);
    forall h | h in WriteTimes(ops, T, r, EMAIL) && h != At(3, i) ensures Before(h, At(3, i)) {
      var o :| o in ops && o.WritesCell(T, r, EMAIL) && o.hlc == h;
      InLog(k, o);
    }
    LatestIsUnique(WriteTimes(ops, T, r, EMAIL), At(3, i), Latest(WriteTimes(ops, T, r, EMAIL)));
  }

  lemma RowIsShown(k: Case, i: nat)
    requires i < 2 && k.schema.name == T
    ensures Shown(OpsOf(k), T, RowAtIndex(i))
  {
    var ops, r, o := OpsOf(k), RowAtIndex(i), InsertRow(T, RowAtIndex(i), At(2, i), Row(k, RowAtIndex(i)));
    InLog(k, CreateTable(T, At(1, 0), k.schema));
    assert CreateTable(T, At(1, 0), k.schema).schema.name in Created(ops);
    InLog(k, o);
    assert o.hlc in InsertTimes(ops, T, r);
    forall d | d in ops ensures !d.DeleteRow? { InLog(k, d); }
    assert DeleteTimes(ops, T, r) == {};
  }

  lemma BothSurvive(k: Case, i: nat)
    requires IsCase(k) && i < 2 && WellFormed(OpsOf(k))
    ensures Survives(OpsOf(k), T, RowAtIndex(i), EMAIL, V)
  {
    LastWrite(k, i);
    RowIsShown(k, i);
    forall p | NullsLast(OpsOf(k), T, RowAtIndex(i), EMAIL, p)
      ensures !AllBefore(WriteTimes(OpsOf(k), T, RowAtIndex(i), EMAIL), NullHlc(p.hlc))
    {
      NulledEarly(k, RowAtIndex(i), p);
      assert !Before(At(3, i), NullHlc(p.hlc));
    }
  }

  // ----- The run -----

  /** The decoding of bytes to text leaves these row ids alone. */
  predicate Plain(cfg: Config) {
    !cfg.policy.Cascade? && cfg.text(R1) == R1 && cfg.text(R2) == R2
  }

  function CreateStmt(k: Case): Stmt {
    Create(k.schema)
  }

  function InsertStmt(k: Case): Stmt {
    Insert(T, k.columns, [[Some(R1)] + k.values, [Some(R2)] + k.values])
  }

  function UpdateStmt(): Stmt {
    Update(T, [Cell(EMAIL, Some(V))], None)
  }

  /** Only the e-mail column is unique, so it alone claims, if it has a value. */
  lemma EmailClaims(k: Case, r: Text, h: Hlc, cells: seq<Cell>)
    requires IsCase(k)
    ensures ColumnClaims(k.schema, T, r, h, cells) == ReserveColumn(UNIQUE, T, r, h, cells)
  {
    var f := (d: ColumnDef) => ReserveColumn(d, T, r, h, cells);
    FlatMapTwo(KEY, UNIQUE, f);
    FlatMapThree(KEY, UNIQUE, PLAIN, f);
    assert f(KEY) == [] && f(PLAIN) == [];
  }

  lemma UpdateClaims(k: Case, r: Text, h: Hlc)
    requires IsCase(k)
    ensures ColumnClaims(k.schema, T, r, h, [Cell(EMAIL, Some(V))]) == [ReserveUnique(T, r, h, EMAIL, V)]
  {
    EmailClaims(k, r, h, [Cell(EMAIL, Some(V))]);
  }

  lemma RowCells(k: Case, r: Text)
    requires IsCase(k)
    ensures Row(k, r) == if k == COVERED then [Cell(ID, Some(r))] else [Cell(ID, Some(r)), Cell(EMAIL, Some(V))]
    ensures FirstCell(Row(k, r), ID) == Some(Some(r)) && (k == COVERED ==> FirstCell(Row(k, r), TEAM) == None)
    ensures FirstCell(Row(k, r), EMAIL) == if k == COVERED then None else Some(Some(V))
  {
    if k == RECLAIM { assert Row(k, r)[1..] == [Cell(EMAIL, Some(V))]; } else { assert Row(k, r)[1..] == []; }
    assert ID != EMAIL && ID != TEAM;
  }

  lemma EmptyPair()
    ensures Splitting.Join(0, [[], []]) == [0]
  {
    var e: seq<Bytes> := [[]];
    Splitting.JoinSnoc(0, e, []);
    assert e + [[]] == [[], []];
  }

  lemma InsertClaims(k: Case, r: Text, h: Hlc)
    requires IsCase(k)
    ensures ColumnClaims(k.schema, T, r, h, Row(k, r)) + CompositeClaims(k.schema, T, r, h, Row(k, r))
      == [ReserveUnique(T, r, h, k.key, k.value)]
  {
    EmailClaims(k, r, h, Row(k, r));
    RowCells(k, r);
    if k == COVERED {
      var cells, f := Row(k, r), (cols: seq<Text>) => ReserveComposite(cols, T, r, h, Row(k, r));
      FlatMapTwo([EMAIL, TEAM], [EMAIL, TEAM], f);
      assert PartOf(cells, EMAIL) == [] && PartOf(cells, TEAM) == [] && [EMAIL, TEAM][..1] == [EMAIL];
      assert Parts([EMAIL, TEAM], cells) == [[], []];
      assert CompositeValue([EMAIL, TEAM], cells) == [0] by { EmptyPair(); }
      assert CompositeClaims(k.schema, T, r, h, cells) == f([EMAIL, TEAM]) == [ReserveUnique(T, r, h, k.key, [0])];
      assert ReserveColumn(UNIQUE, T, r, h, cells) == [];
    } else {
      assert ReserveColumn(UNIQUE, T, r, h, Row(k, r)) == [ReserveUnique(T, r, h, EMAIL, V)];
      assert CompositeClaims(k.schema, T, r, h, Row(k, r)) == [];
    }
  }

  lemma InsertRowPlan(cfg: Config, s: Store, k: Case, r: Text, h: Hlc)
    requires IsCase(k) && cfg.text(r) == r
    ensures PlanRow(cfg, s, T, k.schema, ID, Row(k, r), h)
      == RowPlanned([InsertRow(T, r, h, Row(k, r)), ReserveUnique(T, r, h, k.key, k.value)])
  {
    RowCells(k, r);
    InsertClaims(k, r, h);
    assert forall d :: d in k.schema.columns ==> d == KEY || d == UNIQUE || d == PLAIN;
    PlannerLaws.RowPlannedIff(cfg, s, T, k.schema, ID, Row(k, r), h);
    var first := [InsertRow(T, r, h, Row(k, r))];
    assert first + ColumnClaims(k.schema, T, r, h, Row(k, r)) + CompositeClaims(k.schema, T, r, h, Row(k, r))
      == first + (ColumnClaims(k.schema, T, r, h, Row(k, r)) + CompositeClaims(k.schema, T, r, h, Row(k, r)));
  }

  function CreateOps(k: Case): seq<Op> {
    [CreateTable(T, At(1, 0), k.schema)]
  }

  function InsertOps(k: Case): seq<Op> {
    Insertion(k, R1, 0) + Insertion(k, R2, 1)
  }

  function ChangeOps(): seq<Op> {
    Change(R1, 0) + Change(R2, 1)
  }

  ghost function Created1(k: Case): Store {
    map[T := Table(k.schema, map[], map[])]
  }

  lemma CreatePlans(cfg: Config, k: Case)
    requires IsCase(k)
    ensures Plans(cfg, A, map[], CreateStmt(k), 1, CreateOps(k), 1)
    ensures StoreAll(map[], CreateOps(k)) == Created1(k)
  {
    forall t: Ticker | t.peer == A && t.now == Fixed(1) && t.clock.wall < 1 ensures TimeOf(t, 0) == At(1, 0) { FixedTicks(t, 1, 0); }
    assert CreateOps(k)[..0] == [];
  }

  lemma InsertPlan(cfg: Config, k: Case, t: Ticker)
    requires IsCase(k) && Plain(cfg) && t.peer == A && t.now == Fixed(2) && t.clock.wall < 2
    ensures PlanOf(cfg, Created1(k), InsertStmt(k), t) == Plan(InsertOps(k), 2, None)
  {
    FixedTicks(t, 2, 0);
    FixedTicks(t, 2, 1);
    var values := InsertStmt(k).values;
    var rows := PlannerLaws.RowPlans(cfg, Created1(k), T, k.schema, ID, k.columns, values, t);
    InsertRowPlan(cfg, Created1(k), k, R1, At(2, 0));
    InsertRowPlan(cfg, Created1(k), k, R2, At(2, 1));
    assert rows == [RowPlanned(Insertion(k, R1, 0)), RowPlanned(Insertion(k, R2, 1))];
    PlannerLaws.PlanRowsIsFold(cfg, Created1(k), T, k.schema, ID, k.columns, values, t, rows);
    FoldTwo(Insertion(k, R1, 0), Insertion(k, R2, 1));
    assert SecondaryIndexes.PrimaryKey(k.schema.columns) == Some(ID);
  }

  lemma FoldTwo(xs: seq<Op>, ys: seq<Op>)
    ensures PlannerLaws.FoldRows([RowPlanned(xs), RowPlanned(ys)]) == Plan(xs + ys, 2, None)
  {
    var rows := [RowPlanned(xs), RowPlanned(ys)];
    assert rows[..1] == [RowPlanned(xs)] && rows[..1][..0] == [];
    assert PlannerLaws.FoldRows(rows[..1]) == Plan([] + xs, 1, None);
  }

  lemma InsertPlans(cfg: Config, k: Case)
    requires IsCase(k) && Plain(cfg)
    ensures Plans(cfg, A, Created1(k), InsertStmt(k), 2, InsertOps(k), 2)
  {
    forall t: Ticker | t.peer == A && t.now == Fixed(2) && t.clock.wall < 2
      ensures PlanOf(cfg, Created1(k), InsertStmt(k), t) == Plan(InsertOps(k), 2, None)
    {
      InsertPlan(cfg, k, t);
    }
  }

  lemma InsertedStore(k: Case)
    requires IsCase(k)
    ensures var s := StoreAll(Created1(k), InsertOps(k));
      T in s && s[T].schema == k.schema && VisibleRows(s[T]) == {R1, R2}
  {
    var ops, s0 := InsertOps(k), Created1(k);
    assert ops == [ops[0], ops[1], ops[2], ops[3]];
    StoreAllFour(s0, ops[0], ops[1], ops[2], ops[3]);
    var s := ApplyOp(ApplyOp(s0, ops[0]), ops[2]);
    assert StoreAll(s0, ops) == s;
    assert At(2, 0) in {At(2, 0)} - {} && At(2, 1) in {At(2, 1)} - {};
    assert s[T].membership.Keys == {R1, R2};
  }

  lemma StoreAllFour(s: Store, a: Op, b: Op, c: Op, d: Op)
    ensures StoreAll(s, [a, b, c, d]) == ApplyOp(ApplyOp(ApplyOp(ApplyOp(s, a), b), c), d)
  {
    StoreNext(s, [], a);
    StoreNext(s, [a], b);
    StoreNext(s, [a, b], c);
    StoreNext(s, [a, b, c], d);
    assert [] + [a] == [a] && [a] + [b] == [a, b] && [a, b] + [c] == [a, b, c] && [a, b, c] + [d] == [a, b, c, d];
  }

  lemma StoreNext(s: Store, ops: seq<Op>, o: Op)
    ensures StoreAll(s, ops + [o]) == ApplyOp(StoreAll(s, ops), o)
  {
    assert (ops + [o])[..|ops|] == ops;
  }

  lemma UpdatePlan(cfg: Config, k: Case, s: Store, t: Ticker)
    requires IsCase(k) && t.peer == A && t.now == Fixed(3) && t.clock.wall < 3
    requires T in s && s[T].schema == k.schema && VisibleRows(s[T]) == {R1, R2}
    ensures PlanOf(cfg, s, UpdateStmt(), t) == Plan(ChangeOps(), 2, None)
  {
    FixedTicks(t, 3, 0);
    FixedTicks(t, 3, 1);
    var ids := Executor.MatchingIds(s[T], None);
    assert Executor.Matching(s[T], None) == {R1, R2};
    U.LessIsStrictTotal();
    assert Less(R1, R2) && Elements([R1, R2]) == {R1, R2};
    StrictlySortedUnique(Less, ids, [R1, R2]);
    UpdateClaims(k, R1, At(3, 0));
    UpdateClaims(k, R2, At(3, 1));
    UpdateTwo(k.schema, [Cell(EMAIL, Some(V))], t);
    assert SecondaryIndexes.PrimaryKey(k.schema.columns) == Some(ID);
  }

  lemma UpdateTwo(schema: Schema, cells: seq<Cell>, t: Ticker)
    ensures UpdateOps(schema, T, [R1, R2], cells, t)
      == ([UpdateCells(T, R1, TimeOf(t, 0), cells)] + ColumnClaims(schema, T, R1, TimeOf(t, 0), cells))
       + ([UpdateCells(T, R2, TimeOf(t, 1), cells)] + ColumnClaims(schema, T, R2, TimeOf(t, 1), cells))
  {
    UpdateNext(schema, [], R1, cells, t);
    UpdateNext(schema, [R1], R2, cells, t);
    assert [] + [R1] == [R1] && [R1] + [R2] == [R1, R2];
    var row := [UpdateCells(T, R1, TimeOf(t, 0), cells)] + ColumnClaims(schema, T, R1, TimeOf(t, 0), cells);
    assert [] + row == row;
  }

  lemma UpdateNext(schema: Schema, ids: seq<Text>, r: Text, cells: seq<Cell>, t: Ticker)
    ensures UpdateOps(schema, T, ids + [r], cells, t) == UpdateOps(schema, T, ids, cells, t)
      + ([UpdateCells(T, r, TimeOf(t, |ids|), cells)] + ColumnClaims(schema, T, r, TimeOf(t, |ids|), cells))
  {
    assert (ids + [r])[..|ids|] == ids;
  }

  /** The three statements, at wall times 1, 2 and 3. */
  ghost function Steps(k: Case, n: nat): seq<Clusters.Step>
    requires n <= 3
  {
    if n == 0 then []
    else Steps(k, n - 1) + [Clusters.Execute(0, if n == 1 then CreateStmt(k) else if n == 2 then InsertStmt(k) else UpdateStmt(), Fixed(n))]
  }

  /** Time and kind tell the ops of the log apart. */
  lemma OpAt(k: Case, i: nat)
    requires i < 9
    ensures var o := LogOf(k)[i];
      && o.hlc == At([1, 2, 2, 2, 2, 3, 3, 3, 3][i], [0, 0, 0, 1, 1, 0, 0, 1, 1][i])
      && (o.ReserveUnique? <==> i > 0 && i % 2 == 0) && !o.DeleteRow?
  {
  }

  lemma LogIsDistinct(k: Case)
    ensures NoDup(LogOf(k)) && NoDup(CreateOps(k) + InsertOps(k))
  {
    var log := LogOf(k);
    forall i, j | 0 <= i < j < |log| ensures log[i] != log[j] {
      OpAt(k, i);
      OpAt(k, j);
    }
    assert log[..5] == CreateOps(k) + InsertOps(k);
  }

  lemma PartsFit(k: Case)
    ensures forall o :: o in CreateOps(k) ==> !o.DeleteRow? && o.hlc.wall == 1 && o.hlc.logical < 1
    ensures forall o :: o in InsertOps(k) ==> !o.DeleteRow? && o.hlc.wall == 2 && o.hlc.logical < 2
    ensures forall o :: o in ChangeOps() ==> !o.DeleteRow? && o.hlc.wall == 3 && o.hlc.logical < 2
  {
  }

  lemma RunOne(cfg: Config, k: Case)
    requires IsCase(k)
    ensures Solo(cfg, [A], Steps(k, 1), 0, 1, CreateOps(k), Created1(k))
  {
    SoloStart(cfg, [A], 0);
    CreatePlans(cfg, k);
    PartsFit(k);
    assert [] + CreateOps(k) == CreateOps(k);
    SoloStep(cfg, [A], [], 0, 0, [], map[], CreateStmt(k), 1, CreateOps(k), 1);
    assert Steps(k, 0) == [];
  }

  lemma RunTwo(cfg: Config, k: Case)
    requires IsCase(k) && Plain(cfg)
    ensures Solo(cfg, [A], Steps(k, 2), 0, 2, CreateOps(k) + InsertOps(k), StoreAll(Created1(k), InsertOps(k)))
  {
    RunOne(cfg, k);
    InsertPlans(cfg, k);
    PartsFit(k);
    LogIsDistinct(k);
    SoloStep(cfg, [A], Steps(k, 1), 0, 1, CreateOps(k), Created1(k), InsertStmt(k), 2, InsertOps(k), 2);
  }

  lemma UpdatePlans(cfg: Config, k: Case, s: Store)
    requires IsCase(k) && T in s && s[T].schema == k.schema && VisibleRows(s[T]) == {R1, R2}
    ensures Plans(cfg, A, s, UpdateStmt(), 3, ChangeOps(), 2)
  {
    forall t: Ticker | t.peer == A && t.now == Fixed(3) && t.clock.wall < 3
      ensures PlanOf(cfg, s, UpdateStmt(), t) == Plan(ChangeOps(), 2, None)
    {
      UpdatePlan(cfg, k, s, t);
    }
  }

  /** The statements make exactly this log. */
  lemma RunMakesLog(cfg: Config, k: Case)
    requires IsCase(k) && Plain(cfg)
    ensures Solo(cfg, [A], Steps(k, 3), 0, 3, LogOf(k), StoreAll(StoreAll(Created1(k), InsertOps(k)), ChangeOps()))
  {
    var s := StoreAll(Created1(k), InsertOps(k));
    RunTwo(cfg, k);
    InsertedStore(k);
    UpdatePlans(cfg, k, s);
    PartsFit(k);
    LogIsDistinct(k);
    SoloStep(cfg, [A], Steps(k, 2), 0, 2, CreateOps(k) + InsertOps(k), s, UpdateStmt(), 3, ChangeOps(), 2);
  }

  lemma RunLog(cfg: Config, k: Case)
    requires IsCase(k) && Plain(cfg)
    ensures Clusters.Runs(cfg, [A], Steps(k, 3)) && |Clusters.After(cfg, [A], Steps(k, 3)).peers| == 1
    ensures Clusters.After(cfg, [A], Steps(k, 3)).peers[0].log == LogOf(k)
    ensures NoDup(LogOf(k)) && WellFormed(OpsOf(k)) && NoArbiter(OpsOf(k))
  {
    RunMakesLog(cfg, k);
    ClusterLaws.ReachableLogs(cfg, [A], Steps(k, 3), 0);
    assert |ARBITER| > 1;
    var c := Clusters.After(cfg, [A], Steps(k, 3));
    assert OpsOf(k) == Clusters.OpsAt(c, 0) <= Clusters.AllOps(c);
  }

  /** UNIQUE fails after a run of one peer: CREATE TABLE, an INSERT of two rows and an UPDATE
      of both leave two visible rows with one value of a UNIQUE column. */
  lemma UniqueCanFail(cfg: Config, k: Case)
    requires IsCase(k) && Plain(cfg)
    ensures Clusters.Runs(cfg, [A], Steps(k, 3)) && |Clusters.After(cfg, [A], Steps(k, 3)).peers| == 1
    ensures var log := Clusters.After(cfg, [A], Steps(k, 3)).peers[0].log;
      Share(cfg, log, T, EMAIL, R1, R2, V) && !Unique(cfg, log, T, EMAIL)
    ensures UNIQUE in k.schema.columns && UNIQUE.unique && UNIQUE.name == EMAIL
  {
    RunLog(cfg, k);
    BothSurvive(k, 0);
    BothSurvive(k, 1);
    ShareIff(cfg, LogOf(k), T, EMAIL, R1, R2, V);
    assert UNIQUE == k.schema.columns[1];
  }

  lemma CoveredWrites(o: Op, r: Text)
    requires o in OpsOf(COVERED) && o.WritesCell(T, r, EMAIL)
    ensures LastCell(o.cells, EMAIL) == Some(Some(V))
    ensures o == UpdateCells(T, R1, At(3, 0), [Cell(EMAIL, Some(V))]) || o == UpdateCells(T, R2, At(3, 1), [Cell(EMAIL, Some(V))])
  {
    InLog(COVERED, o);
    RowCells(COVERED, o.row);
  }

  lemma CoveredClaims(p: Op)
    requires p in OpsOf(COVERED) && p.Reserves(T, EMAIL)
    ensures p == ReserveUnique(T, R1, At(3, 0), EMAIL, V) || p == ReserveUnique(T, R2, At(3, 1), EMAIL, V)
  {
    InLog(COVERED, p);
    Names();
  }

  lemma CoveredWriteIsClaimed(o: Op, r: Text)
    requires o in OpsOf(COVERED) && o.WritesCell(T, r, EMAIL)
    ensures LastCell(o.cells, EMAIL) == Some(Some(V)) && ReserveUnique(T, r, o.hlc, EMAIL, V) in OpsOf(COVERED)
  {
    CoveredWrites(o, r);
    InLog(COVERED, ReserveUnique(T, r, o.hlc, EMAIL, V));
  }

  lemma CoveredClaimIsWritten(p: Op) returns (o: Op)
    requires p in OpsOf(COVERED) && p.Reserves(T, EMAIL)
    ensures o in OpsOf(COVERED) && o.WritesCell(T, p.row, EMAIL) && o.hlc == p.hlc && LastCell(o.cells, EMAIL) == Some(Some(p.value))
  {
    CoveredClaims(p);
    o := UpdateCells(T, p.row, p.hlc, [Cell(EMAIL, Some(V))]);
    InLog(COVERED, o);
    assert o.WritesCell(T, p.row, EMAIL);
  }

  lemma CoveredIsOlder()
    ensures !NoOlderCover(OpsOf(COVERED), T, EMAIL)
  {
    var p, w := ReserveUnique(T, R1, At(2, 0), COVERED.key, COVERED.value), UpdateCells(T, R1, At(3, 0), [Cell(EMAIL, Some(V))]);
    Names();
    InLog(COVERED, p);
    InLog(COVERED, w);
    assert w.WritesCell(T, p.row, EMAIL) && EMAIL in ColsToNull(p.column) && Before(p.hlc, w.hlc);
  }

  /** In the second run every row writes and claims the column once: what fails is that the
      composite claims are older. */
  lemma CoveredIsClaimedOnce()
    ensures ClaimedOnce(OpsOf(COVERED), T, EMAIL) && !NoOlderCover(OpsOf(COVERED), T, EMAIL)
  {
    var ops := OpsOf(COVERED);
    CoveredIsOlder();
    forall o, r | o in ops && o.WritesCell(T, r, EMAIL)
      ensures LastCell(o.cells, EMAIL) == Some(Some(V)) && ReserveUnique(T, r, o.hlc, EMAIL, V) in ops
    {
      CoveredWriteIsClaimed(o, r);
    }
    forall p | p in ops && p.Reserves(T, EMAIL)
      ensures exists o :: o in ops && o.WritesCell(T, p.row, EMAIL) && o.hlc == p.hlc && LastCell(o.cells, EMAIL) == Some(Some(p.value))
    {
      var o := CoveredClaimIsWritten(p);
    }
    forall a, b, r | a in ops && b in ops && a.WritesCell(T, r, EMAIL) && b.WritesCell(T, r, EMAIL) ensures a == b {
      CoveredWrites(a, r);
      CoveredWrites(b, r);
    }
  }
}
