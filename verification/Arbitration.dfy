/** Rebuilding the uniqueness state from the log, and nulling the losers' columns. */
module Arbitration {
  import opened ByteStrings
  import opened Clocks
  import opened Ops
  import opened RowStores
  import opened Sorting
  import opened Splitting
  import U = Uniqueness
  import OrSets
  import MvRegisters

  /** table → column → reservations. */
  type UniqueState = map<Text, map<Text, U.Index>>

  const ARBITER: Text := Ascii("__uniqueness_arbiter__")
  const COMPOSITE: Text := Ascii("__composite__")
  const UNDERSCORES: Text := Ascii("__")

  // ----- Uniqueness state from ops -----

  function ReservationFrom(o: Op): U.Reservation
    requires o.ReserveUnique?
  {
    U.Reservation(o.value, o.row, o.hlc.peer, o.hlc, U.Provisional)
  }

  function ColumnsOf(u: UniqueState, t: Text): map<Text, U.Index> {
    if t in u then u[t] else map[]
  }

  function IndexAt(u: UniqueState, t: Text, c: Text): U.Index {
    if c in ColumnsOf(u, t) then ColumnsOf(u, t)[c] else U.EMPTY
  }

  function ReserveIn(u: UniqueState, o: Op): UniqueState {
    if !o.ReserveUnique? then u
    else u[o.table := ColumnsOf(u, o.table)[o.column := U.ReserveOf(IndexAt(u, o.table, o.column), ReservationFrom(o))]]
  }

  function ReplayUnique(ops: seq<Op>): UniqueState {
    if |ops| == 0 then map[] else ReserveIn(ReplayUnique(ops[..|ops| - 1]), ops[|ops| - 1])
  }

  /** The history of reservations a list of ops makes on one column. */
  ghost function HistoryOf(ops: seq<Op>, t: Text, c: Text): U.History {
    if |ops| == 0 then U.Empty
    else
      var h, o := HistoryOf(ops[..|ops| - 1], t, c), ops[|ops| - 1];
      if o.Reserves(t, c) then U.Reserved(h, ReservationFrom(o)) else h
  }

  ghost predicate HasIndex(u: UniqueState, t: Text, c: Text) {
    t in u && c in u[t]
  }

  /** Columns do not interfere: each index sees exactly its own reservations. */
  lemma {:induction false} ColumnsAreIndependent(ops: seq<Op>, t: Text, c: Text)
    ensures IndexAt(ReplayUnique(ops), t, c) == U.IndexAfter(HistoryOf(ops, t, c))
    ensures U.FreshHistory(HistoryOf(ops, t, c))
    ensures HasIndex(ReplayUnique(ops), t, c) <==> exists o :: o in ops && o.Reserves(t, c)
    ensures t in ReplayUnique(ops) <==> exists o :: o in ops && o.ReserveUnique? && o.table == t
  {
    if |ops| > 0 {
      var m := |ops| - 1;
      ColumnsAreIndependent(ops[..m], t, c);
      assert ops == ops[..m] + [ops[m]];
    }
  }

  function ReservesOn(t: Text, c: Text): Op -> bool {
    (o: Op) => o.Reserves(t, c)
  }

  /** Only the sub-list of a column's own reservations matters. */
  lemma {:induction false} HistoryOfFilter(ops: seq<Op>, t: Text, c: Text)
    ensures HistoryOf(ops, t, c) == HistoryOf(Filter(ops, ReservesOn(t, c)), t, c)
  {
    if |ops| > 0 {
      var m, p := |ops| - 1, ReservesOn(t, c);
      HistoryOfFilter(ops[..m], t, c);
      var ys, zs := Filter(ops[..m], p), Filter(ops, p);
      if p(ops[m]) {
        assert zs == ys + [ops[m]];
        assert zs[..|zs| - 1] == ys && zs[|zs| - 1] == ops[m];
      } else {
        assert zs == ys;
      }
    }
  }

  lemma SameColumns(u: UniqueState, w: UniqueState, t: Text)
    requires t in u && t in w
    requires forall c :: (HasIndex(u, t, c) <==> HasIndex(w, t, c)) && IndexAt(u, t, c) == IndexAt(w, t, c)
    ensures u[t] == w[t]
  {
    forall c ensures (c in u[t] <==> c in w[t]) && (c in u[t] ==> u[t][c] == w[t][c]) {
      assert HasIndex(u, t, c) <==> HasIndex(w, t, c);
      assert IndexAt(u, t, c) == IndexAt(w, t, c);
    }
  }

  /** Two replay orders of one set of ops give one uniqueness state, conflict logs included. */
  lemma ReplayUniqueConverges(xs: seq<Op>, ys: seq<Op>)
    requires Sorted(ReplaysBefore, xs) && Sorted(ReplaysBefore, ys) && NoDup(xs) && NoDup(ys)
    requires Elements(xs) == Elements(ys) && WellFormed(Elements(xs))
    ensures ReplayUnique(xs) == ReplayUnique(ys)
  {
    var u, w := ReplayUnique(xs), ReplayUnique(ys);
    forall o ensures o in xs <==> o in ys { assert o in xs <==> o in Elements(xs); assert o in ys <==> o in Elements(ys); }
    forall t ensures t in u <==> t in w {
      ColumnsAreIndependent(xs, t, []);
      ColumnsAreIndependent(ys, t, []);
    }
    forall t | t in u ensures u[t] == w[t] {
      forall c ensures (HasIndex(u, t, c) <==> HasIndex(w, t, c)) && IndexAt(u, t, c) == IndexAt(w, t, c) {
        ColumnsAreIndependent(xs, t, c);
        ColumnsAreIndependent(ys, t, c);
        ColumnConverges(xs, ys, t, c);
      }
      SameColumns(u, w, t);
    }
  }

  lemma SameSelection<T(!new)>(xs: seq<T>, ys: seq<T>, p: T -> bool)
    requires Elements(xs) == Elements(ys)
    ensures Elements(Filter(xs, p)) == Elements(Filter(ys, p))
  {
    forall o ensures o in Filter(xs, p) <==> o in Filter(ys, p) {
      assert o in xs <==> o in Elements(xs);
      assert o in ys <==> o in Elements(ys);
    }
  }

  lemma ReplayOrderAsymmetric()
    ensures Asymmetric(ReplaysBefore)
  {
    HlcOrder();
  }

  lemma ColumnConverges(xs: seq<Op>, ys: seq<Op>, t: Text, c: Text)
    requires Sorted(ReplaysBefore, xs) && Sorted(ReplaysBefore, ys) && NoDup(xs) && NoDup(ys)
    requires Elements(xs) == Elements(ys) && WellFormed(Elements(xs))
    ensures HistoryOf(xs, t, c) == HistoryOf(ys, t, c)
  {
    var p := ReservesOn(t, c);
    HistoryOfFilter(xs, t, c);
    HistoryOfFilter(ys, t, c);
    ColumnIsStrict(xs, t, c);
    ColumnIsStrict(ys, t, c);
    SameSelection(xs, ys, p);
    ReplayOrderAsymmetric();
    StrictlySortedUnique(ReplaysBefore, Filter(xs, p), Filter(ys, p));
  }

  lemma ColumnIsStrict(xs: seq<Op>, t: Text, c: Text)
    requires Sorted(ReplaysBefore, xs) && NoDup(xs) && WellFormed(Elements(xs))
    ensures StrictlySorted(ReplaysBefore, Filter(xs, ReservesOn(t, c)))
  {
    HlcOrder();
    forall i, j | 0 <= i < j < |xs| && xs[i].Reserves(t, c) && xs[j].Reserves(t, c) ensures ReplaysBefore(xs[i], xs[j]) {
      assert xs[i] in Elements(xs) && xs[j] in Elements(xs);
      assert !ReplaysBefore(xs[j], xs[i]);
      assert xs[i].hlc == xs[j].hlc ==> SameGroup(xs[i], xs[j]);
    }
    FilterPairs(xs, ReservesOn(t, c), ReplaysBefore);
  }

  // ----- Null-writes -----

  datatype NullWrite = NullWrite(table: Text, row: Text, hlc: Hlc, cols: seq<Text>)

  predicate StartsWith(s: Text, prefix: Text) {
    |prefix| <= |s| && s[..|prefix|] == prefix
  }

  predicate EndsWith(s: Text, suffix: Text) {
    |suffix| <= |s| && s[|s| - |suffix|..] == suffix
  }

  /** The columns a lost claim on `c` nulls: the parts of a composite key, or `c` itself. */
  function ColsToNull(c: Text): seq<Text> {
    if StartsWith(c, COMPOSITE) && EndsWith(c, UNDERSCORES) && |COMPOSITE| <= |c| - 2
    then Split(COMMA, c[|COMPOSITE|..|c| - 2])
    else [c]
  }

  function NullHlc(h: Hlc): Hlc {
    Hlc(h.wall, Succ32(h.logical), ARBITER)
  }

  function NullsOfReservation(t: Text, c: Text, r: U.Reservation): seq<NullWrite> {
    if r.state.Lost? then [NullWrite(t, r.row, NullHlc(r.hlc), ColsToNull(c))] else []
  }

  function OfReservation(t: Text, c: Text): U.Reservation -> seq<NullWrite> {
    (r: U.Reservation) => NullsOfReservation(t, c, r)
  }

  function NullsOfList(t: Text, c: Text, rs: seq<U.Reservation>): seq<NullWrite> {
    FlatMap(rs, OfReservation(t, c))
  }

  function OfValue(t: Text, c: Text, idx: U.Index): Bytes -> seq<NullWrite> {
    (v: Bytes) => NullsOfList(t, c, U.ListFor(idx, v))
  }

  function SortedKeys<V>(m: map<Text, V>): (ks: seq<Text>)
    ensures forall k :: k in ks <==> k in m
    ensures StrictlySorted(Less, ks)
  {
    U.LessIsStrictTotal();
    var ks := Ascending(Less, m.Keys);
    assert forall k :: k in ks <==> k in Elements(ks);
    ks
  }

  function NullsOfColumn(t: Text, c: Text, idx: U.Index): seq<NullWrite> {
    FlatMap(SortedKeys(idx.reservations), OfValue(t, c, idx))
  }

  function OfColumn(u: UniqueState, t: Text): Text -> seq<NullWrite> {
    (c: Text) => NullsOfColumn(t, c, IndexAt(u, t, c))
  }

  function NullsOfTable(u: UniqueState, t: Text): seq<NullWrite> {
    FlatMap(SortedKeys(ColumnsOf(u, t)), OfColumn(u, t))
  }

  function OfTable(u: UniqueState): Text -> seq<NullWrite> {
    (t: Text) => NullsOfTable(u, t)
  }

  /** All null-writes, in the order the nested loops make them. */
  function NullWrites(u: UniqueState): seq<NullWrite> {
    FlatMap(SortedKeys(u), OfTable(u))
  }

  function NullCells(cols: seq<Text>): seq<Cell> {
    seq(|cols|, i requires 0 <= i < |cols| => Cell(cols[i], None))
  }

  function ArbitrateOne(s: Store, n: NullWrite): Store {
    if n.table in s && OrSets.Visible(s[n.table].membership, n.row)
    then s[n.table := UpdateRow(s[n.table], n.row, n.hlc, NullCells(n.cols))]
    else s
  }

  function Arbitrate(s: Store, ns: seq<NullWrite>): Store {
    if |ns| == 0 then s else ArbitrateOne(Arbitrate(s, ns[..|ns| - 1]), ns[|ns| - 1])
  }

  lemma NullsOfColumnSource(t: Text, c: Text, u: UniqueState, n: NullWrite)
    ensures n in NullsOfColumn(t, c, IndexAt(u, t, c))
      <==> exists v, r :: IsLost(u, t, c, v, r) && n == NullWrite(t, r.row, NullHlc(r.hlc), ColsToNull(c))
  {
    ColumnNulls(t, c, IndexAt(u, t, c), n);
    if v, r :| r in U.ListFor(IndexAt(u, t, c), v) && r.state.Lost? && n == NullWrite(t, r.row, NullHlc(r.hlc), ColsToNull(c)) {
      assert IsLost(u, t, c, v, r);
    }
  }

  lemma NullsOfTableSource(u: UniqueState, t: Text, n: NullWrite)
    ensures n in NullsOfTable(u, t)
      <==> exists c, v, r :: IsLost(u, t, c, v, r) && n == NullWrite(t, r.row, NullHlc(r.hlc), ColsToNull(c))
  {
    FlatMapElements(SortedKeys(ColumnsOf(u, t)), OfColumn(u, t), n);
    forall c ensures n in NullsOfColumn(t, c, IndexAt(u, t, c))
      <==> exists v, r :: IsLost(u, t, c, v, r) && n == NullWrite(t, r.row, NullHlc(r.hlc), ColsToNull(c))
    {
      NullsOfColumnSource(t, c, u, n);
    }
    if c, v, r :| IsLost(u, t, c, v, r) && n == NullWrite(t, r.row, NullHlc(r.hlc), ColsToNull(c)) {
      assert c in SortedKeys(ColumnsOf(u, t));
    }
  }

  /** Where a null-write comes from: a lost reservation, and every lost one makes one. */
  lemma NullWriteSource(u: UniqueState, n: NullWrite)
    ensures n in NullWrites(u) <==>
      exists c, v, r :: IsLost(u, n.table, c, v, r) && n == NullWrite(n.table, r.row, NullHlc(r.hlc), ColsToNull(c))
  {
    FlatMapElements(SortedKeys(u), OfTable(u), n);
    NullsOfTableSource(u, n.table, n);
    if n in NullWrites(u) {
      var t :| t in SortedKeys(u) && n in NullsOfTable(u, t);
      NullsOfTableSource(u, t, n);
    }
    if c, v, r :| IsLost(u, n.table, c, v, r) && n == NullWrite(n.table, r.row, NullHlc(r.hlc), ColsToNull(c)) {
      assert n.table in SortedKeys(u);
    }
  }

  ghost predicate IsLost(u: UniqueState, t: Text, c: Text, v: Bytes, r: U.Reservation) {
    r in U.ListFor(IndexAt(u, t, c), v) && r.state.Lost?
  }

  ghost predicate LosesFor(t: Text, c: Text, rs: seq<U.Reservation>, n: NullWrite) {
    exists r :: r in rs && r.state.Lost? && n == NullWrite(t, r.row, NullHlc(r.hlc), ColsToNull(c))
  }

  lemma ListNulls(t: Text, c: Text, rs: seq<U.Reservation>, n: NullWrite)
    ensures n in NullsOfList(t, c, rs) <==> LosesFor(t, c, rs, n)
  {
    FlatMapElements(rs, OfReservation(t, c), n);
  }

  lemma ColumnNulls(t: Text, c: Text, idx: U.Index, n: NullWrite)
    ensures n in NullsOfColumn(t, c, idx)
      <==> exists v, r :: r in U.ListFor(idx, v) && r.state.Lost? && n == NullWrite(t, r.row, NullHlc(r.hlc), ColsToNull(c))
  {
    var f := OfValue(t, c, idx);
    FlatMapElements(SortedKeys(idx.reservations), f, n);
    forall v ensures n in f(v) <==> LosesFor(t, c, U.ListFor(idx, v), n) { ListNulls(t, c, U.ListFor(idx, v), n); }
    if v, r :| r in U.ListFor(idx, v) && r.state.Lost? && n == NullWrite(t, r.row, NullHlc(r.hlc), ColsToNull(c)) {
      assert v in SortedKeys(idx.reservations);
      assert LosesFor(t, c, U.ListFor(idx, v), n);
    }
  }

  // ----- What arbitration does to a cell -----

  function RegisterIn(s: Store, t: Text, r: Text, c: Text): MvRegisters.Register {
    if t in s then RegisterAt(RowAt(s[t].rows, r), c) else map[]
  }

  predicate Hits(n: NullWrite, t: Text, r: Text, c: Text) {
    n.table == t && n.row == r && c in n.cols
  }

  /** The time of the last null-write on a cell. */
  function LastHit(ns: seq<NullWrite>, t: Text, r: Text, c: Text): Option<Hlc> {
    if |ns| == 0 then None
    else
      var n := ns[|ns| - 1];
      if Hits(n, t, r, c) then Some(n.hlc) else LastHit(ns[..|ns| - 1], t, r, c)
  }

  ghost predicate ByArbiter(ns: seq<NullWrite>) {
    forall n :: n in ns ==> n.hlc.peer == ARBITER
  }

  lemma NullWritesByArbiter(u: UniqueState)
    ensures ByArbiter(NullWrites(u))
  {
    forall n | n in NullWrites(u) ensures n.hlc.peer == ARBITER { NullWriteSource(u, n); }
  }

  /** Arbitration never changes schemas, membership or any row's visibility. */
  lemma {:induction false} ArbitrationKeepsMembership(s: Store, ns: seq<NullWrite>)
    ensures Arbitrate(s, ns).Keys == s.Keys
    ensures forall t :: t in s ==> Arbitrate(s, ns)[t].schema == s[t].schema
    ensures forall t :: t in s ==> Arbitrate(s, ns)[t].membership == s[t].membership
    ensures forall t, r :: t in s && r in s[t].rows ==> r in Arbitrate(s, ns)[t].rows
  {
    if |ns| > 0 { ArbitrationKeepsMembership(s, ns[..|ns| - 1]); }
  }

  lemma {:induction false} NullCellAt(cols: seq<Text>, c: Text)
    ensures LastCell(NullCells(cols), c) == if c in cols then Some(None) else None
  {
    if |cols| > 0 {
      var m := |cols| - 1;
      NullCellAt(cols[..m], c);
      assert NullCells(cols)[..m] == NullCells(cols[..m]);
      assert cols == cols[..m] + [cols[m]];
    }
  }

  lemma ArbitrateOneCell(s: Store, n: NullWrite, t: Text, r: Text, c: Text)
    requires t in s
    ensures RegisterIn(ArbitrateOne(s, n), t, r, c)
      == if Hits(n, t, r, c) && OrSets.Visible(s[t].membership, r)
         then MvRegisters.WriteOf(RegisterIn(s, t, r, c), n.hlc, None) else RegisterIn(s, t, r, c)
  {
    if n.table == t && OrSets.Visible(s[t].membership, n.row) {
      WriteCellsAt(RowAt(s[t].rows, n.row), n.hlc, NullCells(n.cols));
      NullCellAt(n.cols, c);
    }
  }

  /** The closed form of arbitration on a cell: since all null-writes share one
      pseudo-peer, only the last of them on the cell remains. */
  lemma {:induction false} ArbitratedCell(s: Store, ns: seq<NullWrite>, t: Text, r: Text, c: Text)
    requires t in s && ByArbiter(ns)
    ensures RegisterIn(Arbitrate(s, ns), t, r, c)
      == match LastHit(ns, t, r, c)
         case None => RegisterIn(s, t, r, c)
         case Some(h) => if OrSets.Visible(s[t].membership, r) then MvRegisters.WriteOf(RegisterIn(s, t, r, c), h, None)
                         else RegisterIn(s, t, r, c)
    ensures LastHit(ns, t, r, c).Some? ==> LastHit(ns, t, r, c).value.peer == ARBITER
  {
    if |ns| > 0 {
      var m := |ns| - 1;
      assert ns == ns[..m] + [ns[m]];
      ArbitratedCell(s, ns[..m], t, r, c);
      ArbitrationKeepsMembership(s, ns[..m]);
      ArbitrateOneCell(Arbitrate(s, ns[..m]), ns[m], t, r, c);
      match LastHit(ns[..m], t, r, c)
      case None =>
      case Some(h) => WriteTwice(RegisterIn(s, t, r, c), h, ns[m].hlc);
    }
  }

  lemma WriteTwice(reg: MvRegisters.Register, h: Hlc, k: Hlc)
    requires h.peer == k.peer
    ensures MvRegisters.WriteOf(MvRegisters.WriteOf(reg, h, None), k, None) == MvRegisters.WriteOf(reg, k, None)
  {
  }

  /** The cell reads as null after arbitration exactly when its last null-write is
      later than its canonical write; otherwise it reads as before. */
  lemma ArbitratedValue(s: Store, ns: seq<NullWrite>, t: Text, r: Text, c: Text)
    requires t in s && ByArbiter(ns) && OrSets.Visible(s[t].membership, r)
    requires forall h :: h in RegisterIn(s, t, r, c) ==> h.peer != ARBITER
    ensures var before := RegisterIn(s, t, r, c);
      MvRegisters.Read(RegisterIn(Arbitrate(s, ns), t, r, c)) == if Nulled(before, LastHit(ns, t, r, c)) then None else MvRegisters.Read(before)
  {
    var before := RegisterIn(s, t, r, c);
    ArbitratedCell(s, ns, t, r, c);
    match LastHit(ns, t, r, c)
    case None =>
    case Some(h) =>
      HlcOrder();
      MvRegisters.ReadAfterWrite(before, h, None);
      var kept := set k | k in before && k.peer != h.peer && Before(h, k);
      if kept != {} {
        var l := Latest(before.Keys);
        assert l in kept by { var k :| k in kept; assert k == l || Before(k, l); }
        assert forall k :: k in kept && k != l ==> Before(k, l);
        LatestIsUnique(kept, l, Latest(kept));
      } else if before.Keys != {} {
        var l := Latest(before.Keys);
        assert l !in kept;
      }
  }

  predicate Nulled(before: MvRegisters.Register, hit: Option<Hlc>) {
    hit.Some? && (before.Keys == {} || Before(Latest(before.Keys), hit.value))
  }
}
