/** What a rebuild guarantees about UNIQUE columns, read off the ops. */
module UniqueColumns {
  import opened ByteStrings
  import opened Clocks
  import opened Ops
  import opened Replay
  import opened Sorting
  import opened Rebuild
  import opened Arbitration
  import opened LosingClaims
  import C = Cascade
  import MvRegisters
  import OrSets
  import ReplayLaws

  // ----- The final value of a cell -----

  /** No op comes from the pseudo-peer that nulls losers. */
  ghost predicate NoArbiter(ops: set<Op>) {
    forall o :: o in ops ==> o.hlc.peer != ARBITER
  }

  /** The value of the latest write, whatever its peer. */
  ghost function LastWritten(ops: set<Op>, t: Text, r: Text, c: Text): Option<Bytes> {
    var times := WriteTimes(ops, t, r, c);
    if times == {} then None else ValueAt(ops, t, r, c, Latest(times))
  }

  /** The null-write that stays on the cell is later than every write of it. */
  ghost predicate Forfeits(ops: set<Op>, t: Text, r: Text, c: Text) {
    exists p :: NullsLast(ops, t, r, c, p) && AllBefore(WriteTimes(ops, t, r, c), NullHlc(p.hlc))
  }

  /** The table exists and the latest insert or delete of the row is an insert. */
  ghost predicate Shown(ops: set<Op>, t: Text, r: Text) {
    t in Created(ops) && exists h :: h in InsertTimes(ops, t, r) && AllBefore(DeleteTimes(ops, t, r), h)
  }

  ghost predicate Cascaded(cfg: Config, log: seq<Op>, t: Text, r: Text) {
    cfg.policy.Cascade? && (t, r) in C.Doomed(ArbitratedStore(log), cfg.text)
  }

  ghost function FinalValue(cfg: Config, log: seq<Op>, t: Text, r: Text, c: Text): Option<Bytes> {
    MvRegisters.Read(RegisterIn(RebuildOf(cfg, log).store, t, r, c))
  }

  ghost predicate FinallyVisible(cfg: Config, log: seq<Op>, t: Text, r: Text) {
    var s := RebuildOf(cfg, log).store;
    t in s && OrSets.Visible(s[t].membership, r)
  }

  lemma LatestOfLatest(ops: set<Op>, t: Text, r: Text, c: Text)
    requires WriteTimes(ops, t, r, c) != {}
    ensures LatestWrites(ops, t, r, c) != {} && Latest(LatestWrites(ops, t, r, c)) == Latest(WriteTimes(ops, t, r, c))
  {
    HlcOrder();
    var top := Latest(WriteTimes(ops, t, r, c));
    assert top in LatestWrites(ops, t, r, c);
    LatestIsUnique(LatestWrites(ops, t, r, c), top, Latest(LatestWrites(ops, t, r, c)));
  }

  lemma RegisterReads(ops: set<Op>, t: Text, r: Text, c: Text)
    ensures RegisterFor(ops, t, r, c).Keys == LatestWrites(ops, t, r, c)
    ensures MvRegisters.Read(RegisterFor(ops, t, r, c)) == LastWritten(ops, t, r, c)
  {
    if WriteTimes(ops, t, r, c) != {} { LatestOfLatest(ops, t, r, c); }
  }

  lemma BaseRegister(log: seq<Op>, t: Text, r: Text, c: Text)
    requires NoDup(log) && WellFormed(Elements(log)) && t in Created(Elements(log))
    ensures var s := ReplayOf(ReplayOrder(log)); t in s && RegisterIn(s, t, r, c) == RegisterFor(Elements(log), t, r, c)
  {
    BaseIsStateOf(log);
    RowForIsRowAt(Elements(log), t, r);
    if c !in WrittenCols(Elements(log), t, r) { UnwrittenColumn(Elements(log), t, r, c); }
  }

  /** Cascading hides rows and rewrites no cell. */
  lemma FinallyVisibleIff(cfg: Config, log: seq<Op>, t: Text, r: Text)
    requires NoDup(log) && WellFormed(Elements(log))
    ensures FinallyVisible(cfg, log, t, r) <==> Shown(Elements(log), t, r) && !Cascaded(cfg, log, t, r)
    ensures forall c :: FinalValue(cfg, log, t, r, c) == MvRegisters.Read(RegisterIn(ArbitratedStore(log), t, r, c))
  {
    ArbitratedMembership(log);
    ReplayLaws.VisibleIffLastIsInsert(Elements(log), t, r);
    var s := ArbitratedStore(log);
    if cfg.policy.Cascade? { C.KillSeen(s, C.Doomed(s, cfg.text), (t, r)); }
  }

  lemma PastAllIffPastLatest(times: set<Hlc>, h: Hlc)
    ensures AllBefore(times, h) <==> times == {} || Before(Latest(times), h)
  {
    HlcOrder();
  }

  /** There is at most one claim whose null-write stays, so it alone decides. */
  lemma ForfeitsBy(ops: set<Op>, t: Text, r: Text, c: Text, p: Op)
    requires NullsLast(ops, t, r, c, p)
    ensures Forfeits(ops, t, r, c) <==> AllBefore(WriteTimes(ops, t, r, c), NullHlc(p.hlc))
  {
    if q :| NullsLast(ops, t, r, c, q) && AllBefore(WriteTimes(ops, t, r, c), NullHlc(q.hlc)) { NullsLastIsOne(ops, t, r, c, p, q); }
  }

  lemma NulledIff(ops: set<Op>, t: Text, r: Text, c: Text, h: Hlc)
    ensures Nulled(RegisterFor(ops, t, r, c), Some(h)) <==> AllBefore(WriteTimes(ops, t, r, c), h)
  {
    RegisterReads(ops, t, r, c);
    PastAllIffPastLatest(WriteTimes(ops, t, r, c), h);
    if WriteTimes(ops, t, r, c) != {} { LatestOfLatest(ops, t, r, c); }
  }

  /** `Forfeits` is what arbitration decides by. */
  lemma ForfeitsIff(log: seq<Op>, t: Text, r: Text, c: Text)
    requires NoDup(log) && WellFormed(Elements(log))
    ensures Forfeits(Elements(log), t, r, c)
      <==> Nulled(RegisterFor(Elements(log), t, r, c), LastHit(NullWrites(UniqueStateOf(log)), t, r, c))
  {
    var hit := LastHit(NullWrites(UniqueStateOf(log)), t, r, c);
    var p := LastHitIs(log, t, r, c);
    if hit.Some? {
      ForfeitsBy(Elements(log), t, r, c, p);
      NulledIff(Elements(log), t, r, c, hit.value);
    }
  }

  /** After a rebuild a visible cell holds its latest write, unless it is forfeited. */
  lemma FinalValueIs(cfg: Config, log: seq<Op>, t: Text, r: Text, c: Text)
    requires NoDup(log) && WellFormed(Elements(log)) && NoArbiter(Elements(log)) && FinallyVisible(cfg, log, t, r)
    ensures FinalValue(cfg, log, t, r, c)
      == if Forfeits(Elements(log), t, r, c) then None else LastWritten(Elements(log), t, r, c)
  {
    var ops, s := Elements(log), ReplayOf(ReplayOrder(log));
    FinallyVisibleIff(cfg, log, t, r);
    BaseRegister(log, t, r, c);
    ForfeitsIff(log, t, r, c);
    RegisterReads(ops, t, r, c);
    forall h | h in RegisterFor(ops, t, r, c) ensures h.peer != ARBITER {
      var o :| o in ops && o.WritesCell(t, r, c) && o.hlc == h;
    }
    BaseIsStateOf(log);
    ReplayLaws.VisibleIffLastIsInsert(ops, t, r);
    NullWritesByArbiter(UniqueStateOf(log));
    ArbitratedValue(s, NullWrites(UniqueStateOf(log)), t, r, c);
  }

  // ----- When UNIQUE holds -----

  /** The row is visible after the rebuild and its cell holds `v`. */
  ghost predicate Holds(cfg: Config, log: seq<Op>, t: Text, r: Text, c: Text, v: Bytes) {
    FinallyVisible(cfg, log, t, r) && FinalValue(cfg, log, t, r, c) == Some(v)
  }

  /** Two visible rows hold one value. */
  ghost predicate Share(cfg: Config, log: seq<Op>, t: Text, c: Text, r1: Text, r2: Text, v: Bytes) {
    r1 != r2 && Holds(cfg, log, t, r1, c, v) && Holds(cfg, log, t, r2, c, v)
  }

  /** No two visible rows hold one non-null value of the column. */
  ghost predicate Unique(cfg: Config, log: seq<Op>, t: Text, c: Text) {
    forall r1, r2, v :: !Share(cfg, log, t, c, r1, r2, v)
  }

  /** The row is shown, last wrote `v` and does not forfeit the cell. */
  ghost predicate Survives(ops: set<Op>, t: Text, r: Text, c: Text, v: Bytes) {
    Shown(ops, t, r) && LastWritten(ops, t, r, c) == Some(v) && !Forfeits(ops, t, r, c)
  }

  /** A visible row holds a value exactly when it survives with it, rows the cascade hides aside. */
  lemma HoldsIff(cfg: Config, log: seq<Op>, t: Text, r: Text, c: Text, v: Bytes)
    requires NoDup(log) && WellFormed(Elements(log)) && NoArbiter(Elements(log))
    ensures Holds(cfg, log, t, r, c, v) <==> Survives(Elements(log), t, r, c, v) && !Cascaded(cfg, log, t, r)
  {
    FinallyVisibleIff(cfg, log, t, r);
    if FinallyVisible(cfg, log, t, r) { FinalValueIs(cfg, log, t, r, c); }
  }

  /** Two rows survive with one value. */
  ghost predicate Clash(cfg: Config, log: seq<Op>, t: Text, c: Text, r1: Text, r2: Text, v: Bytes) {
    && r1 != r2 && Survives(Elements(log), t, r1, c, v) && Survives(Elements(log), t, r2, c, v)
    && !Cascaded(cfg, log, t, r1) && !Cascaded(cfg, log, t, r2)
  }

  lemma ShareIff(cfg: Config, log: seq<Op>, t: Text, c: Text, r1: Text, r2: Text, v: Bytes)
    requires NoDup(log) && WellFormed(Elements(log)) && NoArbiter(Elements(log))
    ensures Share(cfg, log, t, c, r1, r2, v) <==> Clash(cfg, log, t, c, r1, r2, v)
  {
    HoldsIff(cfg, log, t, r1, c, v);
    HoldsIff(cfg, log, t, r2, c, v);
  }

  /** UNIQUE holds after a rebuild if and only if no two rows survive with one value. */
  lemma UniqueIff(cfg: Config, log: seq<Op>, t: Text, c: Text)
    requires NoDup(log) && WellFormed(Elements(log)) && NoArbiter(Elements(log))
    ensures Unique(cfg, log, t, c) <==> forall r1, r2, v :: !Clash(cfg, log, t, c, r1, r2, v)
  {
    if r1, r2, v :| Clash(cfg, log, t, c, r1, r2, v) { ShareIff(cfg, log, t, c, r1, r2, v); }
    if r1, r2, v :| Share(cfg, log, t, c, r1, r2, v) { ShareIff(cfg, log, t, c, r1, r2, v); }
  }

  // ----- Rows that write the column once -----

  /** Each row writes the column at most once. */
  ghost predicate WritesOnce(ops: set<Op>, t: Text, c: Text) {
    forall a, b, r :: a in ops && b in ops && a.WritesCell(t, r, c) && b.WritesCell(t, r, c) ==> a == b
  }

  ghost predicate ClaimedOnce(ops: set<Op>, t: Text, c: Text) {
    WritesOnce(ops, t, c) && ClaimsMatchWrites(ops, t, c)
  }

  /** Counters have room for the successor a null-write takes. */
  ghost predicate HasSuccessors(ops: set<Op>) {
    forall o :: o in ops ==> o.hlc.logical + 1 < U32
  }

  /** Counters have room, and the column's values are claimed and nulled under its own name. */
  ghost predicate Claimed(log: seq<Op>, t: Text, c: Text) {
    var ops := Elements(log);
    && NoDup(log) && WellFormed(ops) && NoArbiter(ops) && HasSuccessors(ops)
    && ClaimsMatchWrites(ops, t, c) && c in ColsToNull(c)
  }

  ghost predicate LogOk(log: seq<Op>, t: Text, c: Text) {
    Claimed(log, t, c) && WritesOnce(Elements(log), t, c)
  }

  lemma NullIsLater(h: Hlc)
    requires h.logical + 1 < U32
    ensures Before(h, NullHlc(h))
  {
  }

  lemma SameRowSameTime(ops: set<Op>, t: Text, c: Text, p: Op, q: Op)
    requires ClaimedOnce(ops, t, c) && p in ops && q in ops && p.Reserves(t, c) && q.Reserves(t, c) && p.row == q.row
    ensures p == q
  {
    var a :| a in ops && a.WritesCell(t, p.row, c) && a.hlc == p.hlc && LastCell(a.cells, c) == Some(Some(p.value));
    var b :| b in ops && b.WritesCell(t, q.row, c) && b.hlc == q.hlc && LastCell(b.cells, c) == Some(Some(q.value));
    assert a == b;
  }

  /** A claim is its row's one write of the column, and the first of its kind. */
  lemma OnlyClaim(ops: set<Op>, t: Text, c: Text, p: Op)
    requires WellFormed(ops) && ClaimedOnce(ops, t, c) && p in ops && p.Reserves(t, c)
    ensures IsFirstClaim(ops, p)
    ensures WriteTimes(ops, t, p.row, c) == {p.hlc} && LastWritten(ops, t, p.row, c) == Some(p.value)
  {
    var o :| o in ops && o.WritesCell(t, p.row, c) && o.hlc == p.hlc && LastCell(o.cells, c) == Some(Some(p.value));
    assert WriteTimes(ops, t, p.row, c) == {p.hlc};
    ValueAtIs(ops, t, p.row, c, o);
    forall q | q in ops && SameClaimer(q, p) ensures !Before(q.hlc, p.hlc) {
      SameRowSameTime(ops, t, c, p, q);
      BeforeIsTotal(p.hlc, q.hlc);
    }
  }

  lemma WriteIsClaimed(ops: set<Op>, t: Text, r: Text, c: Text, v: Bytes)
    requires ClaimsMatchWrites(ops, t, c) && LastWritten(ops, t, r, c) == Some(v)
    ensures exists p :: p in ops && p.Reserves(t, c) && p.row == r && p.value == v
  {
    var h := Latest(WriteTimes(ops, t, r, c));
    var o :| o in ops && o.WritesCell(t, r, c) && o.hlc == h && ValueAt(ops, t, r, c, h) == LastCell(o.cells, c).value;
    assert ReserveUnique(t, r, o.hlc, c, v) in ops;
  }

  /** The null-write that stays on the claimant's cell, if there is one, is not later than the claim. */
  ghost predicate Spared(ops: set<Op>, t: Text, c: Text, p: Op)
    requires p.ReserveUnique?
  {
    forall q :: NullsLast(ops, t, p.row, c, q) ==> !Before(p.hlc, NullHlc(q.hlc))
  }

  lemma SparedIff(ops: set<Op>, t: Text, c: Text, p: Op)
    requires WellFormed(ops) && ClaimedOnce(ops, t, c) && p in ops && p.Reserves(t, c)
    ensures Spared(ops, t, c, p) <==> !Forfeits(ops, t, p.row, c)
  {
    OnlyClaim(ops, t, c, p);
    if q :| NullsLast(ops, t, p.row, c, q) && Before(p.hlc, NullHlc(q.hlc)) { ForfeitsBy(ops, t, p.row, c, q); }
  }

  /** The row of a claim keeps its value exactly when the claim is spared. */
  lemma ClaimantKeepsIff(cfg: Config, log: seq<Op>, t: Text, c: Text, p: Op)
    requires LogOk(log, t, c) && p in Elements(log) && p.Reserves(t, c) && FinallyVisible(cfg, log, t, p.row)
    ensures FinalValue(cfg, log, t, p.row, c) == Some(p.value) <==> Spared(Elements(log), t, c, p)
  {
    FinalValueIs(cfg, log, t, p.row, c);
    OnlyClaim(Elements(log), t, c, p);
    SparedIff(Elements(log), t, c, p);
  }

  /** Two claims of shown rows on one value are both spared, by the cascade too. */
  ghost predicate BothSpared(cfg: Config, log: seq<Op>, t: Text, c: Text, p: Op, q: Op) {
    var ops := Elements(log);
    && p in ops && q in ops && p.Reserves(t, c) && q.Reserves(t, c) && p.value == q.value && p.row != q.row
    && Shown(ops, t, p.row) && Shown(ops, t, q.row) && Spared(ops, t, c, p) && Spared(ops, t, c, q)
    && !Cascaded(cfg, log, t, p.row) && !Cascaded(cfg, log, t, q.row)
  }

  lemma ClashIffBothSpared(cfg: Config, log: seq<Op>, t: Text, c: Text, p: Op, q: Op)
    requires LogOk(log, t, c) && p in Elements(log) && q in Elements(log) && p.Reserves(t, c) && q.Reserves(t, c)
    ensures BothSpared(cfg, log, t, c, p, q) <==> p.value == q.value && Clash(cfg, log, t, c, p.row, q.row, p.value)
  {
    OnlyClaim(Elements(log), t, c, p);
    OnlyClaim(Elements(log), t, c, q);
    SparedIff(Elements(log), t, c, p);
    SparedIff(Elements(log), t, c, q);
  }

  /** Where rows write and claim the column once, UNIQUE holds if and only if no two claims of
      shown rows on one value are both spared. */
  lemma UniqueOnceIff(cfg: Config, log: seq<Op>, t: Text, c: Text)
    requires LogOk(log, t, c)
    ensures Unique(cfg, log, t, c) <==> forall p, q :: !BothSpared(cfg, log, t, c, p, q)
  {
    var ops := Elements(log);
    UniqueIff(cfg, log, t, c);
    if p, q :| BothSpared(cfg, log, t, c, p, q) { ClashIffBothSpared(cfg, log, t, c, p, q); }
    if r1, r2, v :| Clash(cfg, log, t, c, r1, r2, v) {
      WriteIsClaimed(ops, t, r1, c, v);
      WriteIsClaimed(ops, t, r2, c, v);
      var p :| p in ops && p.Reserves(t, c) && p.row == r1 && p.value == v;
      var q :| q in ops && q.Reserves(t, c) && q.row == r2 && q.value == v;
      ClashIffBothSpared(cfg, log, t, c, p, q);
    }
  }

  // ----- Without older claims -----

  /** The op writes a non-null value into the cell. */
  ghost predicate GivesValue(o: Op, t: Text, r: Text, c: Text) {
    o.WritesCell(t, r, c) && LastCell(o.cells, c).value.Some?
  }

  /** No claim on the column itself or on a composite key over it is older than a value its
      row is given there. */
  ghost predicate NoOlderCover(ops: set<Op>, t: Text, c: Text) {
    forall o, p :: o in ops && p in ops && p.ReserveUnique? && p.table == t && GivesValue(o, t, p.row, c) && c in ColsToNull(p.column)
      ==> !Before(p.hlc, o.hlc)
  }

  /** A row that loses a claim over the column keeps no value there. */
  lemma LoserKeepsNothing(log: seq<Op>, t: Text, c: Text, p: Op, v: Bytes)
    requires NoDup(log) && WellFormed(Elements(log)) && HasSuccessors(Elements(log)) && NoOlderCover(Elements(log), t, c)
    requires p.ReserveUnique? && Nulls(Elements(log), t, p.row, c, p)
    ensures !Survives(Elements(log), t, p.row, c, v)
  {
    var ops, r := Elements(log), p.row;
    var last := LastHitIs(log, t, r, c);
    if LastWritten(ops, t, r, c) == Some(v) {
      var h := Latest(WriteTimes(ops, t, r, c));
      var o :| o in ops && o.WritesCell(t, r, c) && o.hlc == h && ValueAt(ops, t, r, c, h) == LastCell(o.cells, c).value;
      assert GivesValue(o, t, last.row, c) && !Before(last.hlc, h);
      NullIsLater(last.hlc);
      HlcOrder();
      assert Before(h, NullHlc(last.hlc));
      PastAllIffPastLatest(WriteTimes(ops, t, r, c), NullHlc(last.hlc));
    }
  }

  /** The cell reads null if its row is visible. */
  ghost predicate Emptied(cfg: Config, log: seq<Op>, t: Text, r: Text, c: Text) {
    FinallyVisible(cfg, log, t, r) ==> FinalValue(cfg, log, t, r, c) == None
  }

  /** Two rows that claim one value, of a column or of a composite key: one of them reads null
      in every column of the key that no older claim covers. */
  lemma OneIsNulled(cfg: Config, log: seq<Op>, p: Op, q: Op) returns (r: Text)
    requires NoDup(log) && WellFormed(Elements(log)) && NoArbiter(Elements(log)) && HasSuccessors(Elements(log))
    requires p in Elements(log) && q in Elements(log) && SameValue(p, q) && p.row != q.row
    ensures r == p.row || r == q.row
    ensures forall c :: c in ColsToNull(p.column) && NoOlderCover(Elements(log), p.table, c) ==> Emptied(cfg, log, p.table, r, c)
  {
    var l := OneLoses(Elements(log), p, q);
    r := l.row;
    forall c | c in ColsToNull(p.column) && NoOlderCover(Elements(log), p.table, c) ensures Emptied(cfg, log, p.table, r, c) {
      var v := FinalValue(cfg, log, p.table, r, c);
      if v.Some? {
        LoserKeepsNothing(log, p.table, c, l, v.value);
        HoldsIff(cfg, log, p.table, r, c, v.value);
      }
    }
  }

  /** Where a column's values are claimed and no older claim covers them, no two visible rows
      share a value, under any policy. */
  lemma NoSharedValue(cfg: Config, log: seq<Op>, t: Text, c: Text)
    requires Claimed(log, t, c) && NoOlderCover(Elements(log), t, c)
    ensures Unique(cfg, log, t, c)
  {
    var ops := Elements(log);
    forall r1, r2, v ensures !Share(cfg, log, t, c, r1, r2, v) {
      if r1 != r2 && LastWritten(ops, t, r1, c) == Some(v) == LastWritten(ops, t, r2, c) {
        WriteIsClaimed(ops, t, r1, c, v);
        WriteIsClaimed(ops, t, r2, c, v);
        var p :| p in ops && p.Reserves(t, c) && p.row == r1 && p.value == v;
        var q :| q in ops && q.Reserves(t, c) && q.row == r2 && q.value == v;
        var r := OneIsNulled(cfg, log, p, q);
      } else {
        ShareIff(cfg, log, t, c, r1, r2, v);
      }
    }
  }

  /** Only claims on the column itself null it. */
  ghost predicate NotCovered(ops: set<Op>, t: Text, c: Text) {
    forall p :: p in ops && p.ReserveUnique? && p.table == t && p.column != c ==> c !in ColsToNull(p.column)
  }

  /** The latest claimant of a value keeps it while visible, if no composite key covers the
      column. */
  lemma WinnerKeepsValue(cfg: Config, log: seq<Op>, t: Text, c: Text, p: Op)
    requires LogOk(log, t, c) && NotCovered(Elements(log), t, c)
    requires p in Elements(log) && p.Reserves(t, c) && FinallyVisible(cfg, log, t, p.row)
    requires forall q :: q in Elements(log) && SameValue(p, q) ==> !Before(p.hlc, q.hlc)
    ensures FinalValue(cfg, log, t, p.row, c) == Some(p.value)
  {
    ClaimantKeepsIff(cfg, log, t, c, p);
    forall q | Nulls(Elements(log), t, p.row, c, q) ensures q == p { SameRowSameTime(Elements(log), t, c, p, q); }
    assert !Loses(Elements(log), p);
  }

  /** No row is given a value of the column twice; it may be set to null at will. */
  ghost predicate ValuedOnce(ops: set<Op>, t: Text, c: Text) {
    forall a, b, r :: a in ops && b in ops && GivesValue(a, t, r, c) && GivesValue(b, t, r, c) ==> a == b
  }

  /** Without composite keys over the column its only claim is as old as its one value. */
  lemma NotCoveredIsEnough(ops: set<Op>, t: Text, c: Text)
    requires ClaimsMatchWrites(ops, t, c) && NotCovered(ops, t, c) && ValuedOnce(ops, t, c)
    ensures NoOlderCover(ops, t, c)
  {
    forall o, p | o in ops && p in ops && p.ReserveUnique? && p.table == t && GivesValue(o, t, p.row, c) && c in ColsToNull(p.column)
      ensures !Before(p.hlc, o.hlc)
    {
      var w :| w in ops && w.WritesCell(t, p.row, c) && w.hlc == p.hlc && LastCell(w.cells, c) == Some(Some(p.value));
      assert GivesValue(w, t, p.row, c) && w == o;
      BeforeIsTotal(p.hlc, o.hlc);
    }
  }
}
