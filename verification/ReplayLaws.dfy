/** What the closed form of replay says about visibility, foreign keys and state merge. */
module ReplayLaws {
  import opened ByteStrings
  import opened Clocks
  import opened Ops
  import opened RowStores
  import opened Replay
  import OrSets
  import MvRegisters

  // ----- Visibility -----

  /** A row is visible exactly when its latest insert or delete is an insert. */
  lemma VisibleIffLastIsInsert(ops: set<Op>, t: Text, r: Text)
    requires WellFormed(ops)
    ensures OrSets.Visible(MembershipFor(ops, t), r)
      <==> exists h :: h in InsertTimes(ops, t, r) && AllBefore(DeleteTimes(ops, t, r), h)
  {
    HlcOrder();
    var ins, del := InsertTimes(ops, t, r), DeleteTimes(ops, t, r);
    forall h, d | h in ins && d in del ensures h != d {
      var i, j :| i in ops && i.Inserts(t, r) && i.hlc == h && j in ops && j.Deletes(t, r) && j.hlc == d;
      assert h == d ==> SameGroup(i, j);
    }
    assert forall h :: h in ins ==> r in InsertedRows(ops, t);
    var e := EntryFor(ops, t, r);
    forall h | h in ins - RemovedTimes(ops, t, r) ensures AllBefore(del, h) && TombstoneTimes(ops, t, r) == {} {
    }
    if r in InsertedRows(ops, t) {
      if h :| h in ins && AllBefore(del, h) {
        assert h in e.live - e.removed;
      }
    }
  }

  /** One more delete time: some insert is still past all of them exactly when some insert
      is past the new one. */
  lemma NewDelete(ins: set<Hlc>, del: set<Hlc>, d: Hlc)
    requires d !in ins && exists h :: h in ins && AllBefore(del, h)
    ensures (exists h :: h in ins && AllBefore(del + {d}, h)) <==> !AllBefore(ins, d)
  {
    HlcOrder();
    var h :| h in ins && AllBefore(del, h);
    if k :| k in ins && !Before(k, d) {
      var top := Latest(ins);
      assert h == top || Before(h, top);
      assert k == top || Before(k, top);
      assert AllBefore(del + {d}, top);
    }
    if g :| g in ins && AllBefore(del + {d}, g) {
      assert Before(d, g);
    }
  }

  lemma InsertIsNoDelete(ops: set<Op>, o: Op)
    requires WellFormed(ops + {o}) && o.DeleteRow?
    ensures o.hlc !in InsertTimes(ops, o.table, o.row)
    ensures InsertTimes(ops + {o}, o.table, o.row) == InsertTimes(ops, o.table, o.row)
    ensures DeleteTimes(ops + {o}, o.table, o.row) == DeleteTimes(ops, o.table, o.row) + {o.hlc}
  {
    forall i | i in ops && i.Inserts(o.table, o.row) ensures i.hlc != o.hlc {
      assert i.hlc == o.hlc ==> SameGroup(i, o);
    }
  }

  /** A delete hides a visible row for good exactly when no logged insert of the row is
      later: on a peer whose clock lags behind what it received, the next rebuild shows
      the row again. */
  lemma DeleteSticksIff(ops: set<Op>, o: Op)
    requires WellFormed(ops + {o}) && o.DeleteRow? && OrSets.Visible(MembershipFor(ops, o.table), o.row)
    ensures !OrSets.Visible(MembershipFor(ops + {o}, o.table), o.row) <==> AllBefore(InsertTimes(ops, o.table, o.row), o.hlc)
  {
    assert WellFormed(ops);
    VisibleIffLastIsInsert(ops, o.table, o.row);
    VisibleIffLastIsInsert(ops + {o}, o.table, o.row);
    InsertIsNoDelete(ops, o);
    NewDelete(InsertTimes(ops, o.table, o.row), DeleteTimes(ops, o.table, o.row), o.hlc);
  }

  ghost predicate DeletesLeaveTombstones(ops: set<Op>) {
    forall o :: o in ops && o.DeleteRow? ==> o.fkTombstone
  }

  /** When every delete leaves a tombstone, a row once inserted exists for foreign keys forever. */
  lemma InsertedExistsForFk(ops: set<Op>, t: Text, r: Text)
    requires DeletesLeaveTombstones(ops) && r in InsertedRows(ops, t)
    ensures OrSets.ExistsForFk(MembershipFor(ops, t), r)
  {
    HlcOrder();
    var ins := InsertTimes(ops, t, r);
    var o :| o in ops && o.Inserts(t, r);
    assert o.hlc in ins;
    var last := Latest(ins);
    if last in RemovedTimes(ops, t, r) {
      var d :| d in DeleteTimes(ops, t, r) && Before(last, d);
      assert AllBefore(ins, d);
      assert d in TombstoneTimes(ops, t, r);
    } else {
      assert last in EntryFor(ops, t, r).live - EntryFor(ops, t, r).removed;
    }
  }

  // ----- State merge against replay of the union -----

  lemma CoveredByLatest(ops: set<Op>, t: Text, r: Text, c: Text, h: Hlc)
    requires h in WriteTimes(ops, t, r, c)
    ensures exists k :: k in LatestWrites(ops, t, r, c) && k.peer == h.peer && !Before(k, h)
  {
    HlcOrder();
    var same := set k | k in WriteTimes(ops, t, r, c) && k.peer == h.peer;
    assert h in same;
    assert Latest(same) in LatestWrites(ops, t, r, c);
  }

  lemma LatestOfUnion(a: set<Op>, b: set<Op>, t: Text, r: Text, c: Text, h: Hlc)
    ensures h in LatestWrites(a + b, t, r, c)
      <==> (var both := LatestWrites(a, t, r, c) + LatestWrites(b, t, r, c);
            h in both && forall k :: k in both && k.peer == h.peer ==> !Before(h, k))
  {
    HlcOrder();
    assert WriteTimes(a + b, t, r, c) == WriteTimes(a, t, r, c) + WriteTimes(b, t, r, c);
    forall k | k in WriteTimes(a, t, r, c) && k.peer == h.peer && Before(h, k)
      ensures exists l :: l in LatestWrites(a, t, r, c) && l.peer == h.peer && Before(h, l)
    {
      CoveredByLatest(a, t, r, c, k);
    }
    forall k | k in WriteTimes(b, t, r, c) && k.peer == h.peer && Before(h, k)
      ensures exists l :: l in LatestWrites(b, t, r, c) && l.peer == h.peer && Before(h, l)
    {
      CoveredByLatest(b, t, r, c, k);
    }
  }

  lemma RegisterOfUnionAt(a: set<Op>, b: set<Op>, t: Text, r: Text, c: Text, h: Hlc)
    requires WellFormed(a + b)
    ensures var l, m := RegisterFor(a + b, t, r, c), MvRegisters.MergeOf(RegisterFor(a, t, r, c), RegisterFor(b, t, r, c));
            (h in l <==> h in m) && (h in l ==> l[h] == m[h])
  {
    LatestOfUnion(a, b, t, r, c, h);
    MvRegisters.InMerge(RegisterFor(a, t, r, c), RegisterFor(b, t, r, c), h);
    assert WellFormed(a) && WellFormed(b);
    if h in LatestWrites(a, t, r, c) {
      ValueAtGrows(a, a + b, t, r, c, h);
    } else if h in LatestWrites(b, t, r, c) {
      ValueAtGrows(b, a + b, t, r, c, h);
    }
  }

  lemma RegisterOfUnion(a: set<Op>, b: set<Op>, t: Text, r: Text, c: Text)
    requires WellFormed(a + b)
    ensures RegisterFor(a + b, t, r, c) == MvRegisters.MergeOf(RegisterFor(a, t, r, c), RegisterFor(b, t, r, c))
  {
    var l, m := RegisterFor(a + b, t, r, c), MvRegisters.MergeOf(RegisterFor(a, t, r, c), RegisterFor(b, t, r, c));
    forall h ensures (h in l <==> h in m) && (h in l ==> l[h] == m[h]) { RegisterOfUnionAt(a, b, t, r, c, h); }
  }

  lemma RowOfUnion(a: set<Op>, b: set<Op>, t: Text, r: Text)
    requires WellFormed(a + b)
    ensures RowFor(a + b, t, r) == MergeRows(RowFor(a, t, r), RowFor(b, t, r))
  {
    var l, m := RowFor(a + b, t, r), MergeRows(RowFor(a, t, r), RowFor(b, t, r));
    assert WrittenCols(a + b, t, r) == WrittenCols(a, t, r) + WrittenCols(b, t, r);
    forall c | c in l ensures l[c] == m[c] {
      RegisterOfUnion(a, b, t, r, c);
      if c !in WrittenCols(a, t, r) { UnwrittenColumn(a, t, r, c); }
      if c !in WrittenCols(b, t, r) { UnwrittenColumn(b, t, r, c); CompactedRegister(a, t, r, c); }
    }
  }

  /** Replayed registers hold one entry a peer. */
  lemma CompactedRegister(ops: set<Op>, t: Text, r: Text, c: Text)
    ensures MvRegisters.OnePerPeer(RegisterFor(ops, t, r, c))
    ensures MvRegisters.MergeOf(RegisterFor(ops, t, r, c), map[]) == RegisterFor(ops, t, r, c)
  {
    HlcOrder();
    MvRegisters.MergeIdempotent(RegisterFor(ops, t, r, c));
  }

  lemma RowsOfUnionAt(a: set<Op>, b: set<Op>, t: Text, r: Text)
    requires WellFormed(a + b) && r in WrittenRows(a + b, t)
    ensures r in MergeRowData(RowsFor(a, t), RowsFor(b, t))
    ensures RowFor(a + b, t, r) == MergeRowData(RowsFor(a, t), RowsFor(b, t))[r]
  {
    RowOfUnion(a, b, t, r);
    RowForIsRowAt(a, t, r);
    RowForIsRowAt(b, t, r);
    assert MergeRows(RowFor(a, t, r), map[]) == RowFor(a, t, r);
  }

  /** Cell data replayed from a union of logs is the merge of the cell data
      replayed from each: state merge and op replay agree on cells. */
  lemma RowsOfUnion(a: set<Op>, b: set<Op>, t: Text)
    requires WellFormed(a + b)
    ensures RowsFor(a + b, t) == MergeRowData(RowsFor(a, t), RowsFor(b, t))
  {
    assert WrittenRows(a + b, t) == WrittenRows(a, t) + WrittenRows(b, t);
    forall r | r in WrittenRows(a + b, t)
      ensures RowFor(a + b, t, r) == MergeRowData(RowsFor(a, t), RowsFor(b, t))[r]
    {
      RowsOfUnionAt(a, b, t, r);
    }
  }

  /** The same at the level of stores. */
  lemma ReplayOfUnionMergesCells(a: set<Op>, b: set<Op>, t: Text)
    requires WellFormed(a + b) && t in Created(a) && t in Created(b)
    ensures t in StateOf(a + b)
    ensures StateOf(a + b)[t].rows == MergeTables(StateOf(a)[t], StateOf(b)[t]).rows
  {
    assert Created(a + b) == Created(a) + Created(b);
    RowsOfUnion(a, b, t);
  }
}
