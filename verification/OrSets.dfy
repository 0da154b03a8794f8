/** Observed-remove row membership: insertion tokens, removed tokens, tombstones. */
module OrSets {
  import opened ByteStrings
  import opened Clocks

  datatype OrEntry = OrEntry(live: set<Hlc>, removed: set<Hlc>, tombstone: Option<Hlc>) {
    predicate IsLive() {
      live - removed != {}
    }

    predicate IsVisible() {
      IsLive() && tombstone.None?
    }

    predicate ExistsForFk() {
      IsLive() || tombstone.Some?
    }
  }

  type Membership = map<Text, OrEntry>

  const NO_ENTRY := OrEntry({}, {}, None)

  function EntryOf(m: Membership, r: Text): OrEntry {
    if r in m then m[r] else NO_ENTRY
  }

  predicate Visible(m: Membership, r: Text) {
    r in m && m[r].IsVisible()
  }

  predicate ExistsForFk(m: Membership, r: Text) {
    r in m && m[r].ExistsForFk()
  }

  function InsertOf(m: Membership, r: Text, h: Hlc): Membership {
    var e := EntryOf(m, r);
    m[r := OrEntry(e.live + {h}, e.removed, None)]
  }

  function DeleteOf(m: Membership, r: Text, h: Hlc, fkTombstone: bool): Membership {
    if r !in m then m
    else m[r := OrEntry(m[r].live, m[r].removed + m[r].live, if fkTombstone then Some(h) else m[r].tombstone)]
  }

  function LaterTombstone(a: Option<Hlc>, b: Option<Hlc>): Option<Hlc> {
    match (a, b)
    case (None, _) => b
    case (_, None) => a
    case (Some(x), Some(y)) => if Before(x, y) then b else a
  }

  function MergeEntries(a: OrEntry, b: OrEntry): OrEntry {
    OrEntry(a.live + b.live, a.removed + b.removed, LaterTombstone(a.tombstone, b.tombstone))
  }

  function MergeOf(a: Membership, b: Membership): Membership {
    map r | r in a.Keys + b.Keys :: if r in b then MergeEntries(EntryOf(a, r), b[r]) else a[r]
  }

  // ----- Laws -----

  lemma EntryLaws(a: OrEntry, b: OrEntry, c: OrEntry)
    ensures MergeEntries(a, b) == MergeEntries(b, a)
    ensures MergeEntries(MergeEntries(a, b), c) == MergeEntries(a, MergeEntries(b, c))
    ensures MergeEntries(a, a) == a && MergeEntries(a, NO_ENTRY) == a && MergeEntries(NO_ENTRY, a) == a
  {
    HlcOrder();
    assert a.live + b.live == b.live + a.live && a.removed + b.removed == b.removed + a.removed;
    assert a.live + b.live + c.live == a.live + (b.live + c.live);
    assert a.removed + b.removed + c.removed == a.removed + (b.removed + c.removed);
    assert a.live + a.live == a.live == a.live + {} == {} + a.live;
    assert a.removed + a.removed == a.removed == a.removed + {} == {} + a.removed;
  }

  /** A merged entry has the tokens of both sides and the later of their tombstones. */
  lemma MergedEntry(a: OrEntry, b: OrEntry)
    ensures var m := MergeEntries(a, b);
      && (forall h :: (h in m.live <==> h in a.live || h in b.live) && (h in m.removed <==> h in a.removed || h in b.removed))
      && (m.tombstone == a.tombstone || m.tombstone == b.tombstone)
      && (forall side :: side in [a, b] && side.tombstone.Some? ==>
            m.tombstone.Some? && !Before(m.tombstone.value, side.tombstone.value))
  {
    HlcOrder();
  }

  /** A merge acts entry by entry, an absent entry being the neutral one. */
  lemma MergeLookup(a: Membership, b: Membership, r: Text)
    ensures EntryOf(MergeOf(a, b), r) == MergeEntries(EntryOf(a, r), EntryOf(b, r))
  {
    EntryLaws(EntryOf(a, r), NO_ENTRY, NO_ENTRY);
  }

  lemma SameEntries(x: Membership, y: Membership)
    requires x.Keys == y.Keys && forall r :: r in x ==> EntryOf(x, r) == EntryOf(y, r)
    ensures x == y
  {
    forall r | r in x ensures x[r] == y[r] { assert EntryOf(x, r) == EntryOf(y, r); }
  }

  lemma MergeCommutes(a: Membership, b: Membership)
    ensures MergeOf(a, b) == MergeOf(b, a)
  {
    forall r ensures EntryOf(MergeOf(a, b), r) == EntryOf(MergeOf(b, a), r) {
      MergeLookup(a, b, r);
      MergeLookup(b, a, r);
      EntryLaws(EntryOf(a, r), EntryOf(b, r), NO_ENTRY);
    }
    SameEntries(MergeOf(a, b), MergeOf(b, a));
  }

  lemma MergeIdempotent(a: Membership)
    ensures MergeOf(a, a) == a
    ensures MergeOf(map[], a) == a && MergeOf(a, map[]) == a
  {
    forall r ensures EntryOf(MergeOf(a, a), r) == EntryOf(a, r) == EntryOf(MergeOf(map[], a), r) {
      MergeLookup(a, a, r);
      MergeLookup(map[], a, r);
      EntryLaws(EntryOf(a, r), NO_ENTRY, NO_ENTRY);
    }
    SameEntries(MergeOf(a, a), a);
    SameEntries(MergeOf(map[], a), a);
  }

  lemma MergeAssociates(a: Membership, b: Membership, c: Membership)
    ensures MergeOf(MergeOf(a, b), c) == MergeOf(a, MergeOf(b, c))
  {
    var l, r := MergeOf(MergeOf(a, b), c), MergeOf(a, MergeOf(b, c));
    forall k ensures EntryOf(l, k) == EntryOf(r, k) {
      MergeLookup(a, b, k);
      MergeLookup(MergeOf(a, b), c, k);
      MergeLookup(b, c, k);
      MergeLookup(a, MergeOf(b, c), k);
      EntryLaws(EntryOf(a, k), EntryOf(b, k), EntryOf(c, k));
    }
    SameEntries(l, r);
  }

  /** Add wins, exactly when: a row is visible after merging the replica that
      re-inserted it (token `h`) with the replica that deleted what it had
      observed, if and only if the delete did not leave a tombstone. */
  lemma AddWinsIff(a: OrEntry, b: Membership, r: Text, h: Hlc, d: Hlc, fkTombstone: bool)
    requires r in b && b[r].tombstone.None? && h in a.live && a.tombstone.None?
    requires h !in a.removed + b[r].removed + b[r].live
    ensures MergeEntries(a, DeleteOf(b, r, d, fkTombstone)[r]).IsVisible() <==> !fkTombstone
  {
    var m := MergeEntries(a, DeleteOf(b, r, d, fkTombstone)[r]);
    assert h in m.live - m.removed;
  }

  // ----- The membership object -----

  lemma InsertedIsVisible(e: OrEntry, h: Hlc)
    ensures OrEntry(e.live + {h}, e.removed, None).IsVisible() <==> e.IsLive() || h !in e.removed
  {
    var after := e.live + {h} - e.removed;
    if x :| x in e.live - e.removed { assert x in after; }
    if h !in e.removed { assert h in after; }
    if x :| x in after { assert x == h || x in e.live - e.removed; }
  }

  class OrMap {
    var rows: Membership

    constructor (rows: Membership)
      ensures this.rows == rows
    {
      this.rows := rows;
    }

    method Insert(r: Text, h: Hlc)
      modifies this
      ensures rows == InsertOf(old(rows), r, h)
      ensures Visible(rows, r) <==> EntryOf(old(rows), r).IsLive() || h !in EntryOf(old(rows), r).removed
      ensures forall q :: q != r ==> EntryOf(rows, q) == EntryOf(old(rows), q)
    {
      InsertedIsVisible(EntryOf(rows, r), h);
      if r !in rows { rows := rows[r := NO_ENTRY]; }
      rows := rows[r := rows[r].(live := rows[r].live + {h}, tombstone := None)];
    }

    method Delete(r: Text, h: Hlc, fkTombstone: bool)
      modifies this
      ensures rows == DeleteOf(old(rows), r, h, fkTombstone)
      ensures !EntryOf(rows, r).IsLive()
      ensures ExistsForFk(rows, r) <==> r in old(rows) && (fkTombstone || old(rows)[r].tombstone.Some?)
      ensures forall q :: q != r ==> EntryOf(rows, q) == EntryOf(old(rows), q)
    {
      if r in rows {
        var entry := rows[r];
        var todo := entry.live;
        while todo != {}
          invariant todo <= entry.live
          invariant entry == rows[r].(removed := rows[r].removed + (entry.live - todo))
          decreases todo
        {
          var t :| t in todo;
          entry := entry.(removed := entry.removed + {t});
          todo := todo - {t};
        }
        assert entry.live - {} == entry.live;
        if fkTombstone { entry := entry.(tombstone := Some(h)); }
        rows := rows[r := entry];
      }
    }

    method Merge(other: Membership)
      modifies this
      ensures rows == MergeOf(old(rows), other)
    {
      var todo := other.Keys;
      while todo != {}
        invariant todo <= other.Keys
        invariant rows.Keys == old(rows).Keys + (other.Keys - todo)
        invariant forall r :: r in rows ==>
          rows[r] == if r in other && r !in todo then MergeEntries(EntryOf(old(rows), r), other[r]) else old(rows)[r]
        decreases todo
      {
        var r :| r in todo;
        rows := rows[r := MergeEntries(EntryOf(rows, r), other[r])];
        todo := todo - {r};
      }
    }
  }
}
