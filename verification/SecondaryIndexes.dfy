/** Secondary indexes: ordered projections of the visible rows of a table. */
module SecondaryIndexes {
  import opened ByteStrings
  import opened Ops
  import opened RowStores
  import opened Sorting
  import U = Uniqueness

  type Parts = seq<Option<Bytes>>

  /** Indexed values first, the primary key as tie-breaker. */
  datatype IndexKey = IndexKey(parts: Parts, pk: Text)

  // ----- Key order -----

  predicate PartsLess(a: Parts, b: Parts) {
    if |b| == 0 then false
    else if |a| == 0 then true
    else if a[0] == b[0] then PartsLess(a[1..], b[1..])
    else LessOption(a[0], b[0])
  }

  predicate KeyLess(a: IndexKey, b: IndexKey) {
    PartsLess(a.parts, b.parts) || (a.parts == b.parts && Less(a.pk, b.pk))
  }

  lemma OptionOrder(a: Option<Bytes>, b: Option<Bytes>, c: Option<Bytes>)
    ensures !LessOption(a, a) && (LessOption(a, b) || a == b || LessOption(b, a)) && !(LessOption(a, b) && LessOption(b, a))
    ensures LessOption(a, b) && LessOption(b, c) ==> LessOption(a, c)
  {
    if a.Some? { LessTotal(a.value, a.value); }
    if a.Some? && b.Some? {
      LessTotal(a.value, b.value);
      if c.Some? && Less(a.value, b.value) && Less(b.value, c.value) { LessTransitive(a.value, b.value, c.value); }
    }
  }

  lemma {:induction false} PartsTotal(a: Parts, b: Parts)
    ensures PartsLess(a, b) || a == b || PartsLess(b, a)
    ensures !(PartsLess(a, b) && PartsLess(b, a)) && !PartsLess(a, a)
  {
    if |a| > 0 {
      PartsTotal(a[1..], if |b| > 0 then b[1..] else []);
      if |b| > 0 {
        OptionOrder(a[0], b[0], a[0]);
        if a[0] == b[0] && a[1..] == b[1..] { assert a == [a[0]] + a[1..] && b == [b[0]] + b[1..]; }
      }
    }
  }

  lemma {:induction false} PartsTransitive(a: Parts, b: Parts, c: Parts)
    requires PartsLess(a, b) && PartsLess(b, c)
    ensures PartsLess(a, c)
  {
    if |a| > 0 {
      OptionOrder(a[0], b[0], c[0]);
      OptionOrder(b[0], c[0], a[0]);
      if a[0] == b[0] == c[0] { PartsTransitive(a[1..], b[1..], c[1..]); }
    }
  }

  lemma KeyLessIsStrictTotal()
    ensures StrictTotal(KeyLess)
  {
    forall a, b ensures KeyLess(a, b) || a == b || KeyLess(b, a) { PartsTotal(a.parts, b.parts); LessTotal(a.pk, b.pk); }
    forall a, b | KeyLess(a, b) ensures !KeyLess(b, a) { PartsTotal(a.parts, b.parts); LessTotal(a.pk, b.pk); }
    forall a, b, c | KeyLess(a, b) && KeyLess(b, c) ensures KeyLess(a, c) {
      if PartsLess(a.parts, b.parts) && PartsLess(b.parts, c.parts) { PartsTransitive(a.parts, b.parts, c.parts); }
      if Less(a.pk, b.pk) && Less(b.pk, c.pk) { LessTransitive(a.pk, b.pk, c.pk); }
    }
  }

  /** Between a prefix and anything that starts with it there are only keys that start with it. */
  lemma {:induction false} PrefixIsConvex(prefix: Parts, a: Parts, b: Parts)
    requires !PartsLess(a, prefix) && !PartsLess(b, a) && prefix <= b
    ensures prefix <= a
  {
    if |prefix| > 0 {
      if |a| > 0 { OptionOrder(a[0], prefix[0], b[0]); }
      assert prefix[0] == b[0];
      PrefixIsConvex(prefix[1..], a[1..], b[1..]);
      assert prefix == [prefix[0]] + prefix[1..] && a == [a[0]] + a[1..];
    }
  }

  lemma {:induction false} PrefixNotAbove(prefix: Parts, a: Parts)
    requires prefix <= a
    ensures !PartsLess(a, prefix)
  {
    if |prefix| > 0 { PrefixNotAbove(prefix[1..], a[1..]); }
  }

  // ----- What an index holds -----

  function PrimaryKey(columns: seq<ColumnDef>): Option<Text> {
    if |columns| == 0 then None
    else if columns[0].primaryKey then Some(columns[0].name)
    else PrimaryKey(columns[1..])
  }

  /** The first column declared PRIMARY KEY. */
  ghost predicate IsPrimaryKey(columns: seq<ColumnDef>, c: Text) {
    exists d: nat :: d < |columns| && columns[d].primaryKey && columns[d].name == c && forall e :: 0 <= e < d ==> !columns[e].primaryKey
  }

  lemma {:induction false} PrimaryKeyIs(columns: seq<ColumnDef>)
    ensures PrimaryKey(columns).Some? ==> IsPrimaryKey(columns, PrimaryKey(columns).value)
    ensures PrimaryKey(columns).None? ==> forall d :: 0 <= d < |columns| ==> !columns[d].primaryKey
  {
    if |columns| > 0 {
      if columns[0].primaryKey {
        assert IsPrimaryKey(columns, columns[0].name);
      } else {
        PrimaryKeyIs(columns[1..]);
        forall d | 0 < d < |columns| ensures columns[d] == columns[1..][d - 1] { }
        if PrimaryKey(columns).Some? {
          var d: nat :| d < |columns[1..]| && columns[1..][d].primaryKey && columns[1..][d].name == PrimaryKey(columns).value
            && forall e :: 0 <= e < d ==> !columns[1..][e].primaryKey;
          assert columns[d + 1] == columns[1..][d];
          forall e | 0 <= e < d + 1 ensures !columns[e].primaryKey { assert e > 0 ==> columns[e] == columns[1..][e - 1]; }
        }
      }
    }
  }

  lemma PrimaryKeyIsOne(columns: seq<ColumnDef>, a: Text, b: Text)
    requires IsPrimaryKey(columns, a) && IsPrimaryKey(columns, b)
    ensures a == b
  {
  }

  function PartsFor(row: Row, cols: seq<Text>): Parts {
    seq(|cols|, i requires 0 <= i < |cols| => ReadCell(row, cols[i]))
  }

  function KeyFor(t: Table, cols: seq<Text>, pkCol: Text, text: Bytes -> Text, r: Text): IndexKey {
    var row := RowAt(t.rows, r);
    IndexKey(PartsFor(row, cols), match ReadCell(row, pkCol) case Some(b) => text(b) case None => r)
  }

  /** The entry of a key is the last visible row, in row order, that has the key. */
  ghost predicate Indexes(entries: map<IndexKey, Text>, t: Table, cols: seq<Text>, text: Bytes -> Text, rows: set<Text>) {
    match PrimaryKey(t.schema.columns)
    case None => entries == map[]
    case Some(pk) =>
      && (forall r :: r in rows ==> KeyFor(t, cols, pk, text, r) in entries)
      && (forall k :: k in entries ==> entries[k] in rows && KeyFor(t, cols, pk, text, entries[k]) == k)
      && (forall k, r :: k in entries && r in rows && KeyFor(t, cols, pk, text, r) == k ==> !Less(entries[k], r))
  }

  ghost predicate IsIndexOf(entries: map<IndexKey, Text>, t: Table, cols: seq<Text>, text: Bytes -> Text) {
    Indexes(entries, t, cols, text, VisibleRows(t))
  }

  /** Entering the rows in ascending order builds the index. */
  lemma IndexGrows(entries: map<IndexKey, Text>, t: Table, cols: seq<Text>, text: Bytes -> Text, rows: set<Text>, r: Text)
    requires PrimaryKey(t.schema.columns).Some? && Indexes(entries, t, cols, text, rows)
    requires forall q :: q in rows ==> Less(q, r)
    ensures var key := KeyFor(t, cols, PrimaryKey(t.schema.columns).value, text, r);
            Indexes(entries[key := r], t, cols, text, rows + {r})
  {
    LessTotal(r, r);
    forall q | q in rows ensures !Less(r, q) { LessTotal(r, q); }
  }

  lemma IndexIsUnique(a: map<IndexKey, Text>, b: map<IndexKey, Text>, t: Table, cols: seq<Text>, text: Bytes -> Text)
    requires IsIndexOf(a, t, cols, text) && IsIndexOf(b, t, cols, text)
    ensures a == b
  {
    forall k | k in a && k in b ensures a[k] == b[k] { LessTotal(a[k], b[k]); }
  }

  /** Every visible row's primary-key cell is absent or spells its row id. */
  ghost predicate PkConsistent(t: Table, text: Bytes -> Text) {
    match PrimaryKey(t.schema.columns)
    case None => false
    case Some(pk) => forall r :: r in VisibleRows(t) ==>
      var v := ReadCell(RowAt(t.rows, r), pk); v.Some? ==> text(v.value) == r
  }

  // ----- Scans -----

  function HasPrefix(prefix: Parts): IndexKey -> bool {
    (k: IndexKey) => prefix <= k.parts
  }

  function SortedEntries(entries: map<IndexKey, Text>): (ks: seq<IndexKey>)
    ensures StrictlySorted(KeyLess, ks) && Elements(ks) == entries.Keys
  {
    KeyLessIsStrictTotal();
    Ascending(KeyLess, entries.Keys)
  }

  function RowsOf(entries: map<IndexKey, Text>, ks: seq<IndexKey>): seq<Text> {
    seq(|ks|, i requires 0 <= i < |ks| => if ks[i] in entries then entries[ks[i]] else [])
  }

  lemma RowsOfSnoc(entries: map<IndexKey, Text>, ks: seq<IndexKey>, k: IndexKey)
    requires k in entries
    ensures RowsOf(entries, ks + [k]) == RowsOf(entries, ks) + [entries[k]]
  {
  }

  lemma FilterSnoc<T(!new)>(xs: seq<T>, i: nat, p: T -> bool)
    requires i < |xs|
    ensures Filter(xs[..i + 1], p) == Filter(xs[..i], p) + if p(xs[i]) then [xs[i]] else []
  {
    assert xs[..i + 1][..i] == xs[..i];
  }

  /** The rows of the first `i` keys that have the prefix. */
  function ScanOf(entries: map<IndexKey, Text>, keys: seq<IndexKey>, prefix: Parts, i: nat): seq<Text>
    requires i <= |keys|
  {
    if i == 0 then []
    else
      var k := keys[i - 1];
      ScanOf(entries, keys, prefix, i - 1) + if prefix <= k.parts then [if k in entries then entries[k] else []] else []
  }

  lemma {:induction false} ScanIsFilter(entries: map<IndexKey, Text>, keys: seq<IndexKey>, prefix: Parts, i: nat)
    requires i <= |keys| && forall k :: k in keys ==> k in entries
    ensures ScanOf(entries, keys, prefix, i) == RowsOf(entries, Filter(keys[..i], HasPrefix(prefix)))
  {
    if i > 0 {
      ScanIsFilter(entries, keys, prefix, i - 1);
      FilterSnoc(keys, i - 1, HasPrefix(prefix));
      RowsOfSnoc(entries, Filter(keys[..i - 1], HasPrefix(prefix)), keys[i - 1]);
    }
  }

  lemma NothingYet(entries: map<IndexKey, Text>, keys: seq<IndexKey>, prefix: Parts, i: nat)
    requires i <= |keys| && Elements(keys) == entries.Keys && Filter(keys[..i], HasPrefix(prefix)) == []
    ensures ScanOf(entries, keys, prefix, i) == []
  {
    forall k | k in keys ensures k in entries { assert k in Elements(keys); }
    ScanIsFilter(entries, keys, prefix, i);
  }

  lemma BelowStart(prefix: Parts, k: IndexKey)
    requires KeyLess(k, IndexKey(prefix, []))
    ensures !HasPrefix(prefix)(k)
  {
    if prefix <= k.parts { PrefixNotAbove(prefix, k.parts); }
  }

  lemma StaysAbove(start: IndexKey, a: IndexKey, b: IndexKey)
    requires !KeyLess(a, start) && KeyLess(a, b)
    ensures !KeyLess(b, start)
  {
    KeyLessIsStrictTotal();
    var less := KeyLess;
    assert less(a, b) && (less(b, start) ==> less(a, start));
  }

  lemma LaterLacks(prefix: Parts, a: IndexKey, b: IndexKey)
    requires !KeyLess(a, IndexKey(prefix, [])) && !(prefix <= a.parts) && KeyLess(a, b)
    ensures !HasPrefix(prefix)(b)
  {
    if prefix <= b.parts {
      PartsTotal(a.parts, b.parts);
      PrefixIsConvex(prefix, a.parts, b.parts);
    }
  }

  /** Once a key at or above the start lacks the prefix, every later key does. */
  lemma NothingAfter(keys: seq<IndexKey>, prefix: Parts, i: nat)
    requires i <= |keys| && StrictlySorted(KeyLess, keys)
    requires i < |keys| ==> !KeyLess(keys[i], IndexKey(prefix, [])) && !(prefix <= keys[i].parts)
    ensures Filter(keys, HasPrefix(prefix)) == Filter(keys[..i], HasPrefix(prefix))
  {
    forall j | i < j < |keys| ensures !HasPrefix(prefix)(keys[j]) { LaterLacks(prefix, keys[i], keys[j]); }
    FilterRest(keys, HasPrefix(prefix), i);
  }

  function UpdateOf(entries: map<IndexKey, Text>, r: Text, pk: Text, before: Option<Parts>, after: Option<Parts>): map<IndexKey, Text> {
    var removed := if before.Some? then entries - {IndexKey(before.value, pk)} else entries;
    if after.Some? then removed[IndexKey(after.value, pk) := r] else removed
  }

  function PartsIfVisible(t: Table, cols: seq<Text>, r: Text): Option<Parts> {
    if r in VisibleRows(t) then Some(PartsFor(RowAt(t.rows, r), cols)) else None
  }

  /** The change from `t` to `t'` is a change of row `r`. */
  ghost predicate ChangesRow(t: Table, t': Table, cols: seq<Text>, text: Bytes -> Text, r: Text) {
    && PkConsistent(t, text) && PkConsistent(t', text)
    && forall q :: q != r ==> PartsIfVisible(t', cols, q) == PartsIfVisible(t, cols, q)
  }

  class SecondaryIndex {
    const columns: seq<Text>
    var entries: map<IndexKey, Text>

    constructor (columns: seq<Text>)
      ensures this.columns == columns && entries == map[]
    {
      this.columns := columns;
      entries := map[];
    }

    method RebuildFrom(t: Table, text: Bytes -> Text)
      modifies this
      ensures IsIndexOf(entries, t, columns, text)
    {
      entries := map[];
      if PrimaryKey(t.schema.columns).Some? {
        var pk := PrimaryKey(t.schema.columns).value;
        U.LessIsStrictTotal();
        var ids := InOrder(Less, VisibleRows(t));
        for i := 0 to |ids|
          invariant Indexes(entries, t, columns, text, Elements(ids[..i]))
        {
          assert Elements(ids[..i + 1]) == Elements(ids[..i]) + {ids[i]} by { assert ids[..i + 1] == ids[..i] + [ids[i]]; }
          IndexGrows(entries, t, columns, text, Elements(ids[..i]), ids[i]);
          entries := entries[KeyFor(t, columns, pk, text, ids[i]) := ids[i]];
        }
        assert ids[..|ids|] == ids;
      }
    }

    /** Given the row's old and new indexed values, an index of the table before a change of
        the row becomes the index of the table after it. */
    method UpdateRow(r: Text, pk: Text, before: Option<Parts>, after: Option<Parts>,
                     ghost t: Table, ghost t': Table, ghost text: Bytes -> Text)
      modifies this
      ensures entries == UpdateOf(old(entries), r, pk, before, after)
      ensures IsIndexOf(old(entries), t, columns, text) && ChangesRow(t, t', columns, text, r) && pk == r
              && before == PartsIfVisible(t, columns, r) && after == PartsIfVisible(t', columns, r)
        ==> IsIndexOf(entries, t', columns, text)
    {
      ghost var was := entries;
      if before.Some? { entries := entries - {IndexKey(before.value, pk)}; }
      if after.Some? { entries := entries[IndexKey(after.value, pk) := r]; }
      if IsIndexOf(was, t, columns, text) && ChangesRow(t, t', columns, text, r) && pk == r
         && before == PartsIfVisible(t, columns, r) && after == PartsIfVisible(t', columns, r)
      {
        IncrementalIsRebuild(was, t, t', columns, text, r);
      }
    }

    /** `take_while`: the rows of the keys from `first` on, up to the first without the prefix. */
    method TakeWhile(keys: seq<IndexKey>, first: nat, prefix: Parts) returns (found: seq<Text>, i: nat)
      requires Elements(keys) == entries.Keys && first <= |keys| && Filter(keys[..first], HasPrefix(prefix)) == []
      ensures first <= i <= |keys| && (i < |keys| ==> !(prefix <= keys[i].parts))
      ensures found == RowsOf(entries, Filter(keys[..i], HasPrefix(prefix)))
    {
      i, found := first, [];
      NothingYet(entries, keys, prefix, first);
      while i < |keys| && prefix <= keys[i].parts
        invariant first <= i <= |keys|
        invariant found == ScanOf(entries, keys, prefix, i)
      {
        assert keys[i] in Elements(keys);
        found := found + [entries[keys[i]]];
        i := i + 1;
      }
      forall k | k in keys ensures k in entries { assert k in Elements(keys); }
      ScanIsFilter(entries, keys, prefix, i);
    }

    /** A scan returns, in key order, the rows of all keys that start with the prefix:
        stopping at the first other key loses nothing. */
    method RangeScan(prefix: Parts) returns (found: seq<Text>)
      ensures found == RowsOf(entries, Filter(SortedEntries(entries), HasPrefix(prefix)))
    {
      var keys := SortedEntries(entries);
      var first := FirstFrom(keys, prefix);
      var i;
      found, i := TakeWhile(keys, first, prefix);
      if first < i < |keys| { StaysAbove(IndexKey(prefix, []), keys[first], keys[i]); }
      NothingAfter(keys, prefix, i);
    }
  }

  /** `range(start..)`: the first key that is not below the prefix. */
  method FirstFrom(keys: seq<IndexKey>, prefix: Parts) returns (i: nat)
    requires StrictlySorted(KeyLess, keys)
    ensures i <= |keys| && Filter(keys[..i], HasPrefix(prefix)) == []
    ensures i < |keys| ==> !KeyLess(keys[i], IndexKey(prefix, []))
  {
    i := 0;
    while i < |keys| && KeyLess(keys[i], IndexKey(prefix, []))
      invariant i <= |keys| && Filter(keys[..i], HasPrefix(prefix)) == []
    {
      BelowStart(prefix, keys[i]);
      FilterSnoc(keys, i, HasPrefix(prefix));
      i := i + 1;
    }
  }

  // ----- What scans and updates mean for the table -----

  /** With consistent primary keys, an index holds every visible row under its own key. */
  lemma ConsistentIndex(entries: map<IndexKey, Text>, t: Table, cols: seq<Text>, text: Bytes -> Text)
    requires PkConsistent(t, text)
    ensures IsIndexOf(entries, t, cols, text) <==>
      && (forall r :: r in VisibleRows(t) ==> IndexKey(PartsFor(RowAt(t.rows, r), cols), r) in entries)
      && (forall k :: k in entries ==> entries[k] == k.pk && k.pk in VisibleRows(t) && k.parts == PartsFor(RowAt(t.rows, k.pk), cols))
  {
    var pk := PrimaryKey(t.schema.columns).value;
    forall r | r in VisibleRows(t) ensures KeyFor(t, cols, pk, text, r) == IndexKey(PartsFor(RowAt(t.rows, r), cols), r) { }
    forall r: Text ensures !Less(r, r) { LessTotal(r, r); }
  }

  /** How a row spells its primary key: the text of the key's cell, or the row id if there is none. */
  ghost function Spelled(t: Table, pk: Text, text: Bytes -> Text, r: Text): Text {
    if ReadCell(RowAt(t.rows, r), pk).Some? then text(ReadCell(RowAt(t.rows, r), pk).value) else r
  }

  /** The row's leading indexed cells are the prefix. */
  ghost predicate Leads(t: Table, cols: seq<Text>, r: Text, prefix: Parts) {
    |prefix| <= |cols| && forall j :: 0 <= j < |prefix| ==> prefix[j] == ReadCell(RowAt(t.rows, r), cols[j])
  }

  /** A later visible row has the same indexed cells and spells the same primary key. */
  ghost predicate Covered(t: Table, cols: seq<Text>, pk: Text, text: Bytes -> Text, r: Text) {
    exists q :: q in VisibleRows(t) && Less(r, q) && Spelled(t, pk, text, q) == Spelled(t, pk, text, r)
      && forall c :: c in cols ==> ReadCell(RowAt(t.rows, q), c) == ReadCell(RowAt(t.rows, r), c)
  }

  lemma SameKeyIff(t: Table, cols: seq<Text>, pk: Text, text: Bytes -> Text, q: Text, r: Text)
    ensures KeyFor(t, cols, pk, text, q) == KeyFor(t, cols, pk, text, r) <==>
      Spelled(t, pk, text, q) == Spelled(t, pk, text, r) && forall c :: c in cols ==> ReadCell(RowAt(t.rows, q), c) == ReadCell(RowAt(t.rows, r), c)
  {
    var x, y := PartsFor(RowAt(t.rows, q), cols), PartsFor(RowAt(t.rows, r), cols);
    if x == y {
      forall c | c in cols ensures ReadCell(RowAt(t.rows, q), c) == ReadCell(RowAt(t.rows, r), c) {
        var j :| 0 <= j < |cols| && cols[j] == c;
        assert x[j] == y[j];
      }
    }
    if forall c :: c in cols ==> ReadCell(RowAt(t.rows, q), c) == ReadCell(RowAt(t.rows, r), c) {
      forall j | 0 <= j < |cols| ensures x[j] == y[j] { assert cols[j] in cols; }
    }
  }

  lemma IndexedIff(entries: map<IndexKey, Text>, t: Table, cols: seq<Text>, pk: Text, text: Bytes -> Text, k: IndexKey, r: Text)
    requires IsIndexOf(entries, t, cols, text) && PrimaryKey(t.schema.columns) == Some(pk) && k == KeyFor(t, cols, pk, text, r)
    ensures k in entries && entries[k] == r <==> r in VisibleRows(t) && !Covered(t, cols, pk, text, r)
  {
    forall q | q in VisibleRows(t) && Less(r, q) ensures KeyFor(t, cols, pk, text, q) != k || Covered(t, cols, pk, text, r) {
      SameKeyIff(t, cols, pk, text, q, r);
    }
    if r in VisibleRows(t) {
      SameKeyIff(t, cols, pk, text, entries[k], r);
      LessTotal(entries[k], r);
    }
    if q :| q in VisibleRows(t) && Less(r, q) && Spelled(t, pk, text, q) == Spelled(t, pk, text, r)
            && forall c :: c in cols ==> ReadCell(RowAt(t.rows, q), c) == ReadCell(RowAt(t.rows, r), c) {
      SameKeyIff(t, cols, pk, text, q, r);
    }
  }

  ghost function ScannedKeys(entries: map<IndexKey, Text>, prefix: Parts): seq<IndexKey> {
    Filter(SortedEntries(entries), HasPrefix(prefix))
  }

  lemma ScannedIff(entries: map<IndexKey, Text>, prefix: Parts, k: IndexKey)
    ensures k in ScannedKeys(entries, prefix) <==> k in entries && prefix <= k.parts
  {
    assert k in SortedEntries(entries) <==> k in Elements(SortedEntries(entries));
  }

  /** A row is found if and only if it is entered under its own key and the key is scanned. */
  lemma FoundIff(entries: map<IndexKey, Text>, t: Table, cols: seq<Text>, pk: Text, text: Bytes -> Text, prefix: Parts, k: IndexKey, r: Text)
    requires IsIndexOf(entries, t, cols, text) && PrimaryKey(t.schema.columns) == Some(pk) && k == KeyFor(t, cols, pk, text, r)
    ensures r in RowsOf(entries, ScannedKeys(entries, prefix)) <==> k in entries && prefix <= k.parts && entries[k] == r
  {
    var keys := ScannedKeys(entries, prefix);
    var found := RowsOf(entries, keys);
    ScannedIff(entries, prefix, k);
    if r in found {
      var i :| 0 <= i < |found| && found[i] == r;
      assert keys[i] in keys;
      ScannedIff(entries, prefix, keys[i]);
    }
    if k in keys && entries[k] == r {
      var i :| 0 <= i < |keys| && keys[i] == k;
      assert found[i] == r;
    }
  }

  /** On a table with a primary key a scan finds exactly the visible rows whose leading indexed
      cells are the prefix and that no later row covers. */
  lemma ScanFindsIff(entries: map<IndexKey, Text>, t: Table, cols: seq<Text>, text: Bytes -> Text, prefix: Parts, pk: Text, r: Text)
    requires IsIndexOf(entries, t, cols, text) && IsPrimaryKey(t.schema.columns, pk)
    ensures r in RowsOf(entries, ScannedKeys(entries, prefix))
      <==> r in VisibleRows(t) && Leads(t, cols, r, prefix) && !Covered(t, cols, pk, text, r)
  {
    PrimaryKeyIs(t.schema.columns);
    if PrimaryKey(t.schema.columns).Some? { PrimaryKeyIsOne(t.schema.columns, pk, PrimaryKey(t.schema.columns).value); }
    var k := KeyFor(t, cols, pk, text, r);
    FoundIff(entries, t, cols, pk, text, prefix, k, r);
    IndexedIff(entries, t, cols, pk, text, k, r);
    assert prefix <= k.parts <==> Leads(t, cols, r, prefix);
  }

  /** Without a primary key it finds nothing. */
  lemma KeylessScan(entries: map<IndexKey, Text>, t: Table, cols: seq<Text>, text: Bytes -> Text, prefix: Parts)
    requires IsIndexOf(entries, t, cols, text) && forall d :: d in t.schema.columns ==> !d.primaryKey
    ensures ScannedKeys(entries, prefix) == []
  {
    var keys := ScannedKeys(entries, prefix);
    assert |keys| > 0 ==> keys[0] in keys;
    forall k ensures k in keys ==> k in entries { ScannedIff(entries, prefix, k); }
    PrimaryKeyIs(t.schema.columns);
  }

  /** A scan finds exactly the visible rows whose leading indexed values are the prefix. */
  lemma ScanIsComplete(entries: map<IndexKey, Text>, t: Table, cols: seq<Text>, text: Bytes -> Text, prefix: Parts)
    requires PkConsistent(t, text) && IsIndexOf(entries, t, cols, text)
    ensures var found := RowsOf(entries, Filter(SortedEntries(entries), HasPrefix(prefix)));
      forall r :: r in found <==> r in VisibleRows(t) && prefix <= PartsFor(RowAt(t.rows, r), cols)
  {
    ConsistentIndex(entries, t, cols, text);
    var keys := Filter(SortedEntries(entries), HasPrefix(prefix));
    var found := RowsOf(entries, keys);
    assert forall k :: k in SortedEntries(entries) <==> k in Elements(SortedEntries(entries));
    forall r ensures r in found <==> r in VisibleRows(t) && prefix <= PartsFor(RowAt(t.rows, r), cols) {
      if r in found {
        var i :| 0 <= i < |found| && found[i] == r;
        assert keys[i] in keys;
      }
      if r in VisibleRows(t) && prefix <= PartsFor(RowAt(t.rows, r), cols) {
        var k := IndexKey(PartsFor(RowAt(t.rows, r), cols), r);
        assert k in keys;
        var i :| 0 <= i < |keys| && keys[i] == k;
        assert found[i] == r;
      }
    }
  }

  /** Maintaining an index row by row agrees with rebuilding it. */
  lemma IncrementalIsRebuild(entries: map<IndexKey, Text>, t: Table, t': Table, cols: seq<Text>, text: Bytes -> Text, r: Text)
    requires ChangesRow(t, t', cols, text, r) && IsIndexOf(entries, t, cols, text)
    ensures IsIndexOf(UpdateOf(entries, r, r, PartsIfVisible(t, cols, r), PartsIfVisible(t', cols, r)), t', cols, text)
  {
    ConsistentIndex(entries, t, cols, text);
    var entries' := UpdateOf(entries, r, r, PartsIfVisible(t, cols, r), PartsIfVisible(t', cols, r));
    forall q | q in VisibleRows(t') ensures IndexKey(PartsFor(RowAt(t'.rows, q), cols), q) in entries' {
      assert q != r ==> PartsIfVisible(t', cols, q) == PartsIfVisible(t, cols, q);
    }
    forall k | k in entries'
      ensures entries'[k] == k.pk && k.pk in VisibleRows(t') && k.parts == PartsFor(RowAt(t'.rows, k.pk), cols)
    {
      assert k.pk != r ==> PartsIfVisible(t', cols, k.pk) == PartsIfVisible(t, cols, k.pk);
    }
    ConsistentIndex(entries', t', cols, text);
  }
}
