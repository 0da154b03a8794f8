/** What a SELECT returns, read off the rows of the table. */
module SelectLaws {
  import opened ByteStrings
  import opened RowStores
  import opened Sorting
  import opened Executor
  import Effects
  import SecondaryIndexes

  // ----- Filters -----

  /** A comparison is decided by the cell: exactly one of less, equal and greater holds, NULL
      being less than every value, and values compare byte by byte; AND and OR are those of truth. */
  lemma FilterLaws(c: Text, v: Option<Bytes>, l: Expr, r: Expr, row: Row)
    ensures var x := ReadCell(row, c);
      && (Evaluate(Eq(c, v), row) <==> x == v) && (Evaluate(Neq(c, v), row) <==> x != v)
      && (Evaluate(IsNull(c), row) <==> x == None) && (Evaluate(IsNotNull(c), row) <==> x != None)
      && (Evaluate(Lt(c, v), row) <==> v != None && (x == None || x.value < v.value || exists i: nat :: SmallerAt(x.value, v.value, i)))
      && (Evaluate(Gt(c, v), row) <==> x != v && !Evaluate(Lt(c, v), row))
      && (Evaluate(And(l, r), row) <==> Evaluate(l, row) && Evaluate(r, row))
      && (Evaluate(Or(l, r), row) <==> Evaluate(l, row) || Evaluate(r, row))
  {
    var x := ReadCell(row, c);
    SecondaryIndexes.OptionOrder(x, v, x);
    if x.Some? && v.Some? { LessIff(x.value, v.value); }
  }

  // ----- Columns and cells of the answer -----

  /** The columns a query asks for: those it lists, or all of the schema's in their order. */
  ghost predicate Asked(t: Table, q: Query, cols: seq<Text>) {
    match q.columns
    case Some(listed) => cols == listed
    case None => |cols| == |t.schema.columns| && forall j :: 0 <= j < |cols| ==> cols[j] == t.schema.columns[j].name
  }

  /** The result row shows row `r` under the asked columns. */
  ghost predicate Shows(t: Table, q: Query, result: ResultRow, r: Text) {
    && Asked(t, q, result.columns) && |result.values| == |result.columns|
    && forall j :: 0 <= j < |result.columns| ==> result.values[j] == ReadCell(RowAt(t.rows, r), result.columns[j])
  }

  // ----- Order of the answer -----

  /** What a row is sorted by under a column: its cell, if the column is among those shown. */
  ghost function SortKey(t: Table, cols: seq<Text>, r: Text, c: Text): Option<Bytes> {
    if c in cols then ReadCell(RowAt(t.rows, r), c) else None
  }

  /** `m` is the first ORDER BY column in which the rows differ, and there `a` comes first. */
  ghost predicate FirstAt(t: Table, cols: seq<Text>, orderBy: seq<Order>, a: Text, b: Text, m: nat) {
    && m < |orderBy|
    && (forall n :: 0 <= n < m ==> SortKey(t, cols, a, orderBy[n].column) == SortKey(t, cols, b, orderBy[n].column))
    && var x, y := SortKey(t, cols, a, orderBy[m].column), SortKey(t, cols, b, orderBy[m].column);
       if orderBy[m].ascending then LessOption(x, y) else LessOption(y, x)
  }

  ghost predicate Tied(t: Table, cols: seq<Text>, orderBy: seq<Order>, a: Text, b: Text) {
    forall n :: 0 <= n < |orderBy| ==> SortKey(t, cols, a, orderBy[n].column) == SortKey(t, cols, b, orderBy[n].column)
  }

  /** By the cells of one column, and by row id where they agree. */
  ghost predicate ByCell(t: Table, cols: seq<Text>, c: Text, a: Text, b: Text) {
    var x, y := SortKey(t, cols, a, c), SortKey(t, cols, b, c);
    LessOption(x, y) || (x == y && Less(a, b))
  }

  /** What rows are sorted by when no ORDER BY decides: without one, the primary key. */
  ghost predicate LastResort(t: Table, cols: seq<Text>, orderBy: seq<Order>, c: Text) {
    if |orderBy| == 0 && exists pk :: SecondaryIndexes.IsPrimaryKey(t.schema.columns, pk)
    then SecondaryIndexes.IsPrimaryKey(t.schema.columns, c)
    else c == if |cols| > 0 then cols[0] else []
  }

  /** Row `a` comes before row `b` in the answer. */
  ghost predicate ComesFirst(t: Table, cols: seq<Text>, orderBy: seq<Order>, a: Text, b: Text) {
    || (exists m: nat :: FirstAt(t, cols, orderBy, a, b, m))
    || (Tied(t, cols, orderBy, a, b) && exists c :: LastResort(t, cols, orderBy, c) && ByCell(t, cols, c, a, b))
  }

  // ----- Sorting rows and their ids together -----

  ghost predicate Before(less: (ResultRow, ResultRow) -> bool, t: Table, cols: seq<Text>, a: Text, b: Text) {
    var x, y := BuildRow(RowAt(t.rows, a), cols), BuildRow(RowAt(t.rows, b), cols);
    less(x, y) || (!less(y, x) && Less(a, b))
  }

  lemma SpliceRows(t: Table, cols: seq<Text>, ids: seq<Text>, x: Text, at: nat)
    requires at <= |ids|
    ensures BuildRows(t, ids[..at] + [x] + ids[at..], cols)
      == BuildRows(t, ids, cols)[..at] + [BuildRow(RowAt(t.rows, x), cols)] + BuildRows(t, ids, cols)[at..]
  {
  }

  ghost predicate AllBefore(less: (ResultRow, ResultRow) -> bool, t: Table, cols: seq<Text>, ids: seq<Text>) {
    forall k, l :: 0 <= k < l < |ids| ==> Before(less, t, cols, ids[k], ids[l])
  }

  lemma SpliceElements(xs: seq<Text>, x: Text, at: nat)
    requires at <= |xs|
    ensures multiset(xs[..at] + [x] + xs[at..]) == multiset(xs) + multiset{x}
  {
    assert xs == xs[..at] + xs[at..];
  }

  lemma InsertedBefore(less: (ResultRow, ResultRow) -> bool, t: Table, cols: seq<Text>, ids: seq<Text>, front: seq<Text>, x: Text,
                       at: nat, k: nat, l: nat)
    requires |ids| > 0 && x == ids[|ids| - 1] && StrictlySorted(Less, ids) && multiset(front) == multiset(ids[..|ids| - 1])
    requires at <= |front| && k < l <= |front|
    requires AllBefore(less, t, cols, front)
    requires forall j :: at <= j < |front| ==> less(BuildRow(RowAt(t.rows, x), cols), BuildRow(RowAt(t.rows, front[j]), cols))
    requires var rows := BuildRows(t, front, cols); Sorted(less, rows[..at] + [BuildRow(RowAt(t.rows, x), cols)] + rows[at..])
    ensures var sorted := front[..at] + [x] + front[at..]; Before(less, t, cols, sorted[k], sorted[l])
  {
    var sorted := front[..at] + [x] + front[at..];
    if l == at {
      assert sorted[k] == front[k] && front[k] in multiset(front);
      var i :| 0 <= i < |ids| - 1 && ids[i] == front[k];
      var rows := BuildRows(t, front, cols);
      var all := rows[..at] + [BuildRow(RowAt(t.rows, x), cols)] + rows[at..];
      assert all[k] == rows[k] && !less(all[l], all[k]);
    } else {
      assert sorted[l] == front[if l < at then l else l - 1];
      if k != at { assert sorted[k] == front[if k < at then k else k - 1]; }
    }
  }

  /** Inserting a row with a greater id puts the id where the row goes. */
  lemma InsertId(less: (ResultRow, ResultRow) -> bool, t: Table, cols: seq<Text>, ids: seq<Text>, front: seq<Text>, x: Text)
    returns (sorted: seq<Text>)
    requires WeakOrder(less) && |ids| > 0 && x == ids[|ids| - 1] && StrictlySorted(Less, ids)
    requires multiset(front) == multiset(ids[..|ids| - 1]) && AllBefore(less, t, cols, front)
    requires Sorted(less, BuildRows(t, front, cols))
    ensures BuildRows(t, sorted, cols) == InsertStable(less, BuildRows(t, front, cols), BuildRow(RowAt(t.rows, x), cols))
    ensures multiset(sorted) == multiset(front) + multiset{x} && AllBefore(less, t, cols, sorted)
  {
    var rows, row := BuildRows(t, front, cols), BuildRow(RowAt(t.rows, x), cols);
    var at := InsertStableAt(less, rows, row);
    sorted := front[..at] + [x] + front[at..];
    SpliceRows(t, cols, front, x, at);
    SpliceElements(front, x, at);
    InsertStableSorts(less, rows, row);
    forall j | at <= j < |front| ensures less(row, BuildRow(RowAt(t.rows, front[j]), cols)) {
      assert rows[j] == BuildRow(RowAt(t.rows, front[j]), cols);
    }
    forall k, l | 0 <= k < l < |sorted| ensures Before(less, t, cols, sorted[k], sorted[l]) {
      InsertedBefore(less, t, cols, ids, front, x, at, k, l);
    }
  }

  lemma LastRowSorted(less: (ResultRow, ResultRow) -> bool, t: Table, cols: seq<Text>, ids: seq<Text>, rest: seq<Text>, m: nat)
    requires m + 1 == |ids| && rest == ids[..m]
    ensures StableSort(less, BuildRows(t, ids, cols))
      == InsertStable(less, StableSort(less, BuildRows(t, rest, cols)), BuildRow(RowAt(t.rows, ids[m]), cols))
  {
    assert BuildRows(t, ids, cols)[..m] == BuildRows(t, rest, cols);
  }

  /** Sorting the rows sorts the ids along with them; rows that tie stay in id order. */
  lemma {:induction false} SortIds(less: (ResultRow, ResultRow) -> bool, t: Table, cols: seq<Text>, ids: seq<Text>) returns (sorted: seq<Text>)
    requires WeakOrder(less) && StrictlySorted(Less, ids)
    ensures BuildRows(t, sorted, cols) == StableSort(less, BuildRows(t, ids, cols))
    ensures multiset(sorted) == multiset(ids) && AllBefore(less, t, cols, sorted)
  {
    if |ids| == 0 {
      sorted := [];
    } else {
      var m := |ids| - 1;
      var rest := ids[..m];
      var front := SortIds(less, t, cols, rest);
      LastRowSorted(less, t, cols, ids, rest, m);
      StableSortSorts(less, BuildRows(t, rest, cols));
      sorted := InsertId(less, t, cols, ids, front, ids[m]);
      assert ids == rest + [ids[m]];
    }
  }

  // ----- What the order of results means for the rows -----

  lemma {:induction false} GetMissing(columns: seq<Text>, values: seq<Option<Bytes>>, c: Text)
    requires c !in columns
    ensures Get(columns, values, c) == None
  {
    if |columns| > 0 && |values| > 0 { GetMissing(columns[1..], values[1..], c); }
  }

  lemma GetIsSortKey(t: Table, cols: seq<Text>, r: Text, c: Text)
    ensures var row := BuildRow(RowAt(t.rows, r), cols); Get(row.columns, row.values, c) == SortKey(t, cols, r, c)
  {
    if c in cols { ResultShowsCells(RowAt(t.rows, r), cols, c); } else { GetMissing(cols, SecondaryIndexes.PartsFor(RowAt(t.rows, r), cols), c); }
  }

  lemma DropTie(t: Table, cols: seq<Text>, orderBy: seq<Order>, a: Text, b: Text)
    requires |orderBy| > 0 && SortKey(t, cols, a, orderBy[0].column) == SortKey(t, cols, b, orderBy[0].column)
    ensures Tied(t, cols, orderBy, a, b) <==> Tied(t, cols, orderBy[1..], a, b)
    ensures forall m: nat :: FirstAt(t, cols, orderBy[1..], a, b, m) ==> FirstAt(t, cols, orderBy, a, b, m + 1)
  {
    forall n | 0 < n < |orderBy| ensures orderBy[n] == orderBy[1..][n - 1] { }
  }

  /** One of two rows comes first by some ORDER BY column, or they tie. */
  lemma {:induction false} OrderDecides(t: Table, cols: seq<Text>, orderBy: seq<Order>, a: Text, b: Text)
    requires !OrderLess(orderBy, BuildRow(RowAt(t.rows, b), cols), BuildRow(RowAt(t.rows, a), cols))
    ensures (exists m: nat :: FirstAt(t, cols, orderBy, a, b, m)) || Tied(t, cols, orderBy, a, b)
    ensures Tied(t, cols, orderBy, a, b) ==>
      var x, y := BuildRow(RowAt(t.rows, a), cols), BuildRow(RowAt(t.rows, b), cols);
      !FirstLess(y, x) && (OrderLess(orderBy, x, y) <==> FirstLess(x, y))
  {
    if |orderBy| > 0 {
      var x, y := SortKey(t, cols, a, orderBy[0].column), SortKey(t, cols, b, orderBy[0].column);
      GetIsSortKey(t, cols, a, orderBy[0].column);
      GetIsSortKey(t, cols, b, orderBy[0].column);
      if x == y {
        OrderDecides(t, cols, orderBy[1..], a, b);
        DropTie(t, cols, orderBy, a, b);
        if m: nat :| FirstAt(t, cols, orderBy[1..], a, b, m) { assert FirstAt(t, cols, orderBy, a, b, m + 1); }
      } else {
        OptionLaws(x, y, None);
        assert FirstAt(t, cols, orderBy, a, b, 0);
      }
    }
  }

  lemma BeforeByOrder(t: Table, q: Query, cols: seq<Text>, a: Text, b: Text)
    requires |q.orderBy| > 0 && !OrderLess(q.orderBy, BuildRow(RowAt(t.rows, b), cols), BuildRow(RowAt(t.rows, a), cols))
    requires Before(ByOrder(q.orderBy), t, cols, a, b)
    ensures ComesFirst(t, cols, q.orderBy, a, b)
  {
    OrderDecides(t, cols, q.orderBy, a, b);
    if Tied(t, cols, q.orderBy, a, b) {
      var c := if |cols| > 0 then cols[0] else [];
      var x, y := SortKey(t, cols, a, c), SortKey(t, cols, b, c);
      OptionLaws(x, y, None);
      assert LastResort(t, cols, q.orderBy, c) && ByCell(t, cols, c, a, b);
    }
  }

  lemma BeforeByColumn(t: Table, q: Query, cols: seq<Text>, c: Text, a: Text, b: Text)
    requires |q.orderBy| == 0 && LastResort(t, cols, [], c) && Before(ByColumn(c), t, cols, a, b)
    ensures ComesFirst(t, cols, q.orderBy, a, b)
  {
    GetIsSortKey(t, cols, a, c);
    GetIsSortKey(t, cols, b, c);
    OptionLaws(SortKey(t, cols, a, c), SortKey(t, cols, b, c), None);
    assert q.orderBy == [] && Tied(t, cols, q.orderBy, a, b) && ByCell(t, cols, c, a, b);
  }

  lemma BeforeComesFirst(t: Table, q: Query, a: Text, b: Text)
    requires Before(ResultOrder(t, q), t, OutputCols(t, q), a, b)
    ensures ComesFirst(t, OutputCols(t, q), q.orderBy, a, b)
  {
    var cols := OutputCols(t, q);
    ResultOrderIsWeak(t, q);
    if |q.orderBy| > 0 {
      BeforeByOrder(t, q, cols, a, b);
    } else {
      SecondaryIndexes.PrimaryKeyIs(t.schema.columns);
      match SecondaryIndexes.PrimaryKey(t.schema.columns)
      case Some(pk) => BeforeByColumn(t, q, cols, pk, a, b);
      case None => BeforeByColumn(t, q, cols, if |cols| > 0 then cols[0] else [], a, b);
    }
  }

  // ----- The answer -----

  lemma SelectedIds(t: Table, q: Query, ids: seq<Text>)
    requires multiset(ids) == multiset(MatchingIds(t, q.filter))
    ensures NoDup(ids) && forall r :: r in ids <==> IsVisible(t, r) && (q.filter.Some? ==> Evaluate(q.filter.value, RowAt(t.rows, r)))
  {
    Effects.MatchingIdsDiffer(t, q.filter);
    NoDupFromMultiset(MatchingIds(t, q.filter), ids);
    forall r ensures r in ids <==> r in Matching(t, q.filter) {
      assert r in ids <==> r in Elements(ids);
      assert r in MatchingIds(t, q.filter) <==> r in Elements(MatchingIds(t, q.filter));
    }
  }

  /** SELECT answers with one row for each visible row that passes the filter: it has exactly
      the asked columns and shows under each the row's cell, and the rows come by ORDER BY,
      then by the first column shown (without ORDER BY the primary key), then by row id. */
  lemma SelectIs(s: Store, q: Query) returns (ids: seq<Text>)
    ensures Select(s, q).Some? <==> q.table in s
    ensures q.table in s ==>
      var t, rows := s[q.table], Select(s, q);
      && NoDup(ids) && (forall r :: r in ids <==> IsVisible(t, r) && (q.filter.Some? ==> Evaluate(q.filter.value, RowAt(t.rows, r))))
      && |rows.value| == |ids| && (forall k :: 0 <= k < |ids| ==> Shows(t, q, rows.value[k], ids[k]))
      && (forall k, l :: 0 <= k < l < |ids| ==> ComesFirst(t, rows.value[k].columns, q.orderBy, ids[k], ids[l]))
  {
    ids := [];
    if q.table !in s { return; }
    var t, cols := s[q.table], OutputCols(s[q.table], q);
    var all := MatchingIds(t, q.filter);
    ResultOrderIsWeak(t, q);
    ids := SortIds(ResultOrder(t, q), t, cols, all);
    SelectedIds(t, q, ids);
    forall k, l | 0 <= k < l < |ids| ensures ComesFirst(t, cols, q.orderBy, ids[k], ids[l]) { BeforeComesFirst(t, q, ids[k], ids[l]); }
  }
}
