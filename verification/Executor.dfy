/** Filters and SELECT over the visible rows of a table. */
module Executor {
  import opened ByteStrings
  import opened Ops
  import opened RowStores
  import opened Sorting
  import U = Uniqueness
  import SecondaryIndexes

  datatype Expr =
    | Eq(column: Text, value: Option<Bytes>)
    | Neq(column: Text, value: Option<Bytes>)
    | Lt(column: Text, value: Option<Bytes>)
    | Gt(column: Text, value: Option<Bytes>)
    | And(left: Expr, right: Expr)
    | Or(left: Expr, right: Expr)
    | IsNull(column: Text)
    | IsNotNull(column: Text)

  predicate Evaluate(e: Expr, row: Row) {
    match e
    case Eq(c, v) => ReadCell(row, c) == v
    case Neq(c, v) => ReadCell(row, c) != v
    case Lt(c, v) => LessOption(ReadCell(row, c), v)
    case Gt(c, v) => LessOption(v, ReadCell(row, c))
    case And(l, r) => Evaluate(l, row) && Evaluate(r, row)
    case Or(l, r) => Evaluate(l, row) || Evaluate(r, row)
    case IsNull(c) => ReadCell(row, c).None?
    case IsNotNull(c) => ReadCell(row, c).Some?
  }

  predicate Passes(filter: Option<Expr>, row: Row) {
    filter.Some? ==> Evaluate(filter.value, row)
  }

  /** The visible rows a filter selects. */
  function Matching(t: Table, filter: Option<Expr>): set<Text> {
    set r | r in VisibleRows(t) && Passes(filter, RowAt(t.rows, r))
  }

  /** The same in row order, as the iterator chain yields them. */
  function MatchingIds(t: Table, filter: Option<Expr>): (ids: seq<Text>)
    ensures StrictlySorted(Less, ids) && Elements(ids) == Matching(t, filter)
  {
    U.LessIsStrictTotal();
    Ascending(Less, Matching(t, filter))
  }

  datatype Order = Order(column: Text, ascending: bool)

  /** `columns` is `None` for SELECT *. */
  datatype Query = Query(table: Text, columns: Option<seq<Text>>, filter: Option<Expr>, orderBy: seq<Order>)

  datatype ResultRow = ResultRow(columns: seq<Text>, values: seq<Option<Bytes>>)

  function Get(columns: seq<Text>, values: seq<Option<Bytes>>, c: Text): Option<Bytes> {
    if |columns| == 0 || |values| == 0 then None
    else if columns[0] == c then values[0]
    else Get(columns[1..], values[1..], c)
  }

  function Names(columns: seq<ColumnDef>): seq<Text> {
    seq(|columns|, i requires 0 <= i < |columns| => columns[i].name)
  }

  function BuildRow(row: Row, cols: seq<Text>): ResultRow {
    ResultRow(cols, SecondaryIndexes.PartsFor(row, cols))
  }

  function BuildRows(t: Table, ids: seq<Text>, cols: seq<Text>): seq<ResultRow> {
    seq(|ids|, i requires 0 <= i < |ids| => BuildRow(RowAt(t.rows, ids[i]), cols))
  }

  predicate FirstLess(a: ResultRow, b: ResultRow) {
    |b.values| > 0 && (|a.values| == 0 || LessOption(a.values[0], b.values[0]))
  }

  /** ORDER BY columns in turn, then the first output column. */
  predicate OrderLess(orderBy: seq<Order>, a: ResultRow, b: ResultRow) {
    if |orderBy| == 0 then FirstLess(a, b)
    else
      var va, vb := Get(a.columns, a.values, orderBy[0].column), Get(b.columns, b.values, orderBy[0].column);
      if va == vb then OrderLess(orderBy[1..], a, b)
      else if orderBy[0].ascending then LessOption(va, vb) else LessOption(vb, va)
  }

  function ByOrder(orderBy: seq<Order>): (ResultRow, ResultRow) -> bool {
    (a: ResultRow, b: ResultRow) => OrderLess(orderBy, a, b)
  }

  function ByColumn(c: Text): (ResultRow, ResultRow) -> bool {
    (a: ResultRow, b: ResultRow) => LessOption(Get(a.columns, a.values, c), Get(b.columns, b.values, c))
  }

  /** The order SELECT puts its rows in. */
  function ResultOrder(t: Table, q: Query): (ResultRow, ResultRow) -> bool {
    if |q.orderBy| > 0 then ByOrder(q.orderBy)
    else match SecondaryIndexes.PrimaryKey(t.schema.columns)
         case Some(pk) => ByColumn(pk)
         case None => var cols := OutputCols(t, q); ByColumn(if |cols| > 0 then cols[0] else [])
  }

  function OutputCols(t: Table, q: Query): seq<Text> {
    match q.columns
    case None => Names(t.schema.columns)
    case Some(cols) => cols
  }

  /** `None` when the table does not exist. */
  function Select(s: Store, q: Query): Option<seq<ResultRow>> {
    if q.table !in s then None
    else
      var t := s[q.table];
      Some(StableSort(ResultOrder(t, q), BuildRows(t, MatchingIds(t, q.filter), OutputCols(t, q))))
  }

  lemma ResultOrderIsWeak(t: Table, q: Query)
    ensures WeakOrder(ResultOrder(t, q))
  {
    if |q.orderBy| > 0 {
      forall a, b | OrderLess(q.orderBy, a, b) ensures !OrderLess(q.orderBy, b, a) { OrderLaws(q.orderBy, a, b, a); }
      forall a, b, c | OrderLess(q.orderBy, a, c) ensures OrderLess(q.orderBy, a, b) || OrderLess(q.orderBy, b, c) {
        OrderLaws(q.orderBy, a, b, c);
      }
    } else {
      forall x, y, z ensures (LessOption(x, y) ==> !LessOption(y, x)) && (LessOption(x, z) ==> LessOption(x, y) || LessOption(y, z)) {
        OptionLaws(x, y, z);
      }
    }
  }

  lemma OptionLaws(x: Option<Bytes>, y: Option<Bytes>, z: Option<Bytes>)
    ensures (LessOption(x, y) ==> !LessOption(y, x)) && (LessOption(x, z) ==> LessOption(x, y) || LessOption(y, z))
    ensures LessOption(x, y) || x == y || LessOption(y, x)
  {
    SecondaryIndexes.OptionOrder(x, y, z);
    SecondaryIndexes.OptionOrder(y, x, z);
    SecondaryIndexes.OptionOrder(y, z, x);
  }

  lemma {:induction false} OrderLaws(orderBy: seq<Order>, a: ResultRow, b: ResultRow, c: ResultRow)
    ensures OrderLess(orderBy, a, b) ==> !OrderLess(orderBy, b, a)
    ensures OrderLess(orderBy, a, c) ==> OrderLess(orderBy, a, b) || OrderLess(orderBy, b, c)
  {
    if |orderBy| == 0 {
      if |a.values| > 0 && |b.values| > 0 && |c.values| > 0 { OptionLaws(a.values[0], b.values[0], c.values[0]); }
      else if |a.values| > 0 && |b.values| > 0 { OptionLaws(a.values[0], b.values[0], None); }
    } else {
      var o := orderBy[0];
      var va, vb, vc := Get(a.columns, a.values, o.column), Get(b.columns, b.values, o.column), Get(c.columns, c.values, o.column);
      OptionLaws(va, vb, vc);
      OptionLaws(vc, vb, va);
      OptionLaws(va, vc, vb);
      OrderLaws(orderBy[1..], a, b, c);
    }
  }

  /** SELECT returns exactly the matching visible rows, once each, in its order. */
  lemma SelectIsSortedMatching(s: Store, q: Query)
    requires q.table in s
    ensures var t, rows := s[q.table], Select(s, q).value;
      && Sorted(ResultOrder(t, q), rows)
      && multiset(rows) == multiset(BuildRows(t, MatchingIds(t, q.filter), OutputCols(t, q)))
  {
    ResultOrderIsWeak(s[q.table], q);
    StableSortSorts(ResultOrder(s[q.table], q), BuildRows(s[q.table], MatchingIds(s[q.table], q.filter), OutputCols(s[q.table], q)));
  }

  /** A query sees only the matching rows: tables that agree on them give one answer. */
  lemma SelectDependsOnMatching(s: Store, s': Store, q: Query)
    requires q.table in s && q.table in s' && s[q.table].schema == s'[q.table].schema
    requires Matching(s[q.table], q.filter) == Matching(s'[q.table], q.filter)
    requires forall r :: r in Matching(s[q.table], q.filter) ==> RowAt(s[q.table].rows, r) == RowAt(s'[q.table].rows, r)
    ensures Select(s, q) == Select(s', q)
  {
    var t, t' := s[q.table], s'[q.table];
    var ids, ids' := MatchingIds(t, q.filter), MatchingIds(t', q.filter);
    U.LessIsStrictTotal();
    StrictlySortedUnique(Less, ids, ids');
    forall i | 0 <= i < |ids| ensures RowAt(t.rows, ids[i]) == RowAt(t'.rows, ids[i]) { assert ids[i] in Elements(ids); }
    assert BuildRows(t, ids, OutputCols(t, q)) == BuildRows(t', ids', OutputCols(t', q));
  }

  /** A result row shows, under each selected column, the row's canonical value. */
  lemma {:induction false} ResultShowsCells(row: Row, cols: seq<Text>, c: Text)
    requires c in cols
    ensures Get(cols, SecondaryIndexes.PartsFor(row, cols), c) == ReadCell(row, c)
  {
    if cols[0] != c {
      ResultShowsCells(row, cols[1..], c);
      assert SecondaryIndexes.PartsFor(row, cols)[1..] == SecondaryIndexes.PartsFor(row, cols[1..]);
    }
  }

  /** Rows come in the order of the first ORDER BY column, or else of the primary key. */
  lemma SelectLeads(s: Store, q: Query, i: nat, j: nat)
    requires q.table in s && i < j < |Select(s, q).value|
    ensures var a, b := Select(s, q).value[i], Select(s, q).value[j];
      && (|q.orderBy| > 0 ==>
           var x, y := Get(a.columns, a.values, q.orderBy[0].column), Get(b.columns, b.values, q.orderBy[0].column);
           if q.orderBy[0].ascending then x == y || LessOption(x, y) else x == y || LessOption(y, x))
      && (|q.orderBy| == 0 && SecondaryIndexes.PrimaryKey(s[q.table].schema.columns).Some? ==>
           var pk := SecondaryIndexes.PrimaryKey(s[q.table].schema.columns).value;
           var x, y := Get(a.columns, a.values, pk), Get(b.columns, b.values, pk);
           x == y || LessOption(x, y))
  {
    SelectIsSortedMatching(s, q);
    var a, b := Select(s, q).value[i], Select(s, q).value[j];
    assert !ResultOrder(s[q.table], q)(b, a);
    if |q.orderBy| > 0 {
      OptionLaws(Get(a.columns, a.values, q.orderBy[0].column), Get(b.columns, b.values, q.orderBy[0].column), None);
    } else if SecondaryIndexes.PrimaryKey(s[q.table].schema.columns).Some? {
      var pk := SecondaryIndexes.PrimaryKey(s[q.table].schema.columns).value;
      OptionLaws(Get(a.columns, a.values, pk), Get(b.columns, b.values, pk), None);
    }
  }
}
