/** Ordered iteration and stable sorting, over any order given as a predicate. */
module Sorting {

  ghost predicate Asymmetric<T(!new)>(less: (T, T) -> bool) {
    forall a, b :: less(a, b) ==> !less(b, a)
  }

  ghost predicate StrictTotal<T(!new)>(less: (T, T) -> bool) {
    && Asymmetric(less)
    && (forall a, b, c :: less(a, b) && less(b, c) ==> less(a, c))
    && (forall a, b :: less(a, b) || a == b || less(b, a))
  }

  /** No element comes before one it is less than. */
  ghost predicate Sorted<T>(less: (T, T) -> bool, xs: seq<T>) {
    forall i, j :: 0 <= i < j < |xs| ==> !less(xs[j], xs[i])
  }

  ghost predicate StrictlySorted<T>(less: (T, T) -> bool, xs: seq<T>) {
    forall i, j :: 0 <= i < j < |xs| ==> less(xs[i], xs[j])
  }

  ghost predicate NoDup<T>(xs: seq<T>) {
    forall i, j :: 0 <= i < j < |xs| ==> xs[i] != xs[j]
  }

  ghost function Elements<T>(xs: seq<T>): set<T> {
    set x | x in xs
  }

  /** A strictly sorted sequence is determined by its elements. */
  lemma {:induction false} StrictlySortedUnique<T(!new)>(less: (T, T) -> bool, xs: seq<T>, ys: seq<T>)
    requires Asymmetric(less)
    requires StrictlySorted(less, xs) && StrictlySorted(less, ys)
    requires Elements(xs) == Elements(ys)
    ensures xs == ys
    decreases |xs|
  {
    assert |ys| > 0 ==> ys[0] in Elements(ys);
    assert |xs| > 0 ==> xs[0] in Elements(xs);
    if |xs| > 0 {
      var m, n := |xs| - 1, |ys| - 1;
      assert xs[m] in Elements(ys);
      var k :| 0 <= k < |ys| && ys[k] == xs[m];
      assert ys[n] in Elements(xs);
      var l :| 0 <= l < |xs| && xs[l] == ys[n];
      assert xs[m] == ys[n];
      forall x ensures x in Elements(xs[..m]) <==> x in Elements(ys[..n]) {
        assert !less(xs[m], xs[m]);
        assert x in xs[..m] <==> x in xs && x != xs[m] by { LastApart(less, xs, x); }
        assert x in ys[..n] <==> x in ys && x != ys[n] by { LastApart(less, ys, x); }
        assert x in xs <==> x in Elements(xs);
      }
      StrictlySortedUnique(less, xs[..m], ys[..n]);
      assert xs == xs[..m] + [xs[m]] && ys == ys[..n] + [ys[n]];
    }
  }

  lemma LastApart<T(!new)>(less: (T, T) -> bool, xs: seq<T>, x: T)
    requires |xs| > 0 && Asymmetric(less) && StrictlySorted(less, xs)
    ensures x in xs[..|xs| - 1] <==> x in xs && x != xs[|xs| - 1]
  {
    if x in xs && x != xs[|xs| - 1] {
      var k :| 0 <= k < |xs| && xs[k] == x;
      assert xs[..|xs| - 1][k] == x;
    }
  }

  lemma NoElements<T>(xs: seq<T>)
    ensures |xs| > 0 ==> Elements(xs) != {}
  {
    if |xs| > 0 { assert xs[0] in Elements(xs); }
  }

  /** The elements of a set in ascending order: how a BTreeMap or BTreeSet is iterated. */
  function Ascending<T(==, !new)>(less: (T, T) -> bool, s: set<T>): (xs: seq<T>)
    requires StrictTotal(less)
    ensures StrictlySorted(less, xs)
    ensures Elements(xs) == s && |xs| == |s|
    decreases |s|
  {
    if s == {} then []
    else
      HasGreatest(less, s);
      var m :| m in s && forall x :: x in s && x != m ==> less(x, m);
      var rest := Ascending(less, s - {m});
      assert forall x :: x in rest <==> x in Elements(rest);
      rest + [m]
  }

  lemma {:induction false} HasGreatest<T(!new)>(less: (T, T) -> bool, s: set<T>)
    requires StrictTotal(less) && s != {}
    ensures exists m :: m in s && forall x :: x in s && x != m ==> less(x, m)
    decreases |s|
  {
    var a :| a in s;
    if s == {a} {
    } else {
      HasGreatest(less, s - {a});
      var b :| b in s - {a} && forall x :: x in s - {a} && x != b ==> less(x, b);
      var m := if less(a, b) then b else a;
      assert forall x :: x in s && x != m ==> less(x, m);
    }
  }

  /** Insert after every element that is not greater: the step of a stable insertion sort. */
  function InsertStable<T>(less: (T, T) -> bool, xs: seq<T>, x: T): seq<T> {
    if |xs| == 0 || !less(x, xs[|xs| - 1]) then xs + [x]
    else InsertStable(less, xs[..|xs| - 1], x) + [xs[|xs| - 1]]
  }

  /** `slice::sort_by`: a stable sort. */
  function StableSort<T>(less: (T, T) -> bool, xs: seq<T>): seq<T> {
    if |xs| == 0 then [] else InsertStable(less, StableSort(less, xs[..|xs| - 1]), xs[|xs| - 1])
  }

  ghost predicate WeakOrder<T(!new)>(less: (T, T) -> bool) {
    && Asymmetric(less)
    && (forall a, b, c :: less(a, c) ==> less(a, b) || less(b, c))
  }

  lemma {:induction false} InsertStableElements<T>(less: (T, T) -> bool, xs: seq<T>, x: T)
    ensures multiset(InsertStable(less, xs, x)) == multiset(xs) + multiset{x}
  {
    if !(|xs| == 0 || !less(x, xs[|xs| - 1])) {
      var m := |xs| - 1;
      InsertStableElements(less, xs[..m], x);
      assert xs == xs[..m] + [xs[m]];
    }
  }

  lemma {:induction false} InsertStableSorts<T(!new)>(less: (T, T) -> bool, xs: seq<T>, x: T)
    requires WeakOrder(less) && Sorted(less, xs)
    ensures Sorted(less, InsertStable(less, xs, x))
  {
    if |xs| == 0 {
    } else if !less(x, xs[|xs| - 1]) {
      var m := |xs| - 1;
      forall i | 0 <= i < |xs| ensures !less(x, xs[i]) {
        assert i < m ==> !less(xs[m], xs[i]);
      }
    } else {
      var m := |xs| - 1;
      InsertStableSorts(less, xs[..m], x);
      var ys := InsertStable(less, xs[..m], x);
      forall k | 0 <= k < |ys| ensures !less(xs[m], ys[k]) {
        InsertStableElements(less, xs[..m], x);
        assert ys[k] in multiset(ys);
      }
    }
  }

  lemma {:induction false} StableSortSorts<T(!new)>(less: (T, T) -> bool, xs: seq<T>)
    requires WeakOrder(less)
    ensures Sorted(less, StableSort(less, xs))
    ensures multiset(StableSort(less, xs)) == multiset(xs)
  {
    if |xs| > 0 {
      var m := |xs| - 1;
      StableSortSorts(less, xs[..m]);
      InsertStableSorts(less, StableSort(less, xs[..m]), xs[m]);
      InsertStableElements(less, StableSort(less, xs[..m]), xs[m]);
      assert xs == xs[..m] + [xs[m]];
    }
  }

  /** Where a stable insertion puts the element: before elements it is less than. */
  lemma {:induction false} InsertStableAt<T(!new)>(less: (T, T) -> bool, xs: seq<T>, x: T) returns (at: nat)
    ensures at <= |xs| && InsertStable(less, xs, x) == xs[..at] + [x] + xs[at..]
    ensures forall j :: at <= j < |xs| ==> less(x, xs[j])
  {
    at := |xs|;
    if |xs| > 0 && less(x, xs[|xs| - 1]) {
      var m := |xs| - 1;
      at := InsertStableAt(less, xs[..m], x);
      assert xs == xs[..m] + [xs[m]];
      forall j | at <= j < |xs| ensures less(x, xs[j]) { assert j < m ==> xs[..m][j] == xs[j]; }
    }
  }

  /** Sequences without repeats are described by their element sets. */
  lemma NoDupFromMultiset<T>(xs: seq<T>, ys: seq<T>)
    requires multiset(xs) == multiset(ys) && NoDup(xs)
    ensures NoDup(ys) && Elements(xs) == Elements(ys)
  {
    forall i, j | 0 <= i < j < |ys| ensures ys[i] != ys[j] {
      if ys[i] == ys[j] {
        assert ys == ys[..i] + [ys[i]] + ys[i + 1..j] + [ys[j]] + ys[j + 1..];
        assert multiset(ys)[ys[i]] >= 2;
        NoDupOnce(xs, ys[i]);
      }
    }
    forall x ensures x in xs <==> x in ys {
      assert x in multiset(xs) <==> x in xs;
      assert x in multiset(ys) <==> x in ys;
    }
  }

  lemma {:induction false} NoDupOnce<T>(xs: seq<T>, x: T)
    requires NoDup(xs)
    ensures multiset(xs)[x] <= 1
  {
    if |xs| > 0 {
      var m := |xs| - 1;
      NoDupOnce(xs[..m], x);
      assert xs == xs[..m] + [xs[m]];
      if x == xs[m] { assert x !in xs[..m]; assert x !in multiset(xs[..m]); }
    }
  }

  /** Concatenation of the images of a list. */
  function FlatMap<K, V>(ks: seq<K>, f: K -> seq<V>): seq<V> {
    if |ks| == 0 then [] else FlatMap(ks[..|ks| - 1], f) + f(ks[|ks| - 1])
  }

  lemma {:induction false} FlatMapElements<K, V>(ks: seq<K>, f: K -> seq<V>, x: V)
    ensures x in FlatMap(ks, f) <==> exists k :: k in ks && x in f(k)
  {
    if |ks| > 0 {
      var m := |ks| - 1;
      FlatMapElements(ks[..m], f, x);
      assert ks == ks[..m] + [ks[m]];
      if x in f(ks[m]) { assert ks[m] in ks; }
    }
  }

  lemma FlatMapTwo<K, W>(a: K, b: K, f: K -> seq<W>)
    ensures FlatMap([a], f) == f(a) && FlatMap([a, b], f) == f(a) + f(b)
  {
    assert [a][..0] == [] && [a, b][..1] == [a];
  }

  lemma FlatMapThree<K, W>(a: K, b: K, c: K, f: K -> seq<W>)
    ensures FlatMap([a, b, c], f) == f(a) + f(b) + f(c)
  {
    FlatMapTwo(a, b, f);
    assert [a, b, c][..2] == [a, b];
  }

  /** The sub-sequence a predicate selects. */
  function Filter<T(!new)>(xs: seq<T>, p: T -> bool): (ys: seq<T>)
    ensures forall y :: y in ys <==> y in xs && p(y)
  {
    if |xs| == 0 then []
    else
      var m := |xs| - 1;
      assert xs == xs[..m] + [xs[m]];
      Filter(xs[..m], p) + if p(xs[m]) then [xs[m]] else []
  }

  /** Selecting keeps any relation that holds of every ordered pair. */
  lemma {:induction false} FilterPairs<T(!new)>(xs: seq<T>, p: T -> bool, rel: (T, T) -> bool)
    requires forall i, j :: 0 <= i < j < |xs| && p(xs[i]) && p(xs[j]) ==> rel(xs[i], xs[j])
    ensures StrictlySorted(rel, Filter(xs, p))
  {
    if |xs| > 0 {
      var m := |xs| - 1;
      FilterPairs(xs[..m], p, rel);
      var ys := Filter(xs[..m], p);
      forall k | 0 <= k < |ys| && p(xs[m]) ensures rel(ys[k], xs[m]) {
        assert ys[k] in ys;
        var i :| 0 <= i < |xs[..m]| && xs[..m][i] == ys[k];
      }
    }
  }

  lemma {:induction false} FilterNone<T(!new)>(xs: seq<T>, p: T -> bool)
    requires forall x :: x in xs ==> !p(x)
    ensures Filter(xs, p) == []
  {
    if |xs| > 0 { FilterNone(xs[..|xs| - 1], p); }
  }

  lemma {:induction false} FilterRest<T(!new)>(xs: seq<T>, p: T -> bool, i: nat)
    requires i <= |xs| && forall j :: i <= j < |xs| ==> !p(xs[j])
    ensures Filter(xs, p) == Filter(xs[..i], p)
    decreases |xs|
  {
    if i < |xs| {
      FilterRest(xs[..|xs| - 1], p, i);
      assert xs[..|xs| - 1][..i] == xs[..i];
    } else {
      assert xs[..i] == xs;
    }
  }

  /** The elements of a set, listed in ascending order. */
  method InOrder<T(==, !new)>(less: (T, T) -> bool, s: set<T>) returns (xs: seq<T>)
    requires StrictTotal(less)
    ensures StrictlySorted(less, xs) && Elements(xs) == s
  {
    xs := Ascending(less, s);
  }
}
