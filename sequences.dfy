/**
 * Generic sequence operations behind the frame steps and the summary charts:
 * order-preserving filtering (`dropna`, boolean masks), first-appearance
 * de-duplication and counting (`value_counts`), stable sorting by a key
 * (`sort_values`, `sort_index`) and taking a prefix (`nlargest`).
 */
module Sequences {

  // ---------------------------------------------------------------------
  // Filtering

  /** The elements of `xs` that satisfy `keep`, in their original order. */
  function Filter<T>(xs: seq<T>, keep: T -> bool): seq<T>
  {
    if xs == [] then []
    else Filter(xs[..|xs| - 1], keep) + (if keep(xs[|xs| - 1]) then [xs[|xs| - 1]] else [])
  }

  /** An element survives the filter exactly when it was there and satisfies `keep`. */
  lemma {:induction false} FilterMembers<T>(xs: seq<T>, keep: T -> bool)
    ensures forall x :: x in Filter(xs, keep) <==> x in xs && keep(x)
  {
    if xs != [] {
      FilterMembers(xs[..|xs| - 1], keep);
      assert xs == xs[..|xs| - 1] + [xs[|xs| - 1]];
    }
  }

  /** Filtering commutes with concatenation, so the relative order of survivors is kept. */
  lemma {:induction false} FilterConcat<T>(a: seq<T>, b: seq<T>, keep: T -> bool)
    ensures Filter(a + b, keep) == Filter(a, keep) + Filter(b, keep)
  {
    if b == [] {
      assert a + b == a;
    } else {
      assert (a + b)[..|a + b| - 1] == a + b[..|b| - 1];
      FilterConcat(a, b[..|b| - 1], keep);
    }
  }

  /** The negation of a predicate. */
  function Not<T>(keep: T -> bool): T -> bool
  {
    x => !keep(x)
  }

  /** What is kept and what is dropped add up to the whole input. */
  lemma {:induction false} FilterPartition<T>(xs: seq<T>, keep: T -> bool)
    ensures |Filter(xs, keep)| + |Filter(xs, Not(keep))| == |xs|
  {
    if xs != [] {
      FilterPartition(xs[..|xs| - 1], keep);
    }
  }

  /** Each surviving value occurs as often as in the input; a rejected one not at all. */
  lemma {:induction false} FilterOccurrences<T>(xs: seq<T>, keep: T -> bool)
    ensures forall x :: multiset(Filter(xs, keep))[x] == if keep(x) then multiset(xs)[x] else 0
  {
    if xs != [] {
      var init, last := xs[..|xs| - 1], xs[|xs| - 1];
      FilterOccurrences(init, keep);
      assert xs == init + [last];
      assert multiset(xs) == multiset(init) + multiset{last};
    }
  }

  // ---------------------------------------------------------------------
  // Distinct values and their counts

  predicate NoDuplicates<T(==)>(xs: seq<T>)
  {
    forall i, j :: 0 <= i < j < |xs| ==> xs[i] != xs[j]
  }

  /** The distinct values of `xs`, each once, in order of first appearance. */
  function Distinct<T(==)>(xs: seq<T>): (ds: seq<T>)
    ensures NoDuplicates(ds)
    ensures forall i :: 0 <= i < |ds| ==> ds[i] in xs
    ensures forall i :: 0 <= i < |xs| ==> xs[i] in ds
  {
    if xs == [] then []
    else
      var init, last := xs[..|xs| - 1], xs[|xs| - 1];
      var ds := Distinct(init);
      assert xs == init + [last];
      if last in init then ds else ds + [last]
  }

  /** There are as many distinct values as elements in the set of `xs`. */
  lemma {:induction false} DistinctSize<T>(xs: seq<T>)
    ensures |Distinct(xs)| == |set x | x in xs|
  {
    if xs != [] {
      var init, last := xs[..|xs| - 1], xs[|xs| - 1];
      DistinctSize(init);
      assert xs == init + [last];
      assert (set x | x in xs) == (set x | x in init) + {last};
    }
  }

  /** A (value, count) entry for every value of `ks`, counting in `m`. */
  function Entries<T>(ks: seq<T>, m: multiset<T>): seq<(T, nat)>
  {
    seq(|ks|, i requires 0 <= i < |ks| => (ks[i], m[ks[i]]))
  }

  /** The value counts of `xs`, in order of first appearance. */
  function Tally<T(==)>(xs: seq<T>): seq<(T, nat)>
  {
    Entries(Distinct(xs), multiset(xs))
  }

  /** No key occurs in two entries. */
  predicate KeysDistinct<T(==)>(es: seq<(T, nat)>)
  {
    forall i, j :: 0 <= i < j < |es| ==> es[i].0 != es[j].0
  }

  /** The sum of the counts of `es`. */
  function Total<T>(es: seq<(T, nat)>): nat
  {
    if es == [] then 0 else es[0].1 + Total(es[1..])
  }

  lemma {:induction false} TotalAppend<T>(a: seq<(T, nat)>, b: seq<(T, nat)>)
    ensures Total(a + b) == Total(a) + Total(b)
  {
    if a == [] {
      assert a + b == b;
    } else {
      assert (a + b)[1..] == a[1..] + b;
      TotalAppend(a[1..], b);
    }
  }

  /** One more occurrence of `x` raises the total by one exactly when `x` is a key. */
  lemma {:induction false} TotalAddOne<T>(ks: seq<T>, m: multiset<T>, x: T)
    requires NoDuplicates(ks)
    ensures Total(Entries(ks, m + multiset{x})) == Total(Entries(ks, m)) + (if x in ks then 1 else 0)
  {
    if ks != [] {
      assert Entries(ks, m + multiset{x})[1..] == Entries(ks[1..], m + multiset{x});
      assert Entries(ks, m)[1..] == Entries(ks[1..], m);
      TotalAddOne(ks[1..], m, x);
      assert x in ks <==> x == ks[0] || x in ks[1..];
    }
  }

  /** Every entry of the tally is a value of `xs` with its number of occurrences, and back. */
  lemma TallyMembers<T>(xs: seq<T>)
    ensures forall e :: e in Tally(xs) <==> e.0 in xs && e.1 == multiset(xs)[e.0]
  {
    var ds := Distinct(xs);
    forall e: (T, nat) | e.0 in xs && e.1 == multiset(xs)[e.0]
      ensures e in Tally(xs)
    {
      var i :| 0 <= i < |ds| && ds[i] == e.0;
      assert Tally(xs)[i] == e;
    }
  }

  /** The tally has one entry per distinct value. */
  lemma TallyKeys<T>(xs: seq<T>)
    ensures KeysDistinct(Tally(xs))
    ensures |Tally(xs)| == |Distinct(xs)|
  {
    var t := Tally(xs);
    forall i, j | 0 <= i < j < |t|
      ensures t[i].0 != t[j].0
    {
      assert t[i].0 == Distinct(xs)[i] && t[j].0 == Distinct(xs)[j];
    }
  }

  /** The counts of the tally add up to `|xs|`. */
  lemma {:induction false} TallyTotal<T>(xs: seq<T>)
    ensures Total(Tally(xs)) == |xs|
  {
    if xs != [] {
      var init, last := xs[..|xs| - 1], xs[|xs| - 1];
      TallyTotal(init);
      var d := Distinct(init);
      var m0, m := multiset(init), multiset(xs);
      assert xs == init + [last];
      assert m == m0 + multiset{last};
      TotalAddOne(d, m0, last);
      if last in init {
        assert Tally(xs) == Entries(d, m);
      } else {
        assert Tally(xs) == Entries(d + [last], m);
        assert Entries(d + [last], m) == Entries(d, m) + [(last, m[last])];
        TotalAppend(Entries(d, m), [(last, m[last])]);
        assert Total([(last, m[last])]) == m[last] == 1;
      }
    }
  }

  // ---------------------------------------------------------------------
  // Stable sorting by an integer key

  predicate SortedBy<T>(s: seq<T>, key: T -> int)
  {
    forall i, j :: 0 <= i < j < |s| ==> key(s[i]) <= key(s[j])
  }

  /** Insert `e` into sorted `s`, in front of the first element whose key is not smaller. */
  function Insert<T>(e: T, s: seq<T>, key: T -> int): (r: seq<T>)
    requires SortedBy(s, key)
    ensures SortedBy(r, key)
    ensures multiset(r) == multiset(s) + multiset{e}
  {
    if s == [] then [e]
    else if key(e) <= key(s[0]) then
      assert forall y :: y in s ==> key(s[0]) <= key(y);
      SortedCons(e, s, key);
      [e] + s
    else
      var rest := Insert(e, s[1..], key);
      assert s == [s[0]] + s[1..];
      InsertedFrom(e, s[1..], rest);
      SortedCons(s[0], rest, key);
      [s[0]] + rest
  }

  /** A sorted sequence stays sorted behind an element no larger than any of its elements. */
  lemma SortedCons<T>(x: T, s: seq<T>, key: T -> int)
    requires SortedBy(s, key)
    requires forall y :: y in s ==> key(x) <= key(y)
    ensures SortedBy([x] + s, key)
  {
    var r := [x] + s;
    forall i, j | 0 <= i < j < |r|
      ensures key(r[i]) <= key(r[j])
    {
      assert r[j] == s[j - 1];
      if i > 0 {
        assert r[i] == s[i - 1];
      }
    }
  }

  /** Every element of a permutation of `s` with `e` added is `e` or an element of `s`. */
  lemma InsertedFrom<T>(e: T, s: seq<T>, r: seq<T>)
    requires multiset(r) == multiset(s) + multiset{e}
    ensures forall x :: x in r ==> x == e || x in s
  {
    forall x | x in r
      ensures x == e || x in s
    {
      assert multiset(r)[x] > 0;
    }
  }

  /** Insertion sort: ascending by `key`, equal keys keeping their input order. */
  function SortBy<T>(xs: seq<T>, key: T -> int): (r: seq<T>)
    ensures SortedBy(r, key)
    ensures multiset(r) == multiset(xs)
  {
    if xs == [] then []
    else
      assert xs == [xs[0]] + xs[1..];
      Insert(xs[0], SortBy(xs[1..], key), key)
  }

  /** Inserting an entry whose key is new keeps the keys distinct. */
  lemma {:induction false} InsertKeysDistinct<T>(e: (T, nat), s: seq<(T, nat)>, key: ((T, nat)) -> int)
    requires SortedBy(s, key) && KeysDistinct(s)
    requires forall x :: x in s ==> x.0 != e.0
    ensures KeysDistinct(Insert(e, s, key))
  {
    if s != [] && key(e) > key(s[0]) {
      InsertKeysDistinct(e, s[1..], key);
      var rest := Insert(e, s[1..], key);
      InsertedFrom(e, s[1..], rest);
      forall y | y in rest
        ensures y.0 != s[0].0
      {
        if y != e {
          var m :| 0 <= m < |s[1..]| && s[1..][m] == y;
          assert s[m + 1] == y;
        }
      }
      KeysDistinctCons(s[0], rest);
      assert Insert(e, s, key) == [s[0]] + rest;
    }
  }

  /** An entry whose key is new in front of entries with distinct keys. */
  lemma KeysDistinctCons<T>(x: (T, nat), es: seq<(T, nat)>)
    requires KeysDistinct(es)
    requires forall y :: y in es ==> y.0 != x.0
    ensures KeysDistinct([x] + es)
  {
    var r := [x] + es;
    forall i, j | 0 <= i < j < |r|
      ensures r[i].0 != r[j].0
    {
      assert r[j] == es[j - 1];
      if i > 0 {
        assert r[i] == es[i - 1];
      }
    }
  }

  lemma {:induction false} InsertTotal<T>(e: (T, nat), s: seq<(T, nat)>, key: ((T, nat)) -> int)
    requires SortedBy(s, key)
    ensures Total(Insert(e, s, key)) == e.1 + Total(s)
  {
    if s != [] && key(e) > key(s[0]) {
      InsertTotal(e, s[1..], key);
      assert Insert(e, s, key)[1..] == Insert(e, s[1..], key);
    }
  }

  /** Sorting entries keeps their keys distinct and their total unchanged. */
  lemma {:induction false} SortKeepsEntries<T>(es: seq<(T, nat)>, key: ((T, nat)) -> int)
    requires KeysDistinct(es)
    ensures KeysDistinct(SortBy(es, key))
    ensures Total(SortBy(es, key)) == Total(es)
  {
    if es != [] {
      var rest := SortBy(es[1..], key);
      SortKeepsEntries(es[1..], key);
      forall x | x in rest
        ensures x.0 != es[0].0
      {
        assert multiset(rest)[x] > 0;
        assert x in es[1..];
      }
      InsertKeysDistinct(es[0], rest, key);
      InsertTotal(es[0], rest, key);
    }
  }

  // ---------------------------------------------------------------------
  // value_counts

  /** The sort key that puts larger counts first. */
  function CountDescending<T>(e: (T, nat)): int
  {
    -(e.1 as int)
  }

  /** `value_counts`: every distinct value with its count, largest counts first. */
  function ValueCounts<T(==)>(xs: seq<T>): seq<(T, nat)>
  {
    SortBy(Tally(xs), CountDescending)
  }

  /**
   * The value counts list each value of `xs` once, with its number of
   * occurrences, in non-increasing order of count, and add up to `|xs|`.
   */
  lemma ValueCountsFacts<T>(xs: seq<T>)
    ensures forall e :: e in ValueCounts(xs) <==> e.0 in xs && e.1 == multiset(xs)[e.0]
    ensures KeysDistinct(ValueCounts(xs))
    ensures forall i, j :: 0 <= i < j < |ValueCounts(xs)| ==> ValueCounts(xs)[i].1 >= ValueCounts(xs)[j].1
    ensures |ValueCounts(xs)| == |Distinct(xs)|
    ensures Total(ValueCounts(xs)) == |xs|
  {
    var vc := ValueCounts(xs);
    TallyMembers(xs);
    TallyKeys(xs);
    TallyTotal(xs);
    SortKeepsEntries(Tally(xs), CountDescending);
    forall e ensures e in vc <==> e in Tally(xs) {
      assert e in vc <==> multiset(vc)[e] > 0;
    }
    forall i, j | 0 <= i < j < |vc| ensures vc[i].1 >= vc[j].1 {
      assert CountDescending(vc[i]) <= CountDescending(vc[j]);
    }
    assert |vc| == |multiset(vc)|;
  }

  /** The first `n` entries, or all of them when there are fewer. */
  function Take<T>(es: seq<T>, n: nat): seq<T>
  {
    if |es| <= n then es else es[..n]
  }
}
