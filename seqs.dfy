/** Generic sequence operations behind the store's queries: filtering by a predicate
    (`query.filter(...)`) and ordering by an integer key (`query.order_by(...)`). */
module Seqs {

  /** No element occurs twice. */
  ghost predicate Distinct<T>(xs: seq<T>)
  {
    forall i, j :: 0 <= i < j < |xs| ==> xs[i] != xs[j]
  }

  /** Elements are in non-decreasing order of `key`. */
  ghost predicate SortedBy<T>(xs: seq<T>, key: T -> int)
  {
    forall i, j :: 0 <= i < j < |xs| ==> key(xs[i]) <= key(xs[j])
  }

  /** The elements of `xs` that satisfy `p`, in their original order. */
  function Filter<T(==,!new)>(xs: seq<T>, p: T -> bool): (r: seq<T>)
    ensures forall x :: x in r <==> x in xs && p(x)
    ensures |r| <= |xs|
  {
    if xs == [] then []
    else (if p(xs[0]) then [xs[0]] else []) + Filter(xs[1..], p)
  }

  /** Filtering keeps each satisfying element as often as it occurs and drops the rest. */
  lemma {:induction false} FilterMultiset<T(!new)>(xs: seq<T>, p: T -> bool)
    ensures forall x :: multiset(Filter(xs, p))[x] == if p(x) then multiset(xs)[x] else 0
  {
    if xs != [] {
      FilterMultiset(xs[1..], p);
      assert xs == [xs[0]] + xs[1..];
    }
  }

  /** Places `x` into the sorted `ys`, before the first element whose key is not smaller. */
  function Insert<T(==)>(x: T, ys: seq<T>, key: T -> int): (r: seq<T>)
    requires SortedBy(ys, key)
    ensures multiset(r) == multiset(ys) + multiset{x}
    ensures SortedBy(r, key)
  {
    if ys == [] || key(x) <= key(ys[0]) then
      SortedCons(x, ys, key);
      [x] + ys
    else
      assert ys == [ys[0]] + ys[1..];
      var rest := Insert(x, ys[1..], key);
      LowerBound(ys[0], x, ys[1..], rest, key);
      SortedCons(ys[0], rest, key);
      [ys[0]] + rest
  }

  /** A sorted sequence stays sorted when an element no larger than all of it is put in front. */
  lemma SortedCons<T>(h: T, t: seq<T>, key: T -> int)
    requires SortedBy(t, key)
    requires forall z :: z in t ==> key(h) <= key(z)
    ensures SortedBy([h] + t, key)
  {
    var s := [h] + t;
    forall i, j | 0 <= i < j < |s| ensures key(s[i]) <= key(s[j]) {
      assert s[j] == t[j - 1];
      if i > 0 { assert s[i] == t[i - 1]; }
    }
  }

  /** Every element of a rearrangement of `t` plus `x` is at least `h` when `x` and all of
      the sorted `t`, which follows `h`, are. */
  lemma LowerBound<T>(h: T, x: T, t: seq<T>, rest: seq<T>, key: T -> int)
    requires SortedBy([h] + t, key) && key(h) < key(x)
    requires multiset(rest) == multiset(t) + multiset{x}
    ensures forall z :: z in rest ==> key(h) <= key(z)
  {
    forall z | z in rest ensures key(h) <= key(z) {
      assert z in multiset(rest);
      if z != x {
        assert ([h] + t)[0] == h;
        assert z in multiset(t);
        var k :| 0 <= k < |t| && t[k] == z;
        assert ([h] + t)[k + 1] == z;
      }
    }
  }

  /** `xs` ordered by `key` (insertion sort): a sorted permutation of `xs`. */
  function SortBy<T(==)>(xs: seq<T>, key: T -> int): (r: seq<T>)
    ensures SortedBy(r, key)
    ensures multiset(r) == multiset(xs)
  {
    if xs == [] then []
    else
      assert xs == [xs[0]] + xs[1..];
      Insert(xs[0], SortBy(xs[1..], key), key)
  }

  /** Filtering commutes with reordering: a permutation has a permuted filtrate, so in
      particular the same number of matches. */
  lemma FilterPermutation<T(!new)>(xs: seq<T>, ys: seq<T>, p: T -> bool)
    requires multiset(xs) == multiset(ys)
    ensures multiset(Filter(xs, p)) == multiset(Filter(ys, p))
    ensures |Filter(xs, p)| == |Filter(ys, p)|
  {
    var a, b := Filter(xs, p), Filter(ys, p);
    FilterMultiset(xs, p);
    FilterMultiset(ys, p);
    assert forall x :: multiset(a)[x] == multiset(b)[x];
    assert multiset(a) == multiset(b);
    assert |a| == |multiset(a)| == |multiset(b)| == |b|;
  }

  /** On a sequence without repetitions the number of matches is the number of distinct
      elements satisfying `p`, given here as any set `s` holding exactly those. */
  lemma {:induction false} FilterSize<T(!new)>(xs: seq<T>, p: T -> bool, s: set<T>)
    requires Distinct(xs)
    requires forall x :: x in s <==> x in xs && p(x)
    ensures |Filter(xs, p)| == |s|
  {
    if xs != [] {
      DistinctTail(xs);
      var rest := s - {xs[0]};
      forall x ensures x in rest <==> x in xs[1..] && p(x) {
        assert x in xs <==> x == xs[0] || x in xs[1..];
      }
      FilterSize(xs[1..], p, rest);
      if p(xs[0]) {
        assert s == rest + {xs[0]};
      } else {
        assert s == rest;
      }
    }
  }

  /** Filtering a sequence without repetitions gives one without repetitions. */
  lemma {:induction false} FilterDistinct<T(!new)>(xs: seq<T>, p: T -> bool)
    requires Distinct(xs)
    ensures Distinct(Filter(xs, p))
  {
    if xs != [] {
      DistinctTail(xs);
      FilterDistinct(xs[1..], p);
      var t := Filter(xs[1..], p);
      if p(xs[0]) {
        var r := [xs[0]] + t;
        forall i, j | 0 <= i < j < |r| ensures r[i] != r[j] {
          assert r[j] == t[j - 1] && r[j] in xs[1..];
          if i > 0 { assert r[i] == t[i - 1]; }
        }
      }
    }
  }

  /** A sequence without repetitions has as many elements as the set of its elements. */
  lemma {:induction false} DistinctSize<T>(xs: seq<T>, s: set<T>)
    requires Distinct(xs)
    requires forall x :: x in s <==> x in xs
    ensures |s| == |xs|
  {
    if xs != [] {
      DistinctTail(xs);
      var rest := s - {xs[0]};
      forall x ensures x in rest <==> x in xs[1..] {
        assert x in xs <==> x == xs[0] || x in xs[1..];
      }
      DistinctSize(xs[1..], rest);
      assert s == rest + {xs[0]};
    }
  }

  /** The tail of a sequence without repetitions has none and lacks the head. */
  lemma DistinctTail<T>(xs: seq<T>)
    requires Distinct(xs) && xs != []
    ensures Distinct(xs[1..]) && xs[0] !in xs[1..]
  {
    var t := xs[1..];
    forall i | 0 <= i < |t| ensures t[i] != xs[0] {
      assert t[i] == xs[i + 1];
    }
  }

  /** A window of a sorted sequence is sorted. */
  lemma SortedSlice<T>(xs: seq<T>, key: T -> int, lo: nat, hi: nat)
    requires SortedBy(xs, key) && lo <= hi <= |xs|
    ensures SortedBy(xs[lo..hi], key)
  {
  }
}
