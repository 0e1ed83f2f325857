/**
 * Sorting records by a score, highest first. `SortDesc` is a stable insertion
 * sort: Python's `sorted(..., reverse=True)` keeps equal keys in input order,
 * and for the pandas `sort_values` calls it is one admissible tie order.
 */
module Ranking {
  import opened Seqs

  /** Scores never increase from one position to any later one. */
  predicate Descending<T>(s: seq<T>, key: T -> real) {
    forall i, j :: 0 <= i < j < |s| ==> key(s[i]) >= key(s[j])
  }

  predicate NonIncreasing(s: seq<real>) {
    forall i, j :: 0 <= i < j < |s| ==> s[i] >= s[j]
  }

  /** Places `x` before the first element whose key does not exceed its own. */
  function InsertDesc<T>(x: T, s: seq<T>, key: T -> real): (r: seq<T>)
    ensures multiset(r) == multiset{x} + multiset(s)
    ensures |r| == |s| + 1
  {
    if s == [] || key(s[0]) <= key(x) then [x] + s
    else
      assert s == [s[0]] + s[1..];
      [s[0]] + InsertDesc(x, s[1..], key)
  }

  /** Inserting a key no larger than `m` among keys no larger than `m` keeps every key below `m`. */
  lemma InsertDescBounded<T>(x: T, s: seq<T>, key: T -> real, m: real)
    requires key(x) <= m
    requires forall k :: 0 <= k < |s| ==> key(s[k]) <= m
    ensures forall k :: 0 <= k < |InsertDesc(x, s, key)| ==> key(InsertDesc(x, s, key)[k]) <= m
  {
    var r := InsertDesc(x, s, key);
    forall k | 0 <= k < |r|
      ensures key(r[k]) <= m
    {
      assert r[k] in multiset(r);
      if r[k] != x {
        assert r[k] in multiset(s);
        var q :| 0 <= q < |s| && s[q] == r[k];
      }
    }
  }

  /** Inserting into a descending sequence keeps it descending. */
  lemma {:induction false} InsertDescSorted<T>(x: T, s: seq<T>, key: T -> real)
    requires Descending(s, key)
    ensures Descending(InsertDesc(x, s, key), key)
    decreases |s|
  {
    if s == [] || key(s[0]) <= key(x) {
      var t := [x] + s;
      assert InsertDesc(x, s, key) == t;
      forall i, j | 0 <= i < j < |t|
        ensures key(t[i]) >= key(t[j])
      {
        assert t[j] == s[j - 1];
        if i > 0 {
          assert t[i] == s[i - 1];
        } else {
          assert key(s[0]) >= key(s[j - 1]);
        }
      }
    } else {
      var tail := s[1..];
      assert Descending(tail, key) by {
        forall i, j | 0 <= i < j < |tail|
          ensures key(tail[i]) >= key(tail[j])
        {
          assert tail[i] == s[i + 1] && tail[j] == s[j + 1];
        }
      }
      var r := InsertDesc(x, tail, key);
      InsertDescSorted(x, tail, key);
      assert forall k :: 0 <= k < |tail| ==> key(tail[k]) <= key(s[0]) by {
        forall k | 0 <= k < |tail|
          ensures key(tail[k]) <= key(s[0])
        {
          assert tail[k] == s[k + 1];
        }
      }
      InsertDescBounded(x, tail, key, key(s[0]));
      var t := [s[0]] + r;
      assert InsertDesc(x, s, key) == t;
      forall i, j | 0 <= i < j < |t|
        ensures key(t[i]) >= key(t[j])
      {
        assert t[j] == r[j - 1];
        if i > 0 {
          assert t[i] == r[i - 1];
        }
      }
    }
  }

  /** `s` ordered by `key`, highest first. */
  function SortDesc<T>(s: seq<T>, key: T -> real): (r: seq<T>)
    ensures multiset(r) == multiset(s)
    ensures |r| == |s|
    ensures Descending(r, key)
  {
    if s == [] then []
    else
      assert s == [s[0]] + s[1..];
      InsertDescSorted(s[0], SortDesc(s[1..], key), key);
      InsertDesc(s[0], SortDesc(s[1..], key), key)
  }

  /** The elements of `s` whose key equals `k`, in their order in `s`. */
  function WithKey<T>(s: seq<T>, key: T -> real, k: real): (r: seq<T>)
    ensures |r| <= |s|
  {
    if s == [] then []
    else (if key(s[0]) == k then [s[0]] else []) + WithKey(s[1..], key, k)
  }

  lemma WithKeyCons<T>(y: T, t: seq<T>, key: T -> real, k: real)
    ensures WithKey([y] + t, key, k) == (if key(y) == k then [y] else []) + WithKey(t, key, k)
  {
    assert ([y] + t)[1..] == t;
  }

  lemma {:induction false} InsertDescStable<T>(x: T, s: seq<T>, key: T -> real, k: real)
    ensures WithKey(InsertDesc(x, s, key), key, k) == WithKey([x] + s, key, k)
    decreases |s|
  {
    if s != [] && key(s[0]) > key(x) {
      var r := InsertDesc(x, s[1..], key);
      var fx := if key(x) == k then [x] else [];
      var f0 := if key(s[0]) == k then [s[0]] else [];
      var w := WithKey(s[1..], key, k);
      assert WithKey(InsertDesc(x, s, key), key, k) == f0 + (fx + w) by {
        assert InsertDesc(x, s, key) == [s[0]] + r;
        WithKeyCons(s[0], r, key, k);
        InsertDescStable(x, s[1..], key, k);
        WithKeyCons(x, s[1..], key, k);
      }
      assert WithKey([x] + s, key, k) == fx + (f0 + w) by {
        WithKeyCons(x, s, key, k);
        assert s == [s[0]] + s[1..];
        WithKeyCons(s[0], s[1..], key, k);
      }
      if fx == [] {
        assert fx + (f0 + w) == f0 + w == f0 + (fx + w);
      } else {
        assert f0 == [];
        assert f0 + (fx + w) == fx + w == fx + (f0 + w);
      }
    }
  }

  /** Elements with equal keys leave the sort in the order they entered it. */
  lemma {:induction false} SortDescStable<T>(s: seq<T>, key: T -> real, k: real)
    ensures WithKey(SortDesc(s, key), key, k) == WithKey(s, key, k)
    decreases |s|
  {
    if s != [] {
      SortDescStable(s[1..], key, k);
      InsertDescStable(s[0], SortDesc(s[1..], key), key, k);
      assert ([s[0]] + SortDesc(s[1..], key))[1..] == SortDesc(s[1..], key);
    }
  }

  lemma NonIncreasingTail(a: seq<real>)
    requires a != [] && NonIncreasing(a)
    ensures NonIncreasing(a[1..])
  {
    var t := a[1..];
    forall i, j | 0 <= i < j < |t|
      ensures t[i] >= t[j]
    {
      assert t[i] == a[i + 1] && t[j] == a[j + 1];
    }
  }

  lemma MultisetTail(a: seq<real>)
    requires a != []
    ensures multiset(a[1..]) == multiset(a) - multiset{a[0]}
  {
    assert a == [a[0]] + a[1..];
  }

  /** Two non-increasing arrangements of the same numbers start with the same (largest) one. */
  lemma HeadsEqual(a: seq<real>, b: seq<real>)
    requires a != [] && b != [] && multiset(a) == multiset(b)
    requires NonIncreasing(a) && NonIncreasing(b)
    ensures a[0] == b[0]
  {
    assert a[0] in multiset(b) && b[0] in multiset(a);
    var j :| 0 <= j < |b| && b[j] == a[0];
    var k :| 0 <= k < |a| && a[k] == b[0];
    assert a[0] >= a[k] && b[0] >= b[j];
  }

  /** Two non-increasing arrangements of the same numbers are the same sequence. */
  lemma {:induction false} NonIncreasingUnique(a: seq<real>, b: seq<real>)
    requires multiset(a) == multiset(b)
    requires NonIncreasing(a) && NonIncreasing(b)
    ensures a == b
    decreases |a|
  {
    assert |a| == |multiset(a)| == |multiset(b)| == |b|;
    if a != [] {
      HeadsEqual(a, b);
      NonIncreasingTail(a);
      NonIncreasingTail(b);
      MultisetTail(a);
      MultisetTail(b);
      NonIncreasingUnique(a[1..], b[1..]);
      assert a == [a[0]] + a[1..] && b == [b[0]] + b[1..];
    }
  }

  /**
   * Whatever order ties are put in, every descending arrangement of the same
   * records has the same key at every position.
   */
  lemma SortedKeysUnique<T>(a: seq<T>, b: seq<T>, key: T -> real)
    requires multiset(a) == multiset(b)
    requires Descending(a, key) && Descending(b, key)
    ensures Map(a, key) == Map(b, key)
  {
    MapMultiset(a, b, key);
    NonIncreasingUnique(Map(a, key), Map(b, key));
  }

  /** The first element of a non-empty descending sequence carries the largest key. */
  lemma DescendingHeadIsMax<T>(s: seq<T>, key: T -> real)
    requires Descending(s, key) && s != []
    ensures forall x :: x in s ==> key(x) <= key(s[0])
  {
  }
}
