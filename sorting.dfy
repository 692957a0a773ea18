/**
 * `Array.prototype.sort` with a comparator `(a, b) => key(b) - key(a)`: a stable sort into
 * non-increasing key order. A stable sort has exactly one possible result, so this insertion sort
 * stands for whatever algorithm the engine uses.
 */
module Sorting {
  import opened Seqs

  predicate SortedDesc<T>(s: seq<T>, key: T -> real)
  {
    forall i, j :: 0 <= i < j < |s| ==> key(s[i]) >= key(s[j])
  }

  /** Puts `x` in front of the first element whose key is not larger than its own. */
  function Insert<T>(x: T, s: seq<T>, key: T -> real): (r: seq<T>)
    ensures multiset(r) == multiset(s) + multiset{x}
    ensures |r| == |s| + 1
  {
    if s == [] || key(x) >= key(s[0]) then [x] + s
    else assert s == [s[0]] + s[1..]; [s[0]] + Insert(x, s[1..], key)
  }

  lemma {:induction false} InsertSorted<T>(x: T, s: seq<T>, key: T -> real)
    requires SortedDesc(s, key)
    ensures SortedDesc(Insert(x, s, key), key)
  {
    if s != [] && key(x) < key(s[0]) {
      var t := Insert(x, s[1..], key);
      InsertSorted(x, s[1..], key);
      forall k | 0 <= k < |t| ensures key(t[k]) <= key(s[0]) {
        assert t[k] in multiset(t);
        if t[k] != x {
          assert t[k] in multiset(s[1..]);
          var m :| 0 <= m < |s[1..]| && s[1..][m] == t[k];
          assert s[m + 1] == t[k];
        }
      }
    }
  }

  /** The stable sort into non-increasing key order. */
  function SortDesc<T>(s: seq<T>, key: T -> real): (r: seq<T>)
    ensures multiset(r) == multiset(s)
    ensures |r| == |s|
  {
    if s == [] then []
    else assert s == [s[0]] + s[1..]; Insert(s[0], SortDesc(s[1..], key), key)
  }

  /** The sort puts the keys in non-increasing order. */
  lemma {:induction false} SortDescSorted<T>(s: seq<T>, key: T -> real)
    ensures SortedDesc(SortDesc(s, key), key)
  {
    if s != [] {
      SortDescSorted(s[1..], key);
      InsertSorted(s[0], SortDesc(s[1..], key), key);
    }
  }

  /** The elements of `s` whose key is `k`, in their order. */
  function WithKey<T>(s: seq<T>, key: T -> real, k: real): seq<T>
  {
    if s == [] then [] else (if key(s[0]) == k then [s[0]] else []) + WithKey(s[1..], key, k)
  }

  /** `WithKey` of a sequence with a first element. */
  lemma WithKeyCons<T>(y: T, s: seq<T>, key: T -> real, k: real)
    ensures WithKey([y] + s, key, k) == (if key(y) == k then [y] else []) + WithKey(s, key, k)
  {
    assert ([y] + s)[1..] == s;
  }

  lemma {:induction false} InsertWithKey<T>(x: T, s: seq<T>, key: T -> real, k: real)
    ensures WithKey(Insert(x, s, key), key, k)
         == (if key(x) == k then [x] else []) + WithKey(s, key, k)
  {
    if s != [] && key(x) < key(s[0]) {
      var y, t := s[0], s[1..];
      var r := Insert(x, t, key);
      assert Insert(x, s, key) == [y] + r;
      InsertWithKey(x, t, key, k);
      WithKeyCons(y, r, key, k);
      if key(y) == k {
        assert key(x) != k;
        assert WithKey(r, key, k) == WithKey(t, key, k);
        assert WithKey(s, key, k) == [y] + WithKey(t, key, k);
        assert WithKey(Insert(x, s, key), key, k) == [y] + WithKey(t, key, k);
      } else {
        assert WithKey(s, key, k) == WithKey(t, key, k);
        assert WithKey(Insert(x, s, key), key, k) == WithKey(r, key, k);
      }
    } else {
      assert Insert(x, s, key) == [x] + s;
      WithKeyCons(x, s, key, k);
    }
  }

  /** Stability: among elements with equal keys the sort keeps the input order. */
  lemma {:induction false} SortDescStable<T>(s: seq<T>, key: T -> real, k: real)
    ensures WithKey(SortDesc(s, key), key, k) == WithKey(s, key, k)
  {
    if s != [] {
      SortDescStable(s[1..], key, k);
      InsertWithKey(s[0], SortDesc(s[1..], key), key, k);
    }
  }

  /** When every key is the same the sort changes nothing. */
  lemma {:induction false} SortDescConstantKey<T>(s: seq<T>, key: T -> real, k: real)
    requires forall x :: x in s ==> key(x) == k
    ensures SortDesc(s, key) == s
  {
    if s != [] {
      SortDescConstantKey(s[1..], key, k);
      assert s == [s[0]] + s[1..];
    }
  }

  /**
   * Taking the first `n` of a sorted sequence keeps the `n` largest keys: no element left out
   * has a larger key than one kept.
   */
  lemma TakeOfSortedKeepsLargest<T>(s: seq<T>, key: T -> real, n: nat)
    requires SortedDesc(s, key)
    ensures SortedDesc(Take(s, n), key)
    ensures forall i, j :: 0 <= i < |Take(s, n)| <= j < |s| ==> key(s[j]) <= key(Take(s, n)[i])
  {
  }
}
