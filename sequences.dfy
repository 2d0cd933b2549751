/**
 * Sorting and summing helpers shared by the three analytics components.
 *
 * `SortBy` stands for `Array.prototype.sort` called with a numeric comparator
 * `(a, b) => key(a) - key(b)`: ascending by key, stable on ties.
 */
module Sequences {

  /** Elements appear in non-decreasing order of `key`. */
  predicate SortedBy<T>(s: seq<T>, key: T -> real) {
    forall i, j :: 0 <= i < j < |s| ==> key(s[i]) <= key(s[j])
  }

  /** Places `x` before the first element whose key is not smaller (so `x` precedes its equals). */
  function Insert<T(==)>(x: T, s: seq<T>, key: T -> real): (r: seq<T>)
    requires SortedBy(s, key)
    ensures SortedBy(r, key)
    ensures multiset(r) == multiset(s) + multiset{x}
    ensures |r| == |s| + 1
    ensures forall y :: y in r ==> y == x || y in s
  {
    if s == [] || key(x) <= key(s[0]) then [x] + s
    else
      var t := Insert(x, s[1..], key);
      LowerBound(t, s[1..], x, key, key(s[0]));
      assert s == [s[0]] + s[1..];
      [s[0]] + t
  }

  /** Every element of `t` is `x` or an element of `s`, and none of those has a key below `b`. */
  lemma LowerBound<T>(t: seq<T>, s: seq<T>, x: T, key: T -> real, b: real)
    requires forall y :: y in t ==> y == x || y in s
    requires forall k :: 0 <= k < |s| ==> b <= key(s[k])
    requires b <= key(x)
    ensures forall k :: 0 <= k < |t| ==> b <= key(t[k])
  {
    forall k | 0 <= k < |t| ensures b <= key(t[k]) {
      assert t[k] in t;
      if t[k] != x {
        var j :| 0 <= j < |s| && s[j] == t[k];
      }
    }
  }

  /** Stable insertion sort by `key`: a sorted permutation of `s`. */
  function SortBy<T(==)>(s: seq<T>, key: T -> real): (r: seq<T>)
    ensures SortedBy(r, key)
    ensures multiset(r) == multiset(s)
    ensures |r| == |s|
  {
    if s == [] then []
    else
      assert s == [s[0]] + s[1..];
      Insert(s[0], SortBy(s[1..], key), key)
  }

  /** Sorting what is already sorted changes nothing: sorting twice is sorting once. */
  lemma {:induction false} SortSorted<T>(s: seq<T>, key: T -> real)
    requires SortedBy(s, key)
    ensures SortBy(s, key) == s
  {
    if s != [] {
      SortSorted(s[1..], key);
      assert s == [s[0]] + s[1..];
    }
  }

  /** The elements whose key is `k`, in their order in `s`. */
  function WithKey<T>(s: seq<T>, key: T -> real, k: real): seq<T> {
    if s == [] then [] else (if key(s[0]) == k then [s[0]] else []) + WithKey(s[1..], key, k)
  }

  /** `Insert` puts `x` ahead of every element with the same key and keeps their order. */
  lemma {:induction false} InsertWithKey<T>(x: T, s: seq<T>, key: T -> real, k: real)
    requires SortedBy(s, key)
    ensures WithKey(Insert(x, s, key), key, k) == (if key(x) == k then [x] else []) + WithKey(s, key, k)
    decreases |s|
  {
    if s == [] || key(x) <= key(s[0]) {
      assert ([x] + s)[1..] == s;
    } else {
      var t := Insert(x, s[1..], key);
      InsertWithKey(x, s[1..], key, k);
      var r := [s[0]] + t;
      assert Insert(x, s, key) == r;
      assert r[0] == s[0] && r[1..] == t;
      if key(x) == k {
        // s[0]'s key is below x's, so s[0] is not among the elements of key `k`
        assert WithKey(r, key, k) == WithKey(t, key, k) == [x] + WithKey(s[1..], key, k);
        assert WithKey(s, key, k) == WithKey(s[1..], key, k);
      } else {
        var head := if key(s[0]) == k then [s[0]] else [];
        assert WithKey(r, key, k) == head + WithKey(t, key, k) == head + WithKey(s[1..], key, k);
        assert WithKey(s, key, k) == head + WithKey(s[1..], key, k);
      }
    }
  }

  /** The sort is stable: the elements of each key keep their relative order. */
  lemma {:induction false} SortByStable<T>(s: seq<T>, key: T -> real, k: real)
    ensures WithKey(SortBy(s, key), key, k) == WithKey(s, key, k)
    decreases |s|
  {
    if s != [] {
      SortByStable(s[1..], key, k);
      InsertWithKey(s[0], SortBy(s[1..], key), key, k);
    }
  }

  /** Sum of `f` over the elements (the source's `reduce((a, b) => a + b, 0)`). */
  function SumBy<T>(s: seq<T>, f: T -> real): real {
    if s == [] then 0.0 else SumBy(s[..|s| - 1], f) + f(s[|s| - 1])
  }

  /** Natural-number sum of `f` over the elements. */
  function CountBy<T>(s: seq<T>, f: T -> nat): nat {
    if s == [] then 0 else CountBy(s[..|s| - 1], f) + f(s[|s| - 1])
  }

  lemma {:induction false} SumByConcat<T>(a: seq<T>, b: seq<T>, f: T -> real)
    ensures SumBy(a + b, f) == SumBy(a, f) + SumBy(b, f)
  {
    if b == [] {
      assert a + b == a;
    } else {
      SumByConcat(a, b[..|b| - 1], f);
      assert (a + b)[..|a + b| - 1] == a + b[..|b| - 1];
    }
  }

  lemma {:induction false} CountByConcat<T>(a: seq<T>, b: seq<T>, f: T -> nat)
    ensures CountBy(a + b, f) == CountBy(a, f) + CountBy(b, f)
  {
    if b == [] {
      assert a + b == a;
    } else {
      CountByConcat(a, b[..|b| - 1], f);
      assert (a + b)[..|a + b| - 1] == a + b[..|b| - 1];
    }
  }

  lemma {:induction false} SumByCons<T>(x: T, s: seq<T>, f: T -> real)
    ensures SumBy([x] + s, f) == f(x) + SumBy(s, f)
    decreases |s|
  {
    if s != [] {
      assert ([x] + s)[..|s|] == [x] + s[..|s| - 1];
      SumByCons(x, s[..|s| - 1], f);
    }
  }

  lemma {:induction false} CountByCons<T>(x: T, s: seq<T>, f: T -> nat)
    ensures CountBy([x] + s, f) == f(x) + CountBy(s, f)
    decreases |s|
  {
    if s != [] {
      assert ([x] + s)[..|s|] == [x] + s[..|s| - 1];
      CountByCons(x, s[..|s| - 1], f);
    }
  }

  lemma {:induction false} SumByInsert<T>(x: T, s: seq<T>, key: T -> real, f: T -> real)
    requires SortedBy(s, key)
    ensures SumBy(Insert(x, s, key), f) == f(x) + SumBy(s, f)
    decreases |s|
  {
    if s == [] || key(x) <= key(s[0]) {
      SumByCons(x, s, f);
    } else {
      SumByInsert(x, s[1..], key, f);
      SumByCons(s[0], Insert(x, s[1..], key), f);
      SumByCons(s[0], s[1..], f);
      assert [s[0]] + s[1..] == s;
    }
  }

  lemma {:induction false} CountByInsert<T>(x: T, s: seq<T>, key: T -> real, f: T -> nat)
    requires SortedBy(s, key)
    ensures CountBy(Insert(x, s, key), f) == f(x) + CountBy(s, f)
    decreases |s|
  {
    if s == [] || key(x) <= key(s[0]) {
      CountByCons(x, s, f);
    } else {
      CountByInsert(x, s[1..], key, f);
      CountByCons(s[0], Insert(x, s[1..], key), f);
      CountByCons(s[0], s[1..], f);
      assert [s[0]] + s[1..] == s;
    }
  }

  /** Sorting does not change a sum over the elements. */
  lemma {:induction false} SortBySum<T>(s: seq<T>, key: T -> real, f: T -> real)
    ensures SumBy(SortBy(s, key), f) == SumBy(s, f)
    decreases |s|
  {
    if s != [] {
      SortBySum(s[1..], key, f);
      SumByInsert(s[0], SortBy(s[1..], key), key, f);
      SumByCons(s[0], s[1..], f);
      assert [s[0]] + s[1..] == s;
    }
  }

  /** Sorting does not change a count over the elements. */
  lemma {:induction false} SortByCount<T>(s: seq<T>, key: T -> real, f: T -> nat)
    ensures CountBy(SortBy(s, key), f) == CountBy(s, f)
    decreases |s|
  {
    if s != [] {
      SortByCount(s[1..], key, f);
      CountByInsert(s[0], SortBy(s[1..], key), key, f);
      CountByCons(s[0], s[1..], f);
      assert [s[0]] + s[1..] == s;
    }
  }

  /** A sum of non-negative terms is non-negative. */
  lemma {:induction false} SumByNonNegative<T>(s: seq<T>, f: T -> real)
    requires forall i :: 0 <= i < |s| ==> f(s[i]) >= 0.0
    ensures SumBy(s, f) >= 0.0
    decreases |s|
  {
    if s != [] {
      SumByNonNegative(s[..|s| - 1], f);
    }
  }
}
