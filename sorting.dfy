/** `Array.prototype.sort` with a comparator of the form
    `(a, b) => Math.sign(key(a) - key(b))`. Since ECMAScript 2019 this sort is
    stable, so whatever algorithm an engine uses, its result is the one stable
    sort by `key`; SortBy defines that result as an insertion sort, and
    SortInPlace computes it on an array. */
module Sorting {

  /** Non-decreasing by `key`. */
  predicate SortedBy<T>(s: seq<T>, key: T -> int) {
    forall i, j :: 0 <= i < j < |s| ==> key(s[i]) <= key(s[j])
  }

  /** The elements whose key is `k`, in their order in `s`. */
  function WithKey<T>(s: seq<T>, key: T -> int, k: int): seq<T> {
    if s == [] then []
    else WithKey(s[..|s| - 1], key, k) + (if key(s[|s| - 1]) == k then [s[|s| - 1]] else [])
  }

  /** Inserts `x` after every trailing element whose key is greater than `key(x)`
      has been passed, scanning from the right: the inner loop of an insertion sort. */
  function InsertBy<T>(s: seq<T>, x: T, key: T -> int): (r: seq<T>)
    ensures |r| == |s| + 1
  {
    if s == [] then [x]
    else if key(s[|s| - 1]) > key(x) then InsertBy(s[..|s| - 1], x, key) + [s[|s| - 1]]
    else s + [x]
  }

  /** The stable sort of `s` by `key`. */
  function SortBy<T>(s: seq<T>, key: T -> int): (r: seq<T>)
    ensures |r| == |s|
  {
    if s == [] then [] else InsertBy(SortBy(s[..|s| - 1], key), s[|s| - 1], key)
  }

  lemma {:induction false} InsertByMultiset<T>(s: seq<T>, x: T, key: T -> int)
    ensures multiset(InsertBy(s, x, key)) == multiset(s) + multiset{x}
  {
    if s != [] && key(s[|s| - 1]) > key(x) {
      InsertByMultiset(s[..|s| - 1], x, key);
      assert s == s[..|s| - 1] + [s[|s| - 1]];
    }
  }

  /** Every key of `InsertBy(s, x, key)` is at most a bound of the keys of `s` and `x`. */
  lemma {:induction false} InsertByBounded<T>(s: seq<T>, x: T, key: T -> int, m: int)
    requires key(x) <= m && forall i :: 0 <= i < |s| ==> key(s[i]) <= m
    ensures forall i :: 0 <= i < |s| + 1 ==> key(InsertBy(s, x, key)[i]) <= m
  {
    if s != [] && key(s[|s| - 1]) > key(x) {
      var p := s[..|s| - 1];
      InsertByBounded(p, x, key, m);
      var r := InsertBy(p, x, key);
      assert InsertBy(s, x, key) == r + [s[|s| - 1]];
    }
  }

  lemma {:induction false} InsertBySorted<T>(s: seq<T>, x: T, key: T -> int)
    requires SortedBy(s, key)
    ensures SortedBy(InsertBy(s, x, key), key)
  {
    if s != [] && key(s[|s| - 1]) > key(x) {
      var p, last := s[..|s| - 1], s[|s| - 1];
      InsertBySorted(p, x, key);
      InsertByBounded(p, x, key, key(last));
      var r := InsertBy(p, x, key);
      assert InsertBy(s, x, key) == r + [last];
    }
  }

  /** The sort is a permutation. */
  lemma {:induction false} SortByPermutation<T>(s: seq<T>, key: T -> int)
    ensures multiset(SortBy(s, key)) == multiset(s)
  {
    if s != [] {
      SortByPermutation(s[..|s| - 1], key);
      InsertByMultiset(SortBy(s[..|s| - 1], key), s[|s| - 1], key);
      assert s == s[..|s| - 1] + [s[|s| - 1]];
    }
  }

  /** The sort is ordered by key. */
  lemma {:induction false} SortBySorted<T>(s: seq<T>, key: T -> int)
    ensures SortedBy(SortBy(s, key), key)
  {
    if s != [] {
      SortBySorted(s[..|s| - 1], key);
      InsertBySorted(SortBy(s[..|s| - 1], key), s[|s| - 1], key);
    }
  }

  lemma {:induction false} WithKeyConcat<T>(a: seq<T>, b: seq<T>, key: T -> int, k: int)
    ensures WithKey(a + b, key, k) == WithKey(a, key, k) + WithKey(b, key, k)
    decreases |b|
  {
    if b == [] {
      assert a + b == a;
    } else {
      var b' := b[..|b| - 1];
      assert (a + b)[..|a + b| - 1] == a + b';
      WithKeyConcat(a, b', key, k);
    }
  }

  lemma WithKeySingle<T>(x: T, key: T -> int, k: int)
    ensures WithKey([x], key, k) == if key(x) == k then [x] else []
  {
    assert [x][..0] == [];
  }

  lemma {:induction false} InsertByWithKey<T>(s: seq<T>, x: T, key: T -> int, k: int)
    ensures WithKey(InsertBy(s, x, key), key, k)
         == WithKey(s, key, k) + (if key(x) == k then [x] else [])
  {
    WithKeySingle(x, key, k);
    if s != [] {
      var p, last := s[..|s| - 1], s[|s| - 1];
      if key(last) > key(x) {
        InsertByWithKey(p, x, key, k);
        WithKeyConcat(InsertBy(p, x, key), [last], key, k);
        WithKeySingle(last, key, k);
      } else {
        WithKeyConcat(s, [x], key, k);
      }
    }
  }

  /** Stability: for every key, the elements with that key keep their input order. */
  lemma {:induction false} SortByStable<T>(s: seq<T>, key: T -> int, k: int)
    ensures WithKey(SortBy(s, key), key, k) == WithKey(s, key, k)
  {
    if s != [] {
      SortByStable(s[..|s| - 1], key, k);
      InsertByWithKey(SortBy(s[..|s| - 1], key), s[|s| - 1], key, k);
    }
  }

  /** One shift of the inner loop: passing an element with a larger key. */
  lemma InsertByShift<T>(p: seq<T>, x: T, key: T -> int, j: nat)
    requires 0 < j <= |p| && key(p[j - 1]) > key(x)
    requires InsertBy(p, x, key) == InsertBy(p[..j], x, key) + p[j..]
    ensures InsertBy(p, x, key) == InsertBy(p[..j - 1], x, key) + p[j - 1..]
  {
    SplitBefore(p, j);
    InsertByUnfold(p[..j], x, key);
    ConcatAssoc(InsertBy(p[..j - 1], x, key), [p[j - 1]], p[j..]);
  }

  lemma SplitBefore<T>(p: seq<T>, j: nat)
    requires 0 < j <= |p|
    ensures p[..j][..j - 1] == p[..j - 1] && p[..j][j - 1] == p[j - 1]
    ensures p[j - 1..] == [p[j - 1]] + p[j..]
  {
  }

  lemma InsertByUnfold<T>(q: seq<T>, x: T, key: T -> int)
    requires |q| > 0 && key(q[|q| - 1]) > key(x)
    ensures InsertBy(q, x, key) == InsertBy(q[..|q| - 1], x, key) + [q[|q| - 1]]
  {
  }

  lemma ConcatAssoc<T>(a: seq<T>, b: seq<T>, c: seq<T>)
    ensures (a + b) + c == a + (b + c)
  {
  }

  /** The inner loop stops: `x` goes right after the prefix it has reached. */
  lemma InsertByStop<T>(p: seq<T>, x: T, key: T -> int, j: nat)
    requires j <= |p| && (j == 0 || key(p[j - 1]) <= key(x))
    ensures InsertBy(p[..j], x, key) == p[..j] + [x]
  {
  }

  /** The inner loop of the insertion sort: moves `a[i]` left past the
      elements with a larger key. */
  method InsertInPlace<T>(a: array<T>, i: nat, key: T -> int)
    requires i < a.Length
    modifies a
    ensures a[..i + 1] == InsertBy(old(a[..i]), old(a[i]), key)
    ensures a[i + 1..] == old(a[i + 1..])
  {
    var x := a[i];
    ghost var p := a[..i];
    var j := i;
    assert p[..j] == p && p[j..] == [];
    while j > 0 && key(a[j - 1]) > key(x)
      invariant 0 <= j <= i
      invariant forall k :: 0 <= k < j ==> a[k] == p[k]
      invariant forall k :: j < k <= i ==> a[k] == p[k - 1]
      invariant a[i + 1..] == old(a[i + 1..])
      invariant InsertBy(p, x, key) == InsertBy(p[..j], x, key) + p[j..]
    {
      InsertByShift(p, x, key, j);
      a[j] := a[j - 1];
      j := j - 1;
    }
    a[j] := x;
    InsertByStop(p, x, key, j);
    Inserted(a, i, p, x, j);
  }

  /** An array whose first `i + 1` elements are `p[..j]`, then `x`, then the rest of `p`. */
  lemma Inserted<T>(a: array<T>, i: nat, p: seq<T>, x: T, j: nat)
    requires j <= i < a.Length && |p| == i
    requires forall k :: 0 <= k < j ==> a[k] == p[k]
    requires a[j] == x
    requires forall k :: j < k <= i ==> a[k] == p[k - 1]
    ensures a[..i + 1] == p[..j] + [x] + p[j..]
  {
  }

  /** Sorting an array in place, as `array.sort(comparator)` does. */
  method SortInPlace<T>(a: array<T>, key: T -> int)
    modifies a
    ensures a[..] == SortBy(old(a[..]), key)
  {
    ghost var orig := a[..];
    var i := 0;
    while i < a.Length
      invariant 0 <= i <= a.Length
      invariant a[..i] == SortBy(orig[..i], key)
      invariant a[i..] == orig[i..]
    {
      assert orig[..i + 1] == orig[..i] + [orig[i]];
      InsertInPlace(a, i, key);
      i := i + 1;
    }
    assert a[..] == a[..a.Length];
    assert orig == orig[..a.Length];
  }
}
