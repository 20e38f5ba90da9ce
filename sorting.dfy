/**
 * The `Sorted` extension on vectors (`src/ext/vec/sorted.rs`): `sorted`,
 * `sorted_by_key` and `sorted_dedup`. The standard library's stable sort is
 * modelled by an in-place insertion sort, which is stable too.
 */
module Sorting {

  /** Ascending by `key`. */
  ghost predicate SortedBy<T>(s: seq<T>, key: T -> int) {
    forall i, j :: 0 <= i < j < |s| ==> key(s[i]) <= key(s[j])
  }

  /** The elements of `s` whose key is `k`, in their order in `s`. */
  function WithKey<T>(s: seq<T>, key: T -> int, k: int): seq<T> {
    if |s| == 0 then []
    else WithKey(s[..|s| - 1], key, k) + (if key(s[|s| - 1]) == k then [s[|s| - 1]] else [])
  }

  /** Inserts `x` after every element of `s` whose key is not greater than its own. */
  function InsertByKey<T>(x: T, s: seq<T>, key: T -> int): (r: seq<T>)
    ensures |r| == |s| + 1
  {
    if |s| == 0 || key(s[|s| - 1]) <= key(x) then s + [x]
    else InsertByKey(x, s[..|s| - 1], key) + [s[|s| - 1]]
  }

  /** Insertion sort: each element in turn is inserted into the sorted prefix. */
  function SortByKeySpec<T>(s: seq<T>, key: T -> int): (r: seq<T>)
    ensures |r| == |s|
  {
    if |s| == 0 then [] else InsertByKey(s[|s| - 1], SortByKeySpec(s[..|s| - 1], key), key)
  }

  lemma {:induction false} InsertSorted<T>(x: T, s: seq<T>, key: T -> int)
    requires SortedBy(s, key)
    ensures SortedBy(InsertByKey(x, s, key), key)
    ensures forall i :: 0 <= i < |s| + 1 ==> key(InsertByKey(x, s, key)[i]) <= key(x) || InsertByKey(x, s, key)[i] in s
    decreases |s|
  {
    if |s| > 0 && key(s[|s| - 1]) > key(x) {
      var front := s[..|s| - 1];
      InsertSorted(x, front, key);
      var r := InsertByKey(x, front, key);
      forall i | 0 <= i < |r|
        ensures key(r[i]) <= key(s[|s| - 1])
      {
        if r[i] in front {
          var k :| 0 <= k < |front| && front[k] == r[i];
        }
      }
      forall i | 0 <= i < |r|
        ensures key(r[i]) <= key(x) || r[i] in s
      {
        if r[i] in front {
          assert front[..] <= s;
          var k :| 0 <= k < |front| && front[k] == r[i];
          assert s[k] == r[i];
        }
      }
    }
  }

  lemma {:induction false} InsertMultiset<T>(x: T, s: seq<T>, key: T -> int)
    ensures multiset(InsertByKey(x, s, key)) == multiset(s) + multiset{x}
    decreases |s|
  {
    if |s| > 0 && key(s[|s| - 1]) > key(x) {
      var front := s[..|s| - 1];
      InsertMultiset(x, front, key);
      assert s == front + [s[|s| - 1]];
    }
  }

  lemma {:induction false} WithKeyAppend<T>(s: seq<T>, y: T, key: T -> int, k: int)
    ensures WithKey(s + [y], key, k) == WithKey(s, key, k) + (if key(y) == k then [y] else [])
  {
    assert (s + [y])[..|s + [y]| - 1] == s;
  }

  /** Inserting `x` adds it at the end of its own key's elements: that is stability. */
  lemma {:induction false} InsertStable<T>(x: T, s: seq<T>, key: T -> int, k: int)
    ensures WithKey(InsertByKey(x, s, key), key, k) == WithKey(s, key, k) + (if key(x) == k then [x] else [])
    decreases |s|
  {
    if |s| == 0 || key(s[|s| - 1]) <= key(x) {
      WithKeyAppend(s, x, key, k);
    } else {
      var front := s[..|s| - 1];
      var last := s[|s| - 1];
      InsertStable(x, front, key, k);
      WithKeyAppend(InsertByKey(x, front, key), last, key, k);
      assert s == front + [last];
      WithKeyAppend(front, last, key, k);
    }
  }

  /** The sort orders by key, keeps the elements, and keeps the order among equal keys. */
  lemma {:induction false} SortByKeySpecCorrect<T>(s: seq<T>, key: T -> int)
    ensures SortedBy(SortByKeySpec(s, key), key)
    ensures multiset(SortByKeySpec(s, key)) == multiset(s)
    ensures forall k :: WithKey(SortByKeySpec(s, key), key, k) == WithKey(s, key, k)
    decreases |s|
  {
    if |s| > 0 {
      var front := s[..|s| - 1];
      var last := s[|s| - 1];
      SortByKeySpecCorrect(front, key);
      InsertSorted(last, SortByKeySpec(front, key), key);
      InsertMultiset(last, SortByKeySpec(front, key), key);
      assert s == front + [last];
      forall k
        ensures WithKey(SortByKeySpec(s, key), key, k) == WithKey(s, key, k)
      {
        InsertStable(last, SortByKeySpec(front, key), key, k);
        WithKeyAppend(front, last, key, k);
      }
    }
  }

  /** `x` goes right after the last element of `s` whose key is not greater than its own. */
  lemma {:induction false} InsertAt<T>(x: T, s: seq<T>, j: int, key: T -> int)
    requires 0 <= j <= |s|
    requires j == 0 || key(s[j - 1]) <= key(x)
    requires forall k :: j <= k < |s| ==> key(s[k]) > key(x)
    ensures InsertByKey(x, s, key) == s[..j] + [x] + s[j..]
    decreases |s|
  {
    if j < |s| {
      var front := s[..|s| - 1];
      InsertAt(x, front, j, key);
      assert front[..j] == s[..j];
      assert s[j..] == front[j..] + [s[|s| - 1]];
    } else {
      assert s[..j] == s;
    }
  }

  /**
   * The loop of the insertion: shifts right by one the elements of `a[..i]`
   * at the end whose key is greater than `key(x)`, and returns the gap left.
   */
  method ShiftGap<T>(a: array<T>, i: int, x: T, key: T -> int) returns (j: int)
    requires 0 <= i < a.Length
    modifies a
    ensures 0 <= j <= i
    ensures forall k :: 0 <= k < j ==> a[k] == old(a[k])
    ensures forall k :: j < k <= i ==> a[k] == old(a[k - 1])
    ensures forall k :: i < k < a.Length ==> a[k] == old(a[k])
    ensures j == 0 || key(old(a[j - 1])) <= key(x)
    ensures forall k :: j <= k < i ==> key(old(a[k])) > key(x)
  {
    j := i;
    while j > 0 && key(a[j - 1]) > key(x)
      invariant 0 <= j <= i
      invariant forall k :: 0 <= k < j ==> a[k] == old(a[k])
      invariant forall k :: j < k <= i ==> a[k] == old(a[k - 1])
      invariant forall k :: i < k < a.Length ==> a[k] == old(a[k])
      invariant forall k :: j <= k < i ==> key(old(a[k])) > key(x)
    {
      a[j] := a[j - 1];
      j := j - 1;
    }
  }

  /** Shifts the larger-keyed tail of the sorted prefix `a[..i]` right and drops `a[i]` into the gap. */
  method InsertInto<T>(a: array<T>, i: int, key: T -> int)
    requires 0 <= i < a.Length
    modifies a
    ensures a[..i + 1] == InsertByKey(old(a[i]), old(a[..i]), key)
    ensures a[i + 1..] == old(a[i + 1..])
  {
    var x := a[i];
    ghost var s := a[..i];
    var j := ShiftGap(a, i, x, key);
    InsertAt(x, s, j, key);
    a[j] := x;
    ghost var r := s[..j] + [x] + s[j..];
    forall k | 0 <= k <= i
      ensures a[k] == r[k]
    {
      if k < j {
        assert r[k] == s[k];
      } else if k > j {
        assert r[k] == s[k - 1];
      }
    }
    assert a[..i + 1] == r;
  }

  /** Sorts `a` in place by `key`, stably, by insertion. */
  method SortByKey<T>(a: array<T>, key: T -> int)
    modifies a
    ensures a[..] == SortByKeySpec(old(a[..]), key)
  {
    ghost var orig := a[..];
    for i := 0 to a.Length
      invariant a[..i] == SortByKeySpec(orig[..i], key)
      invariant a[i..] == orig[i..]
    {
      InsertInto(a, i, key);
      assert orig[..i + 1][..i] == orig[..i];
    }
    assert orig[..a.Length] == orig;
  }

  predicate Ascending(s: seq<int>) {
    forall i, j :: 0 <= i < j < |s| ==> s[i] <= s[j]
  }

  predicate StrictlyAscending(s: seq<int>) {
    forall i, j :: 0 <= i < j < |s| ==> s[i] < s[j]
  }

  function Identity(x: int): int { x }

  /** `sorted`: an ascending permutation of `v`. */
  method Sorted(v: seq<int>) returns (r: seq<int>)
    ensures |r| == |v| && Ascending(r) && multiset(r) == multiset(v)
  {
    var a := new int[|v|](i requires 0 <= i < |v| => v[i]);
    assert a[..] == v;
    SortByKey(a, Identity);
    r := a[..];
    SortByKeySpecCorrect(v, Identity);
  }

  /** `sorted_by_key`: a permutation ordered by key, stable among equal keys. */
  method SortedByKey<T>(v: seq<T>, key: T -> int) returns (r: seq<T>)
    ensures |r| == |v| && SortedBy(r, key) && multiset(r) == multiset(v)
    ensures forall k :: WithKey(r, key, k) == WithKey(v, key, k)
  {
    if |v| == 0 {
      return [];
    }
    var a := new T[|v|](i requires 0 <= i < |v| => v[i]);
    assert a[..] == v;
    SortByKey(a, key);
    r := a[..];
    SortByKeySpecCorrect(v, key);
  }

  /** `Vec::dedup` on a sorted vector: keeps the first of every run of equal values. */
  method Dedup(s: seq<int>) returns (r: seq<int>)
    requires Ascending(s)
    ensures StrictlyAscending(r)
    ensures forall x :: x in r <==> x in s
  {
    r := [];
    for i := 0 to |s|
      invariant StrictlyAscending(r)
      invariant forall x :: x in r <==> x in s[..i]
      invariant i > 0 ==> |r| > 0 && r[|r| - 1] == s[i - 1]
      invariant i == 0 ==> r == []
    {
      assert s[..i + 1] == s[..i] + [s[i]];
      if i == 0 || s[i] != s[i - 1] {
        if i > 0 {
          assert s[i - 1] < s[i];
          assert forall k :: 0 <= k < |r| ==> r[k] <= r[|r| - 1];
        }
        assert forall k :: 0 <= k < |r| ==> r[k] < s[i];
        r := r + [s[i]];
      }
    }
    assert s[..|s|] == s;
  }

  /** A strictly ascending sequence has as many distinct values as elements. */
  lemma {:induction false} DistinctCount(r: seq<int>)
    requires StrictlyAscending(r)
    ensures |set x | x in r| == |r|
  {
    if |r| > 0 {
      var front := r[..|r| - 1];
      DistinctCount(front);
      assert (set x | x in r) == (set x | x in front) + {r[|r| - 1]};
      assert r[|r| - 1] !in (set x | x in front);
    }
  }

  /**
   * `sorted_dedup`: strictly ascending, with exactly the values of `v`, so
   * its length is the number of distinct values.
   */
  method SortedDedup(v: seq<int>) returns (r: seq<int>)
    ensures StrictlyAscending(r)
    ensures forall x :: x in r <==> x in v
    ensures |r| == |set x | x in v|
  {
    var s := Sorted(v);
    assert forall x :: x in s <==> x in multiset(s);
    r := Dedup(s);
    DistinctCount(r);
    assert (set x | x in r) == (set x | x in v);
  }
}
