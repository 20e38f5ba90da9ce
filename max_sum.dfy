/** Kadane's maximum contiguous-subarray sum (`max_sum`, `max_sum_from_iter`). */
module MaxSum {
  import opened Arith

  function Sum(s: seq<int>): int
    decreases |s|
  {
    if |s| == 0 then 0 else Sum(s[..|s| - 1]) + s[|s| - 1]
  }

  /** `m` is the largest sum of a contiguous run of `a`, the empty run (sum 0) included. */
  ghost predicate IsMaxSubarraySum(a: seq<int>, m: int) {
    (forall i, j :: 0 <= i <= j <= |a| ==> Sum(a[i..j]) <= m) &&
    (exists i, j :: 0 <= i <= j <= |a| && Sum(a[i..j]) == m)
  }

  lemma SumExtend(a: seq<int>, i: int, k: int)
    requires 0 <= i <= k < |a|
    ensures Sum(a[i..k + 1]) == Sum(a[i..k]) + a[k]
  {
    assert a[i..k + 1][..k - i] == a[i..k];
  }

  /**
   * After `k` items: `current` is the best sum of a run ending at `k` (one
   * starting at `ci`), `maxSum` the best sum of any run so far (`[mi, mj)`).
   */
  ghost predicate KadaneInv(a: seq<int>, k: int, current: int, maxSum: int, ci: int, mi: int, mj: int) {
    0 <= k <= |a|
    && 0 <= ci <= k && (k > 0 ==> ci < k) && current == Sum(a[ci..k])
    && (forall i :: 0 <= i < k ==> Sum(a[i..k]) <= current)
    && 0 <= mi <= mj <= k && maxSum == Sum(a[mi..mj])
    && (forall i, j :: 0 <= i <= j <= k ==> Sum(a[i..j]) <= maxSum)
  }

  /** The best run ending after item `n - 1` either extends the best one ending before it or starts afresh. */
  lemma RunStep(a: seq<int>, k: int, n: int, current: int, ci: int) returns (ci2: int)
    requires n == k + 1 && 0 < n <= |a| && 0 <= ci < n && (k > 0 ==> ci < k) && current == Sum(a[ci..k])
    requires forall i :: 0 <= i < k ==> Sum(a[i..k]) <= current
    ensures 0 <= ci2 < n && Sum(a[ci2..n]) == Max(current, 0) + a[n - 1]
    ensures forall i :: 0 <= i < n ==> Sum(a[i..n]) <= Max(current, 0) + a[n - 1]
  {
    var next := Max(current, 0) + a[n - 1];
    forall i | 0 <= i < n
      ensures Sum(a[i..n]) <= next
    {
      RunBound(a, n, current, i);
    }
    ci2 := if current <= 0 then n - 1 else ci;
    SumExtend(a, ci2, n - 1);
    assert a[n - 1..n - 1] == [];
  }

  /** One run ending after item `n - 1`: it extends a run bounded by `current`, or is that item alone. */
  lemma RunBound(a: seq<int>, n: int, current: int, i: int)
    requires 0 <= i < n <= |a|
    requires i < n - 1 ==> Sum(a[i..n - 1]) <= current
    ensures Sum(a[i..n]) <= Max(current, 0) + a[n - 1]
  {
    SumExtend(a, i, n - 1);
    assert Sum(a[i..n]) == Sum(a[i..n - 1]) + a[n - 1];
    if i == n - 1 {
      assert a[i..n - 1] == [];
    }
  }

  /** A run within the first `n` items either ends at `n` or lies within the first `n - 1`. */
  lemma BestStep(a: seq<int>, k: int, n: int, next: int, maxSum: int)
    requires n == k + 1 && 0 < n <= |a|
    requires forall i :: 0 <= i < n ==> Sum(a[i..n]) <= next
    requires forall i, j :: 0 <= i <= j <= k ==> Sum(a[i..j]) <= maxSum
    ensures forall i, j :: 0 <= i <= j <= n ==> Sum(a[i..j]) <= Max(maxSum, next)
  {
    forall i, j | 0 <= i <= j <= n
      ensures Sum(a[i..j]) <= Max(maxSum, next)
    {
      if i == n {
        assert a[i..j] == a[0..0];
      }
    }
  }

  /** One step of the loop: extend the best run ending here, or restart it at `k`. */
  lemma KadaneStep(a: seq<int>, k: int, current: int, maxSum: int, ci: int, mi: int, mj: int)
    returns (ci2: int, mi2: int, mj2: int)
    requires k < |a| && KadaneInv(a, k, current, maxSum, ci, mi, mj)
    ensures var next := Max(current, 0) + a[k];
      KadaneInv(a, k + 1, next, Max(maxSum, next), ci2, mi2, mj2)
  {
    var next := Max(current, 0) + a[k];
    ci2 := RunStep(a, k, k + 1, current, ci);
    BestStep(a, k, k + 1, next, maxSum);
    mi2, mj2 := if next > maxSum then ci2 else mi, if next > maxSum then k + 1 else mj;
  }

  /** At the end of the loop the invariant gives the maximum. */
  lemma KadaneDone(a: seq<int>, current: int, maxSum: int, ci: int, mi: int, mj: int)
    requires KadaneInv(a, |a|, current, maxSum, ci, mi, mj)
    ensures maxSum >= 0 && IsMaxSubarraySum(a, maxSum)
  {
    assert Sum(a[0..0]) == 0;
  }

  /**
   * `max_sum(arr)`: `current` is the best sum of a run ending at the current
   * element, `max_sum` the best seen so far; both start at zero.
   */
  method MaxSumOf(arr: seq<int>) returns (maxSum: int)
    ensures maxSum >= 0
    ensures IsMaxSubarraySum(arr, maxSum)
  {
    maxSum := 0;
    var current := 0;
    ghost var ci, mi, mj := 0, 0, 0;
    for k := 0 to |arr|
      invariant KadaneInv(arr, k, current, maxSum, ci, mi, mj)
    {
      var num := arr[k];
      ci, mi, mj := KadaneStep(arr, k, current, maxSum, ci, mi, mj);
      current := Max(current, 0) + num;
      maxSum := Max(maxSum, current);
    }
    KadaneDone(arr, current, maxSum, ci, mi, mj);
  }

  /** `max_sum_from_iter`: the same loop over the items an iterator yields. */
  method MaxSumFromIter(items: seq<int>) returns (maxSum: int)
    ensures maxSum >= 0
    ensures IsMaxSubarraySum(items, maxSum)
  {
    maxSum := 0;
    var current := 0;
    ghost var ci, mi, mj := 0, 0, 0;
    var k := 0;
    while k < |items|
      invariant KadaneInv(items, k, current, maxSum, ci, mi, mj)
    {
      var num := items[k];
      ci, mi, mj := KadaneStep(items, k, current, maxSum, ci, mi, mj);
      current := Max(current, 0) + num;
      maxSum := Max(maxSum, current);
      k := k + 1;
    }
    KadaneDone(items, current, maxSum, ci, mi, mj);
  }

  /** The maximum is unique, so both functions agree on the same sequence. */
  lemma MaxSubarraySumUnique(a: seq<int>, m1: int, m2: int)
    requires IsMaxSubarraySum(a, m1) && IsMaxSubarraySum(a, m2)
    ensures m1 == m2
  {
    var i1, j1 :| 0 <= i1 <= j1 <= |a| && Sum(a[i1..j1]) == m1;
    var i2, j2 :| 0 <= i2 <= j2 <= |a| && Sum(a[i2..j2]) == m2;
  }

  /** A run of non-negative numbers never sums above the whole sequence. */
  lemma {:induction false} SumSliceBound(a: seq<int>, i: int, j: int)
    requires forall k :: 0 <= k < |a| ==> a[k] >= 0
    requires 0 <= i <= j <= |a|
    ensures 0 <= Sum(a[i..j]) <= Sum(a)
    decreases |a|
  {
    if j < |a| {
      SumSliceBound(a[..|a| - 1], i, j);
      assert a[..|a| - 1][i..j] == a[i..j];
    } else if i < j {
      SumSliceBound(a[..|a| - 1], i, j - 1);
      assert a[..|a| - 1][i..j - 1] == a[i..j - 1];
      SumExtend(a, i, j - 1);
    } else if |a| > 0 {
      SumSliceBound(a[..|a| - 1], 0, 0);
    }
  }

  /** An input with no negative element has its total as the maximum. */
  lemma AllNonNegative(a: seq<int>)
    requires forall k :: 0 <= k < |a| ==> a[k] >= 0
    ensures IsMaxSubarraySum(a, Sum(a))
  {
    forall i, j | 0 <= i <= j <= |a|
      ensures Sum(a[i..j]) <= Sum(a)
    {
      SumSliceBound(a, i, j);
    }
    assert a[0..|a|] == a;
  }

  /** A run of non-positive numbers sums to at most zero. */
  lemma {:induction false} SumNonPositive(a: seq<int>)
    requires forall k :: 0 <= k < |a| ==> a[k] <= 0
    ensures Sum(a) <= 0
    decreases |a|
  {
    if |a| > 0 {
      SumNonPositive(a[..|a| - 1]);
    }
  }

  /** An empty or all-non-positive input has maximum zero (the empty run). */
  lemma AllNonPositive(a: seq<int>)
    requires forall k :: 0 <= k < |a| ==> a[k] <= 0
    ensures IsMaxSubarraySum(a, 0)
  {
    forall i, j | 0 <= i <= j <= |a|
      ensures Sum(a[i..j]) <= 0
    {
      SumNonPositive(a[i..j]);
    }
    assert Sum(a[0..0]) == 0;
  }
}
