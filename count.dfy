/** `CountOccurrences` for `[usize]`: counting sort (`count`) and `group`. */
module Count {

  /** The counts `count(n)` must produce: entry `v` is the multiplicity of `v`. */
  function Counts(xs: seq<nat>, n: nat): (r: seq<nat>)
  {
    seq(n + 1, v => multiset(xs)[v])
  }

  /** The elements of `xs` that are at most `n`, in order. */
  function AtMost(xs: seq<nat>, n: nat): seq<nat>
    decreases |xs|
  {
    if |xs| == 0 then []
    else AtMost(xs[..|xs| - 1], n) + (if xs[|xs| - 1] <= n then [xs[|xs| - 1]] else [])
  }

  function Total(s: seq<nat>): nat
    decreases |s|
  {
    if |s| == 0 then 0 else Total(s[..|s| - 1]) + s[|s| - 1]
  }

  /**
   * `count(n)`: a vector of `n + 1` zeros, incremented at each element that
   * is at most `n`.
   */
  method CountOccurrences(xs: seq<nat>, n: nat) returns (cnt: seq<nat>)
    ensures |cnt| == n + 1
    ensures forall v :: 0 <= v <= n ==> cnt[v] == multiset(xs)[v]
  {
    var c := new nat[n + 1](_ => 0);
    for i := 0 to |xs|
      invariant forall v :: 0 <= v <= n ==> c[v] == multiset(xs[..i])[v]
    {
      assert xs[..i + 1] == xs[..i] + [xs[i]];
      if xs[i] <= n {
        c[xs[i]] := c[xs[i]] + 1;
      }
    }
    assert xs[..|xs|] == xs;
    cnt := c[..];
  }

  lemma {:induction false} TotalIncrement(s: seq<nat>, i: nat)
    requires i < |s|
    ensures Total(s[i := s[i] + 1]) == Total(s) + 1
    decreases |s|
  {
    var t := s[i := s[i] + 1];
    if i < |s| - 1 {
      assert t[..|t| - 1] == s[..|s| - 1][i := s[i] + 1];
      TotalIncrement(s[..|s| - 1], i);
    } else {
      assert t[..|t| - 1] == s[..|s| - 1];
    }
  }

  /** Elements above `n` are ignored: the counts add up to the number of elements `<= n`. */
  lemma {:induction false} CountsTotal(xs: seq<nat>, n: nat)
    ensures Total(Counts(xs, n)) == |AtMost(xs, n)|
    decreases |xs|
  {
    if |xs| == 0 {
      ZeroTotal(n + 1);
      assert Counts(xs, n) == seq(n + 1, _ => 0);
    } else {
      var init, x := xs[..|xs| - 1], xs[|xs| - 1];
      assert xs == init + [x];
      CountsTotal(init, n);
      if x <= n {
        assert Counts(xs, n) == Counts(init, n)[x := Counts(init, n)[x] + 1];
        TotalIncrement(Counts(init, n), x);
      } else {
        assert Counts(xs, n) == Counts(init, n);
      }
    }
  }

  lemma {:induction false} ZeroTotal(k: nat)
    ensures Total(seq(k, _ => 0)) == 0
  {
    if k > 0 {
      assert seq(k, _ => 0)[..k - 1] == seq(k - 1, _ => 0);
      ZeroTotal(k - 1);
    }
  }

  /** The indices in `[start, end)` whose count is `c`, in ascending order. */
  function IndicesWith(cnt: seq<nat>, c: nat, start: nat, end: nat): seq<nat>
    requires end <= |cnt|
    decreases end
  {
    if end <= start then []
    else IndicesWith(cnt, c, start, end - 1) + (if cnt[end - 1] == c then [end - 1] else [])
  }

  /** `IndicesWith` holds exactly the indices in range whose count is `c`. */
  lemma {:induction false} IndicesWithMembers(cnt: seq<nat>, c: nat, start: nat, end: nat)
    requires end <= |cnt|
    ensures forall i :: i in IndicesWith(cnt, c, start, end) <==> start <= i < end && cnt[i] == c
    decreases end
  {
    if end > start {
      IndicesWithMembers(cnt, c, start, end - 1);
    }
  }

  /** `IndicesWith` is strictly ascending. */
  lemma {:induction false} IndicesWithAscending(cnt: seq<nat>, c: nat, start: nat, end: nat)
    requires end <= |cnt|
    ensures forall p, q :: 0 <= p < q < |IndicesWith(cnt, c, start, end)| ==>
              IndicesWith(cnt, c, start, end)[p] < IndicesWith(cnt, c, start, end)[q]
    decreases end
  {
    if end > start {
      IndicesWithAscending(cnt, c, start, end - 1);
      IndicesWithMembers(cnt, c, start, end - 1);
      var prev := IndicesWith(cnt, c, start, end - 1);
      forall p | 0 <= p < |prev|
        ensures prev[p] < end - 1
      {
        assert prev[p] in prev;
      }
    }
  }

  /**
   * `group(exclude_zero)`: maps each count to the indices having it, skipping
   * index 0 when `exclude_zero` is set.
   */
  method Group(cnt: seq<nat>, excludeZero: bool) returns (groups: map<nat, seq<nat>>)
    ensures var start := if excludeZero then 1 else 0;
      (forall c :: c in groups <==> exists i :: start <= i < |cnt| && cnt[i] == c) &&
      (forall c :: c in groups ==> groups[c] == IndicesWith(cnt, c, start, |cnt|))
  {
    var start := if excludeZero then 1 else 0;
    var lo := if start <= |cnt| then start else |cnt|;
    groups := map[];
    for i := lo to |cnt|
      invariant forall c :: c in groups <==> exists k :: start <= k < i && cnt[k] == c
      invariant forall c :: c in groups ==> groups[c] == IndicesWith(cnt, c, start, i)
    {
      var c := cnt[i];
      if c in groups {
        groups := groups[c := groups[c] + [i]];
      } else {
        IndicesWithMembers(cnt, c, start, i);
        var prev := IndicesWith(cnt, c, start, i);
        if |prev| > 0 {
          assert prev[0] in prev;
        }
        groups := groups[c := [i]];
      }
    }
  }

  /** Every index from `start` on lies in exactly one group, the one of its count. */
  lemma GroupPartition(cnt: seq<nat>, start: nat, groups: map<nat, seq<nat>>, i: nat)
    requires forall c :: c in groups <==> exists k :: start <= k < |cnt| && cnt[k] == c
    requires forall c :: c in groups ==> groups[c] == IndicesWith(cnt, c, start, |cnt|)
    requires start <= i < |cnt|
    ensures cnt[i] in groups && i in groups[cnt[i]]
    ensures forall c :: c in groups && i in groups[c] ==> c == cnt[i]
  {
    IndicesWithMembers(cnt, cnt[i], start, |cnt|);
    forall c | c in groups && i in groups[c]
      ensures c == cnt[i]
    {
      IndicesWithMembers(cnt, c, start, |cnt|);
    }
  }
}
