/** The `Reversed` extension on vectors (`src/algorist/ext/vec/reversed.rs`). */
module Reversed {

  /** `s` back to front. */
  function Rev<T>(s: seq<T>): (r: seq<T>)
    ensures |r| == |s|
  {
    if |s| == 0 then [] else [s[|s| - 1]] + Rev(s[..|s| - 1])
  }

  /** Entry `i` of the reversal is entry `n - 1 - i` of the original. */
  lemma {:induction false} RevIndex<T>(s: seq<T>)
    ensures forall i :: 0 <= i < |s| ==> Rev(s)[i] == s[|s| - 1 - i]
  {
    if |s| > 0 {
      var front := s[..|s| - 1];
      RevIndex(front);
      forall i | 1 <= i < |s|
        ensures Rev(s)[i] == s[|s| - 1 - i]
      {
        assert Rev(s)[i] == Rev(front)[i - 1];
      }
    }
  }

  /** Reversing twice gives the original. */
  lemma RevRev<T>(s: seq<T>)
    ensures Rev(Rev(s)) == s
  {
    RevIndex(s);
    RevIndex(Rev(s));
  }

  /** Reversal keeps the elements. */
  lemma {:induction false} RevMultiset<T>(s: seq<T>)
    ensures multiset(Rev(s)) == multiset(s)
  {
    if |s| > 0 {
      var front := s[..|s| - 1];
      RevMultiset(front);
      assert s == front + [s[|s| - 1]];
    }
  }

  /** Reversing a concatenation reverses the parts and swaps them. */
  lemma RevConcat<T>(x: seq<T>, y: seq<T>)
    ensures Rev(x + y) == Rev(y) + Rev(x)
  {
    RevIndex(x);
    RevIndex(y);
    RevIndex(x + y);
  }

  /** Reverses `a[lo..hi]` in place by swapping from both ends; the rest stays. */
  method ReverseRange<T>(a: array<T>, lo: int, hi: int)
    requires 0 <= lo <= hi <= a.Length
    modifies a
    ensures a[lo..hi] == Rev(old(a[lo..hi]))
    ensures forall k :: 0 <= k < a.Length && !(lo <= k < hi) ==> a[k] == old(a[k])
  {
    ghost var s := a[lo..hi];
    RevIndex(s);
    var i := lo;
    var j := hi - 1;
    while i < j
      invariant lo <= i <= j + 1 <= hi && i + j == lo + hi - 1
      invariant forall k :: 0 <= k < a.Length && !(lo <= k < hi) ==> a[k] == old(a[k])
      invariant forall k :: lo <= k < i || j < k < hi ==> a[k] == s[hi - 1 - k]
      invariant forall k :: i <= k <= j ==> a[k] == s[k - lo]
      decreases j - i
    {
      a[i], a[j] := a[j], a[i];
      i := i + 1;
      j := j - 1;
    }
    assert forall x :: 0 <= x < hi - lo ==> a[lo..hi][x] == Rev(s)[x];
  }

  /** `reversed`: the vector reversed in place and handed back. */
  method Reversed<T>(v: seq<T>) returns (r: seq<T>)
    ensures |r| == |v|
    ensures forall i :: 0 <= i < |v| ==> r[i] == v[|v| - 1 - i]
    ensures multiset(r) == multiset(v)
    ensures Rev(r) == v
  {
    if |v| == 0 {
      return [];
    }
    var a := new T[|v|](i requires 0 <= i < |v| => v[i]);
    assert a[0..a.Length] == v;
    ReverseRange(a, 0, a.Length);
    assert a[0..a.Length] == a[..];
    r := a[..];
    assert r == Rev(v);
    RevIndex(v);
    RevMultiset(v);
    RevRev(v);
  }
}
