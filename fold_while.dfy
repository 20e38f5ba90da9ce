/**
 * `fold_while` (`src/ext/iter/fold_while.rs`): a left fold over an iterator
 * that the step function can cut short. The iterator is modelled by the
 * sequence of items it still has to give; the step function is a pure
 * function of the accumulator and the item.
 */
module FoldWhile {

  /** `FoldWhile<T>`: go on with this accumulator, or stop with it. */
  datatype FoldWhile<T> = Continue(inner: T) | Break(inner: T)

  /** `FoldWhile::into_inner`: the accumulator, whichever way the fold ended. */
  function IntoInner<T>(r: FoldWhile<T>): (v: T)
    ensures r == Continue(v) || r == Break(v)
  {
    match r
    case Continue(t) => t
    case Break(t) => t
  }

  /**
   * What `fold_while` returns, with the number of items it took from the
   * iterator: it stops right after the first item whose step breaks.
   */
  function Run<T, B>(s: seq<T>, acc: B, f: (B, T) -> FoldWhile<B>): (r: (FoldWhile<B>, nat))
    ensures r.1 <= |s|
  {
    if |s| == 0 then (Continue(acc), 0)
    else
      match f(acc, s[0])
      case Continue(a) => var rest := Run(s[1..], a, f); (rest.0, rest.1 + 1)
      case Break(b) => (Break(b), 1)
  }

  /** The accumulator after the first `k` steps, reading each step's result as going on. */
  function Acc<T, B>(s: seq<T>, init: B, f: (B, T) -> FoldWhile<B>, k: nat): B
    requires k <= |s|
  {
    if k == 0 then init else IntoInner(f(Acc(s, init, f, k - 1), s[k - 1]))
  }

  /** None of the first `k` steps breaks. */
  ghost predicate NoBreakBefore<T, B>(s: seq<T>, init: B, f: (B, T) -> FoldWhile<B>, k: nat)
    requires k <= |s|
  {
    forall i :: 0 <= i < k ==> f(Acc(s, init, f, i), s[i]).Continue?
  }

  /** Taking a first step that goes on shifts the accumulators by one item. */
  lemma {:induction false} AccShift<T, B>(s: seq<T>, init: B, f: (B, T) -> FoldWhile<B>, k: nat)
    requires 0 < k <= |s| && f(init, s[0]).Continue?
    ensures Acc(s, init, f, k) == Acc(s[1..], f(init, s[0]).inner, f, k - 1)
  {
    if k > 1 {
      AccShift(s, init, f, k - 1);
      assert s[1..][k - 2] == s[k - 1];
    }
  }

  /**
   * When step `k` is the first that breaks, `fold_while` returns that step's
   * `Break` and has taken `k + 1` items: the rest stay in the iterator.
   */
  lemma {:induction false} RunFirstBreak<T, B>(s: seq<T>, init: B, f: (B, T) -> FoldWhile<B>, k: nat)
    requires k < |s| && NoBreakBefore(s, init, f, k) && f(Acc(s, init, f, k), s[k]).Break?
    ensures Run(s, init, f) == (f(Acc(s, init, f, k), s[k]), k + 1)
    decreases k
  {
    if k > 0 {
      assert f(Acc(s, init, f, 0), s[0]).Continue?;
      var a := f(init, s[0]).inner;
      AccShift(s, init, f, k);
      forall i | 0 <= i < k - 1
        ensures f(Acc(s[1..], a, f, i), s[1..][i]).Continue?
      {
        AccShift(s, init, f, i + 1);
        assert f(Acc(s, init, f, i + 1), s[i + 1]).Continue?;
      }
      RunFirstBreak(s[1..], a, f, k - 1);
    }
  }

  /** When no step breaks, `fold_while` takes every item and returns `Continue` of the full fold. */
  lemma {:induction false} RunNoBreak<T, B>(s: seq<T>, init: B, f: (B, T) -> FoldWhile<B>)
    requires NoBreakBefore(s, init, f, |s|)
    ensures Run(s, init, f) == (Continue(Acc(s, init, f, |s|)), |s|)
    decreases |s|
  {
    if |s| > 0 {
      assert f(Acc(s, init, f, 0), s[0]).Continue?;
      var a := f(init, s[0]).inner;
      AccShift(s, init, f, |s|);
      forall i | 0 <= i < |s| - 1
        ensures f(Acc(s[1..], a, f, i), s[1..][i]).Continue?
      {
        AccShift(s, init, f, i + 1);
        assert f(Acc(s, init, f, i + 1), s[i + 1]).Continue?;
      }
      RunNoBreak(s[1..], a, f);
    }
  }

  /**
   * `fold_while` on an iterator whose remaining items are `s`: returns the
   * result and the items left in the iterator afterwards.
   */
  method FoldWhileIter<T, B>(s: seq<T>, init: B, f: (B, T) -> FoldWhile<B>) returns (r: FoldWhile<B>, rest: seq<T>)
    ensures r == Run(s, init, f).0 && rest == s[Run(s, init, f).1..]
    ensures |s| == 0 ==> r == Continue(init)
  {
    var acc := init;
    var i := 0;
    while i < |s|
      invariant 0 <= i <= |s|
      invariant Run(s, init, f) == (Run(s[i..], acc, f).0, Run(s[i..], acc, f).1 + i)
      decreases |s| - i
    {
      var x := s[i];
      i := i + 1;
      match f(acc, x)
      case Continue(a) =>
        assert s[i - 1..][1..] == s[i..];
        acc := a;
      case Break(b) =>
        return Break(b), s[i..];
    }
    r, rest := Continue(acc), [];
  }

  function SumBelowFive(acc: int, x: int): FoldWhile<int> {
    if x < 5 then Continue(acc + x) else Break(acc)
  }

  /** Summing the items below 5 of 1..=5 stops at 5 with 10. */
  lemma SumBelowFiveExample()
    ensures IntoInner(Run([1, 2, 3, 4, 5], 0, SumBelowFive).0) == 10
    ensures Run([1, 2, 3, 4, 5], 0, SumBelowFive) == (Break(10), 5)
  {
    var s := [1, 2, 3, 4, 5];
    assert s[1..] == [2, 3, 4, 5] && s[1..][1..] == [3, 4, 5];
    assert [3, 4, 5][1..] == [4, 5] && [4, 5][1..] == [5];
  }
}
