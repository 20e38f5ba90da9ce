/**
 * `sliding_window_try_fold` (`src/algorist/ext/iter/window.rs`): a fold over
 * the neighbouring pairs of an iterator's items that the step function can
 * cut short with `ControlFlow::Break`; whichever way it ends, the carried
 * accumulator is returned. `ControlFlow<B, B>` has the shape of `FoldWhile<B>`
 * and is modelled by it; `try_fold` stops at the first `Break` exactly as
 * `fold_while` does.
 */
module AlgoristWindow {
  import opened FoldWhile
  import opened Window

  /** The step on a pair, from the step on its two items. */
  function Lift<T, B>(f: (B, T, T) -> FoldWhile<B>): (B, (T, T)) -> FoldWhile<B> {
    (acc: B, p: (T, T)) => f(acc, p.0, p.1)
  }

  lemma LiftApply<T, B>(f: (B, T, T) -> FoldWhile<B>, acc: B, p: (T, T))
    ensures Lift(f)(acc, p) == f(acc, p.0, p.1)
  {
  }

  /** `sliding_window_try_fold`. With fewer than two items there is no pair, and `init` comes back. */
  function SlidingWindowTryFold<T, B>(s: seq<T>, init: B, f: (B, T, T) -> FoldWhile<B>): (r: B)
    ensures |s| <= 1 ==> r == init
  {
    IntoInner(Run(Pairs(s), init, Lift(f)).0)
  }

  /**
   * When the step on pair `k` is the first to break, the result is the
   * accumulator that `Break` carries, and no later pair is visited.
   */
  lemma TryFoldFirstBreak<T, B>(s: seq<T>, init: B, f: (B, T, T) -> FoldWhile<B>, k: nat)
    requires k < |Pairs(s)|
    requires NoBreakBefore(Pairs(s), init, Lift(f), k)
    requires f(Acc(Pairs(s), init, Lift(f), k), s[k], s[k + 1]).Break?
    ensures SlidingWindowTryFold(s, init, f) == f(Acc(Pairs(s), init, Lift(f), k), s[k], s[k + 1]).inner
    ensures Run(Pairs(s), init, Lift(f)).1 == k + 1
  {
    assert Pairs(s)[k] == (s[k], s[k + 1]);
    RunFirstBreak(Pairs(s), init, Lift(f), k);
  }

  /** When no step breaks, the result is the fold over every pair. */
  lemma TryFoldNoBreak<T, B>(s: seq<T>, init: B, f: (B, T, T) -> FoldWhile<B>)
    requires NoBreakBefore(Pairs(s), init, Lift(f), |Pairs(s)|)
    ensures SlidingWindowTryFold(s, init, f) == Acc(Pairs(s), init, Lift(f), |Pairs(s)|)
  {
    RunNoBreak(Pairs(s), init, Lift(f));
  }

  /** The test's step: count a run of equal neighbours, stopping at the first change. */
  function EqualRun<T(==)>(acc: int, a: T, b: T): FoldWhile<int> {
    if a == b then Continue(acc + 1) else Break(acc)
  }

  /** Documented values: no pairs gives 1, "aaabcc" gives 3 and [1, 1, 2, 3, 4, 5] gives 2. */
  lemma TryFoldExamples()
    ensures SlidingWindowTryFold([], 1, EqualRun<int>) == 1
    ensures SlidingWindowTryFold([12], 1, EqualRun<int>) == 1
    ensures SlidingWindowTryFold("aaabcc", 1, EqualRun<char>) == 3
    ensures SlidingWindowTryFold([1, 1, 2, 3, 4, 5], 1, EqualRun<int>) == 2
  {
    var g := Lift(EqualRun<char>);
    var ps := Pairs("aaabcc");
    assert ps == [('a', 'a'), ('a', 'a'), ('a', 'b'), ('b', 'c'), ('c', 'c')];
    LiftApply(EqualRun<char>, 1, ps[0]);
    LiftApply(EqualRun<char>, 2, ps[1]);
    LiftApply(EqualRun<char>, 3, ps[2]);
    assert g(1, ps[0]) == Continue(2);
    assert Acc(ps, 1, g, 1) == 2;
    assert g(2, ps[1]) == Continue(3);
    assert Acc(ps, 1, g, 2) == 3;
    assert g(3, ps[2]) == Break(3);
    assert NoBreakBefore(ps, 1, g, 2);
    TryFoldFirstBreak("aaabcc", 1, EqualRun<char>, 2);
    var h := Lift(EqualRun<int>);
    var qs := Pairs([1, 1, 2, 3, 4, 5]);
    assert qs == [(1, 1), (1, 2), (2, 3), (3, 4), (4, 5)];
    LiftApply(EqualRun<int>, 1, qs[0]);
    LiftApply(EqualRun<int>, 2, qs[1]);
    assert h(1, qs[0]) == Continue(2);
    assert Acc(qs, 1, h, 1) == 2;
    assert h(2, qs[1]) == Break(2);
    assert NoBreakBefore(qs, 1, h, 1);
    TryFoldFirstBreak([1, 1, 2, 3, 4, 5], 1, EqualRun<int>, 1);
  }
}
