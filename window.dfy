/**
 * The size-two sliding window (`src/ext/iter/window.rs`, with an identical
 * copy in `src/algorist/ext/iter/window.rs`): an iterator adapter that yields
 * each pair of neighbouring items. The wrapped iterator is modelled by the
 * sequence of items it still has to give.
 */
module Window {
  import opened Wrappers

  /** The neighbouring pairs of `s`, in order: `(s[i], s[i + 1])` for each `i`. */
  function Pairs<T>(s: seq<T>): (r: seq<(T, T)>)
    ensures |s| < 2 ==> r == []
    ensures |s| >= 2 ==> |r| == |s| - 1
  {
    if |s| < 2 then [] else seq(|s| - 1, i requires 0 <= i < |s| - 1 => (s[i], s[i + 1]))
  }

  /** Dropping the first item drops the first pair. */
  lemma PairsTail<T>(s: seq<T>)
    requires |s| >= 2
    ensures Pairs(s) == [(s[0], s[1])] + Pairs(s[1..])
  {
    var p := Pairs(s);
    var q := [(s[0], s[1])] + Pairs(s[1..]);
    assert |p| == |q|;
    forall i | 0 <= i < |p|
      ensures p[i] == q[i]
    {
      if i > 0 {
        assert q[i] == Pairs(s[1..])[i - 1];
      }
    }
  }

  /** `SlidingWindow`: the wrapped iterator and the item held back from the last call. */
  class SlidingWindow<T> {
    var rest: seq<T>
    var prev: Option<T>

    /** The pairs the window has still to yield. */
    function Remaining(): seq<(T, T)>
      reads this
    {
      match prev
      case None => Pairs(rest)
      case Some(p) => Pairs([p] + rest)
    }

    /** `SlidingWindow::new` (and `From<I>`): nothing held back yet. */
    constructor New(items: seq<T>)
      ensures rest == items && prev == None
      ensures Remaining() == Pairs(items)
    {
      rest := items;
      prev := None;
    }

    /**
     * `Iterator::next`. The first call takes two items from the wrapped
     * iterator (through one recursive call), every later call takes one; an
     * exhausted wrapped iterator gives `None` and leaves the state alone.
     */
    method Next() returns (r: Option<(T, T)>)
      modifies this
      ensures old(rest) == [] ==> r == None && rest == old(rest) && prev == old(prev)
      ensures old(rest) != [] && old(prev) == None && |old(rest)| == 1 ==>
        r == None && rest == [] && prev == Some(old(rest)[0])
      ensures old(rest) != [] && old(prev) == None && |old(rest)| >= 2 ==>
        r == Some((old(rest)[0], old(rest)[1])) && rest == old(rest)[2..] && prev == Some(old(rest)[1])
      ensures old(rest) != [] && old(prev) != None ==>
        r == Some((old(prev).value, old(rest)[0])) && rest == old(rest)[1..] && prev == Some(old(rest)[0])
      ensures old(Remaining()) == [] ==> r == None && Remaining() == []
      ensures old(Remaining()) != [] ==> r == Some(old(Remaining())[0]) && Remaining() == old(Remaining())[1..]
      decreases |rest|
    {
      if rest == [] {
        return None;
      }
      var next := rest[0];
      rest := rest[1..];
      if prev == None {
        prev := Some(next);
        r := Next();
        return;
      }
      r := Some((prev.value, next));
      prev := Some(next);
      PairsTail([old(prev).value] + old(rest));
      assert ([old(prev).value] + old(rest))[1..] == old(rest);
      assert old(rest) == [next] + rest;
    }

    /** Collecting the window: every pair of the wrapped items, in order. */
    method Collect() returns (ps: seq<(T, T)>)
      modifies this
      ensures ps == old(Remaining()) && Remaining() == []
    {
      ps := [];
      ghost var all := Remaining();
      while true
        invariant all == ps + Remaining()
        decreases |rest|
      {
        ghost var before := Remaining();
        var r := Next();
        if r == None {
          assert ps + Remaining() == ps;
          return;
        }
        ghost var after := Remaining();
        CollectStep(all, ps, before, after, r.value);
        ps := ps + [r.value];
      }
    }
  }

  lemma CollectStep<X>(all: seq<X>, ps: seq<X>, before: seq<X>, after: seq<X>, x: X)
    requires all == ps + before && before != [] && x == before[0] && after == before[1..]
    ensures all == (ps + [x]) + after
  {
    assert before == [x] + after;
  }

  /** Pairs of equal neighbours in `ps`. */
  function CountEqual<T(==)>(ps: seq<(T, T)>): (n: nat)
    ensures n <= |ps|
  {
    if |ps| == 0 then 0 else (if ps[0].0 == ps[0].1 then 1 else 0) + CountEqual(ps[1..])
  }

  /** The documented use: [1, 2, 2, 3, 4, 4, 5] has two equal neighbouring pairs. */
  method EqualNeighboursExample() returns (n: nat)
    ensures n == 2
  {
    var w := new SlidingWindow.New([1, 2, 2, 3, 4, 4, 5]);
    var ps := w.Collect();
    assert [1, 2, 2, 3, 4, 4, 5][1..] == [2, 2, 3, 4, 4, 5];
    assert ps == [(1, 2), (2, 2), (2, 3), (3, 4), (4, 4), (4, 5)];
    n := CountEqual(ps);
    var tail := [(4, 4), (4, 5)];
    assert CountEqual(tail) == 1 + CountEqual([(4, 5)]) by { assert tail[1..] == [(4, 5)]; }
    assert CountEqual([(4, 5)]) == 0 by { assert [(4, 5)][1..] == []; }
    assert ps[1..] == [(2, 2), (2, 3), (3, 4)] + tail;
    assert CountEqual(ps[1..]) == 1 + CountEqual([(2, 3), (3, 4)] + tail) by {
      assert ps[1..][1..] == [(2, 3), (3, 4)] + tail;
    }
    assert CountEqual([(2, 3), (3, 4)] + tail) == CountEqual(tail) by {
      assert ([(2, 3), (3, 4)] + tail)[1..] == [(3, 4)] + tail;
      assert ([(3, 4)] + tail)[1..] == tail;
    }
  }
}
