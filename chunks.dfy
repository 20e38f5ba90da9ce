/**
 * `Chunks` (`src/ext/iter/chunks.rs`): an iterator adapter that yields the
 * wrapped iterator's items in vectors of `chunk_size`, the last one possibly
 * shorter. The wrapped iterator is modelled by the sequence of items it still
 * has to give.
 */
module Chunks {
  import opened Wrappers
  import opened Arith

  /** The chunks `collect` gathers: consecutive runs of `size` items, the last one shorter. */
  function ChunksOf<T>(s: seq<T>, size: nat): seq<seq<T>>
    decreases |s|
  {
    if size == 0 || |s| == 0 then []
    else [s[..Min(size, |s|)]] + ChunksOf(s[Min(size, |s|)..], size)
  }

  /** All the chunks, one after the other. */
  function Flatten<T>(cs: seq<seq<T>>): seq<T> {
    if |cs| == 0 then [] else cs[0] + Flatten(cs[1..])
  }

  /** With a positive size, concatenating the chunks gives back the items. */
  lemma {:induction false} ChunksFlatten<T>(s: seq<T>, size: nat)
    requires size > 0
    ensures Flatten(ChunksOf(s, size)) == s
    decreases |s|
  {
    if |s| > 0 {
      var m := Min(size, |s|);
      ChunksFlatten(s[m..], size);
      assert s == s[..m] + s[m..];
    }
  }

  /**
   * Every chunk is non-empty and at most `size` long, and every chunk but the
   * last has exactly `size` items.
   */
  lemma {:induction false} ChunksSizes<T>(s: seq<T>, size: nat)
    ensures forall i :: 0 <= i < |ChunksOf(s, size)| ==> 0 < |ChunksOf(s, size)[i]| <= size
    ensures forall i :: 0 <= i < |ChunksOf(s, size)| - 1 ==> |ChunksOf(s, size)[i]| == size
    decreases |s|
  {
    if size > 0 && |s| > 0 {
      var m := Min(size, |s|);
      ChunksSizes(s[m..], size);
      var cs := ChunksOf(s, size);
      assert cs[1..] == ChunksOf(s[m..], size);
      if m < size {
        assert s[m..] == [];
      }
      forall i | 0 <= i < |cs| - 1
        ensures |cs[i]| == size
      {
        if i > 0 {
          assert cs[i] == ChunksOf(s[m..], size)[i - 1];
        }
      }
    }
  }

  /** A chunk size of zero yields no chunk at all, whatever the items. */
  lemma ChunksOfZero<T>(s: seq<T>)
    ensures ChunksOf(s, 0) == []
  {
  }

  /** The number of chunks is the number of items divided by the size, rounded up. */
  lemma {:induction false} ChunksCount<T>(s: seq<T>, size: nat)
    requires size > 0
    ensures |ChunksOf(s, size)| == (|s| + size - 1) / size
    decreases |s|
  {
    if |s| > 0 {
      var m := Min(size, |s|);
      ChunksCount(s[m..], size);
      if m == size {
        DivPlusDivisor(|s| - size + size - 1, size);
      } else {
        DivModUnique(|s| + size - 1, size, 1, |s| - 1);
      }
    }
  }

  /** `Chunks`: the wrapped iterator and the chunk size. */
  class Chunks<T> {
    var rest: seq<T>
    const chunkSize: nat

    /** `Chunks::new` and `ChunksExt::chunks`. */
    constructor New(items: seq<T>, size: nat)
      ensures rest == items && chunkSize == size
    {
      rest := items;
      chunkSize := size;
    }

    /** The chunks the iterator has still to yield. */
    function Remaining(): seq<seq<T>>
      reads this
    {
      ChunksOf(rest, chunkSize)
    }

    /**
     * `Iterator::next`: takes up to `chunk_size` items, and yields them unless
     * there were none.
     */
    method Next() returns (r: Option<seq<T>>)
      modifies this
      ensures var m := Min(chunkSize, |old(rest)|);
        rest == old(rest)[m..] && (if m == 0 then r == None else r == Some(old(rest)[..m]))
      ensures old(Remaining()) == [] ==> r == None && Remaining() == []
      ensures old(Remaining()) != [] ==> r == Some(old(Remaining())[0]) && Remaining() == old(Remaining())[1..]
    {
      var chunk: seq<T> := [];
      ghost var orig := rest;
      for i := 0 to chunkSize
        invariant chunk == orig[..Min(i, |orig|)] && rest == orig[Min(i, |orig|)..]
      {
        if rest != [] {
          chunk := chunk + [rest[0]];
          rest := rest[1..];
          assert orig[..i + 1] == orig[..i] + [orig[i]];
        } else {
          break;
        }
      }
      if chunk == [] {
        r := None;
      } else {
        r := Some(chunk);
      }
    }

    /** Collecting the chunks. */
    method Collect() returns (cs: seq<seq<T>>)
      modifies this
      ensures cs == old(Remaining()) && Remaining() == []
    {
      cs := [];
      ghost var all := Remaining();
      while true
        invariant all == cs + Remaining()
        decreases |rest|
      {
        ghost var before := Remaining();
        var r := Next();
        if r == None {
          return;
        }
        assert before == [r.value] + Remaining();
        cs := cs + [r.value];
      }
    }
  }

  /** The documented use: 1..=7 in chunks of 3 gives [1, 2, 3], [4, 5, 6], [7]. */
  method Example() returns (cs: seq<seq<int>>)
    ensures cs == [[1, 2, 3], [4, 5, 6], [7]]
  {
    var c := new Chunks.New([1, 2, 3, 4, 5, 6, 7], 3);
    cs := c.Collect();
    var s := [1, 2, 3, 4, 5, 6, 7];
    assert ChunksOf([7], 3) == [[7]] by {
      assert [7][..1] == [7] && [7][1..] == [];
    }
    assert ChunksOf([4, 5, 6, 7], 3) == [[4, 5, 6], [7]] by {
      assert [4, 5, 6, 7][..3] == [4, 5, 6] && [4, 5, 6, 7][3..] == [7];
    }
    assert s[..3] == [1, 2, 3] && s[3..] == [4, 5, 6, 7];
  }
}
