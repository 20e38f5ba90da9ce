/**
 * The `Rotated` extension on vectors (`src/ext/vec/rotated.rs`). Rust's
 * `rotate_left(k)` and `rotate_right(k)` panic when `k` exceeds the length;
 * in place, they are modelled by three reversals.
 */
module Rotated {
  import opened Arith
  import opened Reversed

  /** The first `k` elements moved to the back. */
  function LeftBy<T>(s: seq<T>, k: int): seq<T>
    requires 0 <= k <= |s|
  {
    s[k..] + s[..k]
  }

  /** The last `k` elements moved to the front. */
  function RightBy<T>(s: seq<T>, k: int): seq<T>
    requires 0 <= k <= |s|
  {
    s[|s| - k..] + s[..|s| - k]
  }

  /** Entry `i` after a left rotation by `k` is entry `(i + k) mod n` before it. */
  lemma LeftByIndex<T>(s: seq<T>, k: int)
    requires 0 <= k <= |s|
    ensures forall i :: 0 <= i < |s| ==> LeftBy(s, k)[i] == s[(i + k) % |s|]
  {
    forall i | 0 <= i < |s|
      ensures LeftBy(s, k)[i] == s[(i + k) % |s|]
    {
      if i + k < |s| {
        DivModUnique(i + k, |s|, 0, i + k);
      } else {
        DivModUnique(i + k, |s|, 1, i + k - |s|);
      }
    }
  }

  /** Entry `i` after a right rotation by `k` is entry `(i + n - k) mod n` before it. */
  lemma RightByIndex<T>(s: seq<T>, k: int)
    requires 0 <= k <= |s|
    ensures forall i :: 0 <= i < |s| ==> RightBy(s, k)[i] == s[(i + |s| - k) % |s|]
  {
    forall i | 0 <= i < |s|
      ensures RightBy(s, k)[i] == s[(i + |s| - k) % |s|]
    {
      if i < k {
        DivModUnique(i + |s| - k, |s|, 0, i + |s| - k);
      } else {
        DivModUnique(i + |s| - k, |s|, 1, i - k);
      }
    }
  }

  /** A right rotation by `k` undoes a left one, and rotating by 0 or by the length changes nothing. */
  lemma RotationsUndo<T>(s: seq<T>, k: int)
    requires 0 <= k <= |s|
    ensures RightBy(LeftBy(s, k), k) == s
    ensures LeftBy(RightBy(s, k), k) == s
    ensures LeftBy(s, 0) == s && LeftBy(s, |s|) == s
    ensures RightBy(s, 0) == s && RightBy(s, |s|) == s
  {
    var t := LeftBy(s, k);
    assert t[|t| - k..] == s[..k] && t[..|t| - k] == s[k..];
    var u := RightBy(s, k);
    assert u[k..] == s[..|s| - k] && u[..k] == s[|s| - k..];
  }

  /** `rotate_left` in place: reverse the two parts, then the whole. */
  method RotateLeftInPlace<T>(a: array<T>, k: int)
    requires 0 <= k <= a.Length
    modifies a
    ensures a[..] == LeftBy(old(a[..]), k)
  {
    ghost var s := a[..];
    assert s[..k] == a[0..k];
    ReverseRange(a, 0, k);
    ghost var s1 := a[..];
    assert a[0..k] == Rev(s[..k]);
    assert a[k..a.Length] == s[k..];
    ReverseRange(a, k, a.Length);
    assert a[k..a.Length] == Rev(s[k..]);
    assert a[0..k] == s1[0..k];
    assert a[..] == Rev(s[..k]) + Rev(s[k..]) by {
      assert a[..] == a[0..k] + a[k..a.Length];
    }
    assert a[0..a.Length] == a[..];
    ReverseRange(a, 0, a.Length);
    assert a[0..a.Length] == a[..];
    RevConcat(Rev(s[..k]), Rev(s[k..]));
    RevRev(s[..k]);
    RevRev(s[k..]);
  }

  /** `rotate_right(k)` in place: a left rotation by the rest of the length. */
  method RotateRightInPlace<T>(a: array<T>, k: int)
    requires 0 <= k <= a.Length
    modifies a
    ensures a[..] == RightBy(old(a[..]), k)
  {
    RotateLeftInPlace(a, a.Length - k);
  }

  /** `rotated_left(k)`: panics for `k` above the length; entry `i` is `v[(i + k) mod n]`. */
  method RotatedLeft<T>(v: seq<T>, k: int) returns (r: seq<T>)
    requires 0 <= k <= |v|
    ensures |r| == |v|
    ensures forall i :: 0 <= i < |r| ==> r[i] == v[(i + k) % |v|]
    ensures RightBy(r, k) == v
  {
    if |v| == 0 {
      return [];
    }
    var a := new T[|v|](i requires 0 <= i < |v| => v[i]);
    assert a[..] == v;
    RotateLeftInPlace(a, k);
    r := a[..];
    LeftByIndex(v, k);
    RotationsUndo(v, k);
  }

  /** `rotated_right(k)`: panics for `k` above the length; entry `i` is `v[(i + n - k) mod n]`. */
  method RotatedRight<T>(v: seq<T>, k: int) returns (r: seq<T>)
    requires 0 <= k <= |v|
    ensures |r| == |v|
    ensures forall i :: 0 <= i < |r| ==> r[i] == v[(i + |v| - k) % |v|]
    ensures LeftBy(r, k) == v
  {
    if |v| == 0 {
      return [];
    }
    var a := new T[|v|](i requires 0 <= i < |v| => v[i]);
    assert a[..] == v;
    RotateRightInPlace(a, k);
    r := a[..];
    RightByIndex(v, k);
    RotationsUndo(v, k);
  }
}
