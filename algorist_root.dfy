/**
 * The bundled copy of integer roots for `i64` (`src/algorist/math/root.rs`).
 * Unlike the library version it rejects every negative number, including
 * in `root` and `is_perfect_pow`, and it does not check `k`. The
 * floating-point starting value (`n^(1/k)` rounded to nearest) is the
 * parameter `guess`. Rounding does not save the loop as written from a
 * low estimate: above 2^53 the conversion `n as f64` itself may round `n`
 * down, so for `k == 1` the estimate of `2^62 + 1` is `2^62`. As in
 * `IntRoot`, `s` chooses between the loop as written and the corrected one.
 */
module AlgoristRoot {
  import opened Arith
  import opened Wrappers
  import IntRoot

  /**
   * `root_floor`: asserts `n >= 0`, then from `guess` steps down while
   * `x^k > n` (the corrected loop first steps up while `(x+1)^k <= n`).
   * With `k == 0` every power is 1: a positive `n` keeps the guess, and
   * `n == 0` never leaves the loop as written.
   */
  method RootFloor(s: IntRoot.Search, n: int, k: nat, guess: nat) returns (x: int)
    requires n >= 0
    requires k >= 1 || (s == IntRoot.DownOnly && n >= 1)
    ensures x >= 0 && Pow(x, k) <= n
    ensures s == IntRoot.DownOnly ==> x <= guess && (Pow(guess, k) <= n ==> x == guess)
    ensures IntRoot.GuessFits(s, n, k, guess) ==> IntRoot.IsFloorRoot(x, n, k)
  {
    if k >= 1 {
      IntRoot.PowZeroBase(k);
    }
    x := guess;
    if s == IntRoot.UpAndDown {
      while Pow(x + 1, k) <= n
        invariant x >= 0
        decreases n - x
      {
        PowAtLeastBase(x + 1, k);
        x := x + 1;
      }
    }
    while Pow(x, k) > n
      invariant x >= 0
      invariant s == IntRoot.DownOnly ==> x <= guess && (x < guess ==> n < Pow(guess, k))
      invariant IntRoot.GuessFits(s, n, k, guess) ==> n < Pow(x + 1, k)
      decreases x
    {
      x := x - 1;
    }
  }

  /**
   * The two loops give the same result exactly when the estimate is not
   * below the floor root.
   */
  method RootFloorAgrees(n: int, k: nat, guess: nat) returns (a: int, b: int)
    requires n >= 0 && k >= 1
    ensures IntRoot.IsFloorRoot(b, n, k)
    ensures a == b <==> n < Pow(guess + 1, k)
    ensures a <= b
  {
    a := RootFloor(IntRoot.DownOnly, n, k, guess);
    b := RootFloor(IntRoot.UpAndDown, n, k, guess);
    if n < Pow(guess + 1, k) {
      IntRoot.FloorRootUnique(a, b, n, k);
    } else {
      PowMonotone(guess, guess + 1, k);
      if b <= guess {
        PowMonotone(b + 1, guess + 1, k);
      }
    }
  }

  /**
   * `root`: the rounded-down root when it is exact, else `None`. When the
   * estimate fits, `None` means no integer has `k`-th power `n`.
   */
  method Root(s: IntRoot.Search, n: int, k: nat, guess: nat) returns (r: Option<int>)
    requires n >= 0
    requires k >= 1 || (s == IntRoot.DownOnly && n >= 1)
    ensures r.Some? ==> r.value >= 0 && Pow(r.value, k) == n
    ensures r.Some? && s == IntRoot.DownOnly ==> r.value <= guess
    ensures r.None? && IntRoot.GuessFits(s, n, k, guess) ==> forall y :: Pow(y, k) != n
  {
    var x := RootFloor(s, n, k, guess);
    if Pow(x, k) == n {
      r := Some(x);
    } else {
      r := None;
      if k >= 1 && IntRoot.GuessFits(s, n, k, guess) {
        forall y | Pow(y, k) == n
          ensures false
        {
          IntRoot.NoRootBesideFloor(x, n, k, y);
        }
      }
    }
  }

  /**
   * `root_ceil`: asserts `n >= 0`; the rounded-down root, plus one unless it
   * is exact. When the estimate fits, the least `c` with `n <= c^k`.
   */
  method RootCeil(s: IntRoot.Search, n: int, k: nat, guess: nat) returns (c: int)
    requires n >= 0
    requires k >= 1 || (s == IntRoot.DownOnly && n >= 1)
    ensures c >= 0 && (k >= 1 && c > 0 ==> Pow(c - 1, k) < n)
    ensures s == IntRoot.DownOnly ==> c <= guess + 1
    ensures IntRoot.GuessFits(s, n, k, guess) ==> n <= Pow(c, k)
  {
    var x := RootFloor(s, n, k, guess);
    if Pow(x, k) == n {
      c := x;
      if c > 0 && k >= 1 {
        PowMonotone(c - 1, c, k);
      }
    } else {
      c := x + 1;
    }
  }

  /**
   * `is_perfect_pow`: `root(k).is_some()`. True only for a `k`-th power, and
   * for every one when the estimate fits.
   */
  method IsPerfectPow(s: IntRoot.Search, n: int, k: nat, guess: nat) returns (b: bool)
    requires n >= 0
    requires k >= 1 || (s == IntRoot.DownOnly && n >= 1)
    ensures b ==> exists y :: Pow(y, k) == n
    ensures b && s == IntRoot.DownOnly ==> exists y :: 0 <= y <= guess && Pow(y, k) == n
    ensures IntRoot.GuessFits(s, n, k, guess) ==> (b <==> exists y :: Pow(y, k) == n)
  {
    var r := Root(s, n, k, guess);
    b := r.Some?;
    if b {
      assert Pow(r.value, k) == n;
    }
  }

  /**
   * As written, `k == 1` above 2^53: `2^62 + 1` converts to the estimate
   * `2^62`, which the loop keeps, so `root_floor(1)` is `2^62`, `root(1)`
   * is `None` and `is_perfect_pow(1)` is false, though every number is its
   * own first root; `root_ceil(1)` of `2^62 + 3` stops at `2^62 + 1`.
   */
  method FirstRootAsWritten() returns (f: int, r: Option<int>, p: bool, c: int)
    ensures f == 0x4000_0000_0000_0000 && !IntRoot.IsFloorRoot(f, 0x4000_0000_0000_0001, 1)
    ensures r == None && Pow(0x4000_0000_0000_0001, 1) == 0x4000_0000_0000_0001
    ensures !p
    ensures c <= 0x4000_0000_0000_0001 && Pow(c, 1) < 0x4000_0000_0000_0003
  {
    var g := 0x4000_0000_0000_0000;
    var n := g + 1;
    forall y
      ensures Pow(y, 1) == y
    {
      assert Pow(y, 1) == y * Pow(y, 0);
    }
    f := RootFloor(IntRoot.DownOnly, n, 1, g);
    r := Root(IntRoot.DownOnly, n, 1, g);
    p := IsPerfectPow(IntRoot.DownOnly, n, 1, g);
    c := RootCeil(IntRoot.DownOnly, g + 3, 1, g);
  }

  /** The unit-test values: 27 has the cube root 3, and 28 and 12 have no exact root. */
  lemma RootExamples()
    ensures forall y :: y >= 0 && Pow(y, 3) == 27 ==> y == 3
    ensures forall y :: Pow(y, 3) != 28
    ensures forall y :: Pow(y, 2) != 12
  {
    assert Pow(3, 3) == 27 && Pow(4, 3) == 64;
    assert Pow(3, 2) == 9 && Pow(4, 2) == 16;
    forall y | y >= 0 && Pow(y, 3) == 27
      ensures y == 3
    {
      IntRoot.ExactIsFloorRoot(y, 27, 3);
      IntRoot.FloorRootUnique(y, 3, 27, 3);
    }
    forall y
      ensures Pow(y, 3) != 28 && Pow(y, 2) != 12
    {
      if Pow(y, 3) == 28 {
        IntRoot.NoRootBesideFloor(3, 28, 3, y);
      }
      if Pow(y, 2) == 12 {
        IntRoot.NoRootBesideFloor(3, 12, 2, y);
      }
    }
  }
}
