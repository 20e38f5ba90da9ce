/**
 * Integer roots (`IntRoot` in `src/math/root.rs`). The floating-point
 * starting value `floor(n^(1/k))` is a parameter `guess`, which may be any
 * natural number. The loop as written only steps down from it, so a guess
 * below the true root (`powf` rounding `64^(1/3)` to `3.9999999999999996`)
 * is returned as it is; the corrected loop first steps up. The members
 * built on `root_floor` take the loop to use as a parameter `Search`.
 */
module IntRoot {
  import opened Arith
  import opened Wrappers

  /** `r` is the `k`-th root of `n` rounded down: `r^k <= n < (r+1)^k`. */
  ghost predicate IsFloorRoot(r: int, n: int, k: nat) {
    r >= 0 && Pow(r, k) <= n < Pow(r + 1, k)
  }

  /** There is only one floor root. */
  lemma FloorRootUnique(a: int, b: int, n: int, k: nat)
    requires IsFloorRoot(a, n, k) && IsFloorRoot(b, n, k)
    ensures a == b
  {
    if a < b {
      PowMonotone(a + 1, b, k);
    } else if b < a {
      PowMonotone(b + 1, a, k);
    }
  }

  /** Any non-negative `x` with `x^k == n` is the floor root of `n`. */
  lemma ExactIsFloorRoot(x: int, n: int, k: nat)
    requires k >= 1 && x >= 0 && Pow(x, k) == n
    ensures IsFloorRoot(x, n, k)
  {
    PowMonotone(x, x + 1, k);
  }

  /**
   * When the floor root `r` of `n >= 0` is not exact, no integer at all has
   * `k`-th power `n`.
   */
  lemma NoRootBesideFloor(r: int, n: int, k: nat, x: int)
    requires k >= 1 && IsFloorRoot(r, n, k) && Pow(x, k) == n
    ensures Pow(r, k) == n
  {
    if x >= 0 {
      ExactIsFloorRoot(x, n, k);
      FloorRootUnique(x, r, n, k);
    } else if k % 2 == 0 {
      PowEvenNeg(x, k);
      ExactIsFloorRoot(-x, n, k);
      FloorRootUnique(-x, r, n, k);
    } else {
      PowOddNeg(-x, k);
      PowNonNeg(-x, k);
      PowNonNeg(r, k);
      assert n == 0;
      ExactIsFloorRoot(0, n, k);
      FloorRootUnique(0, r, n, k);
    }
  }

  /**
   * Which loop runs from the floating-point estimate: `DownOnly` only steps
   * down, as `root_floor` is written; `UpAndDown` first steps up, which is
   * the corrected loop.
   */
  datatype Search = DownOnly | UpAndDown

  /**
   * The estimate lets the chosen loop find the floor root of `n >= 0`: the
   * corrected loop always does, the loop as written when the estimate is
   * not below the floor root.
   */
  ghost predicate GuessFits(s: Search, n: int, k: nat, guess: nat) {
    s == UpAndDown || n < Pow(guess + 1, k)
  }

  /**
   * The unsigned `root_floor` as written: starts from `guess` and steps down
   * while `x^k > n`. It never exceeds the guess, and a guess whose power
   * does not exceed `n` comes back unchanged, even when it is below the
   * floor root. Only a guess not below the floor root gives the floor root.
   * Nothing checks `k`: with `k == 0` every power is 1, so a positive `n`
   * keeps the guess.
   */
  method RootFloorAsWritten(n: int, k: nat, guess: nat) returns (x: int)
    requires n >= 0 && (k >= 1 || n >= 1)
    ensures 0 <= x <= guess && Pow(x, k) <= n
    ensures Pow(guess, k) <= n ==> x == guess
    ensures n < Pow(guess + 1, k) ==> IsFloorRoot(x, n, k)
  {
    if k >= 1 {
      PowZeroBase(k);
    }
    x := guess;
    while Pow(x, k) > n
      invariant 0 <= x <= guess
      invariant x < guess ==> n < Pow(x + 1, k) && n < Pow(guess, k)
      decreases x
    {
      x := x - 1;
    }
  }

  /** `0^k == 0` once `k >= 1`, so the loops stepping down stop at zero at the latest. */
  lemma PowZeroBase(k: nat)
    requires k >= 1
    ensures Pow(0, k) == 0
  {
    assert Pow(0, k) == 0 * Pow(0, k - 1);
  }

  /**
   * `64.root_floor(3)`: `powf` gives `3.9999999999999996`, floored to the
   * guess `3`; as written `3^3 <= 64` keeps it, though the cube root of 64
   * is 4.
   */
  method UndershotGuess() returns (x: int)
    ensures x == 3 && !IsFloorRoot(x, 64, 3)
  {
    assert Pow(3, 3) == 27 && Pow(4, 3) == 64;
    x := RootFloorAsWritten(64, 3, 3);
  }

  /**
   * The unsigned `root_floor`, corrected: from any `guess`, steps up while
   * `(x+1)^k <= n`, then down while `x^k > n`. The result is the floor root.
   */
  method RootFloorUnsigned(n: int, k: nat, guess: nat) returns (x: int)
    requires n >= 0 && k >= 1
    ensures IsFloorRoot(x, n, k)
  {
    x := guess;
    while Pow(x + 1, k) <= n
      invariant x >= 0
      decreases n - x
    {
      PowAtLeastBase(x + 1, k);
      x := x + 1;
    }
    PowZeroBase(k);
    while Pow(x, k) > n
      invariant x >= 0 && n < Pow(x + 1, k)
      decreases x
    {
      x := x - 1;
    }
  }

  /**
   * The two loops give the same result exactly when the estimate is not
   * below the floor root; otherwise the loop as written returns the estimate
   * and the corrected loop something larger.
   */
  method RootFloorAgrees(n: int, k: nat, guess: nat) returns (a: int, b: int)
    requires n >= 0 && k >= 1
    ensures IsFloorRoot(b, n, k)
    ensures a == b <==> n < Pow(guess + 1, k)
    ensures a <= b
  {
    a := RootFloorAsWritten(n, k, guess);
    b := RootFloorUnsigned(n, k, guess);
    if n < Pow(guess + 1, k) {
      FloorRootUnique(a, b, n, k);
    } else {
      PowMonotone(guess, guess + 1, k);
      if b <= guess {
        PowMonotone(b + 1, guess + 1, k);
      }
    }
  }

  /**
   * The signed `root_floor`: panics for `k < 1` and for an even root of a
   * negative number. A negative `n` gives minus the unsigned root of `-n`,
   * so the root is rounded toward zero: `(r-1)^k < n <= r^k`. `guess` is
   * the estimate for `|n|`, and `s` chooses the unsigned loop.
   */
  method RootFloor(s: Search, n: int, k: nat, guess: nat) returns (r: int)
    requires k >= 1
    requires n < 0 ==> k % 2 == 1
    ensures n >= 0 ==> r >= 0 && Pow(r, k) <= n
    ensures n < 0 ==> r <= 0 && n <= Pow(r, k)
    ensures s == DownOnly ==> Abs(r) <= guess && (Pow(guess, k) <= Abs(n) ==> Abs(r) == guess)
    ensures GuessFits(s, Abs(n), k, guess) ==> IsFloorRoot(Abs(r), Abs(n), k)
    ensures GuessFits(s, Abs(n), k, guess) && n < 0 ==> Pow(r - 1, k) < n
  {
    var u;
    if s == DownOnly {
      u := RootFloorAsWritten(Abs(n), k, guess);
    } else {
      u := RootFloorUnsigned(Abs(n), k, guess);
    }
    if n >= 0 {
      r := u;
    } else {
      r := -u;
      PowOddNeg(u, k);
      PowOddNeg(u + 1, k);
      assert -r + 1 == -(r - 1);
    }
  }

  /**
   * `root`: `Some(x)` when the rounded root `x` is exact, otherwise `None`.
   * When the estimate fits, `None` means that no integer has `k`-th power `n`.
   */
  method Root(s: Search, n: int, k: nat, guess: nat) returns (r: Option<int>)
    requires k >= 1
    requires n < 0 ==> k % 2 == 1
    ensures r.Some? ==> Pow(r.value, k) == n && (n >= 0 ==> r.value >= 0)
    ensures r.Some? && s == DownOnly ==> Abs(r.value) <= guess
    ensures r.None? && GuessFits(s, Abs(n), k, guess) ==> forall x :: Pow(x, k) != n
  {
    var x := RootFloor(s, n, k, guess);
    if Pow(x, k) == n {
      r := Some(x);
    } else {
      r := None;
      if GuessFits(s, Abs(n), k, guess) {
        forall y | Pow(y, k) == n
          ensures false
        {
          if n >= 0 {
            NoRootBesideFloor(x, n, k, y);
          } else {
            PowOddNeg(y, k);
            PowOddNeg(x, k);
            NoRootBesideFloor(-x, -n, k, -y);
          }
        }
      }
    }
  }

  /**
   * `is_perfect_pow`: asserts `k >= 1`, then `root(k).is_some()`. True only
   * for a `k`-th power, and for every one when the estimate fits.
   */
  method IsPerfectPow(s: Search, n: int, k: nat, guess: nat) returns (b: bool)
    requires k >= 1
    requires n < 0 ==> k % 2 == 1
    ensures b ==> exists x :: Pow(x, k) == n
    ensures b && s == DownOnly ==> exists x :: Abs(x) <= guess && Pow(x, k) == n
    ensures GuessFits(s, Abs(n), k, guess) ==> (b <==> exists x :: Pow(x, k) == n)
  {
    var r := Root(s, n, k, guess);
    b := r.Some?;
    if b {
      assert Pow(r.value, k) == n;
    }
  }

  /** `sqrt`: panics on a negative number, otherwise `root(2)`. */
  method Sqrt(s: Search, n: int, guess: nat) returns (r: Option<int>)
    requires n >= 0
    ensures r.Some? ==> r.value >= 0 && r.value * r.value == n
    ensures r.Some? && s == DownOnly ==> r.value <= guess
    ensures r.None? && GuessFits(s, n, 2, guess) ==> forall x :: x * x != n
  {
    r := Root(s, n, 2, guess);
    forall x
      ensures Pow(x, 2) == x * x
      ensures r.None? && GuessFits(s, n, 2, guess) ==> x * x != n
    {
      PowTwo(x);
    }
  }

  lemma PowTwo(x: int)
    ensures Pow(x, 2) == x * x
  {
  }

  /** `x^3` as a product, the form `cbrt`'s contract is stated in. */
  lemma PowThree(x: int)
    ensures Pow(x, 3) == x * x * x
  {
    PowTwo(x);
    assert Pow(x, 3) == x * Pow(x, 2);
  }

  /** `cbrt`: `root(3)`, defined for negative numbers too. */
  method Cbrt(s: Search, n: int, guess: nat) returns (r: Option<int>)
    ensures r.Some? ==> r.value * r.value * r.value == n
    ensures r.Some? && s == DownOnly ==> Abs(r.value) <= guess
    ensures r.None? && GuessFits(s, Abs(n), 3, guess) ==> forall x :: x * x * x != n
  {
    r := Root(s, n, 3, guess);
    forall x
      ensures Pow(x, 3) == x * x * x
      ensures r.None? && GuessFits(s, Abs(n), 3, guess) ==> x * x * x != n
    {
      PowThree(x);
    }
  }

  /**
   * `root_ceil`: asserts `n >= 0`; the floor root, plus one unless it is
   * exact. When the estimate fits, that is the least `c` with `n <= c^k`;
   * as written it may fall short of it.
   */
  method RootCeil(s: Search, n: int, k: nat, guess: nat) returns (c: int)
    requires n >= 0 && k >= 1
    ensures c >= 0 && (c > 0 ==> Pow(c - 1, k) < n)
    ensures s == DownOnly ==> c <= guess + 1
    ensures GuessFits(s, n, k, guess) ==> n <= Pow(c, k)
  {
    var x := RootFloor(s, n, k, guess);
    if Pow(x, k) == n {
      c := x;
      if c > 0 {
        PowMonotone(c - 1, c, k);
      }
    } else {
      c := x + 1;
    }
  }

  /**
   * As written, 64 with the floored estimate 3: `root_floor(3)` is 3, and
   * `root(3)`, `is_perfect_pow(3)` and `cbrt()` miss the exact root 4.
   */
  method SixtyFourAsWritten() returns (f: int, r: Option<int>, p: bool, c: Option<int>)
    ensures Pow(4, 3) == 64
    ensures f == 3 && r == None && !p && c == None
  {
    assert Pow(3, 3) == 27 && Pow(4, 3) == 64;
    forall x | Abs(x) <= 3
      ensures Pow(x, 3) != 64 && x * x * x != 64
    {
      PowThree(x);
      if x >= 0 {
        PowMonotone(x, 3, 3);
      } else {
        PowOddNeg(-x, 3);
        PowNonNeg(-x, 3);
      }
    }
    f := RootFloor(DownOnly, 64, 3, 3);
    r := Root(DownOnly, 64, 3, 3);
    p := IsPerfectPow(DownOnly, 64, 3, 3);
    c := Cbrt(DownOnly, 64, 3);
  }

  /** The documented values: any floor root satisfying the contract above is the one the docs give. */
  lemma RootFloorExamples(r: int)
    ensures IsFloorRoot(r, 28, 3) ==> r == 3
    ensures IsFloorRoot(r, 12, 2) ==> r == 3
    ensures IsFloorRoot(r, 12345, 13) ==> r == 2
    ensures IsFloorRoot(r, 12345, 4) ==> r == 10
  {
    assert Pow(3, 3) == 27 && Pow(4, 3) == 64;
    assert IsFloorRoot(3, 28, 3);
    if IsFloorRoot(r, 28, 3) { FloorRootUnique(r, 3, 28, 3); }
    assert IsFloorRoot(3, 12, 2);
    if IsFloorRoot(r, 12, 2) { FloorRootUnique(r, 3, 12, 2); }
    assert Pow(2, 13) == 8192 && Pow(3, 13) == 1594323;
    assert IsFloorRoot(2, 12345, 13);
    if IsFloorRoot(r, 12345, 13) { FloorRootUnique(r, 2, 12345, 13); }
    assert Pow(10, 4) == 10000 && Pow(11, 4) == 14641;
    assert IsFloorRoot(10, 12345, 4);
    if IsFloorRoot(r, 12345, 4) { FloorRootUnique(r, 10, 12345, 4); }
  }
}
