/** `IntLog::div_till_zero` for `i64` (`src/algorist/math/log.rs`). */
module Log {
  import opened Arith

  /** How many integer divisions by `base` take `n` down to zero. */
  function DivisionsTillZero(n: nat, base: int): nat
    requires base > 1
    decreases n
  {
    if n == 0 then 0 else DivShrinks(n, base); 1 + DivisionsTillZero(n / base, base)
  }

  lemma DivShrinks(n: nat, base: int)
    requires n > 0 && base > 1
    ensures 0 <= n / base < n
    ensures n < (n / base + 1) * base && (n / base) * base <= n
  {
    var q := n / base;
    var r := n % base;
    assert n == q * base + r && 0 <= r < base;
    assert q >= 0;
    MulLe(2, base, q);
    assert 2 * q <= q * base <= n;
    assert (q + 1) * base == q * base + base;
  }

  /**
   * The count is the number of base-`base` digits of `n`: `n < base^c`, and
   * `base^(c-1) <= n` when `c > 0`.
   */
  lemma {:induction false} DivisionsAreDigits(n: nat, base: int)
    requires base > 1
    ensures n < Pow(base, DivisionsTillZero(n, base))
    ensures DivisionsTillZero(n, base) > 0 ==> Pow(base, DivisionsTillZero(n, base) - 1) <= n
    decreases n
  {
    if n > 0 {
      var q := n / base;
      var c := DivisionsTillZero(q, base);
      DivShrinks(n, base);
      DivisionsAreDigits(q, base);
      assert q + 1 <= Pow(base, c);
      MulLe(q + 1, Pow(base, c), base);
      assert Pow(base, c + 1) == Pow(base, c) * base;
      if c > 0 {
        assert Pow(base, c - 1) <= q;
        MulLe(Pow(base, c - 1), q, base);
        assert Pow(base, c) == Pow(base, c - 1) * base;
        assert q * base <= n;
      } else {
        assert Pow(base, 0) == 1;
      }
    }
  }

  /** The least `c` with `n < base^c`. */
  lemma DigitsLeast(n: nat, base: int, c: nat)
    requires base > 1 && n < Pow(base, c)
    ensures DivisionsTillZero(n, base) <= c
  {
    DivisionsAreDigits(n, base);
    var d := DivisionsTillZero(n, base);
    if c < d {
      PowExpMonotone(base, c, d - 1);
    }
  }

  /**
   * `div_till_zero`: panics unless `n >= 0` and `base > 1`; divides `n` by
   * `base` until it reaches zero and counts the steps. The count is the least
   * `c` with `n < base^c`, so zero gives zero.
   */
  method DivTillZero(n: int, base: int) returns (cnt: int)
    requires n >= 0 && base > 1
    ensures cnt == DivisionsTillZero(n, base)
    ensures n < Pow(base, cnt)
    ensures cnt > 0 ==> Pow(base, cnt - 1) <= n
    ensures forall c: nat :: n < Pow(base, c) ==> cnt <= c
  {
    var x := n;
    cnt := 0;
    while x > 0
      invariant x >= 0
      invariant cnt + DivisionsTillZero(x, base) == DivisionsTillZero(n, base)
      decreases x
    {
      QuotRemNonNeg(x, base);
      DivShrinks(x, base);
      x := Quot(x, base);
      cnt := cnt + 1;
    }
    DivisionsAreDigits(n, base);
    forall c: nat | n < Pow(base, c)
      ensures cnt <= c
    {
      DigitsLeast(n, base, c);
    }
  }

  /** Values from the unit tests of `div_till_zero`. */
  lemma DivTillZeroExamples()
    ensures DivisionsTillZero(0, 2) == 0
    ensures DivisionsTillZero(1, 2) == 1
    ensures DivisionsTillZero(3, 2) == 2
    ensures DivisionsTillZero(8, 2) == 4
    ensures DivisionsTillZero(571_787, 83) == 4
    ensures DivisionsTillZero(50_000_000, 6) == 10
  {
  }
}
