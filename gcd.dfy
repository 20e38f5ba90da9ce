/**
 * Greatest common divisor, least common multiple and the extended Euclidean
 * algorithm over Rust's integers (`%` and `/` truncate toward zero).
 */
module Gcd {
  import opened Arith

  /**
   * `gcd_extended(a, b)`: the divisor `d` and Bézout coefficients `x`, `y`
   * with `a * x + b * y == d`.
   */
  function GcdExtended(a: int, b: int): (r: (int, int, int))
    ensures a * r.1 + b * r.2 == r.0
    decreases Abs(b)
  {
    if b == 0 then (a, 1, 0)
    else
      var (d, x, y) := GcdExtended(b, Rem(a, b));
      BezoutStep(a, b, Quot(a, b), Rem(a, b), x, y);
      (d, y, x - Quot(a, b) * y)
  }

  /** One step back up the Euclidean chain keeps the Bézout identity. */
  lemma BezoutStep(a: int, b: int, q: int, rm: int, x: int, y: int)
    requires a == q * b + rm
    ensures a * y + b * (x - q * y) == b * x + rm * y
  {
    calc {
      a * y + b * (x - q * y);
      (q * b + rm) * y + b * x - b * (q * y);
      { assert (q * b + rm) * y == q * b * y + rm * y; assert b * (q * y) == q * b * y; }
      b * x + rm * y;
    }
  }

  /** The `d` of `gcd_extended` divides both arguments. */
  lemma {:induction false} GcdDividesBoth(a: int, b: int)
    ensures Divides(GcdExtended(a, b).0, a) && Divides(GcdExtended(a, b).0, b)
    decreases Abs(b)
  {
    if b == 0 {
      DividesMul(a, 1);
    } else {
      var d := GcdExtended(a, b).0;
      GcdDividesBoth(b, Rem(a, b));
      DividesLinear(d, b, Rem(a, b), Quot(a, b), 1);
    }
  }

  /** Every common divisor of `a` and `b` divides `d`: `d` is a greatest one. */
  lemma GcdGreatest(a: int, b: int, c: int)
    requires Divides(c, a) && Divides(c, b)
    ensures Divides(c, GcdExtended(a, b).0)
  {
    var (d, x, y) := GcdExtended(a, b);
    DividesLinear(c, a, b, x, y);
  }

  /** On non-negative arguments `d` is non-negative, and zero only for `gcd(0, 0)`. */
  lemma {:induction false} GcdNonNeg(a: int, b: int)
    requires a >= 0 && b >= 0
    ensures GcdExtended(a, b).0 >= 0
    ensures GcdExtended(a, b).0 == 0 <==> a == 0 && b == 0
    decreases b
  {
    if b != 0 {
      GcdNonNeg(b, Rem(a, b));
    }
  }

  /** `gcd(0, b) == b` for every `b`. */
  lemma GcdZeroLeft(b: int)
    ensures GcdExtended(0, b).0 == b
  {
    if b != 0 {
      assert Rem(0, b) == 0;
    }
  }

  /** The example of the documentation: `gcd_extended(240, 46) == (2, -9, 47)`. */
  lemma GcdExtendedExample()
    ensures GcdExtended(240, 46) == (2, -9, 47)
  {
    assert Rem(4, 2) == 0 && Quot(4, 2) == 2;
    assert GcdExtended(4, 2) == (2, 0, 1);
    assert Rem(6, 4) == 2 && Quot(6, 4) == 1;
    assert GcdExtended(6, 4) == (2, 1, -1);
    assert Rem(10, 6) == 4 && Quot(10, 6) == 1;
    assert GcdExtended(10, 6) == (2, -1, 2);
    assert Rem(46, 10) == 6 && Quot(46, 10) == 4;
    assert GcdExtended(46, 10) == (2, 2, -9);
    assert Rem(240, 46) == 10 && Quot(240, 46) == 5;
  }

  /** `gcd(a, b)`: Euclid's loop, `a %= b` then swap, until `b` is zero. */
  method Gcd(a0: int, b0: int) returns (g: int)
    ensures g == GcdExtended(a0, b0).0
    ensures Divides(g, a0) && Divides(g, b0)
    ensures forall c :: Divides(c, a0) && Divides(c, b0) ==> Divides(c, g)
  {
    var a, b := a0, b0;
    while b != 0
      invariant GcdExtended(a, b).0 == GcdExtended(a0, b0).0
      decreases Abs(b)
    {
      a := Rem(a, b);
      a, b := b, a;
    }
    g := a;
    GcdDividesBoth(a0, b0);
    forall c | Divides(c, a0) && Divides(c, b0)
      ensures Divides(c, g)
    {
      GcdGreatest(a0, b0, c);
    }
  }

  lemma RemOfMultiple(a: int, g: int)
    requires g != 0 && Divides(g, a)
    ensures Rem(a, g) == 0 && Quot(a, g) * g == a
  {
    DividesCofactor(g, a);
    var k :| a == g * k;
    AbsMul(g, k);
    DivModUnique(Abs(a), Abs(g), Abs(k), 0);
  }

  /**
   * `lcm(a, b) = a / gcd(a, b) * b`: a common multiple of `a` and `b` with
   * `gcd(a, b) * lcm(a, b) == a * b`. Rust divides by zero when both
   * arguments are zero, so that input is excluded.
   */
  function Lcm(a: int, b: int): (r: int)
    requires a != 0 || b != 0
    ensures Divides(a, r) && Divides(b, r)
    ensures GcdExtended(a, b).0 * r == a * b
  {
    var g := GcdExtended(a, b).0;
    GcdDividesBoth(a, b);
    RemOfMultiple(a, g);
    RemOfMultiple(b, g);
    var ka, kb := Quot(a, g), Quot(b, g);
    DividesMul(b, ka);
    Rearrange(ka, kb, g);
    DividesMul(a, kb);
    ka * b
  }

  lemma Rearrange(ka: int, kb: int, g: int)
    ensures ka * (kb * g) == (ka * g) * kb == (kb * g) * ka
    ensures g * (ka * (kb * g)) == (ka * g) * (kb * g)
  {
  }

  /** `lcm(a, 0) == 0` for every non-zero `a`. */
  lemma LcmZero(a: int)
    requires a != 0
    ensures Lcm(a, 0) == 0
  {
  }
}
