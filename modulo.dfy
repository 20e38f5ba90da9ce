/**
 * `Modulo<T, M>`: integers modulo a constant `M`, stored normalised in
 * `[0, M)`. `M` is a type-level constant in Rust; here it is the parameter
 * `m` of every operation, and `Mod7` is `m == MOD7`. The values are `i64`
 * and products are formed in the wider `i128` (`Source`), which never
 * overflows for normalised operands; the model computes on unbounded
 * integers.
 */
module Modulo {
  import opened Arith
  import opened Wrappers
  import Gcd
  import IntParse
  import MaxSum

  const MOD7: int := 1_000_000_007

  datatype Modulo = Modulo(val: int)

  /** The invariant `new_unchecked` checks: the value lies in `[0, m)`. */
  predicate Normalised(a: Modulo, m: int) { 0 <= a.val < m }

  /** `new_unchecked(v)`: panics unless `0 <= v < m`, otherwise keeps `v`. */
  function NewUnchecked(v: int, m: int): (r: Modulo)
    requires 0 <= v < m
    ensures Normalised(r, m) && r.val == v
  {
    Modulo(v)
  }

  /**
   * The value `new(v)` produces: the residue of `v`, i.e. the unique
   * normalised value congruent to `v` modulo `m`.
   */
  function Residue(v: int, m: int): (r: Modulo)
    requires m > 0
    ensures Normalised(r, m)
    ensures (v - r.val) % m == 0
  {
    ResidueFacts(v, m);
    Modulo(v % m)
  }

  /**
   * `new(v)`: brings `v` into `[0, m)` by one addition or subtraction of `m`,
   * falling back to Rust's truncating `%` (and, below zero, one more call).
   */
  method New(v: int, m: int) returns (r: Modulo)
    requires m > 0
    ensures Normalised(r, m)
    ensures (v - r.val) % m == 0
    ensures 0 <= v < m ==> r.val == v
    ensures r == Residue(v, m)
    decreases if v + m < 0 then 1 else 0
  {
    ResidueFacts(v, m);
    var val := v;
    if val < 0 {
      val := val + m;
      if val < 0 {
        val := Rem(val, m);
        RemCongruent(v + m, m);
        ModMultiple(v, 1, m);
        r := New(val, m);
        return;
      }
      DivModUnique(v, m, -1, val);
    } else if val >= m {
      val := val - m;
      if val >= m {
        val := Rem(val, m);
        QuotRemNonNeg(v - m, m);
        ModMultiple(v, -1, m);
      } else {
        DivModUnique(v, m, 1, val);
      }
    } else {
      DivModUnique(v, m, 0, v);
    }
    r := NewUnchecked(val, m);
  }

  /** `a + b`: normalised, and congruent to the sum. */
  function Add(a: Modulo, b: Modulo, m: int): (r: Modulo)
    requires m > 0
    ensures Normalised(r, m) && (a.val + b.val - r.val) % m == 0
  {
    Residue(a.val + b.val, m)
  }

  /** `a - b`: normalised, and congruent to the difference. */
  function Sub(a: Modulo, b: Modulo, m: int): (r: Modulo)
    requires m > 0
    ensures Normalised(r, m) && (a.val - b.val - r.val) % m == 0
  {
    Residue(a.val - b.val, m)
  }

  /**
   * `a * b`: the product is formed in `i128` and reduced with `%` there; the
   * result is the residue of the product.
   */
  function Mul(a: Modulo, b: Modulo, m: int): (r: Modulo)
    requires m > 0 && Normalised(a, m) && Normalised(b, m)
    ensures Normalised(r, m) && r.val == (a.val * b.val) % m
  {
    assert a.val * b.val >= 0;
    QuotRemNonNeg(a.val * b.val, m);
    ModOfMod(a.val * b.val, m);
    Residue(Rem(a.val * b.val, m), m)
  }

  /** `-a`: normalised, and adding it to `a` gives a multiple of `m`. */
  function Neg(a: Modulo, m: int): (r: Modulo)
    requires m > 0
    ensures Normalised(r, m) && (a.val + r.val) % m == 0
  {
    var r := Residue(m - a.val, m);
    var q := (m - a.val - r.val) / m;
    assert m - a.val - r.val == q * m;
    DivModUnique(a.val + r.val, m, 1 - q, 0);
    r
  }

  /**
   * `inverse()`: from `gcd_extended(v, m) == (d, x, _)`, `Some(new(x % m))`
   * when `d == 1`, otherwise `None`. A found inverse is normalised and its
   * product with `a` is 1 modulo `m`; when none is found, no integer is one.
   */
  function Inverse(a: Modulo, m: int): (r: Option<Modulo>)
    requires m > 0 && Normalised(a, m)
    ensures r.Some? ==> Normalised(r.value, m) && (a.val * r.value.val) % m == 1 % m
    ensures r.None? ==> forall w :: (a.val * w) % m != 1 % m
  {
    var (d, x, y) := Gcd.GcdExtended(a.val, m);
    if d == 1 then
      RemCongruent(x, m);
      MulModRight(a.val, x, m);
      BezoutResidue(a.val, x, m, y);
      Some(Residue(Rem(x, m), m))
    else
      NoInverse(a.val, m);
      None
  }

  /**
   * `a / b` is `a * b.inverse().expect("Division by zero")`: it fails exactly
   * when `b` has no inverse, and otherwise multiplying the quotient by `b`
   * gives `a` back.
   */
  function Div(a: Modulo, b: Modulo, m: int): (r: Result<Modulo, string>)
    requires m > 0 && Normalised(a, m) && Normalised(b, m)
    ensures r.Err? <==> forall w :: (b.val * w) % m != 1 % m
    ensures r.Ok? ==> Normalised(r.value, m) && Mul(r.value, b, m) == a
  {
    match Inverse(b, m)
    case Some(inv) =>
      MulBack(a, b, inv, m);
      Ok(Mul(a, inv, m))
    case None => Err("Division by zero")
  }

  /** `+`, `-` and `*` are the arithmetic operations taken modulo `m`. */
  lemma {:induction false} OperatorsAreResidues(a: Modulo, b: Modulo, m: int)
    requires m > 0 && Normalised(a, m) && Normalised(b, m)
    ensures Add(a, b, m).val == (a.val + b.val) % m
    ensures Sub(a, b, m).val == (a.val - b.val) % m
    ensures Mul(a, b, m).val == (a.val * b.val) % m
    ensures Normalised(Add(a, b, m), m) && Normalised(Sub(a, b, m), m) && Normalised(Mul(a, b, m), m)
  {
    PowNonNeg(a.val, 0);
    assert a.val * b.val >= 0;
    QuotRemNonNeg(a.val * b.val, m);
    ModOfMod(a.val * b.val, m);
  }

  /** Subtraction undoes addition. */
  lemma AddSub(a: Modulo, b: Modulo, m: int)
    requires m > 0 && Normalised(a, m) && Normalised(b, m)
    ensures Sub(Add(a, b, m), b, m) == a
  {
    var t := a.val + b.val;
    var q, s := t / m, t % m;
    assert t == q * m + s;
    assert s - b.val == a.val + (-q) * m;
    ModMultiple(a.val, -q, m);
    DivModUnique(a.val, m, 0, a.val);
  }

  /** `-a` is the additive inverse of `a`, and `-0 == 0`. */
  lemma NegInverse(a: Modulo, m: int)
    requires m > 0 && Normalised(a, m)
    ensures Add(a, Neg(a, m), m) == Modulo(0)
    ensures a.val == 0 ==> Neg(a, m) == Modulo(0)
  {
    var n := (m - a.val) % m;
    assert m - a.val == a.val * 0 + (m - a.val);
    ModMultiple(-a.val, 1, m);
    assert n == (-a.val) % m;
    var q := (-a.val) / m;
    assert -a.val == q * m + n;
    assert a.val + n == (-q) * m;
    DivModUnique(a.val + n, m, -q, 0);
    if a.val == 0 {
      DivModUnique(m, m, 1, 0);
    }
  }

  /** The value `inverse` returns is `x mod m` for the Bézout coefficient `x`. */
  lemma InverseValue(a: Modulo, m: int)
    requires m > 0 && Normalised(a, m) && Inverse(a, m).Some?
    ensures Inverse(a, m).value.val == Gcd.GcdExtended(a.val, m).1 % m
  {
    var x := Gcd.GcdExtended(a.val, m).1;
    RemCongruent(x, m);
  }

  lemma BezoutResidue(v: int, x: int, m: int, y: int)
    requires m > 0 && v * x + m * y == 1
    ensures (v * x) % m == 1 % m
  {
    assert m * y == (-(-y)) * m;
    assert v * x == 1 + (-y) * m;
    ModMultiple(1, -y, m);
  }

  /** When `gcd(v, m) != 1`, no `w` makes `v * w` congruent to `1` modulo `m`. */
  lemma NoInverse(v: int, m: int)
    requires m > 0 && v >= 0 && Gcd.GcdExtended(v, m).0 != 1
    ensures forall w :: (v * w) % m != 1 % m
  {
    var d := Gcd.GcdExtended(v, m).0;
    Gcd.GcdNonNeg(v, m);
    Gcd.GcdDividesBoth(v, m);
    forall w
      ensures (v * w) % m != 1 % m
    {
      if (v * w) % m == 1 % m {
        UnitCoprime(v, m, w, d);
      }
    }
  }

  /** A common divisor `d >= 0` of `x` and `m` divides 1 when `x * w` is 1 modulo `m`. */
  lemma UnitCoprime(x: int, m: int, w: int, d: int)
    requires m > 0 && d >= 0 && Divides(d, x) && Divides(d, m) && (x * w) % m == 1 % m
    ensures d == 1
  {
    if m != 1 {
      DivModUnique(1, m, 0, 1);
      var q := (x * w) / m;
      assert x * w == q * m + 1;
      assert x * w + m * (-q) == 1;
      DividesLinear(d, x, m, w, -q);
    }
    assert Divides(d, 1);
    if d > 1 {
      DivModUnique(1, d, 0, 1);
    }
  }


  /** Multiplying by `i` and then by `b`, where `b * i` is 1 modulo `m`, gives `a` back. */
  lemma MulBack(a: Modulo, b: Modulo, i: Modulo, m: int)
    requires m > 0 && Normalised(a, m) && Normalised(b, m) && Normalised(i, m)
    requires (b.val * i.val) % m == 1 % m
    ensures Mul(Mul(a, i, m), b, m) == a
  {
    MulAssoc(a.val, i.val, b.val, m);
    MulModRight(a.val, b.val * i.val, m);
    if m == 1 {
      DivModUnique(a.val, 1, a.val, 0);
    } else {
      DivModUnique(1, m, 0, 1);
      DivModUnique(a.val, m, 0, a.val);
    }
  }

  /** `((a * i) % m * b) % m == (a * (b * i)) % m`. */
  lemma MulAssoc(a: int, i: int, b: int, m: int)
    requires m > 0
    ensures (((a * i) % m) * b) % m == (a * (b * i)) % m
  {
    ModMul((a * i) % m, b, m);
    ModOfMod(a * i, m);
    ModMul(a * i, b, m);
    assert (a * i) * b == a * (b * i);
  }

  /** The operator-assign forms overwrite `*self` with `new` of the same expression. */
  method AddAssign(a: Modulo, b: Modulo, m: int) returns (r: Modulo)
    requires m > 0
    ensures r == Add(a, b, m)
  {
    r := New(a.val + b.val, m);
  }

  method SubAssign(a: Modulo, b: Modulo, m: int) returns (r: Modulo)
    requires m > 0
    ensures r == Sub(a, b, m)
  {
    r := New(a.val - b.val, m);
  }

  method MulAssign(a: Modulo, b: Modulo, m: int) returns (r: Modulo)
    requires m > 0 && Normalised(a, m) && Normalised(b, m)
    ensures r == Mul(a, b, m)
  {
    r := New(Rem(a.val * b.val, m), m);
  }

  method DivAssign(a: Modulo, b: Modulo, m: int) returns (r: Result<Modulo, string>)
    requires m > 0 && Normalised(a, m) && Normalised(b, m)
    ensures r == Div(a, b, m)
  {
    var inv := Inverse(b, m);
    if inv.None? {
      return Err("Division by zero");
    }
    var q := MulAssign(a, inv.value, m);
    r := Ok(q);
  }

  /** One step of square-and-multiply keeps `result * base^k` modulo `m`. */
  lemma PowStep(r: int, b: int, j: nat, odd: bool, m: int)
    requires m > 0
    ensures ((if odd then (r * b) % m else r) * Pow((b * b) % m, j)) % m
         == (r * Pow(b, 2 * j + (if odd then 1 else 0))) % m
  {
    var r1 := if odd then (r * b) % m else r;
    var p := Pow(b, 2 * j);
    PowSquareMod(r1, b, j, m);
    if odd {
      assert Pow(b, 2 * j + 1) == b * p;
      OddStepMod(r, b, p, m);
    }
  }

  /** Squaring the base modulo `m` and halving the exponent keeps the power modulo `m`. */
  lemma PowSquareMod(r1: int, b: int, j: nat, m: int)
    requires m > 0
    ensures (r1 * Pow((b * b) % m, j)) % m == (r1 * Pow(b, 2 * j)) % m
  {
    var p := Pow(b, 2 * j);
    calc {
      (r1 * Pow((b * b) % m, j)) % m;
      { ModMul(r1, Pow((b * b) % m, j), m); }
      ((r1 % m) * (Pow((b * b) % m, j) % m)) % m;
      { PowMod(b * b, j, m); PowSquare(b, j); }
      ((r1 % m) * (p % m)) % m;
      { ModMul(r1, p, m); }
      (r1 * p) % m;
    }
  }

  /** Folding an odd bit's factor into the result modulo `m`. */
  lemma OddStepMod(r: int, b: int, p: int, m: int)
    requires m > 0
    ensures (((r * b) % m) * p) % m == (r * (b * p)) % m
  {
    ModMul((r * b) % m, p, m);
    ModOfMod(r * b, m);
    ModMul(r * b, p, m);
    MulAssociates(r, b, p);
  }


  /** `pow(exp)` by square-and-multiply; a non-positive exponent gives `new(1)`. */
  method ModPow(a: Modulo, exp0: int, m: int) returns (result: Modulo)
    requires m > 0 && Normalised(a, m)
    ensures Normalised(result, m)
    ensures result.val == Pow(a.val, if exp0 > 0 then exp0 else 0) % m
  {
    result := New(1, m);
    var base := a;
    var exp := exp0;
    ghost var k0: nat := if exp0 > 0 then exp0 else 0;
    ModOfMod(Pow(a.val, k0), m);
    while exp > 0
      invariant Normalised(result, m) && Normalised(base, m)
      invariant (result.val * Pow(base.val, if exp > 0 then exp else 0)) % m == Pow(a.val, k0) % m
      decreases exp
    {
      ghost var k: nat := exp;
      ghost var j: nat := exp / 2;
      ghost var odd := exp % 2 == 1;
      ghost var r0 := result;
      ghost var b0 := base;
      if exp % 2 == 1 {
        result := MulAssign(result, base, m);
        OperatorsAreResidues(r0, b0, m);
      }
      base := MulAssign(base, base, m);
      OperatorsAreResidues(b0, b0, m);
      exp := exp / 2;
      PowStep(r0.val, b0.val, j, odd, m);
      assert k == 2 * j + (if odd then 1 else 0);
    }
    assert (result.val * 1) % m == Pow(a.val, k0) % m;
    DivModUnique(result.val, m, 0, result.val);
  }

  /** The creation test cases: `i64::MIN` and `i64::MAX` normalise to the documented values. */
  /**
   * `from_str`: parses the text as an `i64` and reduces it with `new`; a
   * parse error is passed through unchanged. Parsing the decimal text of a
   * residue gives the residue back.
   */
  method FromStr(s: string, m: int) returns (r: Result<Modulo, IntParse.IntErrorKind>)
    requires m > 0
    ensures IntParse.ParseI64(s).Err? ==> r == Err(IntParse.ParseI64(s).error)
    ensures IntParse.ParseI64(s).Ok? ==> r.Ok? && Normalised(r.value, m) && (IntParse.ParseI64(s).value - r.value.val) % m == 0
    ensures forall a :: Normalised(a, m) && InI64(a.val) && s == IntParse.ToDecimal(a.val) ==> r == Ok(a)
  {
    forall a | Normalised(a, m) && InI64(a.val) && s == IntParse.ToDecimal(a.val)
      ensures IntParse.ParseI64(s) == Ok(a.val)
    {
      IntParse.ParseDisplay(a.val);
    }
    match IntParse.ParseI64(s)
    case Err(e) =>
      r := Err(e);
    case Ok(v) =>
      var x := New(v, m);
      r := Ok(x);
  }

  /** The plain values of a slice of residues. */
  function Vals(xs: seq<Modulo>): (vs: seq<int>)
    ensures |vs| == |xs| && forall i :: 0 <= i < |xs| ==> vs[i] == xs[i].val
  {
    seq(|xs|, i requires 0 <= i < |xs| => xs[i].val)
  }

  /**
   * `max_sum` on a slice of residues: the maximum subarray sum of the plain
   * values, reduced. Since residues are never negative, that is the residue
   * of the sum of the whole slice.
   */
  method MaxSumOf(xs: seq<Modulo>, m: int) returns (r: Modulo)
    requires m > 0
    ensures Normalised(r, m)
    ensures exists best :: MaxSum.IsMaxSubarraySum(Vals(xs), best) && r == Residue(best, m)
    ensures (forall i :: 0 <= i < |xs| ==> Normalised(xs[i], m)) ==> r == Residue(MaxSum.Sum(Vals(xs)), m)
  {
    var best := MaxSum.MaxSumFromIter(Vals(xs));
    r := New(best, m);
    if forall i :: 0 <= i < |xs| ==> Normalised(xs[i], m) {
      MaxSum.AllNonNegative(Vals(xs));
      MaxSum.MaxSubarraySumUnique(Vals(xs), best, MaxSum.Sum(Vals(xs)));
    }
  }

  lemma NewExamples()
    ensures Residue(I64_MIN, MOD7).val == 708_828_003
    ensures Residue(I64_MAX, MOD7).val == 291_172_003
    ensures Residue(-2_000_000_014, MOD7).val == 0
    ensures Residue(-1, MOD7).val == 1_000_000_006
  {
    DivModUnique(I64_MIN, MOD7, -9223371973, 708_828_003);
    DivModUnique(I64_MAX, MOD7, 9223371972, 291_172_003);
    DivModUnique(-2_000_000_014, MOD7, -2, 0);
    DivModUnique(-1, MOD7, -1, 1_000_000_006);
  }

  /** The inverse test case: the inverse of 2 modulo `1_000_000_007` is `500000004`. */
  lemma InverseExample()
    ensures Inverse(Modulo(2), MOD7) == Some(Modulo(500000004))
  {
    assert Rem(2, 1) == 0 && Quot(2, 1) == 2;
    assert Gcd.GcdExtended(2, 1) == (1, 0, 1);
    assert Rem(MOD7, 2) == 1 && Quot(MOD7, 2) == 500000003;
    assert Gcd.GcdExtended(MOD7, 2) == (1, 1, -500000003);
    assert Rem(2, MOD7) == 2 && Quot(2, MOD7) == 0;
    assert Gcd.GcdExtended(2, MOD7) == (1, -500000003, 1);
    assert Rem(-500000003, MOD7) == -500000003;
    DivModUnique(-500000003, MOD7, -1, 500000004);
  }
}
