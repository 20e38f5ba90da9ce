/**
 * Integer arithmetic shared by the numeric modules: Rust's truncating `/`
 * and `%`, powers, divisibility, residues and the integer square root.
 * Dafny's own `/` and `%` are Euclidean; Rust's round toward zero, so the
 * models of Rust code use `Quot` and `Rem` below wherever an operand can be
 * negative.
 */
module Arith {

  const I64_MIN: int := -0x8000_0000_0000_0000
  const I64_MAX: int := 0x7fff_ffff_ffff_ffff

  predicate InI64(x: int) { I64_MIN <= x <= I64_MAX }

  function Abs(x: int): nat { if x < 0 then -x else x }

  function Min(a: int, b: int): int { if a <= b then a else b }

  function Max(a: int, b: int): int { if a >= b then a else b }

  /** Rust's `a / b` on signed integers: the quotient rounded toward zero. */
  function Quot(a: int, b: int): int
    requires b != 0
  {
    var q := Abs(a) / Abs(b);
    if (a < 0) == (b < 0) then q else -q
  }

  /** Rust's `a % b` on signed integers: the remainder has the sign of `a`. */
  function Rem(a: int, b: int): (r: int)
    requires b != 0
    ensures a == Quot(a, b) * b + r
    ensures Abs(r) < Abs(b)
    ensures a >= 0 ==> r >= 0
    ensures a <= 0 ==> r <= 0
  {
    var r := Abs(a) % Abs(b);
    QuotTimesDivisor(a, b);
    if a < 0 then -r else r
  }

  /** The quotient times the divisor is `|a| / |b| * |b|` with the sign of `a`. */
  lemma QuotTimesDivisor(a: int, b: int)
    requires b != 0
    ensures Abs(a) == Abs(a) / Abs(b) * Abs(b) + Abs(a) % Abs(b)
    ensures Quot(a, b) * b == if a < 0 then -(Abs(a) / Abs(b) * Abs(b)) else Abs(a) / Abs(b) * Abs(b)
  {
    var q := Abs(a) / Abs(b);
    NegMul(q, Abs(b));
  }

  lemma NegMul(q: int, x: int)
    ensures (-q) * x == -(q * x) && q * (-x) == -(q * x) && (-q) * (-x) == q * x
  {
  }

  /** On non-negative operands Rust's and Dafny's operators agree. */
  lemma QuotRemNonNeg(a: int, b: int)
    requires a >= 0 && b > 0
    ensures Quot(a, b) == a / b && Rem(a, b) == a % b
  {
  }

  function Pow(b: int, e: nat): int
    decreases e
  {
    if e == 0 then 1 else b * Pow(b, e - 1)
  }

  /** `d` divides `n`; `0` divides only `0`. */
  predicate Divides(d: int, n: int) {
    if d == 0 then n == 0 else n % d == 0
  }

  /** Euclidean division is unique: the quotient and remainder are pinned down. */
  lemma DivModUnique(y: int, m: int, q: int, r: int)
    requires m != 0 && y == q * m + r && 0 <= r < Abs(m)
    ensures y / m == q && y % m == r
  {
    var t := q - y / m;
    assert t * m == y % m - r;
    if t != 0 {
      AbsMul(t, m);
      MulAtLeast(Abs(t), Abs(m));
      assert false;
    }
  }

  /** Adding the divisor adds one to the quotient. */
  lemma DivPlusDivisor(x: nat, step: nat)
    requires step >= 1
    ensures (x + step) / step == x / step + 1
  {
    DivModUnique(x + step, step, x / step + 1, x % step);
  }

  lemma AbsMul(a: int, b: int)
    ensures Abs(a * b) == Abs(a) * Abs(b)
  {
    if a < 0 && b < 0 {
      assert a * b == (-a) * (-b);
    } else if a < 0 {
      assert a * b == -((-a) * b);
    } else if b < 0 {
      assert a * b == -(a * (-b));
    }
  }

  lemma MulAtLeast(x: nat, y: nat)
    requires x >= 1
    ensures x * y >= y
  {
    assert x * y == (x - 1) * y + y;
  }

  lemma DividesMul(d: int, k: int)
    ensures Divides(d, d * k)
  {
    if d != 0 {
      DivModUnique(d * k, d, k, 0);
    }
  }

  /** A divisor's cofactor. */
  lemma DividesCofactor(d: int, n: int)
    requires Divides(d, n)
    ensures exists k :: n == d * k
  {
    if d != 0 {
      assert n == d * (n / d);
    } else {
      assert n == d * 0;
    }
  }

  lemma DividesLinear(d: int, a: int, b: int, x: int, y: int)
    requires Divides(d, a) && Divides(d, b)
    ensures Divides(d, a * x + b * y)
  {
    DividesCofactor(d, a);
    DividesCofactor(d, b);
    var ka :| a == d * ka;
    var kb :| b == d * kb;
    assert a * x + b * y == d * (ka * x + kb * y);
    DividesMul(d, ka * x + kb * y);
  }

  lemma DividesTrans(a: int, b: int, c: int)
    requires Divides(a, b) && Divides(b, c)
    ensures Divides(a, c)
  {
    DividesCofactor(a, b);
    DividesCofactor(b, c);
    var k1 :| b == a * k1;
    var k2 :| c == b * k2;
    assert c == a * (k1 * k2);
    DividesMul(a, k1 * k2);
  }

  /** Remainders add and multiply like the numbers they come from. */
  lemma ModAdd(a: int, b: int, m: int)
    requires m > 0
    ensures (a + b) % m == (a % m + b % m) % m
  {
    var s := a % m + b % m;
    assert a + b == (a / m + b / m + s / m) * m + s % m;
    DivModUnique(a + b, m, a / m + b / m + s / m, s % m);
  }

  lemma ModMul(a: int, b: int, m: int)
    requires m > 0
    ensures (a * b) % m == ((a % m) * (b % m)) % m
  {
    var qa, ra, qb, rb := a / m, a % m, b / m, b % m;
    var p := ra * rb;
    var k := qa * qb * m + qa * rb + ra * qb;
    MulExpand(qa, ra, qb, rb, m);
    assert a * b == k * m + p;
    ModMultiple(p, k, m);
  }

  lemma MulExpand(qa: int, ra: int, qb: int, rb: int, m: int)
    ensures (qa * m + ra) * (qb * m + rb) == (qa * qb * m + qa * rb + ra * qb) * m + ra * rb
  {
  }

  lemma ModOfMod(a: int, m: int)
    requires m > 0
    ensures (a % m) % m == a % m
  {
    DivModUnique(a % m, m, 0, a % m);
  }

  lemma ModMultiple(a: int, k: int, m: int)
    requires m > 0
    ensures (a + k * m) % m == a % m
  {
    DivModUnique(a + k * m, m, a / m + k, a % m);
  }

  /** Rust's remainder is congruent to its dividend. */
  lemma RemCongruent(x: int, m: int)
    requires m > 0
    ensures Rem(x, m) % m == x % m
  {
    var q := Quot(x, m);
    assert x == q * m + Rem(x, m);
    assert Rem(x, m) == x + (-q) * m;
    ModMultiple(x, -q, m);
  }

  /** Reducing one factor first does not change a product's residue. */
  lemma MulModRight(a: int, x: int, m: int)
    requires m > 0
    ensures (a * (x % m)) % m == (a * x) % m
  {
    ModMul(a, x % m, m);
    ModOfMod(x, m);
    ModMul(a, x, m);
  }

  /** The residue of `v` differs from `v` by a multiple of `m`, and is `v` on `[0, m)`. */
  lemma ResidueFacts(v: int, m: int)
    requires m > 0
    ensures (v - v % m) % m == 0
    ensures 0 <= v < m ==> v % m == v
  {
    DivModUnique(v - v % m, m, v / m, 0);
    if 0 <= v < m {
      DivModUnique(v, m, 0, v);
    }
  }

  lemma PowNonNeg(b: int, e: nat)
    requires b >= 0
    ensures Pow(b, e) >= 0
  {
    if e > 0 {
      PowNonNeg(b, e - 1);
    }
  }

  lemma PowPositive(b: int, e: nat)
    requires b > 0
    ensures Pow(b, e) > 0
  {
    if e > 0 {
      PowPositive(b, e - 1);
    }
  }

  /** On non-negative bases `Pow(_, k)` is monotone, strictly so when `k >= 1`. */
  lemma PowMonotone(x: int, y: int, k: nat)
    requires 0 <= x <= y
    ensures Pow(x, k) <= Pow(y, k)
    ensures k >= 1 && x < y ==> Pow(x, k) < Pow(y, k)
  {
    if k > 0 {
      PowMonotone(x, y, k - 1);
      PowNonNeg(x, k - 1);
      MulLe(x, y, Pow(x, k - 1));
      MulLe(Pow(x, k - 1), Pow(y, k - 1), y);
      if x < y {
        if k == 1 {
          assert Pow(x, 0) == 1 == Pow(y, 0);
        } else {
          PowPositive(y, k - 1);
          MulLt(Pow(x, k - 1), Pow(y, k - 1), y);
        }
      }
    }
  }

  lemma MulAssociates(a: int, b: int, c: int)
    ensures a * b * c == a * (b * c)
  {
  }

  lemma MulLe(a: int, b: int, c: int)
    requires a <= b && c >= 0
    ensures a * c <= b * c && c * a <= c * b
  {
  }

  lemma MulLt(a: int, b: int, c: int)
    requires a < b && c > 0
    ensures a * c < b * c && c * a < c * b
  {
  }

  lemma PowExpMonotone(b: int, i: nat, j: nat)
    requires b >= 1 && i <= j
    ensures Pow(b, i) <= Pow(b, j)
    decreases j
  {
    if i < j {
      PowExpMonotone(b, i, j - 1);
      PowPositive(b, j - 1);
      MulAtLeast(b, Pow(b, j - 1));
    }
  }

  /** `b^k` for `k >= 1` is at least `b`, and `b^k >= 0` for `b >= 0`. */
  lemma PowAtLeastBase(b: int, k: nat)
    requires b >= 1 && k >= 1
    ensures Pow(b, k) >= b
  {
    PowExpMonotone(b, 1, k);
  }

  /** `Pow(b * b, k) == Pow(b, 2k)`: squaring the base halves the exponent. */
  lemma PowSquare(b: int, k: nat)
    ensures Pow(b * b, k) == Pow(b, 2 * k)
  {
    if k > 0 {
      PowSquare(b, k - 1);
      assert Pow(b, 2 * k) == b * (b * Pow(b, 2 * k - 2));
    }
  }

  lemma PowOddNeg(x: int, k: nat)
    requires k % 2 == 1
    ensures Pow(-x, k) == -Pow(x, k)
  {
    if k > 1 {
      PowOddNeg(x, k - 2);
      assert Pow(-x, k) == (-x) * ((-x) * Pow(-x, k - 2));
      assert Pow(x, k) == x * (x * Pow(x, k - 2));
    }
  }

  lemma PowEvenNeg(x: int, k: nat)
    requires k % 2 == 0
    ensures Pow(-x, k) == Pow(x, k)
  {
    if k > 1 {
      PowEvenNeg(x, k - 2);
      assert Pow(-x, k) == (-x) * ((-x) * Pow(-x, k - 2));
      assert Pow(x, k) == x * (x * Pow(x, k - 2));
    }
  }

  lemma PowMod(b: int, e: nat, m: int)
    requires m > 0
    ensures Pow(b % m, e) % m == Pow(b, e) % m
  {
    if e > 0 {
      PowMod(b, e - 1, m);
      ModMul(b % m, Pow(b % m, e - 1), m);
      ModMul(b, Pow(b, e - 1), m);
      ModOfMod(b, m);
    }
  }

  /** The integer square root, the floor of the real one. */
  function ISqrt(n: nat): (s: nat)
    ensures s * s <= n < (s + 1) * (s + 1)
  {
    if n == 0 then 0
    else
      var s := ISqrt(n - 1);
      if (s + 1) * (s + 1) <= n then s + 1 else s
  }

  /** Any `s` with `s^2 <= n < (s+1)^2` is the integer square root. */
  lemma ISqrtUnique(n: nat, s: nat)
    requires s * s <= n < (s + 1) * (s + 1)
    ensures ISqrt(n) == s
  {
    var r := ISqrt(n);
    if r < s {
      MulLeBoth(r + 1, s);
    } else if s < r {
      MulLeBoth(s + 1, r);
    }
  }

  lemma MulLeBoth(x: nat, y: nat)
    requires x <= y
    ensures x * x <= y * y
  {
    assert x * x <= x * y <= y * y;
  }

  /** A number with a factor `d` in `[2, n)` has one no larger than its square root. */
  lemma SmallFactor(n: nat, d: nat)
    requires 2 <= d < n && n % d == 0
    ensures exists e :: 2 <= e && e * e <= n && n % e == 0
  {
    var q := n / d;
    assert n == q * d;
    if d * d <= n {
      assert 2 <= d && d * d <= n && n % d == 0;
    } else {
      assert q >= 2;
      assert q * d < d * d;
      assert q <= d;
      assert q * q <= q * d;
      DivModUnique(n, q, d, 0);
      assert 2 <= q && q * q <= n && n % q == 0;
    }
  }
}
