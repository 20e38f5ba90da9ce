/**
 * Divisors of a number from its prime factorisation (`all_divisors`,
 * `all_divisors_sorted`, `generate_divisors` and `generate_combinations` in
 * `src/math/primes.rs`). The divisors are every product that takes one power
 * `p^0 … p^count` of each prime factor; the proofs below show that this
 * lists each divisor of `n` exactly once, which rests on Euclid's lemma.
 */
module Divisors {
  import opened Arith
  import opened Gcd
  import opened Primes
  import Sorting

  // ---------------------------------------------------------------------
  // Euclid's lemma and what follows from it
  // ---------------------------------------------------------------------

  /** A prime that does not divide `a` has Bézout coefficients with it. */
  lemma CoprimeToPrime(p: int, a: int) returns (x: int, y: int)
    requires IsPrime(p) && a >= 0 && !Divides(p, a)
    ensures p * x + a * y == 1
  {
    var r := GcdExtended(p, a);
    GcdDividesBoth(p, a);
    GcdNonNeg(p, a);
    var g := r.0;
    DivisorAtMost(p, g);
    assert !(2 <= g < p);
    assert g != p;
    assert g == 1;
    x, y := r.1, r.2;
  }

  /** `u` divides `v * w` and has Bézout coefficients with `v`, so it divides `w`. */
  lemma Gauss(u: int, v: int, w: int, x: int, y: int)
    requires u != 0 && u * x + v * y == 1 && Divides(u, v * w)
    ensures Divides(u, w)
  {
    calc {
      w;
      (u * x + v * y) * w;
      u * (x * w) + (v * w) * y;
    }
    DividesMul(u, 1);
    DividesLinear(u, u, v * w, x * w, y);
  }

  /** Euclid's lemma: a prime dividing a product divides one of the factors. */
  lemma Euclid(p: int, a: int, b: int)
    requires IsPrime(p) && a >= 0 && Divides(p, a * b)
    ensures Divides(p, a) || Divides(p, b)
  {
    if !Divides(p, a) {
      var x, y := CoprimeToPrime(p, a);
      Gauss(p, a, b, x, y);
    }
  }

  /** A prime dividing a power of a prime is that prime. */
  lemma {:induction false} PrimeDividesPrimePower(p: int, q: int, c: nat)
    requires IsPrime(p) && IsPrime(q) && c >= 1 && Divides(p, Pow(q, c))
    ensures p == q
    decreases c
  {
    if c > 1 && !Divides(p, q) {
      PowNonNeg(q, c - 1);
      Euclid(p, q, Pow(q, c - 1));
      PrimeDividesPrimePower(p, q, c - 1);
    } else {
      DivisorAtMost(q, p);
      assert !(2 <= p < q);
    }
  }

  /** A prime that is none of the factors does not divide their product. */
  lemma {:induction false} PrimeNotDividingProduct(p: int, fs: seq<PrimeFactor>)
    requires IsPrime(p) && WellFormedFactors(fs)
    requires forall k :: 0 <= k < |fs| ==> fs[k].factor != p
    ensures !Divides(p, Product(fs))
  {
    if |fs| == 0 {
      DivModUnique(1, p, 0, 1);
    } else {
      PrimeNotDividingProduct(p, fs[1..]);
      PowNonNeg(fs[0].factor, fs[0].count);
      if Divides(p, Product(fs)) {
        Euclid(p, Pow(fs[0].factor, fs[0].count), Product(fs[1..]));
        PrimeDividesPrimePower(p, fs[0].factor, fs[0].count);
        assert false;
      }
    }
  }

  lemma {:induction false} PowAdd(b: int, m: nat, n: nat)
    ensures Pow(b, m + n) == Pow(b, m) * Pow(b, n)
    decreases n
  {
    if n > 0 {
      PowAdd(b, m, n - 1);
      calc {
        Pow(b, m + n);
        b * Pow(b, m + n - 1);
        b * (Pow(b, m) * Pow(b, n - 1));
        Pow(b, m) * (b * Pow(b, n - 1));
      }
    }
  }

  /** `a` splits into a power of `p` and a part `p` does not divide. */
  lemma {:induction false} SplitPower(p: int, a: int) returns (e: nat, b: int)
    requires p >= 2 && a >= 1
    ensures a == Pow(p, e) * b && b >= 1 && !Divides(p, b)
    decreases a
  {
    if a % p != 0 {
      e, b := 0, a;
    } else {
      var a' := a / p;
      assert a == p * a';
      assert a' >= 1;
      MulAtLeast(p - 1, a');
      var e', b' := SplitPower(p, a');
      e, b := e' + 1, b';
      calc {
        a;
        p * (Pow(p, e') * b');
        (p * Pow(p, e')) * b';
      }
    }
  }

  /** A divisor of `p^c * r` that `p` does not divide is a divisor of `r`. */
  lemma {:induction false} CancelPrimePower(p: int, b: int, c: nat, r: int)
    requires IsPrime(p) && b >= 1 && !Divides(p, b) && Divides(b, Pow(p, c) * r)
    ensures Divides(b, r)
    decreases c
  {
    if c > 0 {
      assert Pow(p, c) * r == p * (Pow(p, c - 1) * r);
      var x, y := CoprimeToPrime(p, b);
      Gauss(b, p, Pow(p, c - 1) * r, y, x);
      CancelPrimePower(p, b, c - 1, r);
    }
  }

  /** Cancelling a positive factor keeps divisibility. */
  lemma CancelFactor(k: int, x: int, y: int)
    requires k >= 1 && Divides(k * x, k * y)
    ensures Divides(x, y)
  {
    if x == 0 {
      assert k * y == 0;
    } else {
      DividesCofactor(k * x, k * y);
      var t :| k * y == (k * x) * t;
      assert k * y == k * (x * t);
      assert y == x * t;
      DividesMul(x, t);
    }
  }

  /** The power of `p` in a divisor of `p^c * r` is at most `c` when `p` does not divide `r`. */
  lemma {:induction false} PowerBound(p: int, e: nat, c: nat, r: int)
    requires IsPrime(p) && !Divides(p, r) && Divides(Pow(p, e), Pow(p, c) * r)
    ensures e <= c
    decreases c
  {
    if e > 0 {
      var pe := Pow(p, e - 1);
      assert Pow(p, e) == p * pe;
      if c == 0 {
        DividesMul(p, pe);
        assert Pow(p, c) * r == r;
        DividesTrans(p, Pow(p, e), r);
        assert false;
      } else {
        var rest := Pow(p, c - 1) * r;
        assert Pow(p, c) * r == p * rest by { MulAssociates(p, Pow(p, c - 1), r); }
        CancelFactor(p, pe, rest);
        PowerBound(p, e - 1, c - 1, r);
      }
    }
  }

  lemma DividesBoth(a: int, b: int, c: int, d: int)
    requires Divides(a, b) && Divides(c, d)
    ensures Divides(a * c, b * d)
  {
    DividesCofactor(a, b);
    DividesCofactor(c, d);
    var k :| b == a * k;
    var l :| d == c * l;
    assert b * d == (a * c) * (k * l);
    DividesMul(a * c, k * l);
  }

  // ---------------------------------------------------------------------
  // generate_combinations
  // ---------------------------------------------------------------------

  /** `factor^0, …, factor^count`: the powers listed for one prime factor. */
  function Powers(f: PrimeFactor): seq<int> {
    seq(f.count + 1, e requires 0 <= e => Pow(f.factor, e))
  }

  function FactorPowers(fs: seq<PrimeFactor>): seq<seq<int>> {
    seq(|fs|, k requires 0 <= k < |fs| => Powers(fs[k]))
  }

  /** The number of combinations: the product of the list lengths from `i` on. */
  function Lengths(fp: seq<seq<int>>, i: nat): nat
    requires i <= |fp|
    decreases |fp| - i
  {
    if i == |fp| then 1 else |fp[i]| * Lengths(fp, i + 1)
  }

  /**
   * Every product `product * x_i * … * x_last` taking one entry of each
   * list from `i` on, the choices for list `i` varying slowest.
   */
  function Combinations(fp: seq<seq<int>>, i: nat, product: int): (r: seq<int>)
    requires i <= |fp|
    ensures |r| == Lengths(fp, i)
    decreases |fp| - i, if i < |fp| then |fp[i]| + 1 else 0
  {
    if i == |fp| then [product] else CombinationsUpTo(fp, i, product, |fp[i]|)
  }

  /** The combinations whose entry of list `i` is one of its first `j`. */
  function CombinationsUpTo(fp: seq<seq<int>>, i: nat, product: int, j: nat): (r: seq<int>)
    requires i < |fp| && j <= |fp[i]|
    ensures |r| == j * Lengths(fp, i + 1)
    decreases |fp| - i, j
  {
    if j == 0 then []
    else CombinationsUpTo(fp, i, product, j - 1) + Combinations(fp, i + 1, product * fp[i][j - 1])
  }

  /** `generate_combinations(factor_powers, i, product)`. */
  method GenerateCombinations(fp: seq<seq<int>>, i: nat, product: int) returns (r: seq<int>)
    requires i <= |fp|
    ensures r == Combinations(fp, i, product)
    ensures |r| == Lengths(fp, i)
    decreases |fp| - i
  {
    if i == |fp| {
      return [product];
    }
    r := [];
    for j := 0 to |fp[i]|
      invariant r == CombinationsUpTo(fp, i, product, j)
    {
      var sub := GenerateCombinations(fp, i + 1, product * fp[i][j]);
      r := r + sub;
    }
  }

  /** An entry of the first `j` blocks lies in one of them. */
  lemma {:induction false} BlockOf(fp: seq<seq<int>>, i: nat, product: int, j: nat, x: int) returns (e: nat)
    requires i < |fp| && j <= |fp[i]| && x in CombinationsUpTo(fp, i, product, j)
    ensures e < j && x in Combinations(fp, i + 1, product * fp[i][e])
    decreases j
  {
    if x in Combinations(fp, i + 1, product * fp[i][j - 1]) {
      e := j - 1;
    } else {
      e := BlockOf(fp, i, product, j - 1, x);
    }
  }

  /** Each of the first `j` blocks is part of the combinations up to `j`. */
  lemma {:induction false} InBlock(fp: seq<seq<int>>, i: nat, product: int, j: nat, e: nat, x: int)
    requires i < |fp| && e < j <= |fp[i]| && x in Combinations(fp, i + 1, product * fp[i][e])
    ensures x in CombinationsUpTo(fp, i, product, j)
    decreases j
  {
    if e < j - 1 {
      InBlock(fp, i, product, j - 1, e, x);
    }
  }

  // ---------------------------------------------------------------------
  // The combinations of prime powers are exactly the divisors
  // ---------------------------------------------------------------------

  /** The product of the factors from `i` on. */
  function ProductFrom(fs: seq<PrimeFactor>, i: nat): int
    requires i <= |fs|
  {
    Product(fs[i..])
  }

  lemma ProductFromStep(fs: seq<PrimeFactor>, i: nat)
    requires i < |fs|
    ensures ProductFrom(fs, i) == Pow(fs[i].factor, fs[i].count) * ProductFrom(fs, i + 1)
  {
    assert fs[i..][1..] == fs[i + 1..];
  }

  lemma WellFormedSuffix(fs: seq<PrimeFactor>, i: nat)
    requires WellFormedFactors(fs) && i <= |fs|
    ensures WellFormedFactors(fs[i..])
    ensures forall k :: 0 <= k < |fs[i..]| ==> fs[i..][k].factor >= 1
  {
  }

  /** The factor at `i` divides none of the later factors' product. */
  lemma LaterFactorsCoprime(fs: seq<PrimeFactor>, i: nat)
    requires WellFormedFactors(fs) && i < |fs|
    ensures !Divides(fs[i].factor, ProductFrom(fs, i + 1))
  {
    WellFormedSuffix(fs, i + 1);
    var rest := fs[i + 1..];
    assert forall k :: 0 <= k < |rest| ==> rest[k].factor != fs[i].factor by {
      forall k | 0 <= k < |rest|
        ensures rest[k].factor != fs[i].factor
      {
        assert rest[k] == fs[i + 1 + k];
      }
    }
    PrimeNotDividingProduct(fs[i].factor, rest);
  }

  /** Every combination is `product` times a divisor of the remaining product. */
  lemma {:induction false} CombinationIsDivisor(fs: seq<PrimeFactor>, i: nat, product: int, x: int) returns (a: int)
    requires WellFormedFactors(fs) && i <= |fs|
    requires x in Combinations(FactorPowers(fs), i, product)
    ensures x == product * a && a >= 1 && Divides(a, ProductFrom(fs, i))
    decreases |fs| - i
  {
    var fp := FactorPowers(fs);
    if i == |fs| {
      a := 1;
      DividesMul(1, 1);
    } else {
      var p, c := fs[i].factor, fs[i].count;
      var e := BlockOf(fp, i, product, |fp[i]|, x);
      assert fp[i][e] == Pow(p, e);
      var a' := CombinationIsDivisor(fs, i + 1, product * Pow(p, e), x);
      a := Pow(p, e) * a';
      PowPositive(p, e);
      MulAtLeast(Pow(p, e), a');
      PowAdd(p, e, c - e);
      DividesMul(Pow(p, e), Pow(p, c - e));
      DividesBoth(Pow(p, e), Pow(p, c), a', ProductFrom(fs, i + 1));
      ProductFromStep(fs, i);
    }
  }

  /** Every divisor of the remaining product, times `product`, is a combination. */
  lemma {:induction false} DivisorIsCombination(fs: seq<PrimeFactor>, i: nat, product: int, a: int)
    requires WellFormedFactors(fs) && i <= |fs|
    requires a >= 1 && Divides(a, ProductFrom(fs, i))
    ensures product * a in Combinations(FactorPowers(fs), i, product)
    decreases |fs| - i
  {
    var fp := FactorPowers(fs);
    if i == |fs| {
      DivisorAtMost(1, a);
    } else {
      var p, c := fs[i].factor, fs[i].count;
      ProductFromStep(fs, i);
      LaterFactorsCoprime(fs, i);
      var e, b := SplitDivisor(p, c, ProductFrom(fs, i + 1), a);
      DivisorIsCombination(fs, i + 1, product * Pow(p, e), b);
      assert fp[i][e] == Pow(p, e);
      assert (product * Pow(p, e)) * b == product * a by { MulAssociates(product, Pow(p, e), b); }
      InBlock(fp, i, product, |fp[i]|, e, product * a);
    }
  }

  /** A divisor of `p^c * r`, with `p` a prime not dividing `r`, is `p^e * b` with `e <= c` and `b` dividing `r`. */
  lemma SplitDivisor(p: int, c: nat, r: int, a: int) returns (e: nat, b: int)
    requires IsPrime(p) && !Divides(p, r) && a >= 1 && Divides(a, Pow(p, c) * r)
    ensures a == Pow(p, e) * b && b >= 1 && e <= c && Divides(b, r)
  {
    e, b := SplitPower(p, a);
    PowPositive(p, e);
    DividesMul(b, Pow(p, e));
    assert a == b * Pow(p, e);
    DividesTrans(b, a, Pow(p, c) * r);
    CancelPrimePower(p, b, c, r);
    DividesMul(Pow(p, e), b);
    DividesTrans(Pow(p, e), a, Pow(p, c) * r);
    PowerBound(p, e, c, r);
  }


  /** No entry appears twice. */
  ghost predicate Distinct(s: seq<int>) {
    forall k, l :: 0 <= k < l < |s| ==> s[k] != s[l]
  }

  lemma DistinctConcat(s: seq<int>, t: seq<int>)
    requires Distinct(s) && Distinct(t) && forall x :: x in s ==> x !in t
    ensures Distinct(s + t)
  {
    forall k, l | 0 <= k < l < |s + t|
      ensures (s + t)[k] != (s + t)[l]
    {
      if k < |s| && l >= |s| {
        assert (s + t)[k] in s && (s + t)[l] == t[l - |s|];
      }
    }
  }

  lemma ExtraPower(k: int, t: int, a1: int, a2: int)
    requires k >= 1 && k * a1 == (k * t) * a2
    ensures a1 == t * a2
  {
    assert k * a1 == k * (t * a2);
    assert k * (a1 - t * a2) == 0;
  }

  /** Equal multiples of different powers of `p`: the one with the smaller power is a multiple of `p`. */
  lemma SmallerPowerTakesP(p: int, product: int, e1: nat, e2: nat, a1: int, a2: int)
    requires p >= 2 && product >= 1 && e1 < e2
    requires (product * Pow(p, e1)) * a1 == (product * Pow(p, e2)) * a2
    ensures Divides(p, a1)
  {
    var q := Pow(p, e2 - e1);
    var k := product * Pow(p, e1);
    PowAdd(p, e1, e2 - e1);
    assert product * Pow(p, e2) == k * q by { MulAssociates(product, Pow(p, e1), q); }
    PowPositive(p, e1);
    MulAtLeast(product, Pow(p, e1));
    ExtraPower(k, q, a1, a2);
    var rest := Pow(p, e2 - e1 - 1);
    assert q == p * rest;
    assert a1 == p * (rest * a2) by { MulAssociates(p, rest, a2); }
    DividesMul(p, rest * a2);
  }


  /** Blocks of different powers of `p` share no entry. */
  lemma BlocksDisjoint(fs: seq<PrimeFactor>, i: nat, product: int, e1: nat, e2: nat, x: int)
    requires WellFormedFactors(fs) && i < |fs| && product >= 1 && e1 < e2
    requires x in Combinations(FactorPowers(fs), i + 1, product * Pow(fs[i].factor, e1))
    ensures x !in Combinations(FactorPowers(fs), i + 1, product * Pow(fs[i].factor, e2))
  {
    var p := fs[i].factor;
    var a1 := CombinationIsDivisor(fs, i + 1, product * Pow(p, e1), x);
    if x in Combinations(FactorPowers(fs), i + 1, product * Pow(p, e2)) {
      var a2 := CombinationIsDivisor(fs, i + 1, product * Pow(p, e2), x);
      SmallerPowerTakesP(p, product, e1, e2, a1, a2);
      DividesTrans(p, a1, ProductFrom(fs, i + 1));
      LaterFactorsCoprime(fs, i);
      assert false;
    }
  }

  /** The combinations from `i` on are distinct for every positive starting product. */
  ghost predicate AllDistinctFrom(fs: seq<PrimeFactor>, i: nat)
    requires i <= |fs|
  {
    forall q :: q >= 1 ==> Distinct(Combinations(FactorPowers(fs), i, q))
  }

  lemma {:induction false} DistinctUpTo(fs: seq<PrimeFactor>, i: nat, product: int, j: nat)
    requires WellFormedFactors(fs) && i < |fs| && product >= 1 && j <= fs[i].count + 1
    requires AllDistinctFrom(fs, i + 1)
    ensures Distinct(CombinationsUpTo(FactorPowers(fs), i, product, j))
    decreases j
  {
    var fp := FactorPowers(fs);
    var p := fs[i].factor;
    if j > 0 {
      var prev := j - 1;
      DistinctUpTo(fs, i, product, prev);
      PowPositive(p, prev);
      MulAtLeast(product, Pow(p, prev));
      assert fp[i][prev] == Pow(p, prev);
      var block := Combinations(fp, i + 1, product * fp[i][prev]);
      forall x | x in CombinationsUpTo(fp, i, product, prev)
        ensures x !in block
      {
        var e := BlockOf(fp, i, product, prev, x);
        assert fp[i][e] == Pow(p, e);
        BlocksDisjoint(fs, i, product, e, prev, x);
      }
      DistinctConcat(CombinationsUpTo(fp, i, product, prev), block);
    }
  }

  lemma {:induction false} CombinationsDistinct(fs: seq<PrimeFactor>, i: nat, product: int)
    requires WellFormedFactors(fs) && i <= |fs| && product >= 1
    ensures Distinct(Combinations(FactorPowers(fs), i, product))
    decreases |fs| - i
  {
    if i < |fs| {
      var next := i + 1;
      forall q | q >= 1
        ensures Distinct(Combinations(FactorPowers(fs), next, q))
      {
        CombinationsDistinct(fs, next, q);
      }
      DistinctUpTo(fs, i, product, fs[i].count + 1);
    }
  }

  // ---------------------------------------------------------------------
  // generate_divisors, all_divisors, all_divisors_sorted
  // ---------------------------------------------------------------------

  /** The number of divisors: the product of `count + 1` over the factors. */
  function DivisorCount(fs: seq<PrimeFactor>): nat {
    if |fs| == 0 then 1 else (fs[0].count + 1) * DivisorCount(fs[1..])
  }

  lemma {:induction false} LengthsOfPowers(fs: seq<PrimeFactor>, i: nat)
    requires i <= |fs|
    ensures Lengths(FactorPowers(fs), i) == DivisorCount(fs[i..])
    decreases |fs| - i
  {
    if i < |fs| {
      LengthsOfPowers(fs, i + 1);
      assert fs[i..][1..] == fs[i + 1..];
    }
  }

  /** `generate_divisors(factors)`: each divisor of the product exactly once. */
  method GenerateDivisors(fs: seq<PrimeFactor>) returns (ds: seq<int>)
    ensures |ds| == DivisorCount(fs)
    ensures WellFormedFactors(fs) ==> Distinct(ds)
    ensures WellFormedFactors(fs) ==> forall d :: d in ds <==> d >= 1 && Divides(d, Product(fs))
  {
    var fp := FactorPowers(fs);
    ds := GenerateCombinations(fp, 0, 1);
    LengthsOfPowers(fs, 0);
    assert fs[0..] == fs;
    if WellFormedFactors(fs) {
      CombinationsDistinct(fs, 0, 1);
      forall d
        ensures d in ds <==> d >= 1 && Divides(d, Product(fs))
      {
        if d in ds {
          var a := CombinationIsDivisor(fs, 0, 1, d);
        }
        if d >= 1 && Divides(d, Product(fs)) {
          DivisorIsCombination(fs, 0, 1, d);
        }
      }
    }
  }

  /**
   * `all_divisors(n)`: every divisor of `n` exactly once. `n == 0` has no
   * prime factors and gives `[1]`.
   */
  method AllDivisors(n: nat) returns (ds: seq<int>)
    ensures n >= 1 ==> Distinct(ds) && forall d :: d in ds <==> d >= 1 && Divides(d, n)
    ensures n == 0 ==> ds == [1]
  {
    var fs := Factorize(n);
    ds := GenerateDivisors(fs);
    if n == 0 {
      assert |ds| == 1 && ds[0] in ds;
      DivisorAtMost(1, ds[0]);
    }
  }

  lemma {:induction false} DistinctMultiset(s: seq<int>, x: int)
    requires Distinct(s)
    ensures multiset(s)[x] <= 1
  {
    if |s| > 0 {
      var t := s[1..];
      assert s == [s[0]] + t;
      DistinctMultiset(t, x);
      assert s[0] !in t;
    }
  }

  lemma RepeatInMultiset(s: seq<int>, k: int, l: int)
    requires 0 <= k < l < |s| && s[k] == s[l]
    ensures multiset(s)[s[k]] >= 2
  {
    assert s == s[..l] + s[l..];
    assert s[k] in s[..l];
    assert s[l] in s[l..];
  }

  /** `all_divisors_sorted(n)`: the divisors of `n` in strictly ascending order. */
  method AllDivisorsSorted(n: nat) returns (ds: seq<int>)
    ensures n >= 1 ==> Sorting.StrictlyAscending(ds)
    ensures n >= 1 ==> forall d :: d in ds <==> d >= 1 && Divides(d, n)
    ensures n == 0 ==> ds == [1]
  {
    var unsorted := AllDivisors(n);
    ds := Sorting.Sorted(unsorted);
    if n >= 1 {
      forall d
        ensures d in ds <==> d in unsorted
      {
        assert d in ds <==> multiset(ds)[d] > 0;
      }
      forall k, l | 0 <= k < l < |ds|
        ensures ds[k] < ds[l]
      {
        if ds[k] == ds[l] {
          RepeatInMultiset(ds, k, l);
          DistinctMultiset(unsorted, ds[k]);
        }
      }
    } else {
      assert multiset(ds) == multiset([1]);
      assert ds[0] in multiset(ds);
      assert ds == [ds[0]];
    }
  }
}
