/**
 * Primality, the sieve of Eratosthenes and factorisation
 * (`src/math/primes.rs`). The floating-point square roots the source takes
 * (`(n as f64).sqrt() as usize`) are the integer square root `ISqrt`.
 */
module Primes {
  import opened Arith
  import opened Wrappers

  /** `n` is prime: at least 2 and without a divisor strictly between 1 and `n`. */
  predicate IsPrime(n: int) {
    n >= 2 && forall d :: 2 <= d < n ==> n % d != 0
  }

  /** No `d` in `[2, c)` with `d * d <= j` divides `j`. */
  ghost predicate NoFactorBelow(j: int, c: int) {
    forall d :: 2 <= d < c && d * d <= j ==> j % d != 0
  }

  /** A prime test needs only the divisors up to the square root. */
  lemma PrimeIffNoSmallFactor(n: int)
    requires n >= 2
    ensures IsPrime(n) <==> forall d :: 2 <= d && d * d <= n ==> n % d != 0
  {
    if !IsPrime(n) {
      var d :| 2 <= d < n && n % d == 0;
      SmallFactor(n, d);
    } else {
      forall d | 2 <= d && d * d <= n
        ensures n % d != 0
      {
        MulAtLeast(d, d);
        assert d < d * d || d * d == d;
      }
    }
  }

  /** Every number from 2 on has a prime divisor. */
  lemma {:induction false} PrimeDivisor(n: int) returns (p: int)
    requires n >= 2
    ensures IsPrime(p) && p <= n && n % p == 0
    decreases n
  {
    if IsPrime(n) {
      p := n;
    } else {
      var d :| 2 <= d < n && n % d == 0;
      p := PrimeDivisor(d);
      DividesTrans(p, d, n);
    }
  }

  /** `is_prime`: false below 2; otherwise tries every `i` with `i * i <= n`. */
  method IsPrimeTest(n: int) returns (r: bool)
    ensures r == IsPrime(n)
  {
    if n <= 1 {
      return false;
    }
    var i := 2;
    while i * i <= n
      invariant 2 <= i
      invariant forall d :: 2 <= d < i ==> n % d != 0
      decreases n - i
    {
      if n % i == 0 {
        PrimeIffNoSmallFactor(n);
        return false;
      }
      MulAtLeast(i, i);
      i := i + 1;
    }
    PrimeIffNoSmallFactor(n);
    forall d | 2 <= d && d * d <= n
      ensures n % d != 0
    {
      if d >= i {
        MulLeBoth(i, d);
      }
    }
    return true;
  }

  /*
   * The sieve. `Sieved(s, c)` is the state after every number below `c` has
   * crossed out its multiples from its own square on.
   */

  ghost predicate Sieved(s: seq<bool>, c: int) {
    forall j :: 0 <= j < |s| ==> (s[j] <==> j >= 2 && NoFactorBelow(j, c))
  }

  /** `j` lies strictly between two consecutive multiples of `i`. */
  lemma NotMultiple(i: int, j: int, x: int)
    requires i > 0 && j % i == 0 && j < x < j + i
    ensures x % i != 0
  {
    var q := j / i;
    DivModUnique(x, i, q, x - j);
  }

  /** Crosses out the multiples of `i` from `i * i` to `n`. */
  method CrossOut(nums: array<bool>, i: int, n: int)
    requires i >= 2 && nums.Length == n + 1
    modifies nums
    ensures forall x :: 0 <= x < nums.Length ==> nums[x] == (old(nums[x]) && !(i * i <= x && x % i == 0))
  {
    var start := i * i;
    var j := start;
    assert j % i == 0 by { DivModUnique(j, i, i, 0); }
    while j <= n
      invariant start <= j && j % i == 0
      invariant forall x :: 0 <= x < nums.Length ==> nums[x] == (old(nums[x]) && !(start <= x < j && x % i == 0))
      decreases n - j
    {
      nums[j] := false;
      forall x | j < x < j + i
        ensures x % i != 0
      {
        NotMultiple(i, j, x);
      }
      assert (j + i) % i == 0 by { ModMultiple(j, 1, i); }
      j := j + i;
    }
    forall x | 0 <= x < nums.Length && start <= x && x % i == 0
      ensures x < j
    {
    }
  }

  /** One step of the sieve keeps `Sieved`, whether `i` crossed out or not. */
  lemma SievedStep(s: seq<bool>, t: seq<bool>, i: int)
    requires 2 <= i < |s| == |t| && Sieved(s, i)
    requires forall x :: 0 <= x < |s| ==> t[x] == (s[x] && !(s[i] && i * i <= x && x % i == 0))
    ensures Sieved(t, i + 1)
  {
    forall j | 0 <= j < |t|
      ensures t[j] <==> j >= 2 && NoFactorBelow(j, i + 1)
    {
      if !s[i] && s[j] && i * i <= j && j % i == 0 {
        var d :| 2 <= d < i && d * d <= i && i % d == 0;
        DividesTrans(d, i, j);
        MulAtLeast(i, i);
        assert false;
      }
    }
  }

  /** Once every number up to the square root has had its turn, the sieve is exact. */
  lemma SievedComplete(s: seq<bool>, c: int)
    requires |s| >= 1 && c > ISqrt(|s| - 1) && Sieved(s, c)
    ensures forall j :: 0 <= j < |s| ==> s[j] == IsPrime(j)
  {
    forall j | 2 <= j < |s|
      ensures s[j] == IsPrime(j)
    {
      PrimeIffNoSmallFactor(j);
      forall d | 2 <= d && d * d <= j
        ensures d < c
      {
        if d >= c {
          MulLeBoth(ISqrt(|s| - 1) + 1, d);
        }
      }
    }
  }

  /** During the sieve, the entry at the number whose turn it is already tells primality. */
  lemma SievedAt(s: seq<bool>, i: int)
    requires 2 <= i < |s| && Sieved(s, i)
    ensures s[i] == IsPrime(i)
  {
    PrimeIffNoSmallFactor(i);
    forall d | 2 <= d && d * d <= i
      ensures d < i
    {
      MulAtLeast(d, d);
    }
  }

  /**
   * `sieve(n)`: a table of length `max(n, 2) + 1` whose entry `i` says
   * whether `i` is prime.
   */
  method Sieve(n0: nat) returns (r: seq<bool>)
    ensures |r| == Max(n0, 2) + 1
    ensures forall i :: 0 <= i < |r| ==> r[i] == IsPrime(i)
  {
    var n := Max(n0, 2);
    var nums := NewTable(n);
    var s := ISqrt(n);
    SqrtBelow(n);
    for i := 2 to s + 1
      invariant Sieved(nums[..], i)
    {
      var _ := SieveTurn(nums, i, n);
    }
    r := nums[..];
    SievedComplete(r, s + 1);
  }

  /** A fresh table for `n`: every number from 2 on still marked. */
  method NewTable(n: nat) returns (nums: array<bool>)
    ensures fresh(nums) && nums.Length == n + 1 && Sieved(nums[..], 2)
  {
    nums := new bool[n + 1](i => i >= 2);
    SievedStart(nums[..]);
  }

  lemma SqrtBelow(n: nat)
    requires n >= 2
    ensures 1 <= ISqrt(n) < n
  {
    var s := ISqrt(n);
    MulLeBoth(1, s);
    MulLeBoth(2, s + 1);
  }

  /**
   * The turn of `i`: when `i` is still marked, it is prime and its multiples
   * are crossed out. Returns whether `i` is prime.
   */
  method SieveTurn(nums: array<bool>, i: int, n: int) returns (prime: bool)
    requires 2 <= i <= n && nums.Length == n + 1 && Sieved(nums[..], i)
    modifies nums
    ensures Sieved(nums[..], i + 1) && prime == IsPrime(i)
  {
    SievedAt(nums[..], i);
    ghost var before := nums[..];
    prime := nums[i];
    if prime {
      CrossOut(nums, i, n);
    }
    SievedStep(before, nums[..], i);
  }

  /** Before any crossing out, exactly the numbers from 2 on are candidates. */
  lemma SievedStart(s: seq<bool>)
    requires forall j :: 0 <= j < |s| ==> s[j] == (j >= 2)
    ensures Sieved(s, 2)
  {
  }

  predicate StrictlyIncreasing(xs: seq<int>) {
    forall i, j :: 0 <= i < j < |xs| ==> xs[i] < xs[j]
  }

  /** The indices of a boolean table holding `true`, ascending. */
  function TrueIndices(s: seq<bool>): (r: seq<nat>)
    ensures StrictlyIncreasing(r)
    ensures forall x :: x in r <==> 0 <= x < |s| && s[x]
    ensures forall k :: 0 <= k < |r| ==> r[k] < |s|
  {
    if |s| == 0 then []
    else
      var last := |s| - 1;
      var front := TrueIndices(s[..last]);
      assert forall x :: 0 <= x < last ==> s[..last][x] == s[x];
      front + (if s[last] then [last] else [])
  }

  /** The numbers in `[1, k]` whose table entry is `false`, ascending. */
  function FalseIndicesFrom1(s: seq<bool>, k: nat): (r: seq<nat>)
    requires k < |s|
    ensures StrictlyIncreasing(r)
    ensures forall x :: x in r <==> 1 <= x <= k && !s[x]
    ensures forall i :: 0 <= i < |r| ==> r[i] <= k
  {
    if k == 0 then []
    else FalseIndicesFrom1(s, k - 1) + (if !s[k] then [k] else [])
  }

  /** `primes(n)`: the primes up to `max(n, 2)` in ascending order, read off the sieve. */
  method PrimesUpTo(n: nat) returns (ps: seq<nat>)
    ensures StrictlyIncreasing(ps)
    ensures forall x :: x in ps <==> IsPrime(x) && x <= Max(n, 2)
  {
    var table := Sieve(n);
    ps := TrueIndices(table);
  }

  /** `non_primes(n)`: the numbers in `[1, n]` that are not prime, ascending. */
  method NonPrimes(n: nat) returns (xs: seq<nat>)
    ensures StrictlyIncreasing(xs)
    ensures forall x :: x in xs <==> 1 <= x <= n && !IsPrime(x)
  {
    var table := Sieve(n);
    xs := FalseIndicesFrom1(table, n);
  }

  /** No prime in `[a, b)`. */
  ghost predicate NoPrimeIn(a: int, b: int) {
    forall x :: a <= x < b ==> !IsPrime(x)
  }

  /** `r` is the least prime in `[lo, hi]`, or `None` when there is none. */
  ghost predicate IsFirstPrime(r: Option<nat>, lo: int, hi: int) {
    (r.Some? ==> lo <= r.value <= hi && IsPrime(r.value) && NoPrimeIn(lo, r.value))
    && (r.None? ==> NoPrimeIn(lo, hi + 1))
  }

  /**
   * `SieveIter`: a sieve that crosses out lazily. Each call to `next` hands
   * out the next prime; while `current` has not passed the square root it
   * also crosses out that prime's multiples.
   */
  class SieveIter {
    const n: nat
    const nsqrt: nat
    var current: nat
    const nums: array<bool>

    ghost predicate Valid()
      reads this, nums
    {
      n >= 2 && nums.Length == n + 1 && nsqrt == ISqrt(n) && 1 <= nsqrt < n
      && 2 <= current <= n + 1 && Sieved(nums[..], Min(current, nsqrt + 1))
    }

    /** `SieveIter::new(n)`: works on `max(n, 2)`, starting at 2 with nothing crossed out. */
    constructor (n0: nat)
      ensures Valid() && fresh(nums)
      ensures n == Max(n0, 2) && current == 2
    {
      var m := Max(n0, 2);
      var table := NewTable(m);
      var s := ISqrt(m);
      SqrtBelow(m);
      n := m;
      nsqrt := s;
      nums := table;
      current := 2;
    }

    /**
     * Past the square root every entry is final, and the next prime is the
     * first `true` entry from `current` on.
     */
    method Scan() returns (r: Option<nat>)
      requires Valid() && current > nsqrt
      modifies this
      ensures Valid() && IsFirstPrime(r, old(current), n)
      ensures current == if r.Some? then r.value + 1 else old(current)
    {
      SievedComplete(nums[..], nsqrt + 1);
      var k := current;
      while k <= n && !nums[k]
        invariant current <= k <= n + 1
        invariant NoPrimeIn(current, k)
        decreases n + 1 - k
      {
        k := k + 1;
      }
      if k <= n {
        r := Some(k);
        current := k + 1;
      } else {
        r := None;
      }
    }

    /**
     * Below the square root: takes numbers from `current` until one is
     * still marked, crosses out its multiples and returns it; `None` once
     * `current` passes the square root.
     */
    method Advance() returns (r: Option<nat>)
      requires Valid() && current <= nsqrt
      modifies this, nums
      ensures Valid() && IsFirstPrime(r, old(current), nsqrt)
      ensures current == if r.Some? then r.value + 1 else nsqrt + 1
    {
      ghost var start := current;
      while current <= nsqrt
        invariant Valid() && start <= current <= nsqrt + 1
        invariant NoPrimeIn(start, current)
        decreases nsqrt + 1 - current
      {
        var i := current;
        var prime := SieveTurn(nums, i, n);
        current := current + 1;
        if prime {
          return Some(i);
        }
      }
      r := None;
    }

    /**
     * `next` as written: once the crossing-out loop passes the square root
     * without finding a prime it returns `None`, although primes may remain
     * between the square root and `n`.
     */
    method NextAsWritten() returns (r: Option<nat>)
      requires Valid()
      modifies this, nums
      ensures Valid()
      ensures IsFirstPrime(r, old(current), if old(current) > nsqrt then n else nsqrt)
      ensures current == if r.Some? then r.value + 1 else if old(current) > nsqrt then old(current) else nsqrt + 1
    {
      if current > nsqrt {
        r := Scan();
      } else {
        r := Advance();
      }
    }

    /** `next` as intended: the least prime in `[current, n]`. */
    method Next() returns (r: Option<nat>)
      requires Valid()
      modifies this, nums
      ensures Valid()
      ensures IsFirstPrime(r, old(current), n)
      ensures r.Some? ==> current == r.value + 1
    {
      if current <= nsqrt {
        r := Advance();
        if r.Some? {
          return;
        }
      }
      ghost var mid := current;
      r := Scan();
      if r.Some? {
        assert NoPrimeIn(old(current), r.value) by {
          assert NoPrimeIn(old(current), mid) && NoPrimeIn(mid, r.value);
        }
      }
    }
  }

  /** Collecting a `SieveIter` whose `next` is the intended one gives exactly `primes(n)`. */
  method CollectPrimes(n0: nat) returns (ps: seq<nat>)
    ensures StrictlyIncreasing(ps)
    ensures forall x :: x in ps <==> IsPrime(x) && x <= Max(n0, 2)
  {
    var it := new SieveIter(n0);
    ps := [];
    while true
      invariant it.Valid() && fresh(it.nums) && it.n == Max(n0, 2)
      invariant StrictlyIncreasing(ps)
      invariant forall k :: 0 <= k < |ps| ==> ps[k] < it.current
      invariant forall x :: x in ps <==> IsPrime(x) && x < it.current
      decreases it.n + 2 - it.current
    {
      var r := it.Next();
      if r.None? {
        break;
      }
      ps := ps + [r.value];
    }
  }

  /** The least primes of the ranges the `n = 24` walk-through visits. */
  lemma FirstPrimesUpTo24(r: Option<nat>)
    ensures IsFirstPrime(r, 2, 4) ==> r == Some(2)
    ensures IsFirstPrime(r, 3, 4) ==> r == Some(3)
    ensures IsFirstPrime(r, 4, 4) ==> r == None
    ensures IsFirstPrime(r, 4, 24) ==> r == Some(5)
  {
    assert IsPrime(2) && IsPrime(3) && IsPrime(5);
    assert !IsPrime(4) by { assert 4 % 2 == 0; }
  }

  /**
   * For `n = 24` (square root 4) the written `next` yields 2 and 3 and then
   * `None`, because 4 is crossed out; the intended one yields 5.
   */
  method SieveIter24() returns (written: seq<Option<nat>>, intended: seq<Option<nat>>)
    ensures written == [Some(2), Some(3), None]
    ensures intended == [Some(2), Some(3), Some(5)]
  {
    ISqrtUnique(24, 4);
    var a := new SieveIter(24);
    var a1 := a.NextAsWritten();
    FirstPrimesUpTo24(a1);
    var a2 := a.NextAsWritten();
    FirstPrimesUpTo24(a2);
    var a3 := a.NextAsWritten();
    FirstPrimesUpTo24(a3);
    written := [a1, a2, a3];
    var b := new SieveIter(24);
    var b1 := b.Next();
    FirstPrimesUpTo24(b1);
    var b2 := b.Next();
    FirstPrimesUpTo24(b2);
    var b3 := b.Next();
    FirstPrimesUpTo24(b3);
    intended := [b1, b2, b3];
  }

  /*
   * `max_factors` and `count_factors`: every `i` whose entry is still 0 when
   * its turn comes is prime, and stamps all its multiples.
   */

  /** The largest prime below `i` dividing `j`, or 0 if there is none. */
  ghost function LargestPrimeFactorBelow(j: nat, i: nat): (r: nat)
    ensures r == 0 ==> forall p :: 2 <= p < i && IsPrime(p) ==> j % p != 0
    ensures r != 0 ==> IsPrime(r) && r < i && j % r == 0
    ensures r != 0 ==> forall p :: r < p < i && IsPrime(p) ==> j % p != 0
    decreases i
  {
    if i <= 2 then 0
    else if IsPrime(i - 1) && j % (i - 1) == 0 then i - 1
    else LargestPrimeFactorBelow(j, i - 1)
  }

  /** The primes below `i` dividing `j`. */
  ghost function PrimeDivisorsBelow(j: nat, i: nat): set<nat> {
    set p: nat | 2 <= p < i && IsPrime(p) && j % p == 0
  }

  /** How many primes below `i` divide `j`. */
  ghost function PrimeFactorCountBelow(j: nat, i: nat): (r: nat)
    ensures r == |PrimeDivisorsBelow(j, i)|
    decreases i
  {
    if i <= 2 then
      assert PrimeDivisorsBelow(j, i) == {};
      0
    else
      var prev := PrimeFactorCountBelow(j, i - 1);
      var step := IsPrime(i - 1) && j % (i - 1) == 0;
      DivisorsBelowStep(j, i);
      prev + (if step then 1 else 0)
  }

  lemma DivisorsBelowStep(j: nat, i: nat)
    requires i > 2
    ensures PrimeDivisorsBelow(j, i) == PrimeDivisorsBelow(j, i - 1) + (if IsPrime(i - 1) && j % (i - 1) == 0 then {i - 1} else {})
    ensures i - 1 !in PrimeDivisorsBelow(j, i - 1)
  {
  }

  /** A number `i >= 2` not divided by any smaller prime is prime. */
  lemma NoSmallerPrimeDivisor(i: nat)
    requires i >= 2 && forall p :: 2 <= p < i && IsPrime(p) ==> i % p != 0
    ensures IsPrime(i)
  {
    if !IsPrime(i) {
      var p := PrimeDivisor(i);
    }
  }

  /** Sets every multiple of `i` in `[i, n]` to `i`. */
  method Stamp(nums: array<nat>, i: nat, n: nat)
    requires i >= 2 && nums.Length == n + 1
    modifies nums
    ensures forall x :: 0 <= x < nums.Length ==> nums[x] == if x >= 1 && x % i == 0 then i else old(nums[x])
  {
    var j := i;
    assert j % i == 0 by { DivModUnique(j, i, 1, 0); }
    while j <= n
      invariant i <= j && j % i == 0
      invariant forall x :: 0 <= x < nums.Length ==> nums[x] == if 1 <= x < j && x % i == 0 then i else old(nums[x])
      decreases n - j
    {
      nums[j] := i;
      forall x | j < x < j + i
        ensures x % i != 0
      {
        NotMultiple(i, j, x);
      }
      assert (j + i) % i == 0 by { ModMultiple(j, 1, i); }
      j := j + i;
    }
    forall x | 1 <= x < i
      ensures x % i != 0
    {
      DivModUnique(x, i, 0, x);
    }
  }

  /** Adds one to every multiple of `i` in `[i, n]`. */
  method Bump(nums: array<nat>, i: nat, n: nat)
    requires i >= 2 && nums.Length == n + 1
    modifies nums
    ensures forall x :: 0 <= x < nums.Length ==> nums[x] == if x >= 1 && x % i == 0 then old(nums[x]) + 1 else old(nums[x])
  {
    var j := i;
    assert j % i == 0 by { DivModUnique(j, i, 1, 0); }
    while j <= n
      invariant i <= j && j % i == 0
      invariant forall x :: 0 <= x < nums.Length ==> nums[x] == if 1 <= x < j && x % i == 0 then old(nums[x]) + 1 else old(nums[x])
      decreases n - j
    {
      nums[j] := nums[j] + 1;
      forall x | j < x < j + i
        ensures x % i != 0
      {
        NotMultiple(i, j, x);
      }
      assert (j + i) % i == 0 by { ModMultiple(j, 1, i); }
      j := j + i;
    }
    forall x | 1 <= x < i
      ensures x % i != 0
    {
      DivModUnique(x, i, 0, x);
    }
  }

  /** A table of zeros: no prime has had its turn yet. */
  method ZeroTable(n: nat) returns (nums: array<nat>)
    ensures fresh(nums) && nums.Length == n + 1
    ensures LargestTable(nums[..], 2) && CountTable(nums[..], 2)
  {
    nums := new nat[n + 1](_ => 0);
  }

  /** The turn of `i` in `max_factors`: a prime `i` stamps its multiples. */
  method LargestStep(nums: array<nat>, i: nat, n: nat)
    requires 2 <= i <= n && nums.Length == n + 1 && LargestTable(nums[..], i)
    modifies nums
    ensures LargestTable(nums[..], i + 1)
  {
    ghost var before := nums[..];
    if nums[i] == 0 {
      Stamp(nums, i, n);
    }
    LargestTableStep(before, nums[..], i);
  }

  /** The turn of `i` in `count_factors`: a prime `i` bumps its multiples. */
  method CountStep(nums: array<nat>, i: nat, n: nat)
    requires 2 <= i <= n && nums.Length == n + 1 && CountTable(nums[..], i)
    modifies nums
    ensures CountTable(nums[..], i + 1)
  {
    ghost var before := nums[..];
    if nums[i] == 0 {
      Bump(nums, i, n);
    }
    CountTableStep(before, nums[..], i);
  }

  ghost predicate LargestTable(s: seq<nat>, i: nat) {
    forall x :: 0 <= x < |s| ==> s[x] == if x == 0 then 0 else LargestPrimeFactorBelow(x, i)
  }

  ghost predicate CountTable(s: seq<nat>, i: nat) {
    forall x :: 0 <= x < |s| ==> s[x] == if x == 0 then 0 else PrimeFactorCountBelow(x, i)
  }

  /** The entry of `i` on its turn is 0 exactly when `i` is prime. */
  lemma LargestTurn(i: nat)
    requires i >= 2
    ensures LargestPrimeFactorBelow(i, i) == 0 <==> IsPrime(i)
  {
    if LargestPrimeFactorBelow(i, i) == 0 {
      NoSmallerPrimeDivisor(i);
    }
  }

  lemma CountTurn(i: nat)
    requires i >= 2
    ensures PrimeFactorCountBelow(i, i) == 0 <==> IsPrime(i)
  {
    var divisors := PrimeDivisorsBelow(i, i);
    if |divisors| == 0 {
      forall p | 2 <= p < i && IsPrime(p)
        ensures i % p != 0
      {
        assert p !in divisors;
      }
      NoSmallerPrimeDivisor(i);
    }
    if IsPrime(i) {
      assert divisors == {};
    }
  }

  lemma LargestTableStep(s: seq<nat>, t: seq<nat>, i: nat)
    requires 2 <= i < |s| == |t| && LargestTable(s, i)
    requires forall x :: 0 <= x < |s| ==> t[x] == if s[i] == 0 && x >= 1 && x % i == 0 then i else s[x]
    ensures LargestTable(t, i + 1)
  {
    LargestTurn(i);
  }

  lemma CountTableStep(s: seq<nat>, t: seq<nat>, i: nat)
    requires 2 <= i < |s| == |t| && CountTable(s, i)
    requires forall x :: 0 <= x < |s| ==> t[x] == if s[i] == 0 && x >= 1 && x % i == 0 then s[x] + 1 else s[x]
    ensures CountTable(t, i + 1)
  {
    CountTurn(i);
  }

  /** A prime dividing a positive `j` is at most `j`. */
  lemma DivisorAtMost(j: nat, p: nat)
    requires j >= 1 && p >= 1 && j % p == 0
    ensures p <= j
  {
    if p > j {
      DivModUnique(j, p, 0, j);
    }
  }

  lemma LargestTableFinal(s: seq<nat>)
    requires LargestTable(s, Max(|s|, 2))
    ensures forall j :: 0 <= j < |s| && j < 2 ==> s[j] == 0
    ensures forall j :: 2 <= j < |s| ==> IsPrime(s[j]) && j % s[j] == 0
    ensures forall j, p :: 2 <= j < |s| && IsPrime(p) && j % p == 0 ==> p <= s[j]
  {
    if |s| > 1 && s[1] != 0 {
      DivModUnique(1, s[1], 0, 1);
    }
    forall j | 2 <= j < |s|
      ensures IsPrime(s[j]) && j % s[j] == 0
      ensures forall p :: IsPrime(p) && j % p == 0 ==> p <= s[j]
    {
      var q := PrimeDivisor(j);
      forall p | IsPrime(p) && j % p == 0
        ensures p < |s|
      {
        DivisorAtMost(j, p);
      }
    }
  }

  lemma CountTableFinal(s: seq<nat>)
    requires CountTable(s, Max(|s|, 2))
    ensures forall j :: 1 <= j < |s| ==> s[j] == |PrimeDivisorsBelow(j, j + 1)|
  {
    forall j | 1 <= j < |s|
      ensures s[j] == |PrimeDivisorsBelow(j, j + 1)|
    {
      forall p | p in PrimeDivisorsBelow(j, Max(|s|, 2))
        ensures p in PrimeDivisorsBelow(j, j + 1)
      {
        DivisorAtMost(j, p);
      }
      assert PrimeDivisorsBelow(j, Max(|s|, 2)) == PrimeDivisorsBelow(j, j + 1);
    }
  }

  /**
   * `max_factors(n)`: entry `j` is the largest prime dividing `j` for
   * `j >= 2`, and 0 for 0 and 1.
   */
  method MaxFactors(n: nat) returns (r: seq<nat>)
    ensures |r| == n + 1
    ensures forall j :: 0 <= j < |r| && j < 2 ==> r[j] == 0
    ensures forall j :: 2 <= j < |r| ==> IsPrime(r[j]) && j % r[j] == 0
    ensures forall j, p :: 2 <= j < |r| && IsPrime(p) && j % p == 0 ==> p <= r[j]
  {
    var nums := ZeroTable(n);
    var i := 2;
    while i <= n
      invariant 2 <= i <= Max(n + 1, 2)
      invariant LargestTable(nums[..], i)
    {
      LargestStep(nums, i, n);
      i := i + 1;
    }
    r := nums[..];
    LargestTableFinal(r);
  }

  /** `count_factors(n)`: entry `j` is the number of distinct primes dividing `j` (0 for 0). */
  method CountFactors(n: nat) returns (r: seq<nat>)
    ensures |r| == n + 1 && r[0] == 0
    ensures forall j :: 1 <= j < |r| ==> r[j] == |PrimeDivisorsBelow(j, j + 1)|
  {
    var nums := ZeroTable(n);
    var i := 2;
    while i <= n
      invariant 2 <= i <= Max(n + 1, 2)
      invariant CountTable(nums[..], i)
    {
      CountStep(nums, i, n);
      i := i + 1;
    }
    r := nums[..];
    CountTableFinal(r);
  }

  /*
   * Factorisation. `PrimeFactors` walks the candidates `2..=isqrt(n)` once,
   * dividing each one out completely; what is left above 1 at the end is a
   * prime factor of its own.
   */

  /** A prime and its multiplicity (`PrimeFactor(factor, count)`). */
  datatype PrimeFactor = PrimeFactor(factor: nat, count: nat)

  /** The number a factor list stands for: the product of `factor^count`. */
  function Product(fs: seq<PrimeFactor>): int {
    if |fs| == 0 then 1 else Pow(fs[0].factor, fs[0].count) * Product(fs[1..])
  }

  lemma {:induction false} ProductAppend(fs: seq<PrimeFactor>, f: PrimeFactor)
    ensures Product(fs + [f]) == Product(fs) * Pow(f.factor, f.count)
  {
    if |fs| > 0 {
      assert (fs + [f])[1..] == fs[1..] + [f];
      ProductAppend(fs[1..], f);
    } else {
      assert (fs + [f])[1..] == [];
    }
  }

  lemma {:induction false} ProductPositive(fs: seq<PrimeFactor>)
    requires forall k :: 0 <= k < |fs| ==> fs[k].factor >= 1
    ensures Product(fs) >= 1
  {
    if |fs| > 0 {
      ProductPositive(fs[1..]);
      PowPositive(fs[0].factor, fs[0].count);
      MulAtLeast(Pow(fs[0].factor, fs[0].count), Product(fs[1..]));
    }
  }

  /** Ascending primes, each with a positive count. */
  ghost predicate WellFormedFactors(fs: seq<PrimeFactor>) {
    (forall k :: 0 <= k < |fs| ==> IsPrime(fs[k].factor) && fs[k].count >= 1)
    && (forall k, l :: 0 <= k < l < |fs| ==> fs[k].factor < fs[l].factor)
  }

  ghost predicate AllFactorsBelow(fs: seq<PrimeFactor>, d: int) {
    forall k :: 0 <= k < |fs| ==> fs[k].factor < d
  }

  class PrimeFactors {
    /** What is left of `n` to factor. */
    var value: nat
    /** The next candidate of the range `2..=hi`. */
    var next: nat
    const hi: nat
    ghost const n: nat
    ghost var emitted: seq<PrimeFactor>

    ghost predicate Valid()
      reads this
    {
      hi == ISqrt(n) && 2 <= next <= Max(hi + 1, 2)
      && n == value * Product(emitted)
      && (value == 0 ==> n == 0 && emitted == [])
      && WellFormedFactors(emitted)
      && (forall d :: 2 <= d < next ==> value % d != 0)
      && (forall d :: 2 <= d && value % d == 0 ==> AllFactorsBelow(emitted, d))
    }

    /** `PrimeFactors::new(n)`: nothing divided out yet, candidates `2..=isqrt(n)`. */
    constructor (n0: nat)
      ensures Valid() && n == n0 && value == n0 && emitted == []
    {
      value := n0;
      next := 2;
      hi := ISqrt(n0);
      n := n0;
      emitted := [];
    }

    /** Divides `factor` out of `value` as often as it goes. */
    method DivideOut(factor: nat) returns (count: nat)
      requires value >= 1 && factor >= 2 && value % factor == 0
      modifies this`value
      ensures old(value) == value * Pow(factor, count) && count >= 1
      ensures 1 <= value < old(value) && value % factor != 0
    {
      count := 0;
      while value % factor == 0
        invariant value >= 1 && old(value) == value * Pow(factor, count)
        invariant count == 0 ==> value == old(value)
        invariant count >= 1 ==> value < old(value)
        decreases value
      {
        var q := value / factor;
        DivShrinksBy(value, factor);
        value := q;
        count := count + 1;
      }
    }

    /** The candidate `next` divides `value`: take it with its multiplicity. */
    method TakeFactor() returns (f: PrimeFactor)
      requires Valid() && next <= hi && value >= 1 && value % next == 0
      modifies this
      ensures Valid() && emitted == old(emitted) + [f] && value < old(value)
    {
      var factor := next;
      next := next + 1;
      FactorIsPrime(value, factor);
      ghost var v0 := value;
      var count := DivideOut(factor);
      f := PrimeFactor(factor, count);
      ProductAppend(emitted, f);
      KeepsProduct(n, v0, value, Product(emitted), Pow(factor, count));
      PowPositive(factor, count);
      NoDivisorBelow(v0, value, Pow(factor, count), next);
      OrderAfterTake(v0, value, Pow(factor, count), emitted, f, next);
      emitted := emitted + [f];
    }

    /** All candidates tried: what is left above 1 is prime, taken once. */
    method TakeRest() returns (f: PrimeFactor)
      requires Valid() && next > hi && value > 1
      modifies this
      ensures Valid() && emitted == old(emitted) + [f] && value == 1
    {
      ValueIsPrime(value, n, hi, next, emitted);
      f := PrimeFactor(value, 1);
      ProductAppend(emitted, f);
      assert Pow(value, 1) == value;
      assert n == 1 * (Product(emitted) * Pow(value, 1));
      OrderAfterRest(value, emitted, f);
      emitted := emitted + [f];
      value := 1;
    }

    /**
     * `next`: `None` once `value` is 1; otherwise the next candidate
     * dividing `value`, with its multiplicity, and failing that the prime
     * `value` itself with count 1.
     */
    method Next() returns (r: Option<PrimeFactor>)
      requires Valid()
      modifies this
      ensures Valid()
      ensures r.None? ==> value <= 1 && emitted == old(emitted)
      ensures r.Some? ==> emitted == old(emitted) + [r.value] && value < old(value)
    {
      if value == 1 {
        return None;
      }
      while next <= hi
        invariant Valid() && value == old(value) && emitted == old(emitted)
        decreases hi - next
      {
        if value % next == 0 {
          var f := TakeFactor();
          return Some(f);
        }
        next := next + 1;
      }
      if value > 1 {
        var f := TakeRest();
        return Some(f);
      }
      return None;
    }
  }

  /** The factor just taken is above all earlier ones and below every divisor of what is left. */
  lemma OrderAfterTake(v0: nat, v: nat, w: nat, fs: seq<PrimeFactor>, f: PrimeFactor, next: nat)
    requires v0 == v * w && v >= 1 && w >= 1 && f.factor >= 2 && v0 % f.factor == 0
    requires IsPrime(f.factor) && f.count >= 1 && next == f.factor + 1
    requires WellFormedFactors(fs)
    requires forall d :: 2 <= d && v0 % d == 0 ==> AllFactorsBelow(fs, d)
    requires forall d :: 2 <= d < next ==> v % d != 0
    ensures WellFormedFactors(fs + [f])
    ensures forall d :: 2 <= d && v % d == 0 ==> AllFactorsBelow(fs + [f], d)
  {
    assert AllFactorsBelow(fs, f.factor);
    forall d | 2 <= d && v % d == 0
      ensures AllFactorsBelow(fs + [f], d)
    {
      DividesMul(v, w);
      DividesTrans(d, v, v0);
      assert AllFactorsBelow(fs, d);
    }
  }

  /** The prime taken last is above all earlier factors, and nothing divides 1. */
  lemma OrderAfterRest(v: nat, fs: seq<PrimeFactor>, f: PrimeFactor)
    requires v > 1 && f == PrimeFactor(v, 1) && IsPrime(v)
    requires WellFormedFactors(fs)
    requires forall d :: 2 <= d && v % d == 0 ==> AllFactorsBelow(fs, d)
    ensures WellFormedFactors(fs + [f])
    ensures forall d :: 2 <= d ==> 1 % d != 0
  {
    forall d | 2 <= d
      ensures 1 % d != 0
    {
      DivModUnique(1, d, 0, 1);
    }
    assert v % v == 0;
    assert AllFactorsBelow(fs, v);
  }

  lemma DivShrinksBy(v: nat, f: nat)
    requires v >= 1 && f >= 2 && v % f == 0
    ensures v / f >= 1 && v / f < v && v == (v / f) * f
  {
    var q := v / f;
    assert v == q * f;
    assert q >= 1;
    MulAtLeast(q, f);
    assert q * f >= 2 * q;
  }

  lemma KeepsProduct(n: int, v0: int, v: int, p: int, w: int)
    requires n == v0 * p && v0 == v * w
    ensures n == v * (p * w)
  {
    calc {
      n;
      == (v * w) * p;
      == v * (p * w);
    }
  }

  /** After dividing out `factor` completely, no `d` up to `factor` divides what is left. */
  lemma NoDivisorBelow(v0: nat, v: nat, w: nat, next: nat)
    requires v0 == v * w && v >= 1 && w >= 1
    requires forall d :: 2 <= d < next - 1 ==> v0 % d != 0
    requires next >= 3 && v % (next - 1) != 0
    ensures forall d :: 2 <= d < next ==> v % d != 0
  {
    forall d | 2 <= d < next - 1
      ensures v % d != 0
    {
      if v % d == 0 {
        DividesMul(v, w);
        DividesTrans(d, v, v0);
      }
    }
  }

  /** The first candidate dividing `v` is prime: a smaller prime factor of it would divide `v` first. */
  lemma FactorIsPrime(v: nat, f: nat)
    requires f >= 2 && v % f == 0
    requires forall d :: 2 <= d < f ==> v % d != 0
    ensures IsPrime(f)
  {
    if !IsPrime(f) {
      var p := PrimeDivisor(f);
      DividesTrans(p, f, v);
    }
  }

  /** Left over after all candidates up to `isqrt(n)`, a `value > 1` has no small divisor, so it is prime. */
  lemma ValueIsPrime(v: nat, n: nat, hi: nat, next: nat, emitted: seq<PrimeFactor>)
    requires v > 1 && n == v * Product(emitted) && hi == ISqrt(n) && next > hi
    requires forall k :: 0 <= k < |emitted| ==> IsPrime(emitted[k].factor)
    requires forall d :: 2 <= d < next ==> v % d != 0
    ensures IsPrime(v)
  {
    ProductPositive(emitted);
    MulAtLeast(Product(emitted), v);
    assert v <= n;
    PrimeIffNoSmallFactor(v);
    forall d | 2 <= d && d * d <= v
      ensures d < next
    {
      if d > hi {
        MulLeBoth(hi + 1, d);
      }
    }
  }

  /**
   * `factorize(n)`: collects `PrimeFactors`. The result lists ascending
   * primes with positive counts whose product is `n`; 0 and 1 give nothing.
   */
  method Factorize(n: nat) returns (fs: seq<PrimeFactor>)
    ensures WellFormedFactors(fs)
    ensures n >= 1 ==> Product(fs) == n
    ensures n <= 1 ==> fs == []
  {
    var it := new PrimeFactors(n);
    fs := [];
    while true
      invariant it.Valid() && it.n == n && fs == it.emitted
      invariant n <= 1 ==> fs == [] && it.value == n
      decreases it.value
    {
      var r := it.Next();
      if r.None? {
        break;
      }
      fs := fs + [r.value];
    }
  }
}
