# algorist in Dafny

A Dafny model of the core of **algorist**, a Rust toolkit for competitive programming. The model covers two parts of the repository.

- **The bundlers** turn a solution plus the library modules it uses into one self-contained file:
  - the line-based `Bundler` (`src/cmd/bundle.rs`);
  - the syntax-tree `Bundler1` (`src/cmd/bundle_problem.rs`).
- **The algorithm library** that the bundlers copy:
  - integer maths: gcd/lcm, modular arithmetic, integer roots and logarithms, primes and divisors;
  - slice, vector and iterator extensions;
  - a row-major 2-D array;
  - a playing-card deck.

One Dafny module stands for each source file or component:

| Dafny module | file | models |
|---|---|---|
| `Wrappers` | `wrappers.dfy` | `Option` and `Result` |
| `Arith` | `arith.dfy` | Rust's truncating `%`, powers, divisibility, integer square root |
| `Gcd` | `gcd.dfy` | `src/math/gcd.rs` |
| `IntParse` | `int_parse.dfy` | the `i64` decimal parser that `Modulo::from_str` delegates to |
| `Modulo` | `modulo.dfy` | `src/algorist/math/modulo.rs` |
| `Log` | `log.dfy` | `src/algorist/math/log.rs` |
| `IntRoot` | `root.dfy` | `src/math/root.rs` |
| `AlgoristRoot` | `algorist_root.dfy` | `src/algorist/math/root.rs` |
| `Primes` | `primes.dfy` | `src/math/primes.rs`: primality, sieves, the lazy sieve iterator, factor tables, factorisation |
| `Divisors` | `divisors.dfy` | `generate_divisors` and `all_divisors` of `src/math/primes.rs` |
| `MaxSum` | `max_sum.dfy` | `src/ext/slice/sum.rs` |
| `Count` | `count.dfy` | `src/ext/slice/count.rs` |
| `Sorting` | `sorting.dfy` | `src/ext/vec/sorted.rs` |
| `Reversed` | `reversed.dfy` | `src/algorist/ext/vec/reversed.rs` |
| `Rotated` | `rotated.dfy` | `src/ext/vec/rotated.rs` |
| `Chunks` | `chunks.dfy` | `src/ext/iter/chunks.rs` |
| `Window` | `window.dfy` | `src/ext/iter/window.rs` (and the same iterator in `src/algorist/ext/iter/window.rs`) |
| `AlgoristWindow` | `algorist_window.dfy` | `sliding_window_try_fold` of `src/algorist/ext/iter/window.rs` |
| `FoldWhile` | `fold_while.dfy` | `src/ext/iter/fold_while.rs` |
| `Array2d` | `arr2d.dfy` | `src/collections/arr_2d.rs` |
| `Cards` | `cards.dfy` | `src/misc/cards.rs` |
| `LineBundler` | `line_bundler.dfy` | `src/cmd/bundle.rs` (the legacy copy in `src/cmd/bundle_problem.rs` differs only in reading module lines with `map_while(Result::ok)` instead of `filter_map`, which matters only on a read error) |
| `TreeBundler` | `tree_bundler.dfy` | `Bundler1` of `src/cmd/bundle_problem.rs` |

The model follows the form of the source:
- Pure computations are functions and lemmas.
- Loops are methods with invariants, proved against a specification function.
- Objects whose methods update fields are classes with those fields:
  - `SieveIter`, `PrimeFactors`, `Arr2d`, `CardDeck`;
  - the `Chunks` and `SlidingWindow` iterators;
  - both bundlers.
- In-place algorithms keep their `array`, as in the sieve, the factor tables, the rotations and the reversal.

Integers are unbounded. Fixed-width overflow is modelled only where the source's behaviour depends on it, namely the `i64` parser.

Whatever the program reads from outside becomes a value:
- The file system is a map from path to content (the line bundler) or to a parsed file (the tree bundler).
- The regular expressions of the line bundler are an abstract `Matchers` value that gives each pattern's verdict on a line. `regex_line`, which builds the patterns, is modelled concretely.

Where the bundlers' code differs from what it evidently means (see "## Findings"), the choice is a parameter, and lemmas show where the two agree:
- `LineEnd` in the line bundler: `Pop` removes the last character of a line as `line.pop()` does, `Strip` removes only a final newline;
- `Reading` in the tree bundler: `AsWritten` uses the written skip test and module lookup, `Intended` the corrected ones;
- `Search` in the integer roots: `DownOnly` only lowers the floating-point estimate, as written, `UpAndDown` first raises it.

## Model

| member | source | states |
|---|---|---|
| Arith.Rem | src/math/gcd.rs:40-50 | Rust's remainder as `gcd_extended` uses it: `a == q*b + r`, `|r| < |b|`, and `r` has the sign of `a` |
| Arith.ISqrt | src/math/primes.rs:199-212 | the integer square root replacing `(n as f64).sqrt() as usize`: `s*s <= n < (s+1)*(s+1)` |
| Arith.ISqrtUnique | src/math/primes.rs:199-212 | that bound pins the square root down: any `s` meeting it is `ISqrt(n)` |
| Gcd.GcdExtended | src/math/gcd.rs:40-50 | the returned coefficients satisfy Bézout's identity `a*x + b*y == d` |
| Gcd.GcdDividesBoth | src/math/gcd.rs:40-50 | `d` divides both `a` and `b` |
| Gcd.GcdGreatest | src/math/gcd.rs:40-50 | every common divisor of `a` and `b` divides `d` |
| Gcd.GcdNonNeg | src/math/gcd.rs:63-69 | for non-negative inputs `d >= 0`, and `d == 0` exactly when both inputs are 0 |
| Gcd.GcdZeroLeft | src/math/gcd.rs:9-12 | `gcd(0, b) == b` |
| Gcd.GcdExtendedExample | src/math/gcd.rs:32-37 | `gcd_extended(240, 46) == (2, -9, 47)` |
| Gcd.Gcd | src/math/gcd.rs:63-69 | the loop computes the `d` of `gcd_extended`, a common divisor that every common divisor divides |
| Gcd.Lcm | src/math/gcd.rs:81-83 | `lcm(a, b)` is a multiple of both `a` and `b`, and `gcd(a, b) * lcm(a, b) == a * b` |
| Gcd.LcmZero | src/math/gcd.rs:81-83 | `lcm(a, 0) == 0` |
| IntParse.DigitChar | src/algorist/math/modulo.rs:219-221 | the digit character of `d` is a digit whose value is `d` |
| IntParse.Accumulate | src/algorist/math/modulo.rs:219-221 | a parsed value is inside the `i64` range with the sign parsed; failures are overflow in the direction of that sign or an invalid digit |
| IntParse.ParseI64 | src/algorist/math/modulo.rs:219-221 | a parsed value is in the `i64` range; empty text is exactly the `Empty` error; after a `-` the value is not positive and never a positive overflow, otherwise not negative and never a negative overflow |
| IntParse.Digits | src/algorist/math/modulo.rs:219-221 | the decimal text of a natural number is non-empty and starts with a digit |
| IntParse.AccumulateDigits | src/algorist/math/modulo.rs:219-221 | accumulating the decimal digits of `k` gives back `k`, or `-k` for a negative sign, for every `k` in range |
| IntParse.ParseDisplay | src/algorist/math/modulo.rs:219-221 | parsing the decimal text of any `i64` gives it back |
| Modulo.NewUnchecked | src/algorist/math/modulo.rs:127-136 | accepts exactly the values in `[0, m)` and keeps them as they are |
| Modulo.Residue | src/algorist/math/modulo.rs:148-162 | the normalised residue of any integer lies in `[0, m)` |
| Modulo.New | src/algorist/math/modulo.rs:148-162 | the result lies in `[0, m)` and is congruent to the input; a value already in range is kept |
| Modulo.Add | src/algorist/math/modulo.rs:262-268 | the sum is normalised and congruent to `a + b` |
| Modulo.Sub | src/algorist/math/modulo.rs:276-282 | the difference is normalised and congruent to `a - b` |
| Modulo.Mul | src/algorist/math/modulo.rs:290-302 | the product of normalised values is the residue of `a * b` |
| Modulo.Neg | src/algorist/math/modulo.rs:344-349 | the negation is normalised and `a + (-a) == 0 (mod m)` |
| Modulo.OperatorsAreResidues | src/algorist/math/modulo.rs:262-302 | `+`, `-` and `*` give the residues of the sum, difference and product |
| Modulo.AddSub | src/algorist/math/modulo.rs:262-281 | subtracting `b` after adding it gives back `a` |
| Modulo.NegInverse | src/algorist/math/modulo.rs:344-349 | `a + (-a) == 0`, and `-0 == 0` |
| Modulo.InverseValue | src/algorist/math/modulo.rs:252-259 | a found inverse is the Bézout coefficient of `a` reduced modulo `m` |
| Modulo.Inverse | src/algorist/math/modulo.rs:252-259 | a found inverse is normalised and `a * inverse == 1 (mod m)`; when it returns `None`, no integer `w` has `a*w == 1 (mod m)` |
| Modulo.NoInverse | src/algorist/math/modulo.rs:252-259 | when `gcd(a, m) != 1`, no integer `w` has `a*w == 1 (mod m)` |
| Modulo.MulBack | src/algorist/math/modulo.rs:318-329 | multiplying by an inverse of `b` and then by `b` gives back `a` |
| Modulo.Div | src/algorist/math/modulo.rs:318-329 | division fails exactly when the divisor has no inverse modulo `m`; otherwise the quotient is normalised and `(a / b) * b == a` |
| Modulo.AddAssign | src/algorist/math/modulo.rs:270-273 | `+=` stores what `+` returns |
| Modulo.SubAssign | src/algorist/math/modulo.rs:284-287 | `-=` stores what `-` returns |
| Modulo.MulAssign | src/algorist/math/modulo.rs:305-315 | `*=` stores what `*` returns |
| Modulo.DivAssign | src/algorist/math/modulo.rs:332-341 | `/=` stores what `/` returns, failing in the same cases |
| Modulo.ModPow | src/algorist/math/modulo.rs:196-207 | square-and-multiply returns `a^exp mod m`, and 1 for a non-positive exponent |
| Modulo.FromStr | src/algorist/math/modulo.rs:219-221 | a parse error is passed through; otherwise the result is normalised and congruent to the parsed integer; the text of a residue parses back to it |
| Modulo.Vals | src/algorist/math/modulo.rs:227-229 | the raw values, one per element, in order |
| Modulo.MaxSumOf | src/algorist/math/modulo.rs:224-229 | the residue of the maximum subarray sum of the raw values; with normalised elements this is the residue of their total |
| Modulo.NewExamples | src/algorist/math/modulo.rs:385-406 | the documented residues of `i64::MIN`, `i64::MAX`, `-2000000014` and `-1` modulo 1000000007 |
| Modulo.InverseExample | src/algorist/math/modulo.rs:518-536 | the inverse of 2 modulo 1000000007 is 500000004 |
| Log.DivShrinks | src/algorist/math/log.rs:24-27 | each division by `base` makes a positive `x` strictly smaller |
| Log.DivisionsAreDigits | src/algorist/math/log.rs:19-29 | the count `c` satisfies `n < base^c` and, when positive, `base^(c-1) <= n`: it is the number of base-`base` digits |
| Log.DigitsLeast | src/algorist/math/log.rs:19-29 | every `c` with `n < base^c` is at least the count |
| Log.DivTillZero | src/algorist/math/log.rs:19-29 | the loop returns the least `c` with `n < base^c` |
| Log.DivTillZeroExamples | src/algorist/math/log.rs:52-64 | the tested counts for 0, 1, 3, 8 in base 2 and the larger cases |
| IntRoot.FloorRootUnique | src/math/root.rs:131-151 | `r^k <= n < (r+1)^k` has at most one solution `r >= 0` |
| IntRoot.ExactIsFloorRoot | src/math/root.rs:66-73 | an exact `k`-th root is the floor root |
| IntRoot.NoRootBesideFloor | src/math/root.rs:66-73 | if any integer `x` has `x^k == n`, the floor root has it too, so testing the floor root suffices |
| IntRoot.RootFloorAsWritten | src/math/root.rs:180-192 | the loop as written only lowers the guess: the result is at most the guess with `x^k <= n`, the guess itself when its power does not exceed `n`, and the floor root only when the guess is not below it; with `k == 0` a positive `n` keeps the guess |
| IntRoot.UndershotGuess | src/math/root.rs:186 | a guess of 3 for the cube root of 64 (what flooring `64f64.powf(1/3)` gives) is returned unchanged and is not the floor root |
| IntRoot.RootFloorUnsigned | src/math/root.rs:180-192 | corrected: raising the guess while `(x+1)^k <= n` and then lowering it while `x^k > n` gives the floor root from any guess |
| IntRoot.RootFloorAgrees | src/math/root.rs:180-192 | the loop as written and the corrected loop return the same root exactly when the guess is not below the floor root; otherwise the written one returns less |
| IntRoot.RootFloor | src/math/root.rs:196-209 | with either loop, a non-negative `r` with `r^k <= n` for `n >= 0`, and minus that for `|n|` when `n < 0` (odd `k` only); as written `|r|` is at most the guess and equals it when its power does not exceed `|n|`; when the estimate fits (always for `UpAndDown`; for `DownOnly` when it is not below the floor root), `|r|` is the floor root of `|n|` and `(r-1)^k < n <= r^k` for negative `n` |
| IntRoot.Root | src/math/root.rs:66-73 | `Some(x)` only with `x^k == n` (and `x >= 0` for `n >= 0`), as written only with `|x|` at most the guess; `None` when the estimate fits (always for `UpAndDown`; for `DownOnly` when it is not below the floor root) only when no integer is a `k`-th root of `n` |
| IntRoot.IsPerfectPow | src/math/root.rs:47-50 | true only when some integer `x` has `x^k == n` (as written one with `|x|` at most the guess); when the estimate fits (always for `UpAndDown`; for `DownOnly` when it is not below the floor root), true exactly then |
| IntRoot.Sqrt | src/math/root.rs:95-101 | negative input refused; `Some` only of a non-negative `x` with `x*x == n` (as written at most the guess); `None` when the estimate fits (always for `UpAndDown`; for `DownOnly` when it is not below the floor root) only when there is none |
| IntRoot.Cbrt | src/math/root.rs:113-115 | negative input allowed; `Some` only of an `x` with `x*x*x == n` (as written with `|x|` at most the guess); `None` when the estimate fits (always for `UpAndDown`; for `DownOnly` when it is not below the floor root) only when there is none |
| IntRoot.RootCeil | src/math/root.rs:168-177 | a `c >= 0` whose predecessor's power is below `n`, as written at most the guess plus one; when the estimate fits (always for `UpAndDown`; for `DownOnly` when it is not below the floor root), the least `c` with `n <= c^k` |
| IntRoot.SixtyFourAsWritten | src/math/root.rs:186 | with the floored estimate 3 for 64 and `k == 3`, the written `root_floor` is 3 and `root`, `is_perfect_pow` and `cbrt` miss the exact root 4 |
| IntRoot.RootFloorExamples | src/math/root.rs:222-246 | the tested floor roots of 28, 12 and 12345 |
| AlgoristRoot.RootFloor | src/algorist/math/root.rs:25-32 | with either loop, a non-negative `x` with `x^k <= n`; as written at most the guess and equal to it when its power does not exceed `n`; when the estimate fits (always for `UpAndDown`; for `DownOnly` when it is not below the floor root), the floor root; with `k == 0` only the written loop and a positive `n` |
| AlgoristRoot.RootFloorAgrees | src/algorist/math/root.rs:25-32 | the loop as written and the corrected loop return the same root exactly when the rounded guess is not below the floor root; otherwise the written one returns less |
| AlgoristRoot.Root | src/algorist/math/root.rs:16-23 | `Some` only of a non-negative exact root (as written at most the guess); `None` when the estimate fits (always for `UpAndDown`; for `DownOnly` when it is not below the floor root) only when no integer is a `k`-th root |
| AlgoristRoot.RootCeil | src/algorist/math/root.rs:34-38 | a `c >= 0` whose predecessor's power is below `n` (for `k >= 1`), as written at most the guess plus one; when the estimate fits (always for `UpAndDown`; for `DownOnly` when it is not below the floor root), the least `c` with `n <= c^k` |
| AlgoristRoot.IsPerfectPow | src/algorist/math/root.rs:2-4 | true only when some `y` has `y^k == n` (as written some `y` up to the guess); when the estimate fits (always for `UpAndDown`; for `DownOnly` when it is not below the floor root), true exactly then |
| AlgoristRoot.FirstRootAsWritten | src/algorist/math/root.rs:27 | for `k == 1`, `2^62 + 1` with its estimate `2^62` gives `root_floor` `2^62`, `root` `None` and `is_perfect_pow` false, though it is its own first root; `root_ceil` of `2^62 + 3` stays at most `2^62 + 1` |
| AlgoristRoot.RootExamples | src/algorist/math/root.rs:47-62 | 27 has cube root 3, 28 has no cube root, 12 has no square root |
| Primes.PrimeIffNoSmallFactor | src/math/primes.rs:107-119 | a number `n >= 2` is prime exactly when no `d` with `d*d <= n` divides it |
| Primes.PrimeDivisor | src/math/primes.rs:107-119 | every `n >= 2` has a prime divisor `p <= n` |
| Primes.IsPrimeTest | src/math/primes.rs:107-119 | trial division up to the square root returns exactly primality, false for `n <= 1` |
| Primes.CrossOut | src/math/primes.rs:206-208 | the inner loop clears exactly the multiples of `i` from `i*i` on and keeps every other entry |
| Primes.SievedStep | src/math/primes.rs:204-210 | one outer turn turns a table sieved below `i` into one sieved below `i + 1` |
| Primes.SievedComplete | src/math/primes.rs:199-212 | a table sieved past the square root holds primality at every index |
| Primes.SievedAt | src/math/primes.rs:204-205 | the entry of `i` on its own turn already holds whether `i` is prime |
| Primes.Sieve | src/math/primes.rs:199-212 | a table of length `max(n, 2) + 1` whose entry `i` is whether `i` is prime |
| Primes.NewTable | src/math/primes.rs:200-203 | the initial table, `false` at 0 and 1, is sieved below 2 |
| Primes.SqrtBelow | src/math/primes.rs:204 | for `n >= 2`, `1 <= isqrt(n) < n`, so every index of the outer loop is in the table |
| Primes.SieveTurn | src/math/primes.rs:205-209 | one outer turn reports whether `i` is prime and extends the sieved range by one |
| Primes.SievedStart | src/math/primes.rs:200-203 | a table true from 2 on is sieved below 2 |
| Primes.TrueIndices | src/math/primes.rs:258-264 | the indices holding `true`, strictly ascending, and no others |
| Primes.FalseIndicesFrom1 | src/math/primes.rs:276-279 | the indices in `1..=k` holding `false`, strictly ascending |
| Primes.PrimesUpTo | src/math/primes.rs:258-264 | the primes up to `max(n, 2)`, strictly ascending, and nothing else |
| Primes.NonPrimes | src/math/primes.rs:276-279 | the non-primes in `1..=n`, strictly ascending, and nothing else |
| Primes.SieveIter.constructor | src/math/primes.rs:132-143 | the limit is `max(n, 2)`, the table starts sieved below 2, and `current == 2` |
| Primes.SieveIter.Scan | src/math/primes.rs:152-164 | past the square root, returns the first prime from `current` on (or `None`) and moves `current` past it |
| Primes.SieveIter.Advance | src/math/primes.rs:168-178 | below the square root, returns the first prime in `[current, nsqrt]`, crossing out its multiples, or `None` with `current` past the square root |
| Primes.SieveIter.NextAsWritten | src/math/primes.rs:149-180 | as written, `next` looks for the next prime only up to the square root when `current` has not yet passed it |
| Primes.SieveIter.Next | src/math/primes.rs:149-180 | corrected `next`: always the first prime from `current` up to `n`, or `None` when none is left |
| Primes.CollectPrimes | src/math/primes.rs:237-245 | collecting the corrected iterator gives every prime up to `max(n, 2)` in ascending order |
| Primes.FirstPrimesUpTo24 | src/math/primes.rs:149-180 | for `n = 24` (square root 4) the first primes in the ranges `next` searches are 2, 3, none, and 5 |
| Primes.SieveIter24 | src/math/primes.rs:149-180 | for `n = 24` the iterator as written yields 2, 3 and then `None`, where 2, 3, 5 are intended |
| Primes.LargestPrimeFactorBelow | src/math/primes.rs:294-305 | the largest prime below `i` dividing `j`, or 0 when there is none |
| Primes.PrimeFactorCountBelow | src/math/primes.rs:321-332 | the number of primes below `i` that divide `j` |
| Primes.DivisorsBelowStep | src/math/primes.rs:321-332 | the prime divisors below `i` are those below `i - 1` plus `i - 1` when it is a prime divisor |
| Primes.NoSmallerPrimeDivisor | src/math/primes.rs:297-298 | a number that no smaller prime divides is prime, so the zero test finds exactly the primes |
| Primes.Stamp | src/math/primes.rs:298-300 | writes `i` at every positive multiple of `i` and keeps every other entry |
| Primes.Bump | src/math/primes.rs:324-326 | adds one at every positive multiple of `i` and keeps every other entry |
| Primes.ZeroTable | src/math/primes.rs:295-296 | the zeroed table is correct for both factor tables below 2 |
| Primes.LargestStep | src/math/primes.rs:297-302 | one turn extends the largest-factor table from below `i` to below `i + 1` |
| Primes.CountStep | src/math/primes.rs:324-328 | one turn extends the factor-count table from below `i` to below `i + 1` |
| Primes.LargestTurn | src/math/primes.rs:297 | the entry of `i` on its turn is 0 exactly when `i` is prime |
| Primes.CountTurn | src/math/primes.rs:324 | the count of `i` on its turn is 0 exactly when `i` is prime |
| Primes.LargestTableStep | src/math/primes.rs:297-302 | the table after a turn is the largest-factor table one step further |
| Primes.CountTableStep | src/math/primes.rs:324-328 | the table after a turn is the factor-count table one step further |
| Primes.DivisorAtMost | src/math/primes.rs:294-305 | a divisor of a positive number is at most that number |
| Primes.LargestTableFinal | src/math/primes.rs:294-305 | in the finished table, entries 0 and 1 are 0 and entry `j >= 2` is the largest prime dividing `j` |
| Primes.CountTableFinal | src/math/primes.rs:321-332 | in the finished table, entry `j >= 1` is the number of distinct primes dividing `j` |
| Primes.MaxFactors | src/math/primes.rs:294-305 | length `n + 1`; entries 0 and 1 are 0; entry `j >= 2` is a prime dividing `j` that no larger prime divisor exceeds |
| Primes.CountFactors | src/math/primes.rs:321-332 | length `n + 1`; entry `j >= 1` is the number of distinct primes dividing `j` |
| Primes.ProductAppend | src/math/primes.rs:407-409 | the product of a factorisation grows by `p^c` when `(p, c)` is appended |
| Primes.ProductPositive | src/math/primes.rs:407-409 | a factorisation with positive factors has a positive product |
| Primes.PrimeFactors.constructor | src/math/primes.rs:363-375 | the iterator starts with the whole of `n` left and nothing emitted |
| Primes.PrimeFactors.DivideOut | src/math/primes.rs:387-390 | divides `factor` out completely: `old == value * factor^count` with `count >= 1`, and `factor` no longer divides `value` |
| Primes.PrimeFactors.TakeFactor | src/math/primes.rs:384-392 | emitting a factor found in the range keeps the factorisation invariant and shrinks `value` |
| Primes.PrimeFactors.TakeRest | src/math/primes.rs:395-398 | past the range, what is left is one prime factor; it is emitted and `value` becomes 1 |
| Primes.PrimeFactors.Next | src/math/primes.rs:380-403 | emits the next prime factor (ascending, count at least 1, product kept) or `None` once `value <= 1` |
| Primes.OrderAfterTake | src/math/primes.rs:384-392 | a factor taken from the range is larger than every factor emitted before |
| Primes.OrderAfterRest | src/math/primes.rs:395-398 | the leftover prime is larger than every factor emitted before |
| Primes.NoDivisorBelow | src/math/primes.rs:384-392 | after a candidate is tried, no number below the next candidate divides `value` |
| Primes.FactorIsPrime | src/math/primes.rs:384-392 | the first candidate that divides `value` is prime |
| Primes.ValueIsPrime | src/math/primes.rs:395-398 | once every candidate up to the square root of `n` is tried, a leftover `value > 1` is prime |
| Primes.Factorize | src/math/primes.rs:407-409 | strictly ascending primes with positive counts whose product is `n`; empty for `n <= 1` |
| Divisors.Combinations | src/math/primes.rs:440-450 | the number of combinations is the product of the lengths of the remaining power lists |
| Divisors.CombinationsUpTo | src/math/primes.rs:444-448 | the first `j` blocks of the loop have `j` times the remaining count |
| Divisors.GenerateCombinations | src/math/primes.rs:440-450 | the recursive loop returns the combinations, as many as the product of the list lengths |
| Divisors.BlockOf | src/math/primes.rs:444-448 | a value of the first `j` blocks comes from some power with index below `j` |
| Divisors.InBlock | src/math/primes.rs:444-448 | every value of block `e < j` is among the first `j` blocks |
| Divisors.CombinationIsDivisor | src/math/primes.rs:430-450 | every combination is `product` times a positive divisor of the remaining factors' product |
| Divisors.DivisorIsCombination | src/math/primes.rs:430-450 | every positive divisor of the remaining factors' product appears as a combination |
| Divisors.BlocksDisjoint | src/math/primes.rs:444-448 | blocks for different powers of the same prime share no value |
| Divisors.CombinationsDistinct | src/math/primes.rs:430-450 | the combinations of a well-formed factorisation are pairwise distinct |
| Divisors.LengthsOfPowers | src/math/primes.rs:430-438 | the number of divisors is the product of `count + 1` over the factors |
| Divisors.GenerateDivisors | src/math/primes.rs:430-438 | `∏(count+1)` values; for a well-formed factorisation each positive divisor of the product exactly once |
| Divisors.AllDivisors | src/math/primes.rs:417-419 | for `n >= 1`, every positive divisor of `n` exactly once; `[1]` for `n == 0` |
| Divisors.AllDivisorsSorted | src/math/primes.rs:423-427 | for `n >= 1`, the positive divisors of `n`, strictly ascending; `[1]` for `n == 0` |
| MaxSum.KadaneStep | src/ext/slice/sum.rs:23-26 | one step of Kadane's loop keeps the invariant: `current` is the best sum ending here, `max_sum` the best seen |
| MaxSum.KadaneDone | src/ext/slice/sum.rs:19-28 | at the end, `max_sum` is non-negative and is the maximum subarray sum (the empty subarray included) |
| MaxSum.MaxSumOf | src/ext/slice/sum.rs:19-28 | the result is the maximum sum of a contiguous subarray, and at least 0 |
| MaxSum.MaxSumFromIter | src/ext/slice/sum.rs:30-39 | the same for the items of an iterator |
| MaxSum.MaxSubarraySumUnique | src/ext/slice/sum.rs:19-28 | the maximum subarray sum is unique |
| MaxSum.SumSliceBound | src/ext/slice/sum.rs:19-28 | with non-negative items every slice sum lies between 0 and the total |
| MaxSum.AllNonNegative | src/ext/slice/sum.rs:46-72 | with non-negative items the answer is the total |
| MaxSum.SumNonPositive | src/ext/slice/sum.rs:19-28 | with non-positive items every sum is at most 0 |
| MaxSum.AllNonPositive | src/ext/slice/sum.rs:46-72 | with non-positive items the answer is 0 |
| Count.CountOccurrences | src/ext/slice/count.rs:23-31 | length `n + 1`, and entry `v` is the number of occurrences of `v` |
| Count.TotalIncrement | src/ext/slice/count.rs:26-28 | one increment adds one to the total |
| Count.CountsTotal | src/ext/slice/count.rs:23-31 | the counts add up to the number of elements `<= n` |
| Count.ZeroTotal | src/ext/slice/count.rs:24 | the fresh table totals zero |
| Count.IndicesWithMembers | src/ext/slice/count.rs:33-41 | the indices listed for a count are exactly those in range holding that count |
| Count.IndicesWithAscending | src/ext/slice/count.rs:33-41 | those indices are strictly ascending |
| Count.Group | src/ext/slice/count.rs:33-41 | the keys are exactly the counts present (index 0 skipped when `exclude_zero`); each value lists the indices with that count in ascending order |
| Count.GroupPartition | src/ext/slice/count.rs:33-41 | every index in range is listed under its own count and under no other |
| Sorting.InsertByKey | src/ext/vec/sorted.rs:18-25 | inserting one element gives one more element |
| Sorting.InsertSorted | src/ext/vec/sorted.rs:18-25 | inserting into a sorted list keeps it sorted by key |
| Sorting.InsertMultiset | src/ext/vec/sorted.rs:18-25 | inserting adds exactly the element |
| Sorting.InsertStable | src/ext/vec/sorted.rs:18-25 | inserting keeps the order of elements with equal keys and puts the new one after them |
| Sorting.SortByKeySpecCorrect | src/ext/vec/sorted.rs:18-25 | the stable sort is sorted by key, a permutation, and keeps the order of equal keys |
| Sorting.InsertAt | src/ext/vec/sorted.rs:18-25 | inserting is placing the element after the last one with a key not greater |
| Sorting.ShiftGap | src/ext/vec/sorted.rs:18-25 | shifting opens a gap after the last element with a key not greater than the one inserted |
| Sorting.InsertInto | src/ext/vec/sorted.rs:18-25 | one insertion step on the array inserts `a[i]` into the sorted prefix |
| Sorting.SortByKey | src/ext/vec/sorted.rs:18-25 | the in-place sort leaves the stable sort of the original contents |
| Sorting.Sorted | src/ext/vec/sorted.rs:13-16 | an ascending permutation of the input |
| Sorting.SortedByKey | src/ext/vec/sorted.rs:18-25 | a permutation sorted by key that keeps the order of equal keys |
| Sorting.Dedup | src/ext/vec/sorted.rs:29 | on a sorted input, the same values, each once, strictly ascending |
| Sorting.DistinctCount | src/ext/vec/sorted.rs:27-31 | a strictly ascending list has as many elements as distinct values |
| Sorting.SortedDedup | src/ext/vec/sorted.rs:27-31 | strictly ascending, the same values as the input, as many as the input's distinct values |
| Reversed.Rev | src/algorist/ext/vec/reversed.rs:7-10 | the reversal has the same length |
| Reversed.RevIndex | src/algorist/ext/vec/reversed.rs:7-10 | element `i` of the reversal is element `n - 1 - i` |
| Reversed.RevRev | src/algorist/ext/vec/reversed.rs:7-10 | reversing twice gives back the input |
| Reversed.RevMultiset | src/algorist/ext/vec/reversed.rs:7-10 | reversing is a permutation |
| Reversed.RevConcat | src/algorist/ext/vec/reversed.rs:7-10 | the reversal of `x + y` is the reversal of `y` followed by that of `x` |
| Reversed.ReverseRange | src/algorist/ext/vec/reversed.rs:8 | the in-place swap loop reverses the range and leaves the rest alone |
| Reversed.Reversed | src/algorist/ext/vec/reversed.rs:7-10 | element `i` is element `n - 1 - i`, a permutation whose reversal is the input |
| Rotated.LeftByIndex | src/ext/vec/rotated.rs:7-10 | rotating left by `k` puts element `(i + k) mod n` at `i` |
| Rotated.RightByIndex | src/ext/vec/rotated.rs:12-15 | rotating right by `k` puts element `(i + n - k) mod n` at `i` |
| Rotated.RotationsUndo | src/ext/vec/rotated.rs:7-15 | rotating left and right by the same `k` undo each other; by 0 or `n` nothing changes |
| Rotated.RotateLeftInPlace | src/ext/vec/rotated.rs:8 | the three-reversal rotation on the array rotates left by `k` |
| Rotated.RotateRightInPlace | src/ext/vec/rotated.rs:13 | the same rotates right by `k` |
| Rotated.RotatedLeft | src/ext/vec/rotated.rs:7-10 | element `i` is element `(i + k) mod n`, and rotating right by `k` gives back the input |
| Rotated.RotatedRight | src/ext/vec/rotated.rs:12-15 | element `i` is element `(i + n - k) mod n`, and rotating left by `k` gives back the input |
| Chunks.ChunksFlatten | src/ext/iter/chunks.rs:42-52 | for a positive size the chunks concatenated give back the items |
| Chunks.ChunksSizes | src/ext/iter/chunks.rs:1-6 | every chunk is non-empty and at most `size` long, and every chunk but the last is exactly `size` long |
| Chunks.ChunksOfZero | src/ext/iter/chunks.rs:42-52 | with size 0 there are no chunks |
| Chunks.ChunksCount | src/ext/iter/chunks.rs:42-52 | there are `ceil(n / size)` chunks |
| Chunks.Chunks.New | src/ext/iter/chunks.rs:34-36 | the iterator holds the items and the size |
| Chunks.Chunks.Next | src/ext/iter/chunks.rs:42-52 | takes the next `min(size, remaining)` items, `None` when it takes nothing; this is the head of the remaining chunks |
| Chunks.Chunks.Collect | src/ext/iter/chunks.rs:70-75 | collecting yields exactly the chunks of the remaining items |
| Chunks.Example | src/ext/iter/chunks.rs:13-15 | chunks of 3 over `1..=7` are `[1,2,3], [4,5,6], [7]` |
| Window.Pairs | src/ext/iter/window.rs:1-6 | no pairs for fewer than two items, and `n - 1` pairs otherwise |
| Window.PairsTail | src/ext/iter/window.rs:114-124 | the pairs are the first two items followed by the pairs from the second item on |
| Window.SlidingWindow.New | src/ext/iter/window.rs:103-105 | a new window has no previous item, and what it will yield is the pairs of the items |
| Window.SlidingWindow.Next | src/ext/iter/window.rs:114-124 | the first call takes two items, later calls one; each call yields the next pair of consecutive items, `None` at the end |
| Window.SlidingWindow.Collect | src/ext/iter/window.rs:114-124 | collecting yields exactly the pairs of consecutive items |
| Window.CountEqual | src/ext/iter/window.rs:19-23 | the number of equal pairs is at most the number of pairs |
| Window.EqualNeighboursExample | src/ext/iter/window.rs:19-23 | `[1,2,2,3,4,4,5]` has 2 equal neighbour pairs |
| AlgoristWindow.LiftApply | src/algorist/ext/iter/window.rs:18 | the closure over pairs calls `f` on the two items of the pair |
| AlgoristWindow.SlidingWindowTryFold | src/algorist/ext/iter/window.rs:11-22 | fewer than two items give back `init` |
| AlgoristWindow.TryFoldFirstBreak | src/algorist/ext/iter/window.rs:11-22 | the first `Break` ends the fold with its value, after consuming its pair |
| AlgoristWindow.TryFoldNoBreak | src/algorist/ext/iter/window.rs:11-22 | without a `Break` the result is the full fold over the pairs |
| AlgoristWindow.TryFoldExamples | src/algorist/ext/iter/window.rs:134-227 | the tested run lengths: 1 for no pair, 3 for "aaabcc", 2 for `[1,1,2,3,4,5]` |
| FoldWhile.IntoInner | src/ext/iter/fold_while.rs:8-12 | the value carried by either variant |
| FoldWhile.Run | src/ext/iter/fold_while.rs:26-37 | the fold never consumes more items than there are |
| FoldWhile.AccShift | src/ext/iter/fold_while.rs:30-34 | after a `Continue` on the first item, the fold goes on from the new accumulator |
| FoldWhile.RunFirstBreak | src/ext/iter/fold_while.rs:26-37 | the first `Break` is returned as it is, after consuming its item |
| FoldWhile.RunNoBreak | src/ext/iter/fold_while.rs:26-37 | without a `Break` the result is `Continue` of the full fold, all items consumed |
| FoldWhile.FoldWhileIter | src/ext/iter/fold_while.rs:26-37 | the loop returns the fold's result and leaves the unconsumed items; an empty iterator gives `Continue(init)` |
| FoldWhile.SumBelowFiveExample | src/ext/iter/fold_while.rs:45-55 | summing items below 5 of `1..=5` breaks at 5 with 10 |
| Array2d.CellIndexInjective | src/collections/arr_2d.rs:231-236 | distinct cells of a row-major grid have distinct indices |
| Array2d.CellIndex | src/collections/arr_2d.rs:231-236 | the row-major index of an in-grid cell lies inside the buffer |
| Array2d.CellOfIndex | src/collections/arr_2d.rs:231-236 | every buffer index is the row-major index of exactly the cell `(k / cols, k % cols)` |
| Array2d.TransposeTwice | src/collections/arr_2d.rs:25-27 | transposing twice gives back the grid |
| Array2d.TransposeUnique | src/collections/arr_2d.rs:25-27 | a grid has one transpose |
| Array2d.TransposeFromGenerator | src/collections/arr_2d.rs:25-27 | generating from `(i, j) -> self[(j, i)]` gives the transpose |
| Array2d.StepByLength | src/collections/arr_2d.rs:84-87 | stepping by `cols` visits `ceil(n / cols)` elements |
| Array2d.StepByIndex | src/collections/arr_2d.rs:84-87 | element `k` of the stepped sequence is element `k * cols` |
| Array2d.RowsFilledStep | src/collections/arr_2d.rs:56-60 | one turn of the outer loop fills one more row from the generator |
| Array2d.DiagRows | src/collections/arr_2d.rs:97-127 | diagonal `i` starts at row `max(0, i - cols + 1)` and ends at row `min(rows, i + 1)` |
| Array2d.AntiDiagonalMembers | src/collections/arr_2d.rs:97-110 | "/" diagonal `i` holds exactly the cells with `row + col == i`, from the top down |
| Array2d.MainDiagonalMembers | src/collections/arr_2d.rs:114-127 | "\" diagonal `i` holds exactly the cells with `cols - (col + 1) + row == i`, from the top down |
| Array2d.NeighbourhoodUnion | src/collections/arr_2d.rs:173-176 | orthogonal plus diagonal neighbours are the eight-neighbourhood without the cell itself |
| Array2d.FirstMinPosition | src/collections/arr_2d.rs:203-210 | the scan returns the first index with the smallest key |
| Array2d.MinimumAtCell | src/collections/arr_2d.rs:203-210 | that index is the minimum at every cell and strictly below every earlier cell in row-major order |
| Array2d.Arr2d.New | src/collections/arr_2d.rs:16-22 | a `rows × cols` grid with `default` in every cell |
| Array2d.Arr2d.WithGenerator | src/collections/arr_2d.rs:52-63 | cell `(i, j)` is `generator(i, j)` |
| Array2d.Arr2d.Transpose | src/collections/arr_2d.rs:25-27 | a fresh `cols × rows` grid whose cell `(i, j)` is cell `(j, i)` |
| Array2d.Arr2d.Row | src/collections/arr_2d.rs:73-76 | `cols` values, element `j` being cell `(idx, j)` |
| Array2d.Arr2d.ColCells | src/collections/arr_2d.rs:84-87 | `rows` values, element `i` being cell `(i, idx)` |
| Array2d.Arr2d.Set | src/collections/arr_2d.rs:240-245 | writing through `IndexMut` changes that cell and no other |
| Array2d.Arr2d.Swap | src/collections/arr_2d.rs:183-191 | the two cells exchange values; every other cell is unchanged |
| Array2d.Arr2d.MapRow | src/collections/arr_2d.rs:78-82 | updating through `row_mut` changes exactly the cells of that row |
| Array2d.Arr2d.MapCol | src/collections/arr_2d.rs:89-93 | updating through `col_mut` changes exactly the cells of that column |
| Array2d.Arr2d.RightDiagCoords | src/collections/arr_2d.rs:97-110 | "/" diagonal `i`: exactly the grid cells with `row + col == i`, rows ascending |
| Array2d.Arr2d.LeftDiagCoords | src/collections/arr_2d.rs:114-127 | "\" diagonal `i`: exactly the grid cells with `cols - (col + 1) + row == i`, rows ascending |
| Array2d.Arr2d.Values | src/collections/arr_2d.rs:231-236 | the values of the given cells, in order |
| Array2d.Arr2d.WithValues | src/collections/arr_2d.rs:178-181 | each coordinate paired with its cell's value |
| Array2d.Arr2d.RightDiags | src/collections/arr_2d.rs:97-110 | `rows + cols - 1` diagonals, the `i`-th being the values of "/" diagonal `i` |
| Array2d.Arr2d.LeftDiags | src/collections/arr_2d.rs:114-127 | `rows + cols - 1` diagonals, the `i`-th being the values of "\" diagonal `i` |
| Array2d.Arr2d.CellDiagsPos | src/collections/arr_2d.rs:131-133 | the two indices name diagonals that pass through the cell |
| Array2d.Arr2d.NeighCoords | src/collections/arr_2d.rs:135-150 | at most four cells, exactly the in-grid cells at Manhattan distance 1 |
| Array2d.Arr2d.DiagNeighCoords | src/collections/arr_2d.rs:152-171 | at most four cells, exactly the in-grid diagonal neighbours |
| Array2d.Arr2d.AllNeighCoordsMembers | src/collections/arr_2d.rs:173-176 | at most eight cells, exactly the in-grid cells of the eight-neighbourhood |
| Array2d.Arr2d.MinByKey | src/collections/arr_2d.rs:203-210 | `None` exactly for an empty grid; otherwise the first cell in row-major order with the smallest key |
| Array2d.Examples | src/collections/arr_2d.rs:418-425 | the tested transpose of a `2 × 3` grid |
| Array2d.NeighExamples | src/collections/arr_2d.rs:450-458 | the tested neighbours of `(0, 0)` and `(0, 1)` in a `2 × 3` grid |
| Cards.RankValue | src/misc/cards.rs:6-21 | ranks are ordered by declaration: rank number `v` is the `v`-th of the thirteen |
| Cards.RankFromChar | src/misc/cards.rs:23-41 | the rank read from a rank letter displays as that letter again |
| Cards.SuitIndex | src/misc/cards.rs:71-76 | the discriminant used to pick a suit's bucket, one of four |
| Cards.RankCharsRoundTrip | src/misc/cards.rs:24-61 | rank to letter to rank, and letter to rank to letter, are identities; "23456789TJQKA" is in rank order |
| Cards.SuitCharsRoundTrip | src/misc/cards.rs:92-111 | suit to letter to suit, and letter to suit to letter, are identities |
| Cards.AllSuitsOnce | src/misc/cards.rs:79-81 | `all` lists each of the four suits once, in discriminant order |
| Cards.SuitsWhere | src/misc/cards.rs:83-88 | the suits satisfying `f`, in order |
| Cards.SuitsWhereFrom | src/misc/cards.rs:83-88 | the suits from index `i` on satisfying `f`, in order |
| Cards.CardStringRoundTrip | src/misc/cards.rs:155-169 | displaying a card and reading the text back give the card, and the reverse |
| Cards.CardFromString | src/misc/cards.rs:163-169 | the card read from a rank letter and a suit letter displays as that text again |
| Cards.CmpByRankOnly | src/misc/cards.rs:171-181 | cards compare by rank alone: `Equal` exactly for equal ranks, and antisymmetric |
| Cards.EqualRankDifferentCards | src/misc/cards.rs:171-181 | two cards of the same rank and different suits compare `Equal` but are not `==` |
| Cards.WithSuitConcat | src/misc/cards.rs:253-263 | filtering by suit distributes over concatenation |
| Cards.WithSuitMembers | src/misc/cards.rs:289-291 | a suit's bucket holds only cards of that suit |
| Cards.BucketSizes | src/misc/cards.rs:253-263 | the four buckets together hold as many cards as the deck |
| Cards.PushKeepsBuckets | src/misc/cards.rs:253-263 | pushing a card on the deck and on its suit's bucket keeps the buckets equal to the filters |
| Cards.SuitRowFacts | src/misc/cards.rs:214-232 | one suit's row holds its thirteen ranks, lowest first |
| Cards.DeckOfMembers | src/misc/cards.rs:203-236 | the first `n` suit rows hold `13n` cards, exactly those of the first `n` suits |
| Cards.DeckOfBucket | src/misc/cards.rs:203-236 | filtering the new deck by a suit gives that suit's row |
| Cards.DeckOfNoRepeats | src/misc/cards.rs:203-236 | the new deck holds no card twice |
| Cards.FullDeckFacts | src/misc/cards.rs:203-236 | 52 cards, every card, none twice, thirteen per suit |
| Cards.InsertWithSuit | src/misc/cards.rs:266-279 | filtering by suit commutes with one stable insertion |
| Cards.SortWithSuit | src/misc/cards.rs:266-279 | filtering by suit commutes with the stable sort |
| Cards.PushSuitRow | src/misc/cards.rs:210-233 | one turn of the outer loop appends the suit's row and keeps the buckets |
| Cards.SortCards | src/misc/cards.rs:268 | the sort loop computes the stable sort by rank |
| Cards.SortedBuckets | src/misc/cards.rs:266-279 | sorting every bucket gives the buckets of the sorted deck |
| Cards.CardDeck.New | src/misc/cards.rs:203-236 | the 52-card deck, suit by suit and rank by rank, with consistent buckets and no trump |
| Cards.CardDeck.FromVec | src/misc/cards.rs:253-263 | keeps the cards and the trump; each bucket is the cards of its suit in order |
| Cards.CardDeck.Sorted | src/misc/cards.rs:266-279 | a deck sorted stably by rank, each bucket sorted too, buckets still consistent, same trump |
| Cards.CardDeck.SetTrump | src/misc/cards.rs:281-299 | sets the trump and changes nothing else; afterwards `is_trump` holds for that suit only |
| Cards.CardDeck.CardsBySuit | src/misc/cards.rs:289-291 | the cards of that suit, in deck order |
| LineBundler.ReplaceAllAbsent | src/cmd/bundle.rs:284-296 | replacing a pattern that does not occur changes nothing |
| LineBundler.StartAbsent | src/cmd/bundle.rs:284-296 | a pattern whose first character is absent does not occur |
| LineBundler.ReplaceAllCharGone | src/cmd/bundle.rs:284-296 | after replacing a character by text without it, the character is gone |
| LineBundler.RegexLine | src/cmd/bundle.rs:284-296 | the pattern starts with `^` and ends with the trailing-comment suffix |
| LineBundler.RegexLineShape | src/cmd/bundle.rs:284-296 | the pattern has no literal space left, and text without spaces passes unchanged |
| LineBundler.RegexLineComment | src/cmd/bundle.rs:48 | the blank-or-comment pattern is `^\s*(?://.*)?$` |
| LineBundler.LineLen | src/cmd/bundle.rs:99 | `read_line` takes up to and including the first newline, or everything that is left |
| LineBundler.ReadLinesSplit | src/cmd/bundle.rs:99 | the lines read concatenate to the content; none is empty and all but the last end in their only newline |
| LineBundler.ReadLinesShape | src/cmd/bundle.rs:99 | no line read is empty, and every line but the last ends in a newline |
| LineBundler.ReadLinesConcat | src/cmd/bundle.rs:99 | the lines read concatenate back to the content |
| LineBundler.PopLast | src/cmd/bundle.rs:107 | `pop` removes the last character, whatever it is, and leaves an empty line as it is |
| LineBundler.StripNewline | src/cmd/bundle.rs:107 | the line without its final newline if it has one, otherwise the line itself |
| LineBundler.PopDropsLastCharacter | src/cmd/bundle.rs:107 | a final line "}" without a newline loses its brace to `pop` |
| LineBundler.StripNewlineAgrees | src/cmd/bundle.rs:107 | `pop` and stripping the newline agree on every line but the last; the stripped line plus its newline is the line read |
| LineBundler.TrimAgrees | src/cmd/bundle.rs:99-107 | when the content ends in a newline, every line read ends in one, so `pop` and stripping agree on each |
| LineBundler.BinLineAgrees | src/cmd/bundle.rs:101-118 | where `pop` and stripping agree on a line, the loop body writes the same for both |
| LineBundler.BinOutAgrees | src/cmd/bundle.rs:99-120 | on lines that all end in a newline, `binrs` writes the same whether it pops or strips |
| LineBundler.PopLosesFinalBrace | src/cmd/bundle.rs:107 | a solution that is a lone `}` with no newline is copied as `}` when stripping and loses the brace with `pop` |
| LineBundler.LastLineEnd | src/cmd/bundle.rs:99 | the last line read ends with the last character of the content |
| LineBundler.Split | src/cmd/bundle.rs:149 | `split("::")` yields at least one part |
| LineBundler.JoinSplit | src/cmd/bundle.rs:149-151 | joining the parts with `::` gives back the module path |
| LineBundler.Repeat | src/cmd/bundle.rs:232 | `repeat(n)` has `n` times the length |
| LineBundler.UseRewriteHops | src/cmd/bundle.rs:225-236 | the rewritten import is the original line with `crate::` replaced by exactly `lvl` copies of `super::` |
| LineBundler.ModReader | src/cmd/bundle.rs:266-282 | opens `src/p.rs` first, then `src/p/mod.rs`; fails exactly when neither exists, with both paths in the message |
| LineBundler.ModReaderBound | src/cmd/bundle.rs:266-282 | a module path that opens is shorter than the longest file path |
| LineBundler.BinOutStep | src/cmd/bundle.rs:99-120 | each line read appends what the loop body writes for it |
| LineBundler.KeptLines | src/cmd/bundle.rs:101-118 | one kept line per line read, in order: a lone newline as it is, any other with its end trimmed by the chosen line end |
| LineBundler.BinOutKeepsLines | src/cmd/bundle.rs:96-122 | with no ignorable line, the solution is copied line by line, each trimmed by the chosen line end |
| LineBundler.SubmodulesStopAtTests | src/cmd/bundle.rs:132-147 | imports after the first `#[cfg(test)]` line are never collected |
| LineBundler.SubmodulesFromLines | src/cmd/bundle.rs:132-147 | every collected submodule comes from a `use crate::` line of the file |
| LineBundler.PrunedModuleSilent | src/cmd/bundle.rs:200-204 | a module whose path is not allowed writes nothing and succeeds |
| LineBundler.ModLinesStopAtTests | src/cmd/bundle.rs:222-224 | a module's lines after `#[cfg(test)]` are not written |
| LineBundler.ModOutAgrees | src/cmd/bundle.rs:199-255 | when every file ends in a newline, a module expands the same whether lines are popped or stripped |
| LineBundler.ModLinesOutAgrees | src/cmd/bundle.rs:216-250 | the same for a module's lines |
| LineBundler.LibLinesOutAgrees | src/cmd/bundle.rs:164-197 | the same for the lines of `src/lib.rs` |
| LineBundler.BundleAgrees | src/cmd/bundle.rs:76-255 | when every file ends in a newline, popping and stripping give the same solution output, the same imports and the same library |
| LineBundler.Bundler.constructor | src/cmd/bundle.rs:67-74 | nothing allowed and nothing written yet |
| LineBundler.Bundler.SubmodulesAreCandidates | src/cmd/bundle.rs:132-147 | the submodules collected from any file are among the finitely many imports in the file system |
| LineBundler.Bundler.ExtendAllow | src/cmd/bundle.rs:124-162 | an allowed module changes nothing; a missing file is an error; otherwise the module and every `::`-prefix of it are allowed, every module scanned from here on has its imports allowed, every allowed entry is a prefix of a scanned module, every scanned module is reached from `modName` by imports, and no entry is allowed twice |
| LineBundler.Bundler.AllowModule | src/cmd/bundle.rs:149-159 | the module and its prefixes are allowed; on success its imports are allowed and every module scanned while allowing them is closed too |
| LineBundler.Bundler.AllowEach | src/cmd/bundle.rs:157-159 | allows every collected submodule in turn |
| LineBundler.Bundler.AllowPrefixes | src/cmd/bundle.rs:149-155 | every `::`-prefix of the module is allowed, each once |
| LineBundler.Bundler.Binrs | src/cmd/bundle.rs:96-122 | a missing solution is an error; otherwise the output gains the kept lines, every library import of the solution is allowed, every scanned module has its imports allowed, and each was reached from the solution's imports |
| LineBundler.Bundler.CopyLine | src/cmd/bundle.rs:101-119 | one line: kept or dropped as the loop body decides with the chosen line end, and its library import allowed together with everything it imports |
| LineBundler.Bundler.Modrs | src/cmd/bundle.rs:199-255 | succeeds exactly when the module expansion does, with the chosen line end, and then appends it |
| LineBundler.Bundler.ModLine | src/cmd/bundle.rs:217-249 | one line of a module: an error, the stop at `#[cfg(test)]`, or the piece written for it |
| LineBundler.Bundler.ModLines | src/cmd/bundle.rs:216-250 | the loop over a module's lines appends exactly their expansion, or fails when it fails |
| LineBundler.Bundler.Librs | src/cmd/bundle.rs:164-197 | succeeds exactly when the library expansion does: the header, the lines of `src/lib.rs` with each `mod m;` expanded at level 1, then `}` |
| LineBundler.Bundler.Run | src/cmd/bundle.rs:76-94 | on success the output is the kept solution lines followed by the expanded library; every scanned module has its imports allowed, every allowed entry is a prefix of a scanned module, and every scanned module is reached from the solution's imports |
| TreeBundler.Leaf | src/cmd/bundle_problem.rs:153-160 | after the path segments comes a name, a rename, a glob or a group |
| TreeBundler.SegmentsSkipMain | src/cmd/bundle_problem.rs:153-160 | the segments are the path's segments other than the library name |
| TreeBundler.UsedPaths | src/cmd/bundle_problem.rs:163-193 | anything but a group records exactly one path; every path starts with the segments and adds at most one name |
| TreeBundler.GroupPaths | src/cmd/bundle_problem.rs:172-188 | every path recorded for a group is the segments plus one member name |
| TreeBundler.UsedPathsShape | src/cmd/bundle_problem.rs:163-171 | every recorded path starts with the segments; a rename records the original name, never the alias |
| TreeBundler.GroupFailsOnNested | src/cmd/bundle_problem.rs:172-188 | a group fails exactly when a member is neither a name nor a rename; otherwise it records at most one path per member |
| TreeBundler.UsedPathsName | src/cmd/bundle_problem.rs:164-167 | `algorist::math::gcd` records `math::gcd` |
| TreeBundler.UsedPathsGlob | src/cmd/bundle_problem.rs:190-193 | `algorist::io::*` records `io` |
| TreeBundler.UsedPathsGroup | src/cmd/bundle_problem.rs:172-188 | a group with a name and a rename records both original names |
| TreeBundler.UsedPathsNestedGroup | src/cmd/bundle_problem.rs:179-184 | a nested path inside a group is an error |
| TreeBundler.TopLevelGroupPanics | src/cmd/bundle_problem.rs:202-212 | `use {std::io::Read};` is not skipped as written, and processing it fails |
| TreeBundler.IgnoredAsWritten | src/cmd/bundle_problem.rs:204-211 | the written skip test skips only imports that the intended one skips too |
| TreeBundler.IgnoredAgrees | src/cmd/bundle_problem.rs:202-212 | the written and the intended skip test agree on every path import and differ only on top-level groups, globs and names |
| TreeBundler.CollectUsesAgree | src/cmd/bundle_problem.rs:130-212 | on files whose top-level imports are all paths, both skip tests record the same modules |
| TreeBundler.CollectUsesGroupDiffers | src/cmd/bundle_problem.rs:202-212 | for `use {std::io::Read};` the written skip test fails and the intended one records nothing |
| TreeBundler.Bundler.constructor | src/cmd/bundle_problem.rs:108-115 | no module recorded and nothing written |
| TreeBundler.Bundler.WalkPath | src/cmd/bundle_problem.rs:149-160 | the loop collects the segments other than the library name and stops at the leaf |
| TreeBundler.Bundler.InsertGroup | src/cmd/bundle_problem.rs:172-188 | records one path per group member, or fails on a member that is not a name |
| TreeBundler.Bundler.ProcessItemUse | src/cmd/bundle_problem.rs:148-198 | records exactly the used paths of the import, or fails as they do |
| TreeBundler.Bundler.VisitItemUse | src/cmd/bundle_problem.rs:202-212 | an import the chosen skip test skips records nothing; any other is processed, failing exactly as its used paths do |
| TreeBundler.Bundler.VisitItems | src/cmd/bundle_problem.rs:132 | visiting the items fails exactly when collecting their imports does, and otherwise records the paths of every import, including those inside inline modules |
| TreeBundler.Bundler.ProcessBinaryFile | src/cmd/bundle_problem.rs:123-146 | succeeds exactly when the solution exists and its imports can be collected; then they are recorded and the file is written unchanged |
| TreeBundler.Bundler.ProcessLibraryFile | src/cmd/bundle_problem.rs:216-256 | succeeds exactly when the library bundle does and then appends it; on failure nothing is written |
| TreeBundler.Bundler.Run | src/cmd/bundle_problem.rs:117-121 | succeeds exactly when the solution exists, its imports can be collected and the library bundles; then the output is the solution followed by the bundled library, and the recorded modules are the solution's imports |
| TreeBundler.KeptSpec | src/cmd/bundle_problem.rs:312-323 | an attribute is kept exactly when it is not `doc`, `allow`, `cfg` or `warn`; order is kept and filtering twice changes nothing |
| TreeBundler.KeptAppend | src/cmd/bundle_problem.rs:312-323 | filtering distributes over concatenation |
| TreeBundler.FilterAttributes | src/cmd/bundle_problem.rs:312-323 | the filter loop keeps exactly the attributes `Kept` keeps |
| TreeBundler.ResolveModuleAsWritten | src/cmd/bundle_problem.rs:270-284 | the lookup fails exactly when neither `base/name.rs` nor `base/name/mod.rs` exists; the file found lies directly in the base it returns |
| TreeBundler.ResolveModuleSpec | src/cmd/bundle_problem.rs:270-292 | `name.rs` is tried before `name/mod.rs` and both missing is an error; the corrected lookup finds the same file and puts its submodules under `base/name` |
| TreeBundler.NestedFileModuleMissed | src/cmd/bundle_problem.rs:277-283 | as written, `src/foo.rs` gets `src` as its base, so its `mod bar;` is looked up as `src/bar.rs` and missed |
| TreeBundler.NestedFileBundle | src/cmd/bundle_problem.rs:258-292 | for a library whose `src/foo.rs` declares `mod bar;` with `src/foo/bar.rs`, the written lookup fails and the corrected one bundles it |
| TreeBundler.Clean | src/cmd/bundle_problem.rs:332-345 | a cleaned list has as many items |
| TreeBundler.VisitItem | src/cmd/bundle_problem.rs:325-345 | a visited item keeps its kind and name |
| TreeBundler.VisitItems | src/cmd/bundle_problem.rs:325-345 | a successful visit keeps the number of items |
| TreeBundler.VisitResolved | src/cmd/bundle_problem.rs:258-262 | visiting items that have no `mod m;` left only filters attributes |
| TreeBundler.VisitResolvedItem | src/cmd/bundle_problem.rs:258-262 | an item with no `mod m;` inside only has its attributes filtered |
| TreeBundler.VisitResolves | src/cmd/bundle_problem.rs:325-345 | a successful visit keeps every item, in order and of the same kind, filters attributes, and leaves no `mod m;` |
| TreeBundler.VisitResolvesItem | src/cmd/bundle_problem.rs:332-345 | the same for one item |
| TreeBundler.VisitResolvesModItem | src/cmd/bundle_problem.rs:332-345 | an inline module comes out resolved, of the same shape, with its attributes filtered |
| TreeBundler.VisitResolvesModDecl | src/cmd/bundle_problem.rs:258-308 | a `mod m;` comes out as an inline module holding the resolved items of its file |
| TreeBundler.VisitTwice | src/cmd/bundle_problem.rs:297-307 | visiting the loaded items again, as `visit_item_mod_mut` does, changes nothing, whatever the base |
| TreeBundler.VisitItemsAgree | src/cmd/bundle_problem.rs:258-292 | in a library where every declared module has a plain name and only `mod.rs` files declare submodules (a `dir/name.rs` file declares none), both lookups visit a list of items alike |
| TreeBundler.VisitItemAgree | src/cmd/bundle_problem.rs:258-292 | the same for one item |
| TreeBundler.LeafFileAgrees | src/cmd/bundle_problem.rs:258-292 | a `mod m;` loaded from `base/m.rs` with no `mod` inside expands alike under both lookups |
| TreeBundler.ModRsFileAgrees | src/cmd/bundle_problem.rs:258-292 | a `mod m;` loaded from `base/m/mod.rs` expands alike under both lookups |
| TreeBundler.LeafFileLoaded | src/cmd/bundle_problem.rs:258-308 | a `mod m;` whose file has no `mod` inside becomes an inline module of the file's items with their attributes filtered |
| TreeBundler.LibraryShape | src/cmd/bundle_problem.rs:224-240 | the bundled library is one module named after the library with the wrapper's attributes, holding every item of `src/lib.rs` in order with no `mod m;` left |
| TreeBundler.LibraryBundle | src/cmd/bundle_problem.rs:216-256 | a missing `src/lib.rs` is the error "failed to read library file"; a bundle is one module named after the library holding as many items as `src/lib.rs` |
| TreeBundler.LibraryBundleAgrees | src/cmd/bundle_problem.rs:216-292 | in that layout the written and the corrected lookup give the same bundle |
| TreeBundler.LibraryFails | src/cmd/bundle_problem.rs:216-256 | the library phase fails only when `src/lib.rs` or a module file is missing, or nesting exceeds the bound |
| TreeBundler.VisitErrors | src/cmd/bundle_problem.rs:292 | visiting fails only for a missing module file or on exceeding the nesting bound |
| TreeBundler.VisitItemErrors | src/cmd/bundle_problem.rs:292 | visiting one item fails only for a missing module file or on exceeding the nesting bound |

## Left out

- Integer width:
  - Integers are unbounded. Overflow of `usize`/`i64`/`u32` arithmetic is not modelled, except in the `i64` parser behind `Modulo::from_str`.
  - The modulus is a positive parameter `m`; the `ConstValue` type parameter and the `Downcast` widening for products are not modelled.
- Floating point:
  - The `powf` estimate is a parameter `guess` of every root member; its float computation is not modelled, so the inputs where it falls below the floor root are not characterised. The contracts hold for every guess and promise the floor root as written only when the guess is not below it.
  - The `sqrt` bounds of the sieves and of `PrimeFactors` are the exact integer square root.
- `IntLog::log` is left out. It computes with `f64` `log` and `ceil`.
- Panics become preconditions. This covers:
  - `assert!` on the caller's values: `k >= 1` in the signed `root_floor` and in `is_perfect_pow` of `src/math/root.rs`, even roots of negatives, `new_unchecked`'s range, `div_till_zero`'s arguments, index bounds in `Arr2d`, a two-letter card string;
  - `unreachable!` on an unknown card letter;
  - `expect("Division by zero")`, which is modelled as an `Err` result of `Div`.
- Integer roots whose loop is a parameter `Search`: `DownOnly` is the loop as written, `UpAndDown` the corrected one (see "## Findings"). Each of these promises the exact answer for `DownOnly` only when the estimate is not below the floor root, as `IntRoot.RootFloorAgrees` and `AlgoristRoot.RootFloorAgrees` show:
  - `IntRoot.RootFloor`, `IntRoot.Root`, `IntRoot.IsPerfectPow`, `IntRoot.Sqrt`, `IntRoot.Cbrt`, `IntRoot.RootCeil`;
  - `AlgoristRoot.RootFloor`, `AlgoristRoot.Root`, `AlgoristRoot.RootCeil`, `AlgoristRoot.IsPerfectPow`.
- `AlgoristRoot.RootFloor`: the bundled copy does not check `k`. With `k == 0` and `n == 0` the written loop never ends, so that input is excluded; the corrected loop requires `k >= 1`.
- `IntRoot.RootFloorAsWritten`: the unsigned `root_floor` does not check `k` either; `k == 0` with `n == 0` is excluded in the same way. The signed `IntRoot.RootFloor` asserts `k >= 1`.
- `Gcd.Lcm`: requires that `a` and `b` are not both 0, because `lcm(0, 0)` divides by zero in the source.
- Standard-library algorithms are modelled by specification, not by their Rust implementation:
  - `sort` and `sort_by_key` become a stable insertion sort;
  - `sort_unstable` becomes any strictly ascending order;
  - `dedup`, `rotate_left`, `rotate_right` and `reverse` have their standard contracts.
- Iterators are finite sequences:
  - `Chunks` and `SlidingWindow` hold the items not yet consumed;
  - laziness and iterators that never end are not modelled;
  - `SlidingWindowExt::sliding_window` on each kind of input is the same constructor, and on a `SlidingWindow` it is the identity;
  - `ControlFlow` in `sliding_window_try_fold` is the `FoldWhile` type.
- `primes`, `primes_iter` and `SieveIter::new` treat any `n` below 2 as 2, as the source's `max(2)` does, so `primes(0)` yields `[2]`.
- `all_divisors(0)` yields `[1]`, as the source does (the factorisation of 0 is empty).
- `Arr2d`:
  - `from_scan` and `from_char_table` read input and are left out;
  - `iter`, `iter_mut`, `rows`, `cols`, `Display` and the `Index` forms are not modelled beyond `Get`/`Set`;
  - the generator of `with_generator` is a pure function of the cell;
  - `min_by_key`'s key is an integer.
- `Cards`:
  - `CardDeck::from_scan`, the `Debug`/`Display` symbols and the trivial accessors (`Card::is_trump`, `is_same_suit`, `is_same_rank`, `CardDeck::cards`, `trump`) are left out;
  - `From<String>` checks the length in characters where the source counts bytes; the two agree on the accepted ASCII letters.
- Line bundler:
  - the regular expressions are abstract matchers;
  - `println!` logging, output flushing, the `rustfmt` call and I/O errors while reading or writing are left out.
- `LineBundler.Bundler.ExtendAllow`: a missing file for an imported submodule is an `Err` here, while the source panics through `unwrap`.
- Tree bundler:
  - parsing with `syn` and printing with `unparse` are left out, along with their errors, `canonicalize` and the logging;
  - items other than modules and imports are opaque, so imports and attributes inside function bodies or other items are not visited;
  - the `expect` panics for a bad import or a missing module file are `Err` results;
  - module nesting through files is bounded by a `fuel` parameter, and running out is the error "module nesting too deep";
  - `Bundler1` records the used modules but never reads them back, so, as in the source, every module is expanded;
  - `complete_bundling` is not part of this model.
- `TreeBundler.CollectUsesAgree`: the written and the intended skip test are shown to agree only on files whose top-level imports are all paths (`PathImports`); elsewhere the written one may fail, as `TreeBundler.CollectUsesGroupDiffers` shows.
- `TreeBundler.LibraryBundleAgrees`: the written and the corrected module lookup are shown to agree only in a library where only `mod.rs` files declare submodules (`ModRsLayout`), the layout of the library itself; elsewhere they may differ, as `TreeBundler.NestedFileBundle` shows.
- `LineBundler.BundleAgrees`: `pop` and stripping are shown to agree only when every file ends in a newline; otherwise the last line may lose a character, as `LineBundler.PopLosesFinalBrace` shows.

## Findings

| source | as written | input that shows it | evidently intended | confidence | as-written member | corrected member |
|---|---|---|---|---|---|---|
| src/math/primes.rs:149-180 | while `current` has not passed the square root, `next` searches only `[current, nsqrt]` and returns `None` if no prime is there, ending the iteration | `SieveIter::new(24)`: square root 4, so it yields 2, 3 and then `None`, missing 5, 7, 11, 13, 17, 19, 23 | after the crossing-out loop passes the square root without a prime, go on scanning the table up to `n` | not executed | Primes.SieveIter.NextAsWritten, Primes.SieveIter24 | Primes.SieveIter.Next, Primes.CollectPrimes |
| src/cmd/bundle.rs:107 | `line.pop()` removes the last character whether or not it is a newline (the same call is at lines 179 and 217) | a solution or module whose last line is `}` with no final newline loses that brace | remove only a trailing newline | not executed | LineBundler.PopLast, LineBundler.PopDropsLastCharacter, LineBundler.PopLosesFinalBrace | LineBundler.StripNewlineAgrees, LineBundler.BundleAgrees |
| src/cmd/bundle_problem.rs:202-212 | only a top-level path import that does not start with the library name is skipped; a top-level group, glob or name reaches `process_item_use`, whose error is turned into a panic | `use {std::io::Read};` | skip every import that does not start with the library name | not executed | TreeBundler.IgnoredAsWritten, TreeBundler.TopLevelGroupPanics, TreeBundler.CollectUsesGroupDiffers | TreeBundler.CollectUsesAgree, TreeBundler.Bundler.VisitItemUse |
| src/cmd/bundle_problem.rs:270-284 | the base directory of a loaded module is the parent of its file, so for `src/foo.rs` it is `src` | `src/lib.rs` declaring `mod foo;`, `src/foo.rs` declaring `mod bar;`, with `src/foo/bar.rs`: `bar` is looked up as `src/bar.rs` and not found | the submodules of `foo` live under `src/foo` whichever file defines it | not executed | TreeBundler.ResolveModuleAsWritten, TreeBundler.NestedFileModuleMissed, TreeBundler.NestedFileBundle | TreeBundler.ResolveModuleSpec, TreeBundler.LibraryBundleAgrees |
| src/math/root.rs:186 | the float estimate `powf(1/k)` is floored and then only lowered, so an estimate just below an exact root is never raised back | `root_floor(64, 3)`: the estimate 3.9999999999999996 floors to 3, and since `3^3 <= 64` the result is 3, not 4 | also raise the estimate while `(x+1)^k <= n` | not executed | IntRoot.RootFloorAsWritten, IntRoot.UndershotGuess, IntRoot.SixtyFourAsWritten | IntRoot.RootFloorUnsigned, IntRoot.RootFloorAgrees, IntRoot.RootFloor, IntRoot.Root, IntRoot.IsPerfectPow, IntRoot.Cbrt, IntRoot.RootCeil |
| src/algorist/math/root.rs:27 | the estimate `(n as f64).powf(1/k).round()` is only lowered; above 2^53 the conversion `n as f64` can round `n` down, so the estimate can be below the floor root | `root_floor(2^62 + 1, 1)`: `n as f64` is `2^62`, the estimate is `2^62`, and since `2^62 <= n` the result is `2^62`, so `root(1)` is `None` | also raise the estimate while `(x+1)^k <= n` | not executed | AlgoristRoot.FirstRootAsWritten | AlgoristRoot.RootFloorAgrees, AlgoristRoot.RootFloor, AlgoristRoot.Root, AlgoristRoot.RootCeil, AlgoristRoot.IsPerfectPow |
