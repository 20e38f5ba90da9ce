/**
 * Rust's `i64::from_str` and `i64`'s decimal `Display`, which
 * `Modulo::from_str` and the round-trip tests rely on. Digits are read left
 * to right; a non-digit is reported before an overflow at the same position.
 */
module IntParse {
  import opened Arith
  import opened Wrappers

  /** The kinds of Rust's `ParseIntError`. */
  datatype IntErrorKind = Empty | InvalidDigit | PosOverflow | NegOverflow

  predicate IsDigit(c: char) { '0' <= c <= '9' }

  function DigitValue(c: char): nat
    requires IsDigit(c)
  {
    c as int - '0' as int
  }

  function DigitChar(d: nat): (c: char)
    requires d < 10
    ensures IsDigit(c) && DigitValue(c) == d
  {
    ('0' as int + d) as char
  }

  /**
   * The digit loop of `from_str_radix`: positive numbers accumulate
   * `acc * 10 + d`, negative ones `acc * 10 - d`, each checked against the
   * `i64` range.
   */
  function Accumulate(ds: string, positive: bool): (r: Result<int, IntErrorKind>)
    ensures r.Ok? ==> InI64(r.value) && (if positive then r.value >= 0 else r.value <= 0)
    ensures r.Err? ==> r.error != Empty && (if positive then r.error != NegOverflow else r.error != PosOverflow)
    decreases |ds|
  {
    if |ds| == 0 then Ok(0)
    else
      match Accumulate(ds[..|ds| - 1], positive)
      case Err(e) => Err(e)
      case Ok(acc) =>
        var c := ds[|ds| - 1];
        if !IsDigit(c) then Err(InvalidDigit)
        else if positive then
          var v := acc * 10 + DigitValue(c);
          if v > I64_MAX then Err(PosOverflow) else Ok(v)
        else
          var v := acc * 10 - DigitValue(c);
          if v < I64_MIN then Err(NegOverflow) else Ok(v)
  }

  /** `i64::from_str`: an optional sign, then at least one decimal digit. */
  function ParseI64(s: string): (r: Result<int, IntErrorKind>)
    ensures r.Ok? ==> InI64(r.value)
    ensures r == Err(Empty) <==> |s| == 0
    ensures |s| > 0 && s[0] == '-' ==> (r.Ok? ==> r.value <= 0) && r != Err(PosOverflow)
    ensures |s| > 0 && s[0] != '-' ==> (r.Ok? ==> r.value >= 0) && r != Err(NegOverflow)
  {
    if |s| == 0 then Err(Empty)
    else if (s[0] == '+' || s[0] == '-') && |s| == 1 then Err(InvalidDigit)
    else if s[0] == '+' then Accumulate(s[1..], true)
    else if s[0] == '-' then Accumulate(s[1..], false)
    else Accumulate(s, true)
  }

  /** The decimal digits of `k`, most significant first. */
  function Digits(k: nat): (ds: string)
    ensures |ds| >= 1 && IsDigit(ds[0]) && ds[0] != '+' && ds[0] != '-'
    decreases k
  {
    if k < 10 then [DigitChar(k)] else Digits(k / 10) + [DigitChar(k % 10)]
  }

  /** `i64`'s `Display`: a minus sign for negative values, then the digits. */
  function ToDecimal(n: int): string
  {
    if n < 0 then "-" + Digits(-n) else Digits(n)
  }

  lemma {:induction false} AccumulateDigits(k: nat, positive: bool)
    requires if positive then k <= I64_MAX else k <= -I64_MIN
    ensures Accumulate(Digits(k), positive) == Ok(if positive then k as int else -(k as int))
    decreases k
  {
    var ds := Digits(k);
    if k >= 10 {
      AccumulateDigits(k / 10, positive);
      assert ds[..|ds| - 1] == Digits(k / 10);
    } else {
      assert ds[..|ds| - 1] == [];
    }
  }

  /** Parsing what `Display` writes gives the number back, for every `i64`. */
  lemma ParseDisplay(n: int)
    requires InI64(n)
    ensures ParseI64(ToDecimal(n)) == Ok(n)
  {
    if n < 0 {
      AccumulateDigits(-n, false);
      assert ToDecimal(n)[1..] == Digits(-n);
    } else {
      AccumulateDigits(n, true);
    }
  }
}
