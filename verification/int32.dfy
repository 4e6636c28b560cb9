/**
 * Signed 32-bit integers and the decimal text parser `str::parse::<i32>`
 * that `OptionScore::from_str` relies on.
 *
 * The parser follows Rust's `i32::from_str`: an optional leading `+` or `-`,
 * then one or more ASCII decimal digits, read most-significant first with a
 * checked multiply-by-ten and a checked add (or subtract, for a negative
 * literal) per digit. A lone sign, the empty string, any other character and
 * any value outside the i32 range are rejected.
 */
module Int32 {
  import opened Optional

  const MIN: int := -0x8000_0000
  const MAX: int := 0x7FFF_FFFF

  predicate InRange(n: int) {
    MIN <= n <= MAX
  }

  /** Rust's `i32`. */
  type int32 = n: int | InRange(n)

  predicate IsDigit(c: char) {
    '0' <= c <= '9'
  }

  function DigitValue(c: char): nat
    requires IsDigit(c)
  {
    (c as int) - ('0' as int)
  }

  predicate AllDigits(s: string) {
    forall i :: 0 <= i < |s| ==> IsDigit(s[i])
  }

  /** The number a digit string denotes, read most-significant digit first. */
  function DigitsValue(ds: string): nat
    requires AllDigits(ds)
  {
    if |ds| == 0 then 0 else DigitsValue(ds[..|ds| - 1]) * 10 + DigitValue(ds[|ds| - 1])
  }

  predicate HasSign(s: string) {
    |s| > 0 && (s[0] == '+' || s[0] == '-')
  }

  /** The text after an optional leading sign. */
  function DigitPart(s: string): string {
    if HasSign(s) then s[1..] else s
  }

  /** Reference definition of the literals `i32::from_str` reads: an optional sign followed by at least one digit. */
  predicate IsDecimalLiteral(s: string) {
    |DigitPart(s)| > 0 && AllDigits(DigitPart(s))
  }

  /** The mathematical value of a decimal literal, before any range check. */
  function LiteralValue(s: string): int
    requires IsDecimalLiteral(s)
  {
    if s[0] == '-' then -(DigitsValue(DigitPart(s)) as int) else DigitsValue(DigitPart(s))
  }

  function Signed(negative: bool, magnitude: nat): int {
    if negative then -(magnitude as int) else magnitude
  }

  /** A prefix of a digit string never denotes more than the whole string. */
  lemma {:induction false} PrefixValueBounded(ds: string, k: nat)
    requires AllDigits(ds) && k <= |ds|
    ensures AllDigits(ds[..k])
    ensures DigitsValue(ds[..k]) <= DigitsValue(ds)
  {
    if k < |ds| {
      var init := ds[..|ds| - 1];
      assert init[..k] == ds[..k];
      PrefixValueBounded(init, k);
    } else {
      assert ds[..k] == ds;
    }
  }

  /**
   * The digit loop of `i32::from_str`: `acc` holds the signed value of the
   * digits before position `i`; each further digit is folded in with a checked
   * `* 10` and a checked `+`/`-`, and any failure gives `None`.
   */
  function Accumulate(ds: string, i: nat, acc: int32, negative: bool): (r: Option<int32>)
    requires i <= |ds| && AllDigits(ds[..i])
    requires acc == Signed(negative, DigitsValue(ds[..i]))
    ensures r.Some? <==> AllDigits(ds) && InRange(Signed(negative, DigitsValue(ds)))
    ensures r.Some? ==> AllDigits(ds) && r.value == Signed(negative, DigitsValue(ds))
    decreases |ds| - i
  {
    if i == |ds| then
      assert ds[..i] == ds;
      Some(acc)
    else if !IsDigit(ds[i]) then
      None
    else
      var shifted := acc * 10;
      if !InRange(shifted) then
        OverflowIsFinal(ds, i);
        None
      else
        var next := if negative then shifted - DigitValue(ds[i]) else shifted + DigitValue(ds[i]);
        if !InRange(next) then
          OverflowIsFinal(ds, i);
          None
        else
          assert ds[..i + 1][..i] == ds[..i];
          Accumulate(ds, i + 1, next, negative)
  }

  /** Once the digits read so far leave the i32 range, no continuation brings the value back. */
  lemma OverflowIsFinal(ds: string, i: nat)
    requires i < |ds| && AllDigits(ds[..i]) && IsDigit(ds[i])
    ensures AllDigits(ds) ==> DigitsValue(ds) >= DigitsValue(ds[..i]) * 10 + DigitValue(ds[i])
  {
    if AllDigits(ds) {
      assert ds[..i + 1][..i] == ds[..i];
      PrefixValueBounded(ds, i + 1);
    }
  }

  /**
   * `str::parse::<i32>` as `OptionScore::from_str` uses it, with every error
   * (empty input, lone sign, invalid digit, overflow) collapsed to `None`.
   */
  function ParseI32(s: string): (r: Option<int32>)
    ensures r.Some? <==> IsDecimalLiteral(s) && InRange(LiteralValue(s))
    ensures r.Some? ==> IsDecimalLiteral(s) && r.value == LiteralValue(s)
  {
    if |s| == 0 then None
    else if HasSign(s) && |s| == 1 then None
    else
      var negative := s[0] == '-';
      assert DigitPart(s)[..0] == [];
      Accumulate(DigitPart(s), 0, 0, negative)
  }

  function DigitChar(d: nat): (c: char)
    requires d < 10
    ensures IsDigit(c) && DigitValue(c) == d
  {
    ('0' as int + d) as char
  }

  /** Canonical decimal digits of a natural number, most-significant first. */
  function Digits(k: nat): string
  {
    if k < 10 then [DigitChar(k)] else Digits(k / 10) + [DigitChar(k % 10)]
  }

  /** Canonical decimal text of an integer: a `-` for negatives, never a `+`. */
  function Decimal(n: int): string
  {
    if n < 0 then "-" + Digits(-n) else Digits(n)
  }

  lemma {:induction false} DigitsDenote(k: nat)
    ensures |Digits(k)| > 0 && AllDigits(Digits(k))
    ensures DigitsValue(Digits(k)) == k
    ensures IsDigit(Digits(k)[0])
  {
    if k >= 10 {
      DigitsDenote(k / 10);
      var ds := Digits(k);
      assert ds[..|ds| - 1] == Digits(k / 10);
    }
  }

  /** Round trip: every i32 written in decimal parses back to itself. */
  lemma ParseDecimal(n: int32)
    ensures ParseI32(Decimal(n)) == Some(n)
  {
    if n < 0 {
      DigitsDenote(-(n as int));
      assert DigitPart(Decimal(n)) == Digits(-(n as int));
    } else {
      DigitsDenote(n);
      assert DigitPart(Decimal(n)) == Digits(n);
    }
  }
}
