/**
 * Decimal conversions used by the handlers: `strconv.Itoa` (user id to token
 * subject, hit count to text) and `strconv.Atoi` (token subject, path and
 * query parameters back to an integer). Go's `int` is 64 bits wide here, so
 * `Atoi` refuses values outside that range.
 */
module Decimal {
  import opened Wrappers

  const MinInt64: int := -0x8000_0000_0000_0000
  const MaxInt64: int := 0x7FFF_FFFF_FFFF_FFFF

  predicate IsDigit(c: char) {
    '0' <= c <= '9'
  }

  predicate AllDigits(s: string) {
    forall i :: 0 <= i < |s| ==> IsDigit(s[i])
  }

  function DigitValue(c: char): (d: nat)
    requires IsDigit(c)
    ensures d < 10
  {
    c as int - '0' as int
  }

  function DigitChar(d: nat): (c: char)
    requires d < 10
    ensures IsDigit(c) && DigitValue(c) == d
  {
    ('0' as int + d) as char
  }

  /** The value of a run of decimal digits, most significant digit first. */
  function DigitsValue(s: string): nat
    requires AllDigits(s)
  {
    if |s| == 0 then 0 else 10 * DigitsValue(s[..|s| - 1]) + DigitValue(s[|s| - 1])
  }

  /** The shortest run of decimal digits that spells `n`. */
  function NatToDigits(n: nat): (s: string)
    ensures 1 <= |s| && AllDigits(s)
    ensures s[0] == '0' ==> n == 0
  {
    if n < 10 then [DigitChar(n)] else NatToDigits(n / 10) + [DigitChar(n % 10)]
  }

  /** `strconv.Itoa`: an optional minus sign followed by the digits. */
  function Itoa(n: int): (s: string)
    ensures 1 <= |s|
    ensures s[0] == '-' <==> n < 0
    ensures n >= 0 ==> AllDigits(s) && (s[0] == '0' ==> n == 0)
    ensures n < 0 ==> 2 <= |s| && AllDigits(s[1..]) && s[1] != '0'
  {
    if n < 0 then "-" + NatToDigits(-n) else NatToDigits(n)
  }

  /** Base-10 parsing as `strconv.Atoi` does it, before its range check:
      an optional `+` or `-`, then at least one digit (leading zeros allowed). */
  function ParseDecimal(s: string): Option<int> {
    if |s| > 0 && (s[0] == '+' || s[0] == '-') then
      if |s| > 1 && AllDigits(s[1..]) then
        var magnitude: int := DigitsValue(s[1..]);
        Some(if s[0] == '-' then -magnitude else magnitude)
      else None
    else if |s| > 0 && AllDigits(s) then Some(DigitsValue(s))
    else None
  }

  /** `strconv.Atoi`: a syntax error or a value outside 64 bits is an error. */
  function Atoi(s: string): (r: Option<int>)
    ensures r.Some? ==> MinInt64 <= r.value <= MaxInt64
    ensures r.Some? ==> |s| > 0
  {
    match ParseDecimal(s)
    case Some(v) => if MinInt64 <= v <= MaxInt64 then Some(v) else None
    case None => None
  }

  lemma {:induction false} DigitsRoundTrip(n: nat)
    ensures DigitsValue(NatToDigits(n)) == n
  {
    if n >= 10 {
      DigitsRoundTrip(n / 10);
      var s := NatToDigits(n);
      assert s[..|s| - 1] == NatToDigits(n / 10);
    }
  }

  /** Parsing what `Itoa` printed gives the number back, for every integer. */
  lemma ParseItoa(n: int)
    ensures ParseDecimal(Itoa(n)) == Some(n)
  {
    DigitsRoundTrip(if n < 0 then -n else n);
    if n < 0 {
      assert Itoa(n)[1..] == NatToDigits(-n);
    }
  }

  /** `Atoi(Itoa(n)) == n` for every 64-bit `n`: a subject written by the
      token issuer is read back as the same user id. */
  lemma AtoiItoa(n: int)
    requires MinInt64 <= n <= MaxInt64
    ensures Atoi(Itoa(n)) == Some(n)
  {
    ParseItoa(n);
  }
}
