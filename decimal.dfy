/**
 * Number conversions the controller relies on: Go's `int(x)` on a float64
 * (truncation toward zero), `fmt.Sprint`/`%d` of an int (decimal text), and
 * the reading of such text back into an integer column by the SQL store.
 */
module Decimal {
  import opened Wrappers

  /** `int(x)` for a float64 `x`: drop the fractional part, rounding toward zero. */
  function Trunc(x: real): (n: int)
    ensures 0.0 <= x ==> n as real <= x < n as real + 1.0
    ensures x < 0.0 ==> x <= n as real < x + 1.0
  {
    if 0.0 <= x then x.Floor else -((-x).Floor)
  }

  predicate IsDigit(c: char) {
    '0' <= c <= '9'
  }

  predicate AllDigits(s: string) {
    forall i :: 0 <= i < |s| ==> IsDigit(s[i])
  }

  function DigitChar(d: nat): (c: char)
    requires d < 10
    ensures IsDigit(c) && c as int - '0' as int == d
  {
    ('0' as int + d) as char
  }

  function DigitValue(c: char): (d: nat)
    requires IsDigit(c)
    ensures d < 10 && DigitChar(d) == c
  {
    c as int - '0' as int
  }

  /** Decimal text of a natural number, most significant digit first, no leading zeros. */
  function FormatNat(n: nat): (s: string)
    ensures 0 < |s| && AllDigits(s)
    ensures |s| > 1 ==> s[0] != '0'
  {
    if n < 10 then [DigitChar(n)] else FormatNat(n / 10) + [DigitChar(n % 10)]
  }

  /** `fmt.Sprint(n)` / `fmt.Sprintf("%d", n)` for an int `n`. */
  function FormatInt(n: int): string {
    if n < 0 then "-" + FormatNat(-n) else FormatNat(n)
  }

  /** The value of a string of decimal digits. */
  function DigitsValue(s: string): nat
    requires AllDigits(s)
  {
    if s == [] then 0 else 10 * DigitsValue(s[..|s| - 1]) + DigitValue(s[|s| - 1])
  }

  /**
   * An integer read from text the way the SQL store reads a string bound to an
   * integer column: an optional minus sign followed by at least one digit
   * (leading zeros allowed); anything else is rejected.
   */
  function ParseInt(s: string): Option<int> {
    if 0 < |s| && AllDigits(s) then Some(DigitsValue(s))
    else if 1 < |s| && s[0] == '-' && AllDigits(s[1..]) then Some(-(DigitsValue(s[1..]) as int))
    else None
  }

  lemma {:induction false} DigitsOfFormatNat(n: nat)
    ensures DigitsValue(FormatNat(n)) == n
  {
    if n >= 10 {
      var s := FormatNat(n / 10) + [DigitChar(n % 10)];
      assert s[..|s| - 1] == FormatNat(n / 10);
      DigitsOfFormatNat(n / 10);
    }
  }

  /** Round trip: the store reads back exactly the integer the controller formatted. */
  lemma FormatIntRoundTrip(n: int)
    ensures ParseInt(FormatInt(n)) == Some(n)
  {
    if n < 0 {
      var s := "-" + FormatNat(-n);
      assert s[1..] == FormatNat(-n);
      assert !IsDigit(s[0]);
      DigitsOfFormatNat(-n);
    } else {
      DigitsOfFormatNat(n);
    }
  }

  /** Distinct integers have distinct decimal texts, so `ad-<id>` keys never collide. */
  lemma FormatIntInjective(m: int, n: int)
    requires FormatInt(m) == FormatInt(n)
    ensures m == n
  {
    FormatIntRoundTrip(m);
    FormatIntRoundTrip(n);
  }
}
