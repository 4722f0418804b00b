/** Option, for the parsers that serve as the inverses of the formatters. */
module Wrappers {
  datatype Option<+T> = None | Some(value: T)
}

/**
 * Decimal text: the digits Python prints for a non-negative int, and the
 * `{x:.1f}` rendering of a value held as a whole number of tenths.
 * Each formatter has a parser beside it and a round-trip lemma.
 */
module Decimal {
  import opened Wrappers

  predicate IsDigit(c: char)
  {
    '0' <= c <= '9'
  }

  predicate AllDigits(s: string)
  {
    forall k :: 0 <= k < |s| ==> IsDigit(s[k])
  }

  function DigitChar(d: nat): (c: char)
    requires d < 10
    ensures IsDigit(c)
  {
    ('0' as int + d) as char
  }

  function DigitValue(c: char): (d: nat)
    requires IsDigit(c)
    ensures d < 10 && DigitChar(d) == c
  {
    c as int - '0' as int
  }

  /** The decimal digits of `n`, most significant first: Python's `str(n)`. */
  function NatToDecimal(n: nat): string
    decreases n
  {
    if n < 10 then [DigitChar(n)] else NatToDecimal(n / 10) + [DigitChar(n % 10)]
  }

  /** The text is non-empty, all digits, and has no leading zero. */
  lemma {:induction false} NatToDecimalWellFormed(n: nat)
    ensures var s := NatToDecimal(n);
      |s| >= 1 && AllDigits(s) && (|s| > 1 ==> s[0] != '0')
    decreases n
  {
    if n >= 10 {
      NatToDecimalWellFormed(n / 10);
    }
  }

  /** The number a string of digits denotes (the empty string denotes 0). */
  function DecimalValue(s: string): nat
    requires AllDigits(s)
  {
    if s == [] then 0 else 10 * DecimalValue(s[..|s| - 1]) + DigitValue(s[|s| - 1])
  }

  /** Reading back the digits of `n` gives `n`. */
  lemma {:induction false} DecimalRoundTrip(n: nat)
    ensures AllDigits(NatToDecimal(n)) && DecimalValue(NatToDecimal(n)) == n
  {
    NatToDecimalWellFormed(n);
    var s := NatToDecimal(n);
    if n >= 10 {
      DecimalRoundTrip(n / 10);
      assert s[..|s| - 1] == NatToDecimal(n / 10);
    }
  }

  /** Distinct numbers print as distinct strings. */
  lemma DecimalInjective(a: nat, b: nat)
    requires NatToDecimal(a) == NatToDecimal(b)
    ensures a == b
  {
    DecimalRoundTrip(a);
    DecimalRoundTrip(b);
  }

  /**
   * `f"{x:.1f}"` for `x == tenths / 10`: the whole part, a point, and
   * exactly one fractional digit.
   */
  function FormatTenths(tenths: nat): string
  {
    NatToDecimal(tenths / 10) + "." + [DigitChar(tenths % 10)]
  }

  /** Reads text of the shape FormatTenths produces back into tenths. */
  function ParseTenths(s: string): Option<nat>
  {
    if |s| >= 3 && s[|s| - 2] == '.' && AllDigits(s[..|s| - 2]) && IsDigit(s[|s| - 1])
    then Some(10 * DecimalValue(s[..|s| - 2]) + DigitValue(s[|s| - 1]))
    else None
  }

  /** The one-decimal rendering loses nothing: parsing it gives the tenths back. */
  lemma TenthsRoundTrip(tenths: nat)
    ensures ParseTenths(FormatTenths(tenths)) == Some(tenths)
  {
    var s := FormatTenths(tenths);
    NatToDecimalWellFormed(tenths / 10);
    assert s[..|s| - 2] == NatToDecimal(tenths / 10);
    DecimalRoundTrip(tenths / 10);
  }
}
