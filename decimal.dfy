/**
 * Decimal text of natural numbers, as std::to_string prints them and as the
 * generated names of the compiler passes embed them.
 */
module Decimal {

  predicate IsDigit(c: char)
  {
    '0' <= c <= '9'
  }

  function DigitChar(d: nat): (c: char)
    requires d < 10
    ensures IsDigit(c) && c as int - '0' as int == d
  {
    (('0' as int) + d) as char
  }

  /** The decimal digits of n, most significant first, without leading zeros. */
  function ToDecimal(n: nat): (s: string)
    ensures |s| >= 1 && forall k | 0 <= k < |s| :: IsDigit(s[k])
    ensures |s| > 1 ==> s[0] != '0'
  {
    if n < 10 then [DigitChar(n)] else ToDecimal(n / 10) + [DigitChar(n % 10)]
  }

  /** The value of a string of decimal digits. */
  function ParseDecimal(s: string): nat
    requires forall k | 0 <= k < |s| :: IsDigit(s[k])
  {
    if s == [] then 0
    else
      assert IsDigit(s[|s| - 1]);
      ParseDecimal(s[..|s| - 1]) * 10 + (s[|s| - 1] as int - '0' as int)
  }

  /** Reading back the printed digits gives the number. */
  lemma {:induction false} DecimalRoundTrip(n: nat)
    ensures ParseDecimal(ToDecimal(n)) == n
  {
    if n >= 10 {
      DecimalRoundTrip(n / 10);
      var s := ToDecimal(n);
      assert s[..|s| - 1] == ToDecimal(n / 10);
    }
  }

  /** Different numbers print differently. */
  lemma DecimalInjective(m: nat, n: nat)
    requires ToDecimal(m) == ToDecimal(n)
    ensures m == n
  {
    DecimalRoundTrip(m);
    DecimalRoundTrip(n);
  }

  /** The decimal text of an integer, with a leading '-' when it is negative. */
  function IntToDecimal(i: int): (s: string)
    ensures |s| >= 1
  {
    if i < 0 then "-" + ToDecimal(-i) else ToDecimal(i)
  }

  /** Different integers print differently. */
  lemma IntDecimalInjective(i: int, j: int)
    requires IntToDecimal(i) == IntToDecimal(j)
    ensures i == j
  {
    if i < 0 && j < 0 {
      assert ToDecimal(-i) == IntToDecimal(i)[1..];
      DecimalInjective(-i, -j);
    } else if i >= 0 && j >= 0 {
      DecimalInjective(i, j);
    }
  }

  /** A common prefix followed by different numbers gives different strings. */
  lemma PrefixedDecimalInjective(p: string, i: int, j: int)
    requires p + IntToDecimal(i) == p + IntToDecimal(j)
    ensures i == j
  {
    assert IntToDecimal(i) == (p + IntToDecimal(i))[|p|..];
    assert IntToDecimal(j) == (p + IntToDecimal(j))[|p|..];
    IntDecimalInjective(i, j);
  }
}
