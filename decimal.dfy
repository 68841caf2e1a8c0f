/** Python's decimal rendering of integers, as used by the f-string `f"label_{label}"`. */
module Decimal {

  function DigitChar(d: nat): (c: char)
    requires d < 10
  {
    ('0' as int + d) as char
  }

  predicate IsDigit(c: char)
  {
    '0' <= c <= '9'
  }

  /** `str(n)` for a non-negative integer: no leading zeros, at least one digit. */
  function NatToDecimal(n: nat): (s: string)
    ensures |s| >= 1
    ensures forall k :: 0 <= k < |s| ==> IsDigit(s[k])
  {
    if n < 10 then [DigitChar(n)] else NatToDecimal(n / 10) + [DigitChar(n % 10)]
  }

  /** The number a string of decimal digits spells, most significant digit first. */
  function DigitsValue(s: string): nat
    requires forall k :: 0 <= k < |s| ==> IsDigit(s[k])
    decreases |s|
  {
    if s == [] then 0
    else
      assert IsDigit(s[|s| - 1]);
      10 * DigitsValue(s[..|s| - 1]) + (s[|s| - 1] as int - '0' as int)
  }

  /** The digits spell `n`, and only zero itself is written with a leading zero. */
  lemma {:induction false} NatToDecimalValue(n: nat)
    ensures DigitsValue(NatToDecimal(n)) == n
    ensures n > 0 ==> NatToDecimal(n)[0] != '0'
    ensures |NatToDecimal(n)| > 1 ==> NatToDecimal(n)[0] != '0'
  {
    var s := NatToDecimal(n);
    if n < 10 {
      assert s[..0] == [];
    } else {
      NatToDecimalValue(n / 10);
      var init := NatToDecimal(n / 10);
      assert s[..|s| - 1] == init;
      assert s[|s| - 1] as int - '0' as int == n % 10;
      assert s[0] == init[0];
    }
  }

  /** `str(i)` for any integer: a minus sign before the digits of a negative one. */
  function IntToDecimal(i: int): string
  {
    if i < 0 then "-" + NatToDecimal(-i) else NatToDecimal(i)
  }

  /** Distinct naturals print differently. */
  lemma {:induction false} NatToDecimalInjective(a: nat, b: nat)
    requires NatToDecimal(a) == NatToDecimal(b)
    ensures a == b
  {
    var sa, sb := NatToDecimal(a), NatToDecimal(b);
    if a < 10 && b < 10 {
      assert sa[0] == DigitChar(a) && sb[0] == DigitChar(b);
    } else if a >= 10 && b >= 10 {
      var n := |sa|;
      assert sa[n - 1] == DigitChar(a % 10) && sb[n - 1] == DigitChar(b % 10);
      assert sa[..n - 1] == NatToDecimal(a / 10);
      assert sb[..n - 1] == NatToDecimal(b / 10);
      NatToDecimalInjective(a / 10, b / 10);
    }
  }

  /** Only a negative integer prints with a leading minus sign. */
  lemma LeadingMinus(i: int)
    ensures |IntToDecimal(i)| >= 1
    ensures IntToDecimal(i)[0] == '-' <==> i < 0
  {
    if i >= 0 {
      assert IsDigit(NatToDecimal(i)[0]);
    }
  }

  /** The text after the optional minus sign spells the magnitude of `i`. */
  lemma IntToDecimalValue(i: int)
    ensures i >= 0 ==> IntToDecimal(i) == NatToDecimal(i) && DigitsValue(NatToDecimal(i)) == i
    ensures i < 0 ==> IntToDecimal(i) == "-" + NatToDecimal(-i) && DigitsValue(NatToDecimal(-i)) == -i
  {
    if i >= 0 {
      NatToDecimalValue(i);
    } else {
      NatToDecimalValue(-i);
    }
  }

  /** Distinct integers print differently. */
  lemma IntToDecimalInjective(a: int, b: int)
    requires IntToDecimal(a) == IntToDecimal(b)
    ensures a == b
  {
    var sa, sb := IntToDecimal(a), IntToDecimal(b);
    LeadingMinus(a);
    LeadingMinus(b);
    if a < 0 && b < 0 {
      assert sa[1..] == NatToDecimal(-a) && sb[1..] == NatToDecimal(-b);
      NatToDecimalInjective(-a, -b);
    } else if a >= 0 && b >= 0 {
      NatToDecimalInjective(a, b);
    }
  }
}
