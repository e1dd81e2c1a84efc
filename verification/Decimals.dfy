/** Decimal and hexadecimal digits as sprintf writes them. */
module Decimals {

  function Digit(d: nat): char
    requires d < 10
  {
    ('0' as int + d) as char
  }

  predicate IsDigit(c: char) {
    '0' <= c <= '9'
  }

  function DigitValue(c: char): nat
    requires IsDigit(c)
  {
    c as int - '0' as int
  }

  predicate AllDigits(s: string) {
    forall i :: 0 <= i < |s| ==> IsDigit(s[i])
  }

  /** "%u". */
  function Decimal(n: nat): (s: string)
    ensures s != "" && AllDigits(s)
  {
    if n < 10 then [Digit(n)] else Decimal(n / 10) + [Digit(n % 10)]
  }

  function ValueOf(s: string): nat
    requires AllDigits(s)
  {
    if s == "" then 0 else 10 * ValueOf(s[..|s| - 1]) + DigitValue(s[|s| - 1])
  }

  lemma {:induction false} ValueOfDecimal(n: nat)
    ensures ValueOf(Decimal(n)) == n
  {
    var s := Decimal(n);
    if n >= 10 {
      assert s[..|s| - 1] == Decimal(n / 10);
      ValueOfDecimal(n / 10);
    } else {
      assert s[..0] == "";
    }
  }

  /** The digits are those that one writes, and the last one counts ones. */
  lemma DigitsInOrder(n: nat)
    ensures Decimal(n)[|Decimal(n)| - 1] == "0123456789"[n % 10]
    ensures n < 10 <==> |Decimal(n)| == 1
  {
  }

  lemma DecimalInjective(m: nat, n: nat)
    requires Decimal(m) == Decimal(n)
    ensures m == n
  {
    ValueOfDecimal(m);
    ValueOfDecimal(n);
  }

  /** A numeral that goes on after the digits of n is of a number with n in front. */
  lemma {:induction false} DecimalExtends(n: nat, m: nat)
    requires Decimal(n) < Decimal(m)
    ensures 0 < n && 10 * n <= m
    decreases m
  {
    var s, t := Decimal(n), Decimal(m);
    assert m >= 10;
    var front := Decimal(m / 10);
    assert front == t[..|t| - 1];
    if |s| == |front| {
      DecimalInjective(n, m / 10);
    } else {
      DecimalExtends(n, m / 10);
    }
  }

  const HEX_DIGITS: string := "0123456789ABCDEF"
}
