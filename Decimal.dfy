/**
 * Decimal rendering of non-negative integers, as a JavaScript template
 * literal `${n}` writes them, and the reading back that undoes it.
 */
module Decimal {
  import opened Options

  predicate IsDigit(c: char) {
    '0' <= c <= '9'
  }

  function DigitChar(d: nat): (c: char)
    requires d < 10
    ensures IsDigit(c) && c as int - '0' as int == d
  {
    ('0' as int + d) as char
  }

  function DigitValue(c: char): (d: nat)
    requires IsDigit(c)
    ensures d < 10 && DigitChar(d) == c
  {
    c as int - '0' as int
  }

  predicate AllDigits(s: string) {
    forall i :: 0 <= i < |s| ==> IsDigit(s[i])
  }

  /** The shortest decimal numeral of `n`: no sign, no leading zero. */
  function Show(n: nat): (s: string)
    ensures |s| >= 1 && AllDigits(s)
    ensures |s| > 1 ==> s[0] != '0'
  {
    if n < 10 then [DigitChar(n)] else Show(n / 10) + [DigitChar(n % 10)]
  }

  /** The value of a string of decimal digits, most significant first. */
  function DigitsValue(s: string): nat
    requires AllDigits(s)
  {
    if s == [] then 0 else DigitsValue(s[..|s| - 1]) * 10 + DigitValue(s[|s| - 1])
  }

  /** Reads a non-empty string of decimal digits; anything else is rejected. */
  function ParseNat(s: string): Option<nat> {
    if s != [] && AllDigits(s) then Some(DigitsValue(s)) else None
  }

  /** Reading back a rendered number gives the number. */
  lemma {:induction false} ParseShow(n: nat)
    ensures ParseNat(Show(n)) == Some(n)
  {
    var s := Show(n);
    if n < 10 {
      assert s[..|s| - 1] == [];
      assert DigitsValue(s) == DigitsValue([]) * 10 + DigitValue(s[0]);
    } else {
      ParseShow(n / 10);
      assert s[..|s| - 1] == Show(n / 10);
      assert s[|s| - 1] == DigitChar(n % 10);
    }
  }
}
