/**
 * Decimal rendering of an integer, the part of formatPrice done by
 * `price.toString()` (script.js:7) when the price is an integer: the digits
 * of the value with no leading zero, preceded by '-' when it is negative.
 */
module Decimal {

  predicate IsDigit(c: char) {
    '0' <= c <= '9'
  }

  predicate AllDigits(s: string) {
    forall i :: 0 <= i < |s| ==> IsDigit(s[i])
  }

  /** A numeral as toString writes a non-negative integer: "0", or digits not starting with '0'. */
  predicate IsCanonical(s: string) {
    |s| >= 1 && AllDigits(s) && (s[0] == '0' ==> |s| == 1)
  }

  function DigitValue(c: char): (d: nat)
    requires IsDigit(c)
    ensures d < 10
  {
    c as int - '0' as int
  }

  function DigitChar(d: nat): (c: char)
    requires d < 10
    ensures IsDigit(c) && DigitValue(c) == d
  {
    ('0' as int + d) as char
  }

  function Pow10(k: nat): (p: nat)
    ensures p >= 1
  {
    if k == 0 then 1 else 10 * Pow10(k - 1)
  }

  /** The decimal digits of n, most significant first. */
  function Digits(n: nat): (r: string)
    ensures IsCanonical(r)
    ensures r[0] == '0' <==> n == 0
    decreases n
  {
    if n < 10 then [DigitChar(n)] else Digits(n / 10) + [DigitChar(n % 10)]
  }

  /** The number a string of decimal digits denotes. */
  function Value(s: string): (v: nat)
    requires AllDigits(s)
    ensures v < Pow10(|s|)
    decreases |s|
  {
    if |s| == 0 then 0 else 10 * Value(s[..|s| - 1]) + DigitValue(s[|s| - 1])
  }

  /** `x.toString()` for an integer x. */
  function ToString(x: int): (r: string)
    ensures x >= 0 ==> IsCanonical(r)
    ensures x < 0 ==> |r| >= 2 && r[0] == '-' && IsCanonical(r[1..]) && r[1] != '0'
    ensures forall i :: 0 <= i < |r| ==> IsDigit(r[i]) || (i == 0 && r[i] == '-' && x < 0)
  {
    if x < 0 then "-" + Digits(-x) else Digits(x)
  }

  /** Reading a numeral written by toString back as a number. */
  function Parse(s: string): (x: int)
    requires IsCanonical(s) || (|s| >= 2 && s[0] == '-' && IsCanonical(s[1..]) && s[1] != '0')
  {
    if s[0] == '-' then -(Value(s[1..]) as int) else Value(s)
  }

  lemma {:induction false} ValueOfDigits(n: nat)
    ensures Value(Digits(n)) == n
    decreases n
  {
    var r := Digits(n);
    if n >= 10 {
      ValueOfDigits(n / 10);
      assert r[..|r| - 1] == Digits(n / 10);
    }
  }

  lemma {:induction false} ValueOfLeadingNonZero(s: string)
    requires |s| >= 1 && AllDigits(s) && s[0] != '0'
    ensures Value(s) >= Pow10(|s| - 1)
    decreases |s|
  {
    if |s| > 1 {
      ValueOfLeadingNonZero(s[..|s| - 1]);
    }
  }

  /** Every canonical numeral is the rendering of the number it denotes. */
  lemma {:induction false} DigitsOfValue(s: string)
    requires IsCanonical(s)
    ensures Digits(Value(s)) == s
    decreases |s|
  {
    var p := s[..|s| - 1];
    if |s| == 1 {
      assert Value(s) == DigitValue(s[0]);
    } else {
      ValueOfLeadingNonZero(p);
      DigitsOfValue(p);
      assert Value(s) / 10 == Value(p);
      assert Value(s) % 10 == DigitValue(s[|s| - 1]);
      assert s == p + [s[|s| - 1]];
    }
  }

  /** n has at most k digits exactly when n < 10^k. */
  lemma {:induction false} DigitsLength(n: nat, k: nat)
    requires k >= 1
    ensures |Digits(n)| <= k <==> n < Pow10(k)
    decreases n
  {
    if n >= 10 && k > 1 {
      DigitsLength(n / 10, k - 1);
      assert n / 10 < Pow10(k - 1) <==> n < 10 * Pow10(k - 1);
    }
  }

  /** toString and Parse are inverse: the rendering determines the integer. */
  lemma ParseToString(x: int)
    ensures Parse(ToString(x)) == x
  {
    if x < 0 {
      ValueOfDigits(-x);
      assert ToString(x)[1..] == Digits(-x);
    } else {
      ValueOfDigits(x);
    }
  }

  /** Every numeral Parse accepts is the rendering of the integer it denotes. */
  lemma ToStringParse(s: string)
    requires IsCanonical(s) || (|s| >= 2 && s[0] == '-' && IsCanonical(s[1..]) && s[1] != '0')
    ensures ToString(Parse(s)) == s
  {
    if s[0] == '-' {
      var t := s[1..];
      ValueOfLeadingNonZero(t);
      DigitsOfValue(t);
      assert s == "-" + t;
    } else {
      DigitsOfValue(s);
    }
  }
}
