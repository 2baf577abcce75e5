/**
 * Decimal text of integers: how node labels are written (`intToStr`) and how
 * the weight prompt reads the digits typed into it (`stringstream >> int`).
 */
module Digits {

  predicate IsDigit(c: char) {
    '0' <= c <= '9'
  }

  predicate AllDigits(s: string) {
    forall i :: 0 <= i < |s| ==> IsDigit(s[i])
  }

  function Pow10(k: nat): (p: nat)
    ensures p >= 1
  {
    if k == 0 then 1 else 10 * Pow10(k - 1)
  }

  /** The character of one decimal digit. */
  function DigitChar(d: nat): (c: char)
    requires d < 10
    ensures IsDigit(c) && c as int - '0' as int == d
  {
    (d + '0' as int) as char
  }

  /** The decimal numeral of a natural number, most significant digit first. */
  function NatToStr(n: nat): (s: string)
    ensures 1 <= |s| && AllDigits(s)
    ensures s[0] == '0' ==> n == 0
  {
    if n < 10 then [DigitChar(n)] else NatToStr(n / 10) + [DigitChar(n % 10)]
  }

  /** intToStr: a negative value is written with a leading minus sign. */
  function IntToStr(v: int): (s: string)
    ensures 1 <= |s|
    ensures v < 0 <==> s[0] == '-'
    ensures v >= 0 ==> AllDigits(s)
  {
    if v < 0 then "-" + NatToStr(-v) else NatToStr(v)
  }

  /** The value of a run of decimal digits, as `>>` reads it into an int. */
  function DigitsValue(s: string): (v: nat)
    requires AllDigits(s)
    ensures v < Pow10(|s|)
  {
    if s == [] then 0
    else DigitsValue(s[..|s| - 1]) * 10 + (s[|s| - 1] as int - '0' as int)
  }

  /** Reading back the numeral of a label gives the number it was made from. */
  lemma {:induction false} NatToStrRoundTrip(n: nat)
    ensures DigitsValue(NatToStr(n)) == n
  {
    if n >= 10 {
      NatToStrRoundTrip(n / 10);
      var s := NatToStr(n);
      assert s[..|s| - 1] == NatToStr(n / 10);
    }
  }

  lemma IntToStrRoundTrip(v: int)
    requires v >= 0
    ensures AllDigits(IntToStr(v)) && DigitsValue(IntToStr(v)) == v
  {
    NatToStrRoundTrip(v);
  }

  /** A number below 10^k is written with at most k digits. */
  lemma {:induction false} NatToStrLength(n: nat, k: nat)
    requires 1 <= k && n < Pow10(k)
    ensures |NatToStr(n)| <= k
  {
    if n >= 10 {
      assert k >= 2;
      NatToStrLength(n / 10, k - 1);
    }
  }
}
