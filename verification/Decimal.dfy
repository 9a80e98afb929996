/** The decimal text of an integer, as `convert` in deon/base/LogStream.cpp is meant to produce it:
    what it is, that it can be read back, and that it is the only canonical text of its value. */
module Decimal {

  const INT64_MIN: int := -0x8000_0000_0000_0000
  const UINT64_MAX: int := 0xFFFF_FFFF_FFFF_FFFF

  function DigitChar(d: nat): char
    requires d < 10
  {
    '0' + d as char
  }

  function DigitsOf(n: nat): string {
    (if n < 10 then "" else DigitsOf(n / 10)) + [DigitChar(n % 10)]
  }

  function TextOf(v: int): string {
    if v < 0 then "-" + DigitsOf(-v) else DigitsOf(v)
  }

  /** Reading text back, written without reference to how it was produced. */
  function NatOf(s: string): int {
    if s == "" then 0 else 10 * NatOf(s[..|s| - 1]) + (s[|s| - 1] as int - '0' as int)
  }

  function ValueOf(s: string): int {
    if s != "" && s[0] == '-' then -NatOf(s[1..]) else NatOf(s)
  }

  predicate IsNumeral(s: string) {
    && s != ""
    && (forall k :: 0 <= k < |s| ==> '0' <= s[k] <= '9')
    && (|s| > 1 ==> s[0] != '0')
  }

  /** No leading zeros, and a minus sign only in front of a number that is not zero. */
  predicate IsCanonical(s: string) {
    if s != "" && s[0] == '-' then IsNumeral(s[1..]) && s[1] != '0' else IsNumeral(s)
  }

  /** One more digit at the end. */
  lemma NatSnoc(s: string, d: nat)
    requires d < 10
    ensures NatOf(s + [DigitChar(d)]) == 10 * NatOf(s) + d
  {
    var t := s + [DigitChar(d)];
    assert t[..|t| - 1] == s;
  }

  lemma NumeralSnoc(s: string, d: nat)
    requires d < 10 && (s == "" || (IsNumeral(s) && s[0] != '0'))
    ensures IsNumeral(s + [DigitChar(d)])
    ensures s != "" || d > 0 ==> (s + [DigitChar(d)])[0] != '0'
  {
  }

  lemma LastDigit(n: nat)
    ensures n == 10 * (n / 10) + n % 10 && n % 10 < 10
    ensures n >= 10 ==> 0 < n / 10 < n
  {
  }

  lemma {:induction false} DigitsReadBack(n: nat)
    ensures IsNumeral(DigitsOf(n)) && NatOf(DigitsOf(n)) == n
    ensures n > 0 ==> DigitsOf(n)[0] != '0'
  {
    LastDigit(n);
    if n >= 10 {
      DigitsReadBack(n / 10);
      hide IsNumeral, NatOf, DigitChar;
      assert DigitsOf(n) == DigitsOf(n / 10) + [DigitChar(n % 10)];
      NatSnoc(DigitsOf(n / 10), n % 10);
      NumeralSnoc(DigitsOf(n / 10), n % 10);
    } else {
      hide IsNumeral, NatOf, DigitChar;
      assert DigitsOf(n) == "" + [DigitChar(n)];
      NatSnoc("", n);
      NumeralSnoc("", n);
      assert NatOf("") == 0 by { NatEmpty(); }
    }
  }

  lemma NatEmpty()
    ensures NatOf("") == 0
  {
  }

  lemma RoundTrip(v: int)
    ensures IsCanonical(TextOf(v))
    ensures ValueOf(TextOf(v)) == v
  {
    DigitsReadBack(if v < 0 then -v else v);
    if v < 0 {
      assert TextOf(v)[1..] == DigitsOf(-v);
    }
  }

  lemma AppendDigit(m: nat, d: nat)
    requires m > 0 && d < 10
    ensures DigitsOf(10 * m + d) == DigitsOf(m) + [DigitChar(d)]
  {
    assert (10 * m + d) / 10 == m && (10 * m + d) % 10 == d;
  }

  lemma OneDigitText(d: nat)
    requires d < 10
    ensures DigitsOf(d) == [DigitChar(d)]
  {
  }

  /** A numeral without its last digit. */
  lemma NumeralParts(s: string) returns (init: string, d: nat)
    requires IsNumeral(s)
    ensures s != "" && |init| < |s|
    ensures d < 10 && s == init + [DigitChar(d)]
    ensures init != "" ==> IsNumeral(init) && init[0] == s[0] != '0'
    ensures init == "" ==> (s[0] != '0' <==> d > 0)
  {
    init, d := s[..|s| - 1], s[|s| - 1] as int - '0' as int;
  }

  lemma {:induction false} NumeralIsItsDigits(s: string)
    requires IsNumeral(s)
    ensures NatOf(s) >= 0 && s != ""
    ensures s[0] != '0' ==> NatOf(s) > 0
    ensures DigitsOf(NatOf(s)) == s
    decreases |s|
  {
    hide IsNumeral, NatOf, DigitChar, DigitsOf;
    var init, d := NumeralParts(s);
    var n := NatOf(init);
    NatSnoc(init, d);
    assert NatOf(s) == 10 * n + d;
    if init == "" {
      NatEmpty();
      OneDigitText(d);
    } else {
      NumeralIsItsDigits(init);
      AppendDigit(n, d);
    }
  }

  /** A canonical text is the text of its value, so no two texts of one value exist. */
  lemma CanonicalIsUnique(s: string)
    requires IsCanonical(s)
    ensures TextOf(ValueOf(s)) == s
  {
    if s[0] == '-' {
      NumeralIsItsDigits(s[1..]);
      assert s == "-" + s[1..];
    } else {
      NumeralIsItsDigits(s);
    }
  }

  function Pow10(k: nat): nat {
    if k == 0 then 1 else 10 * Pow10(k - 1)
  }

  lemma {:induction false} DigitCount(n: nat, k: nat)
    requires k > 0 && n < Pow10(k)
    ensures 1 <= |DigitsOf(n)| <= k
  {
    if n >= 10 {
      DigitCount(n / 10, k - 1);
    }
  }

  /** Twenty characters are enough for every 64-bit value, signed or unsigned. */
  lemma TextFits(v: int)
    requires INT64_MIN <= v <= UINT64_MAX
    ensures 1 <= |TextOf(v)| <= 20
  {
    assert Pow10(5) == 100000;
    assert Pow10(10) == 100000 * Pow10(5);
    assert Pow10(15) == 100000 * Pow10(10);
    assert Pow10(19) == 10000 * Pow10(15);
    assert Pow10(20) == 10 * Pow10(19);
    if v < 0 { DigitCount(-v, 19); } else { DigitCount(v, 20); }
  }
}
