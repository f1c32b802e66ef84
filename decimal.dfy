/**
 * Decimal spelling of integers (JavaScript's String(n) on an integer) and the
 * reading of a property key as an array index. JavaScript only treats a key as
 * an array index when it is the canonical spelling of a number: "2" addresses
 * element 2, "02" and "2.0" do not.
 */
module Decimal {
  import opened Wrappers

  predicate IsDigit(c: char) {
    '0' <= c <= '9'
  }

  predicate AllDigits(s: string) {
    forall i :: 0 <= i < |s| ==> IsDigit(s[i])
  }

  function DigitChar(d: nat): (c: char)
    requires d < 10
    ensures IsDigit(c)
  {
    ('0' as int + d) as char
  }

  function DigitOf(c: char): (d: nat)
    requires IsDigit(c)
    ensures d < 10 && DigitChar(d) == c
  {
    c as int - '0' as int
  }

  /** String(n) for a non-negative integer: digits only, no leading zero. */
  function NatToString(n: nat): (s: string)
    ensures |s| >= 1 && AllDigits(s)
    ensures s[0] == '0' ==> n == 0 && |s| == 1
    decreases n
  {
    if n < 10 then [DigitChar(n)] else NatToString(n / 10) + [DigitChar(n % 10)]
  }

  /** String(n) for any integer: a minus sign before the digits of a negative one. */
  function IntToString(n: int): (s: string)
    ensures |s| >= 1 && '.' !in s
    ensures n >= 0 ==> s == NatToString(n)
  {
    if n < 0 then "-" + NatToString(-n) else NatToString(n)
  }

  /** The number a string of digits spells, read left to right. */
  function DigitsValue(s: string): nat
    requires AllDigits(s)
  {
    if s == [] then 0 else DigitsValue(s[..|s| - 1]) * 10 + DigitOf(s[|s| - 1])
  }

  /** The keys JavaScript reads as array indices: canonical decimal numerals. */
  predicate IsIndexName(s: string) {
    |s| >= 1 && AllDigits(s) && (s[0] == '0' ==> |s| == 1)
  }

  /** The array index a property key addresses, if any. */
  function ParseIndex(s: string): (r: Option<nat>)
    ensures r.Some? <==> IsIndexName(s)
    ensures r.Some? ==> NatToString(r.value) == s
  {
    if IsIndexName(s) then
      CanonicalRoundTrip(s);
      Some(DigitsValue(s))
    else None
  }

  lemma {:induction false} LeadingDigitPositive(s: string)
    requires |s| >= 1 && AllDigits(s) && s[0] != '0'
    ensures DigitsValue(s) >= 1
  {
    if |s| > 1 {
      LeadingDigitPositive(s[..|s| - 1]);
    }
  }

  /** Reading a canonical numeral and spelling the number again gives the numeral back. */
  lemma {:induction false} CanonicalRoundTrip(s: string)
    requires IsIndexName(s)
    ensures NatToString(DigitsValue(s)) == s
  {
    if |s| > 1 {
      var t := s[..|s| - 1];
      var d := DigitOf(s[|s| - 1]);
      LeadingDigitPositive(t);
      CanonicalRoundTrip(t);
      var n := DigitsValue(t) * 10 + d;
      assert n / 10 == DigitsValue(t) && n % 10 == d;
      assert s == t + [s[|s| - 1]];
    }
  }

  /** Spelling a number and reading it back gives the number. */
  lemma {:induction false} ValueOfNatToString(n: nat)
    ensures DigitsValue(NatToString(n)) == n
    decreases n
  {
    if n >= 10 {
      ValueOfNatToString(n / 10);
      var s := NatToString(n);
      assert s[..|s| - 1] == NatToString(n / 10);
    }
  }

  /** The decimal spelling of an index is read back as that index: `2` and `"2"` address the same element. */
  lemma {:induction false} ParseNatToString(n: nat)
    ensures ParseIndex(NatToString(n)) == Some(n)
  {
    ValueOfNatToString(n);
  }

  /** Two indices spelled alike are the same index. */
  lemma NatToStringInjective(i: nat, j: nat)
    requires NatToString(i) == NatToString(j)
    ensures i == j
  {
    ParseNatToString(i);
    ParseNatToString(j);
  }
}
