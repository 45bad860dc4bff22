/** Numbers written in a base up to ten, most significant digit first, as `str`, `:04o` and `toString` write them. */
module Numerals {

  predicate IsDigit(c: char) {
    '0' <= c <= '9'
  }

  function DigitChar(d: nat): (c: char)
    requires d < 10
    ensures IsDigit(c)
  {
    '0' + d as char
  }

  function DigitValue(c: char): (d: nat)
    requires IsDigit(c)
    ensures d < 10
  {
    (c - '0') as nat
  }

  predicate AllDigits(s: string) {
    forall i :: 0 <= i < |s| ==> IsDigit(s[i])
  }

  function Digits(n: nat, base: nat): (s: string)
    requires 2 <= base <= 10
    ensures s != [] && AllDigits(s)
  {
    if n < base then [DigitChar(n)] else Digits(n / base, base) + [DigitChar(n % base)]
  }

  function Value(s: string, base: nat): nat
    requires AllDigits(s)
  {
    if s == [] then 0 else Value(s[..|s| - 1], base) * base + DigitValue(s[|s| - 1])
  }

  function Decimal(n: nat): (s: string)
    ensures s != [] && AllDigits(s)
  {
    Digits(n, 10)
  }

  /** Pad with zeros on the left up to a width. */
  function Padded(s: string, width: nat): (r: string)
    requires AllDigits(s)
    ensures AllDigits(r) && |r| >= |s|
    decreases width - |s|
  {
    if |s| >= width then s else Padded("0" + s, width)
  }

  lemma DigitRoundTrip(d: nat)
    requires d < 10
    ensures DigitValue(DigitChar(d)) == d
  {
  }

  lemma Division(n: nat, base: nat)
    requires base > 0
    ensures n == (n / base) * base + n % base
  {
  }

  lemma ValueOfLast(s: string, c: char, base: nat)
    requires AllDigits(s) && IsDigit(c)
    ensures Value(s + [c], base) == Value(s, base) * base + DigitValue(c)
  {
    assert (s + [c])[..|s + [c]| - 1] == s;
  }

  /** Reading back a numeral gives the number. */
  lemma {:induction false} DigitsValue(n: nat, base: nat)
    requires 2 <= base <= 10
    ensures Value(Digits(n, base), base) == n
    decreases n
  {
    if n < base {
      DigitRoundTrip(n);
      assert [DigitChar(n)][..0] == [];
    } else {
      DigitsValue(n / base, base);
      DigitRoundTrip(n % base);
      ValueOfLast(Digits(n / base, base), DigitChar(n % base), base);
      Division(n, base);
    }
  }

  lemma {:induction false} LeadingZero(s: string, base: nat)
    requires AllDigits(s)
    ensures Value("0" + s, base) == Value(s, base)
    decreases |s|
  {
    var z := "0" + s;
    if s == [] {
      assert z[..|z| - 1] == [];
    } else {
      assert z[..|z| - 1] == "0" + s[..|s| - 1];
      LeadingZero(s[..|s| - 1], base);
    }
  }

  lemma {:induction false} PaddingValue(s: string, width: nat, base: nat)
    requires AllDigits(s)
    ensures Value(Padded(s, width), base) == Value(s, base)
    decreases width - |s|
  {
    if |s| < width {
      LeadingZero(s, base);
      PaddingValue("0" + s, width, base);
    }
  }

  /** No digit is any other character. */
  lemma DigitsAvoid(s: string, c: char)
    requires AllDigits(s) && !IsDigit(c)
    ensures c !in s
  {
  }
}
