/** The text the renderer draws: `format!("{}", percentage)` of an unsigned
    integer, i.e. its decimal digits with no sign, no padding and no leading zero.
    `Parse` reads such a string back. */
module Decimal {

  predicate IsDigit(c: char) { '0' <= c <= '9' }

  predicate AllDigits(s: string) { forall i :: 0 <= i < |s| ==> IsDigit(s[i]) }

  /** The strings `format!("{}", n)` can produce: one or more digits, and a
      leading '0' only in "0" itself. */
  predicate IsCanonical(s: string)
  {
    1 <= |s| && AllDigits(s) && (s[0] == '0' ==> |s| == 1)
  }

  function DigitChar(d: nat): (c: char)
    requires d < 10
    ensures IsDigit(c)
  {
    ('0' as int + d) as char
  }

  function DigitValue(c: char): (d: nat)
    requires IsDigit(c)
    ensures d < 10 && DigitChar(d) == c
  {
    c as int - '0' as int
  }

  /** The decimal representation of `n`, most significant digit first. */
  function Format(n: nat): (s: string)
    ensures IsCanonical(s)
    ensures n < 10 <==> |s| == 1
  {
    if n < 10 then [DigitChar(n)] else Format(n / 10) + [DigitChar(n % 10)]
  }

  /** The value of a string of decimal digits (the empty string reads as 0).
      It is 0 exactly when every digit is '0'. */
  function Parse(s: string): (n: nat)
    requires AllDigits(s)
    ensures n == 0 <==> forall i :: 0 <= i < |s| ==> s[i] == '0'
  {
    if s == [] then 0 else Parse(s[..|s| - 1]) * 10 + DigitValue(s[|s| - 1])
  }

  /** Reading back the formatted text gives the percentage again. */
  lemma {:induction false} ParseFormat(n: nat)
    ensures Parse(Format(n)) == n
  {
    var s := Format(n);
    if n >= 10 {
      assert s[..|s| - 1] == Format(n / 10);
      ParseFormat(n / 10);
    }
  }

  /** A canonical digit string reads as a number it is the formatting of. */
  lemma {:induction false} FormatParse(s: string)
    requires IsCanonical(s)
    ensures Format(Parse(s)) == s
  {
    if |s| > 1 {
      var prefix := s[..|s| - 1];
      assert prefix[0] == s[0];
      LeadingDigitPositive(prefix);
      FormatParse(prefix);
      var d := DigitValue(s[|s| - 1]);
      assert Parse(s) / 10 == Parse(prefix) && Parse(s) % 10 == d;
    }
  }

  /** A digit string that does not start with '0' reads as a positive number. */
  lemma {:induction false} LeadingDigitPositive(s: string)
    requires 1 <= |s| && AllDigits(s) && s[0] != '0'
    ensures Parse(s) >= 1
  {
    if |s| > 1 {
      var prefix := s[..|s| - 1];
      assert prefix[0] == s[0];
      LeadingDigitPositive(prefix);
    }
  }

  /** Two numbers print the same exactly when they are equal. */
  lemma FormatInjective(m: nat, n: nat)
    ensures Format(m) == Format(n) <==> m == n
  {
    ParseFormat(m);
    ParseFormat(n);
  }

  /** The text of a `u8` has one to three digits, and three exactly from 100 on. */
  lemma ByteDigits(n: nat)
    requires n < 256
    ensures 1 <= |Format(n)| <= 3
    ensures |Format(n)| == 1 <==> n < 10
    ensures |Format(n)| == 3 <==> n >= 100
  {
  }
}
