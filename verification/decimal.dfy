/**
 * Decimal integer text: the subset of PHP's `is_numeric` and of Python's
 * `int()` that the model accepts (an optional sign followed by digits), the
 * value such a text denotes, and PHP's rendering of an integer into a string.
 */
module Decimal {

  predicate IsDigit(c: char) { '0' <= c <= '9' }

  predicate AllDigits(s: string) { forall i :: 0 <= i < |s| ==> IsDigit(s[i]) }

  /** An optional `+` or `-` followed by at least one digit. */
  predicate IsInteger(s: string) {
    if |s| > 0 && (s[0] == '-' || s[0] == '+') then |s| > 1 && AllDigits(s[1..])
    else |s| > 0 && AllDigits(s)
  }

  function DigitsValue(s: string): nat
    requires AllDigits(s)
    decreases |s|
  {
    if s == [] then 0
    else DigitsValue(s[..|s| - 1]) * 10 + (s[|s| - 1] as int - '0' as int)
  }

  /** The integer an integer text denotes. */
  function Value(s: string): int
    requires IsInteger(s)
  {
    if s[0] == '-' then -(DigitsValue(s[1..]) as int)
    else if s[0] == '+' then DigitsValue(s[1..])
    else DigitsValue(s)
  }

  function DigitChar(d: nat): (c: char)
    requires d < 10
    ensures IsDigit(c) && c as int - '0' as int == d
  {
    ('0' as int + d) as char
  }

  /** The shortest decimal digits of `n`. */
  function NatText(n: nat): (s: string)
    ensures |s| > 0 && AllDigits(s)
    decreases n
  {
    if n < 10 then [DigitChar(n)] else NatText(n / 10) + [DigitChar(n % 10)]
  }

  /** PHP's conversion of an integer to a string, as in `"?page=$n"`. */
  function Text(n: int): (s: string)
    ensures IsInteger(s)
    ensures n >= 0 ==> s[0] != '-' && s[0] != '+'
  {
    if n < 0 then "-" + NatText(-n) else NatText(n)
  }

  lemma {:induction false} NatTextValue(n: nat)
    ensures DigitsValue(NatText(n)) == n
    decreases n
  {
    if n >= 10 {
      NatTextValue(n / 10);
      var s := NatText(n);
      assert s[..|s| - 1] == NatText(n / 10);
    }
  }

  /** Reading back the text PHP writes for an integer gives that integer. */
  lemma TextRoundTrip(n: int)
    ensures IsInteger(Text(n)) && Value(Text(n)) == n
  {
    if n < 0 {
      NatTextValue(-n);
      assert Text(n)[1..] == NatText(-n);
    } else {
      NatTextValue(n);
    }
  }

  /** The text of a positive integer is neither empty nor `"0"`. */
  lemma PositiveTextNotZero(n: int)
    requires n > 0
    ensures Text(n) != "" && Text(n) != "0"
  {
    TextRoundTrip(n);
  }
}
