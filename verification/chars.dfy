/** Character classes of the C locale (ISO C11 sections 7.4.1.5, 7.4.1.8
    and 7.4.1.10) on ASCII text, the reader's special delimiters, and
    decimal numerals. Characters above 0x7E belong to no class, as in the
    C locale for the values 128 to 255. */
module Chars {

  /** `isspace`: space, horizontal tab, newline, vertical tab, form feed,
      carriage return. */
  predicate IsSpace(c: char): (b: bool)
    ensures b <==> c == ' ' || 9 <= c as int <= 13
  {
    c == ' ' || c == '\t' || c == '\n' || c == '\U{B}' || c == '\U{C}' || c == '\r'
  }

  /** `isprint`: the printing characters 0x20 to 0x7E, space included. The
      space is the only character that is both printing and whitespace. */
  predicate IsPrint(c: char): (b: bool)
    ensures b <==> 0x20 <= c as int <= 0x7E
    ensures b && IsSpace(c) <==> c == ' '
  {
    ' ' <= c <= '~'
  }

  /** `isdigit`: the ten decimal digits, which are printing characters and
      not whitespace. */
  predicate IsDigit(c: char): (b: bool)
    ensures b <==> 0x30 <= c as int <= 0x39
    ensures b ==> IsPrint(c) && !IsSpace(c)
  {
    '0' <= c <= '9'
  }

  /** The reader's delimiters: parentheses and the colon, which are
      printing characters, neither whitespace nor digits. */
  predicate IsSpecial(c: char): (b: bool)
    ensures b <==> c as int == 0x28 || c as int == 0x29 || c as int == 0x3A
    ensures b ==> IsPrint(c) && !IsSpace(c) && !IsDigit(c)
  {
    c == '(' || c == ')' || c == ':'
  }

  function DigitValue(c: char): (d: nat)
    requires IsDigit(c)
    ensures d < 10
  {
    (c - '0') as nat
  }

  function DigitChar(d: nat): (c: char)
    requires d < 10
    ensures IsDigit(c) && DigitValue(c) == d
  {
    ('0' as int + d) as char
  }

  predicate AllDigits(s: string) {
    forall i :: 0 <= i < |s| ==> IsDigit(s[i])
  }

  /** The value of a numeral, read most significant digit first. */
  function DecimalValue(s: string): nat
    requires AllDigits(s)
  {
    if |s| == 0 then 0 else 10 * DecimalValue(s[..|s| - 1]) + DigitValue(s[|s| - 1])
  }

  /** `std::to_string` on an unsigned value: the shortest numeral of `n`. */
  function NatToDecimal(n: nat): (r: string)
    ensures |r| >= 1 && AllDigits(r)
    ensures DecimalValue(r) == n
    ensures r[0] == '0' ==> r == "0"
    decreases n
  {
    if n < 10 then [DigitChar(n)]
    else
      var r := NatToDecimal(n / 10) + [DigitChar(n % 10)];
      assert r[..|r| - 1] == NatToDecimal(n / 10);
      r
  }

  /** A numeral's value does not shrink when a digit is appended. */
  lemma {:induction false} DecimalValueGrows(s: string, c: char)
    requires AllDigits(s) && IsDigit(c)
    ensures AllDigits(s + [c])
    ensures DecimalValue(s + [c]) == 10 * DecimalValue(s) + DigitValue(c)
    ensures DecimalValue(s + [c]) >= DecimalValue(s)
  {
    assert (s + [c])[..|s + [c]| - 1] == s;
  }
}
