/** Decimal text for integers: the number-to-string conversion JavaScript uses
    when it joins or concatenates numbers, and the string-to-number conversion
    it uses when loose equality or `>` compares a string with a number. */
module Decimal {
  import opened JsObject

  predicate IsDigit(c: char) {
    '0' <= c <= '9'
  }

  predicate AllDigits(s: string) {
    forall i :: 0 <= i < |s| ==> IsDigit(s[i])
  }

  function DigitChar(d: nat): (c: char)
    requires d < 10
    ensures IsDigit(c) && c as int - '0' as int == d
  {
    ('0' as int + d) as char
  }

  /** Shortest decimal form of a natural number: no sign, no leading zero. */
  function NatToString(n: nat): (s: string)
    ensures |s| > 0 && AllDigits(s)
    ensures s[0] == '0' ==> n == 0
  {
    if n < 10 then [DigitChar(n)] else NatToString(n / 10) + [DigitChar(n % 10)]
  }

  /** The number a string of decimal digits denotes. */
  function DigitsValue(s: string): nat
    requires AllDigits(s)
  {
    if |s| == 0 then 0 else DigitsValue(s[..|s| - 1]) * 10 + (s[|s| - 1] as int - '0' as int)
  }

  /** `String(i)` for an integral number. */
  function IntToString(i: int): (s: string)
    ensures |s| > 0
    ensures s[0] == '-' || IsDigit(s[0])
  {
    if i < 0 then "-" + NatToString(-i) else NatToString(i)
  }

  /** `Number(s)`, restricted to integer literals: the empty string is 0, an
      optional sign followed by one or more digits is that integer, and
      anything else is NaN (`None`). */
  function StringToNumber(s: string): Option<int> {
    if s == "" then Some(0)
    else if s[0] == '-' || s[0] == '+' then
      var body := s[1..];
      if |body| > 0 && AllDigits(body) then
        var m: int := DigitsValue(body);
        Some(if s[0] == '-' then -m else m)
      else None
    else if AllDigits(s) then Some(DigitsValue(s))
    else None
  }

  lemma {:induction false} NatRoundTrip(n: nat)
    ensures DigitsValue(NatToString(n)) == n
  {
    if n >= 10 {
      var s := NatToString(n);
      assert s[..|s| - 1] == NatToString(n / 10);
      NatRoundTrip(n / 10);
    }
  }

  /** Printing an integer and reading the text back gives the integer. */
  lemma IntRoundTrip(i: int)
    ensures StringToNumber(IntToString(i)) == Some(i)
  {
    if i < 0 {
      assert IntToString(i)[1..] == NatToString(-i);
      NatRoundTrip(-i);
    } else {
      NatRoundTrip(i);
    }
  }

  /** Distinct naturals print differently, so array indices are distinct names. */
  lemma NatToStringInjective(m: nat, n: nat)
    requires NatToString(m) == NatToString(n)
    ensures m == n
  {
    NatRoundTrip(m);
    NatRoundTrip(n);
  }
}
