/** Numbers written in decimal, without leading zeros. */
module Decimals {
  function Digit(d: nat): (c: char)
    requires d < 10
  {
    (48 + d) as char
  }

  predicate IsDigit(c: char) {
    '0' <= c <= '9'
  }

  predicate AllDigits(s: string) {
    forall c :: c in s ==> IsDigit(c)
  }

  function DigitValue(c: char): (d: nat)
    requires IsDigit(c)
    ensures d < 10 && Digit(d) == c
  {
    c as int - 48
  }

  function Decimal(n: nat): (s: string)
    ensures s != [] && AllDigits(s)
  {
    if n < 10 then [Digit(n)] else Decimal(n / 10) + [Digit(n % 10)]
  }

  function ValueOf(s: string): (n: nat)
    requires AllDigits(s)
  {
    if s == [] then 0 else ValueOf(s[..|s| - 1]) * 10 + DigitValue(s[|s| - 1])
  }

  lemma {:induction false} DecimalInverts(n: nat)
    ensures ValueOf(Decimal(n)) == n
    ensures Decimal(n)[0] == '0' <==> n == 0
  {
    if n >= 10 {
      DecimalInverts(n / 10);
      assert Decimal(n)[..|Decimal(n)| - 1] == Decimal(n / 10);
    }
  }

  /** Numerals without a leading zero are the decimal form of their value. */
  lemma {:induction false} ValueInverts(s: string)
    requires s != [] && AllDigits(s) && s[0] != '0'
    ensures ValueOf(s) > 0 && Decimal(ValueOf(s)) == s
  {
    var t := s[..|s| - 1];
    assert s == t + [s[|s| - 1]];
    if t == [] {
      assert ValueOf(s) == DigitValue(s[0]);
    } else {
      ValueInverts(t);
    }
  }

  /** A numeral in front makes the number at least ten times as large. */
  lemma {:induction false} ValueOfJoined(s: string, t: string)
    requires AllDigits(s) && AllDigits(t) && t != []
    ensures ValueOf(s + t) >= ValueOf(s) * 10 + ValueOf(t)
  {
    assert (s + t)[..|s + t| - 1] == s + t[..|t| - 1];
    if |t| > 1 {
      ValueOfJoined(s, t[..|t| - 1]);
    } else {
      assert s + t[..|t| - 1] == s;
    }
  }
}
