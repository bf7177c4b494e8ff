/** Decimal text of whole numbers, as JavaScript renders a number that is
    concatenated to a string (`'ENERO' + ' ' + 2024`), and the parser that
    reads such text back. */
module Decimal {

  predicate IsDigit(c: char) {
    '0' <= c <= '9'
  }

  predicate AllDigits(s: string) {
    forall i :: 0 <= i < |s| ==> IsDigit(s[i])
  }

  function DigitChar(d: nat): (c: char)
    requires d < 10
    ensures IsDigit(c)
  {
    ('0' as int + d) as char
  }

  function DigitValue(c: char): (d: nat)
    requires IsDigit(c)
    ensures d < 10 && DigitChar(d) == c
  {
    c as int - '0' as int
  }

  /** A numeral without leading zeros: "0" itself, or digits that do not
      start with '0'. */
  predicate IsCanonical(s: string) {
    |s| > 0 && AllDigits(s) && (|s| == 1 || s[0] != '0')
  }

  /** The shortest decimal numeral of n, most significant digit first. */
  function NatText(n: nat): (s: string)
    ensures IsCanonical(s)
    ensures n > 0 ==> s[0] != '0'
    decreases n
  {
    if n < 10 then [DigitChar(n)] else NatText(n / 10) + [DigitChar(n % 10)]
  }

  /** The text of an integer: a minus sign before the numeral of its magnitude
      when it is negative. */
  function IntText(n: int): (s: string)
    ensures |s| > 0
    ensures s[0] == '-' <==> n < 0
    ensures IsCanonical(if n < 0 then s[1..] else s)
  {
    if n < 0 then "-" + NatText(-n) else NatText(n)
  }

  /** Text that ParseInt accepts: digits, optionally after one minus sign. */
  predicate IsIntText(s: string) {
    |s| > 0 && if s[0] == '-' then |s| > 1 && AllDigits(s[1..]) else AllDigits(s)
  }

  function ParseNat(s: string): nat
    requires AllDigits(s)
  {
    if s == [] then 0 else 10 * ParseNat(s[..|s| - 1]) + DigitValue(s[|s| - 1])
  }

  function ParseInt(s: string): int
    requires IsIntText(s)
  {
    if s[0] == '-' then -(ParseNat(s[1..]) as int) else ParseNat(s)
  }

  lemma {:induction false} ParseNatText(n: nat)
    ensures ParseNat(NatText(n)) == n
    decreases n
  {
    var s := NatText(n);
    if n < 10 {
      assert s[..|s| - 1] == [];
    } else {
      assert s[..|s| - 1] == NatText(n / 10);
      ParseNatText(n / 10);
    }
  }

  /** Reading back the text of any integer gives that integer. */
  lemma IntTextRoundTrip(n: int)
    ensures IsIntText(IntText(n)) && ParseInt(IntText(n)) == n
  {
    var s := IntText(n);
    if n < 0 {
      assert s[1..] == NatText(-n);
      ParseNatText(-n);
    } else {
      ParseNatText(n);
    }
  }

  /** A numeral that does not start with '0' stands for a positive number. */
  lemma {:induction false} ParseNatPositive(s: string)
    requires AllDigits(s) && |s| > 0 && s[0] != '0'
    ensures ParseNat(s) > 0
    decreases |s|
  {
    if |s| > 1 {
      ParseNatPositive(s[..|s| - 1]);
    }
  }

  /** NatText(n) is the only numeral without leading zeros that reads as n:
      the text is the shortest numeral, not merely one that parses back. */
  lemma {:induction false} NatTextUnique(s: string, n: nat)
    requires IsCanonical(s) && ParseNat(s) == n
    ensures s == NatText(n)
    decreases |s|
  {
    var c := s[|s| - 1];
    if |s| == 1 {
      assert s == [c];
      assert ParseNat(s[..0]) == 0;
    } else {
      var p := s[..|s| - 1];
      assert s == p + [c];
      ParseNatPositive(p);
      assert n / 10 == ParseNat(p) && n % 10 == DigitValue(c);
      NatTextUnique(p, n / 10);
    }
  }
}
