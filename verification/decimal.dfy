/** Java's decimal rendering of a `long` (`Long.toString`, which string
    concatenation uses), with a parser that inverts it. */
module Decimal {

  predicate IsDigit(c: char) {
    '0' <= c <= '9'
  }

  predicate AllDigits(s: string) {
    forall i :: 0 <= i < |s| ==> IsDigit(s[i])
  }

  function DigitChar(d: nat): (c: char)
    requires d < 10
    ensures IsDigit(c)
  {
    ('0' as int + d) as char
  }

  function DigitValue(c: char): (d: nat)
    requires IsDigit(c)
    ensures d < 10
    ensures DigitChar(d) == c
  {
    (c - '0') as nat
  }

  /** Decimal digits of `n`, most significant first, without leading zeros. */
  function NatToString(n: nat): (s: string)
    ensures 1 <= |s|
    ensures AllDigits(s)
    ensures |s| > 1 ==> s[0] != '0'
    decreases n
  {
    if n < 10 then [DigitChar(n)] else NatToString(n / 10) + [DigitChar(n % 10)]
  }

  /** The number a string of decimal digits denotes. */
  function ParseNat(s: string): nat
    requires AllDigits(s)
  {
    if |s| == 0 then 0 else 10 * ParseNat(s[..|s| - 1]) + DigitValue(s[|s| - 1])
  }

  lemma {:induction false} ParseNatToString(n: nat)
    ensures ParseNat(NatToString(n)) == n
    decreases n
  {
    var s := NatToString(n);
    if n < 10 {
      assert s[..|s| - 1] == [];
    } else {
      ParseNatToString(n / 10);
      assert s[..|s| - 1] == NatToString(n / 10);
    }
  }

  /** `Long.toString(i)`: a minus sign for negative values, then the digits. */
  function LongToString(i: int): (s: string)
    ensures 1 <= |s|
    ensures i < 0 <==> s[0] == '-'
    ensures i >= 0 ==> AllDigits(s)
  {
    if i < 0 then "-" + NatToString(-i) else NatToString(i)
  }

  /** An optional minus sign followed by at least one digit. */
  predicate IsLongText(s: string) {
    && 1 <= |s|
    && (if s[0] == '-' then AllDigits(s[1..]) else AllDigits(s))
  }

  function ParseLong(s: string): int
    requires IsLongText(s)
  {
    if s[0] == '-' then -(ParseNat(s[1..]) as int) else ParseNat(s)
  }

  /** The digits of a nonnegative value, behind a minus sign, form a long's text. */
  lemma NegativeText(n: nat)
    requires n > 0
    ensures IsLongText("-" + NatToString(n))
    ensures ParseLong("-" + NatToString(n)) == -(n as int)
  {
    var digits := NatToString(n);
    var s := "-" + digits;
    assert s[1..] == digits;
    ParseNatToString(n);
  }

  /** Rendering loses nothing: the rendered text parses back to the value. */
  lemma ParseLongToString(i: int)
    ensures IsLongText(LongToString(i))
    ensures ParseLong(LongToString(i)) == i
  {
    if i < 0 {
      NegativeText(-i);
    } else {
      ParseNatToString(i);
    }
  }

  lemma LongToStringInjective(a: int, b: int)
    requires LongToString(a) == LongToString(b)
    ensures a == b
  {
    ParseLongToString(a);
    ParseLongToString(b);
  }
}
