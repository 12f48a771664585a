/** Python's `str(n)` for integers, as used when a NORAD id is interpolated
    into a URL with `'{}'.format(...)`, and its inverse. */
module Decimal {

  predicate IsDigit(c: char) { '0' <= c <= '9' }

  predicate AllDigits(s: string) { forall i :: 0 <= i < |s| ==> IsDigit(s[i]) }

  function DigitChar(d: nat): (c: char)
    requires d < 10
    ensures IsDigit(c) && (c as int) - ('0' as int) == d
  {
    ('0' as int + d) as char
  }

  function DigitValue(c: char): (d: nat)
    requires IsDigit(c)
    ensures d < 10 && DigitChar(d) == c
  {
    (c as int) - ('0' as int)
  }

  /** Decimal digits of a natural number, most significant first, no leading zero. */
  function NatToText(n: nat): (s: string)
    ensures |s| >= 1 && AllDigits(s)
    ensures s[0] == '0' ==> n == 0
    decreases n
  {
    if n < 10 then [DigitChar(n)] else NatToText(n / 10) + [DigitChar(n % 10)]
  }

  /** `str(i)` for a Python int: an optional minus sign, then the digits. */
  function IntToText(i: int): (s: string)
    ensures |s| >= 1
    ensures (s[0] == '-') <==> i < 0
    ensures AllDigits(if i < 0 then s[1..] else s)
  {
    if i < 0 then "-" + NatToText(-i) else NatToText(i)
  }

  /** Value of a non-empty string of decimal digits. */
  function ParseNat(s: string): nat
    requires |s| >= 1 && AllDigits(s)
    decreases |s|
  {
    if |s| == 1 then DigitValue(s[0])
    else 10 * ParseNat(s[..|s| - 1]) + DigitValue(s[|s| - 1])
  }

  /** Value of the text `str(i)` produces. */
  function ParseInt(s: string): int
    requires |s| >= 1
    requires AllDigits(if s[0] == '-' then s[1..] else s)
    requires s[0] == '-' ==> |s| >= 2
  {
    if s[0] == '-' then 0 - ParseNat(s[1..]) else ParseNat(s)
  }

  lemma {:induction false} NatRoundTrip(n: nat)
    ensures ParseNat(NatToText(n)) == n
    decreases n
  {
    if n >= 10 {
      var s := NatToText(n);
      assert s[..|s| - 1] == NatToText(n / 10);
      NatRoundTrip(n / 10);
    }
  }

  /** Reading back the text of an integer gives that integer. */
  lemma IntRoundTrip(i: int)
    ensures var s := IntToText(i); |s| >= 1 && (s[0] == '-' ==> |s| >= 2) && ParseInt(s) == i
  {
    var s := IntToText(i);
    if i < 0 {
      assert s[1..] == NatToText(-i);
      NatRoundTrip(-i);
    } else {
      NatRoundTrip(i);
    }
  }

  /** Distinct integers have distinct texts. */
  lemma IntToTextInjective(a: int, b: int)
    ensures IntToText(a) == IntToText(b) ==> a == b
  {
    IntRoundTrip(a);
    IntRoundTrip(b);
  }

  /** The text of an integer is never empty and holds no character other
      than digits and a leading minus sign. */
  lemma IntTextAlphabet(i: int, k: int)
    requires 0 <= k < |IntToText(i)|
    ensures IsDigit(IntToText(i)[k]) || (k == 0 && IntToText(i)[k] == '-')
  {
    var s := IntToText(i);
    if i < 0 && k > 0 {
      assert s[k] == s[1..][k - 1];
    }
  }
}
