/**
 * Decimal text of integers: SQLite's `CAST(version AS TEXT)` on the INTEGER
 * build version, and Python's f-string formatting of `MAX_CHARS`.
 */
module Decimal {

  predicate IsDigit(c: char) { '0' <= c <= '9' }

  predicate AllDigits(s: string) { forall k :: 0 <= k < |s| ==> IsDigit(s[k]) }

  function DigitChar(d: nat): (c: char)
    requires d < 10
    ensures IsDigit(c) && c as int - '0' as int == d
  {
    (d + '0' as int) as char
  }

  function DigitValue(c: char): (d: nat)
    requires IsDigit(c)
    ensures d < 10
  {
    c as int - '0' as int
  }

  /** Shortest decimal form of a natural number: no sign and no leading zero. */
  function NatToText(n: nat): (s: string)
    ensures |s| >= 1 && AllDigits(s)
    ensures s[0] == '0' ==> n == 0 && s == "0"
    decreases n
  {
    if n < 10 then [DigitChar(n)] else NatToText(n / 10) + [DigitChar(n % 10)]
  }

  /** Reads a string of digits back as a number. */
  function TextToNat(s: string): nat
    requires AllDigits(s)
  {
    if s == [] then 0 else 10 * TextToNat(s[..|s| - 1]) + DigitValue(s[|s| - 1])
  }

  lemma {:induction false} NatTextRoundTrip(n: nat)
    ensures TextToNat(NatToText(n)) == n
    decreases n
  {
    if n >= 10 {
      var a := NatToText(n / 10);
      var s := a + [DigitChar(n % 10)];
      assert s[..|s| - 1] == a;
      NatTextRoundTrip(n / 10);
    }
  }

  /** SQLite's text form of an INTEGER value. */
  function IntToText(i: int): (s: string)
    ensures |s| >= 1
    ensures s[0] == '-' <==> i < 0
    ensures i < 0 ==> s[1..] == NatToText(-i)
    ensures i >= 0 ==> s == NatToText(i)
  {
    if i < 0 then "-" + NatToText(-i) else NatToText(i)
  }

  /** Reads SQLite's text form of an integer back. */
  function TextToInt(s: string): int
    requires s != [] && (s[0] == '-' ==> AllDigits(s[1..])) && (s[0] != '-' ==> AllDigits(s))
  {
    if s[0] == '-' then 0 - (TextToNat(s[1..]) as int) else TextToNat(s)
  }

  /** The decimal form of the build version identifies it: reading it back gives the same number. */
  lemma IntTextRoundTrip(i: int)
    ensures var s := IntToText(i);
      s != [] && (s[0] == '-' ==> AllDigits(s[1..])) && (s[0] != '-' ==> AllDigits(s)) && TextToInt(s) == i
  {
    if i < 0 { NatTextRoundTrip(-i); } else { NatTextRoundTrip(i); }
  }
}
