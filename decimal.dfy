/** Decimal digit strings, as JavaScript produces and parses them for
    non-negative BigInts: `n.toString()`, `BigInt(s)` on a string of digits,
    and `'0'.repeat(k)`. */
module Decimal {
  import opened Arith

  predicate IsDigit(c: char) {
    '0' <= c <= '9'
  }

  predicate AllDigits(s: seq<char>) {
    forall i :: 0 <= i < |s| ==> IsDigit(s[i])
  }

  function DigitValue(c: char): (d: nat)
    requires IsDigit(c)
    ensures d < 10
  {
    c as int - '0' as int
  }

  function DigitChar(d: nat): (c: char)
    requires d < 10
    ensures IsDigit(c) && DigitValue(c) == d
  {
    ('0' as int + d) as char
  }

  /** `BigInt(s)` for a string of decimal digits (leading zeros allowed).
      A string of k digits denotes a value below 10^k. */
  function DigitsValue(s: seq<char>): (v: nat)
    requires AllDigits(s)
    ensures v < Pow(10, |s|)
  {
    if s == [] then 0
    else
      var init := s[..|s| - 1];
      MulMonotone(DigitsValue(init) + 1, Pow(10, |init|), 10);
      DigitsValue(init) * 10 + DigitValue(s[|s| - 1])
  }

  /** `n.toString()` for a non-negative BigInt: no leading zero, "0" for zero. */
  function DecimalString(n: nat): (s: seq<char>)
    ensures |s| >= 1 && AllDigits(s)
    ensures |s| > 1 ==> s[0] != '0'
  {
    if n < 10 then [DigitChar(n)] else DecimalString(n / 10) + [DigitChar(n % 10)]
  }

  /** `c.repeat(k)`. */
  function Repeat(c: char, k: nat): (s: seq<char>)
    ensures |s| == k && forall i :: 0 <= i < k ==> s[i] == c
  {
    if k == 0 then [] else Repeat(c, k - 1) + [c]
  }

  /** Parsing what `toString` printed gives the number back. */
  lemma {:induction false} DecimalStringRoundTrip(n: nat)
    ensures DigitsValue(DecimalString(n)) == n
  {
    if n >= 10 {
      var s := DecimalString(n);
      DecimalStringRoundTrip(n / 10);
      assert s[..|s| - 1] == DecimalString(n / 10);
    }
  }

  /** The length of `n.toString()` is the number of decimal digits of n:
      10^(len-1) <= n < 10^len for positive n. */
  lemma {:induction false} DecimalStringLength(n: nat)
    ensures n < Pow(10, |DecimalString(n)|)
    ensures n > 0 ==> Pow(10, |DecimalString(n)| - 1) <= n
  {
    DecimalStringRoundTrip(n);
    if n >= 10 {
      DecimalStringLength(n / 10);
      var k := |DecimalString(n / 10)|;
      assert |DecimalString(n)| == k + 1;
      MulMonotone(Pow(10, k - 1), n / 10, 10);
    }
  }

  /** The divisor string `'1' + '0'.repeat(k)` denotes 10^k. */
  lemma {:induction false} OneFollowedByZeros(k: nat)
    ensures AllDigits(['1'] + Repeat('0', k))
    ensures DigitsValue(['1'] + Repeat('0', k)) == Pow(10, k)
  {
    var s := ['1'] + Repeat('0', k);
    if k > 0 {
      OneFollowedByZeros(k - 1);
      assert s[..|s| - 1] == ['1'] + Repeat('0', k - 1);
    }
  }
}
