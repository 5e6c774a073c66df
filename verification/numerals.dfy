/**
  Decimal numerals, as the `Debug` output of the leaves prints them, and a reader for
  them. A float with an integral value prints as its integer digits followed by `.0`.
 */
module Numerals {
  import opened Options

  predicate IsDigit(c: char)
  {
    '0' <= c <= '9'
  }

  function DigitChar(d: nat): (c: char)
    requires d < 10
    ensures IsDigit(c)
  {
    "0123456789"[d]
  }

  function DigitValue(c: char): (d: nat)
    requires IsDigit(c)
    ensures d < 10
  {
    c as int - '0' as int
  }

  predicate AllDigits(s: string)
  {
    forall i :: 0 <= i < |s| ==> IsDigit(s[i])
  }

  /** The shortest decimal spelling of `n`. */
  function Digits(n: nat): (s: string)
    ensures |s| > 0 && AllDigits(s)
    decreases n
  {
    if n < 10 then [DigitChar(n)] else Digits(n / 10) + [DigitChar(n % 10)]
  }

  /** The number a run of digits spells. */
  function DigitsValue(s: string): nat
    requires AllDigits(s)
    decreases |s|
  {
    if |s| == 0 then 0 else DigitsValue(s[..|s| - 1]) * 10 + DigitValue(s[|s| - 1])
  }

  lemma {:induction false} DigitsRoundTrip(n: nat)
    ensures DigitsValue(Digits(n)) == n
    decreases n
  {
    if n >= 10 {
      DigitsRoundTrip(n / 10);
      var s := Digits(n);
      assert s[..|s| - 1] == Digits(n / 10);
      assert DigitValue(DigitChar(n % 10)) == n % 10;
    } else {
      assert DigitValue(DigitChar(n)) == n;
    }
  }

  /** An integer in decimal, with a leading `-` when negative. */
  function IntToString(i: int): (s: string)
    ensures |s| > 0
  {
    if i < 0 then "-" + Digits(-i) else Digits(i)
  }

  /** `Debug` of a float with the integral value `i`. */
  function FloatDebug(i: int): string
  {
    IntToString(i) + ".0"
  }

  /** The length of the longest run of digits at the start of `s`. */
  function DigitRun(s: string): (k: nat)
    ensures k <= |s| && AllDigits(s[..k])
    ensures k < |s| ==> !IsDigit(s[k])
    decreases |s|
  {
    if |s| > 0 && IsDigit(s[0]) then
      var k := 1 + DigitRun(s[1..]);
      assert s[..k] == [s[0]] + s[1..][..k - 1];
      k
    else 0
  }

  /** Reads an optional `-` and a non-empty run of digits; returns the number and the rest. */
  function ReadInt(s: string): (r: Option<(int, string)>)
    ensures r.Some? ==> |r.value.1| < |s|
  {
    if |s| > 0 && s[0] == '-' then
      var k := DigitRun(s[1..]);
      var v: int := 0 - DigitsValue(s[1..][..k]) as int;
      if k == 0 then None else Some((v, s[1..][k..]))
    else
      var k := DigitRun(s);
      var v: int := DigitsValue(s[..k]);
      if k == 0 then None else Some((v, s[k..]))
  }

  lemma DigitRunOfDigits(d: string, rest: string)
    requires AllDigits(d)
    requires rest == [] || !IsDigit(rest[0])
    ensures DigitRun(d + rest) == |d|
    decreases |d|
  {
    if |d| > 0 {
      assert (d + rest)[1..] == d[1..] + rest;
      DigitRunOfDigits(d[1..], rest);
    }
  }

  /** Reading a printed integer gives it back, whatever non-digit follows it. */
  lemma ReadIntRoundTrip(i: int, rest: string)
    requires rest == [] || !IsDigit(rest[0])
    ensures ReadInt(IntToString(i) + rest) == Some((i, rest))
  {
    if i < 0 {
      var n: nat := -i;
      var d := Digits(n);
      assert IntToString(i) == "-" + d;
      assert ("-" + d) + rest == "-" + (d + rest);
      ReadNegative(n, rest);
    } else {
      assert IntToString(i) == Digits(i);
      ReadNonNegative(i, rest);
    }
  }

  lemma ReadNegative(n: nat, rest: string)
    requires rest == [] || !IsDigit(rest[0])
    ensures ReadInt("-" + (Digits(n) + rest)) == Some((-(n as int), rest))
  {
    var t := Digits(n) + rest;
    var s := "-" + t;
    assert s[0] == '-' && s[1..] == t;
    ReadDigitsAfter(n, rest);
  }

  lemma ReadNonNegative(n: nat, rest: string)
    requires rest == [] || !IsDigit(rest[0])
    ensures ReadInt(Digits(n) + rest) == Some((n, rest))
  {
    ReadDigitsAfter(n, rest);
  }

  /** The digit run of a printed natural, followed by a non-digit, is read back whole. */
  lemma ReadDigitsAfter(n: nat, rest: string)
    requires rest == [] || !IsDigit(rest[0])
    ensures var s := Digits(n) + rest;
            && DigitRun(s) == |Digits(n)|
            && DigitsValue(s[..DigitRun(s)]) == n
            && s[DigitRun(s)..] == rest
            && s[0] != '-'
  {
    var d := Digits(n);
    DigitRunOfDigits(d, rest);
    DigitsRoundTrip(n);
    assert (d + rest)[..|d|] == d;
    assert (d + rest)[|d|..] == rest;
    assert (d + rest)[0] == d[0];
  }
}
