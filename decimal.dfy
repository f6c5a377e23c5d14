/** Decimal rendering of non-negative integers, as `Number.prototype.toString()`
    produces it, and `String.prototype.padStart(2, "0")`, with the inverse reading
    used to state what the renderings mean. */
module Decimal {

  predicate IsDigit(c: char) { '0' <= c <= '9' }

  predicate IsDigits(s: string) { forall i :: 0 <= i < |s| ==> IsDigit(s[i]) }

  function DigitChar(d: nat): (c: char)
    requires d < 10
    ensures IsDigit(c)
  {
    ('0' as int + d) as char
  }

  function DigitValue(c: char): (d: nat)
    requires IsDigit(c)
    ensures d < 10
  {
    c as int - '0' as int
  }

  /** The number a string of decimal digits denotes (most significant first). */
  function Value(s: string): nat
    requires IsDigits(s)
  {
    if s == [] then 0 else 10 * Value(s[..|s| - 1]) + DigitValue(s[|s| - 1])
  }

  /** `n.toString()` for a non-negative integer: no sign, no leading zeros. */
  function NatToString(n: nat): (s: string)
    ensures IsDigits(s) && 1 <= |s|
    ensures |s| == 1 <==> n < 10
    ensures n < 100 ==> |s| <= 2
    ensures |s| > 1 ==> s[0] != '0'
  {
    if n < 10 then [DigitChar(n)] else NatToString(n / 10) + [DigitChar(n % 10)]
  }

  /** Reading back what NatToString wrote gives the number. */
  lemma {:induction false} NatToStringRoundTrip(n: nat)
    ensures Value(NatToString(n)) == n
  {
    var s := NatToString(n);
    if n >= 10 {
      NatToStringRoundTrip(n / 10);
      assert s[..|s| - 1] == NatToString(n / 10);
    }
  }

  /** `s.padStart(2, "0")`: strings shorter than two characters get leading zeros. */
  function PadStart2(s: string): (r: string)
    ensures |r| == if |s| < 2 then 2 else |s|
    ensures r[|r| - |s|..] == s
    ensures forall i :: 0 <= i < |r| - |s| ==> r[i] == '0'
  {
    if |s| >= 2 then s else if |s| == 1 then "0" + s else "00"
  }

  /** Leading zeros do not change the value of a digit string. */
  lemma {:induction false} LeadingZerosValue(z: nat, s: string)
    requires IsDigits(s)
    ensures IsDigits(Zeros(z) + s) && Value(Zeros(z) + s) == Value(s)
    decreases |s|
  {
    var t := Zeros(z) + s;
    if s == [] {
      ZerosValue(z);
      assert t == Zeros(z);
    } else {
      LeadingZerosValue(z, s[..|s| - 1]);
      assert t[..|t| - 1] == Zeros(z) + s[..|s| - 1];
    }
  }

  function Zeros(z: nat): (r: string)
    ensures |r| == z && IsDigits(r)
    ensures forall i :: 0 <= i < z ==> r[i] == '0'
  {
    if z == 0 then "" else "0" + Zeros(z - 1)
  }

  lemma {:induction false} ZerosValue(z: nat)
    ensures Value(Zeros(z)) == 0
  {
    if z > 0 {
      assert Zeros(z)[..z - 1] == Zeros(z - 1);
      ZerosValue(z - 1);
    }
  }

  /** A padded digit string still reads as the same number. */
  lemma PadStart2Value(s: string)
    requires IsDigits(s)
    ensures IsDigits(PadStart2(s)) && Value(PadStart2(s)) == Value(s)
  {
    var r := PadStart2(s);
    var z := |r| - |s|;
    assert r == Zeros(z) + s;
    LeadingZerosValue(z, s);
  }

  /** Two-digit zero-padded rendering of a number below 100, read back. */
  lemma TwoDigits(n: nat)
    requires n < 100
    ensures |PadStart2(NatToString(n))| == 2
    ensures IsDigits(PadStart2(NatToString(n)))
    ensures Value(PadStart2(NatToString(n))) == n
  {
    NatToStringRoundTrip(n);
    PadStart2Value(NatToString(n));
  }
}
