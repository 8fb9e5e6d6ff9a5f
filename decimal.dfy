/**
 * Decimal text of numbers, as the firmware writes them into the CSV log and the
 * JSON reply: `String(unsigned long)` for timestamps and `String(float, 4)` for
 * weights.  Weights are modelled as whole ten-thousandths of a kilogram, so the
 * four-decimal rendering is exact.  Each renderer has a parser beside it and a
 * round-trip lemma, which shows that the rendering loses nothing.
 */
module Decimal {
  import opened Optional

  predicate IsDigit(c: char) {
    '0' <= c <= '9'
  }

  predicate AllDigits(s: string) {
    forall i :: 0 <= i < |s| ==> IsDigit(s[i])
  }

  /** The characters a rendered number can contain: digits, a sign and a decimal point. */
  predicate NumberChars(s: string) {
    forall i :: 0 <= i < |s| ==> IsDigit(s[i]) || s[i] == '-' || s[i] == '.'
  }

  function DigitChar(d: nat): (c: char)
    requires d < 10
    ensures IsDigit(c) && c as int - '0' as int == d
  {
    ('0' as int + d) as char
  }

  function DigitValue(c: char): (d: nat)
    requires IsDigit(c)
    ensures d < 10 && DigitChar(d) == c
  {
    c as int - '0' as int
  }

  /** Decimal text of `n` with no leading zeros, as `String(unsigned long)` gives it. */
  function NatToString(n: nat): (s: string)
    ensures |s| >= 1 && AllDigits(s)
    ensures |s| > 1 ==> s[0] != '0'
    ensures n < 10 <==> |s| == 1
  {
    if n < 10 then [DigitChar(n)] else NatToString(n / 10) + [DigitChar(n % 10)]
  }

  /** The number a string of digits denotes (the empty string denotes 0). */
  function DigitsValue(s: string): nat
    requires AllDigits(s)
  {
    if s == [] then 0 else DigitsValue(s[..|s| - 1]) * 10 + DigitValue(s[|s| - 1])
  }

  /** Reads a natural number back from non-empty decimal text. */
  function ParseNat(s: string): Option<nat> {
    if |s| == 0 || !AllDigits(s) then None else Some(DigitsValue(s))
  }

  lemma {:induction false} NatToStringRoundTrip(n: nat)
    ensures ParseNat(NatToString(n)) == Some(n)
  {
    var s := NatToString(n);
    if n >= 10 {
      NatToStringRoundTrip(n / 10);
      assert s[..|s| - 1] == NatToString(n / 10);
      assert DigitsValue(s) == (n / 10) * 10 + n % 10;
    }
  }

  function Pow10(k: nat): (p: nat)
    ensures p >= 1
  {
    if k == 0 then 1 else 10 * Pow10(k - 1)
  }

  /** The last `width` decimal digits of `n`, with leading zeros. */
  function Pad(n: nat, width: nat): (s: string)
    ensures |s| == width && AllDigits(s)
  {
    if width == 0 then [] else Pad(n / 10, width - 1) + [DigitChar(n % 10)]
  }

  lemma {:induction false} PadValue(n: nat, width: nat)
    requires n < Pow10(width)
    ensures DigitsValue(Pad(n, width)) == n
  {
    if width > 0 {
      PadValue(n / 10, width - 1);
      var s := Pad(n, width);
      assert s[..|s| - 1] == Pad(n / 10, width - 1);
    }
  }

  /** Exactly four digits, with leading zeros: the fractional part of a weight. */
  function Pad4(n: nat): (s: string)
    requires n < 10000
    ensures |s| == 4 && AllDigits(s) && DigitsValue(s) == n
  {
    assert Pow10(4) == 10000;
    PadValue(n, 4);
    Pad(n, 4)
  }

  /** Magnitude of a weight in ten-thousandths. */
  function Abs(w: int): nat {
    if w < 0 then -w else w
  }

  /**
   * A weight of `w` ten-thousandths of a kilogram written with four decimal
   * places: an optional minus sign, the integer part, a point, four digits.
   */
  function Fmt4(w: int): (s: string)
    ensures NumberChars(s)
    ensures |s| >= 6 && s[|s| - 5] == '.'
  {
    var m := Abs(w);
    var s := (if w < 0 then "-" else "") + NatToString(m / 10000) + "." + Pad4(m % 10000);
    assert forall i :: 0 <= i < |NatToString(m / 10000)| ==> IsDigit(NatToString(m / 10000)[i]);
    s
  }

  /** Reads a four-decimal weight back into ten-thousandths. */
  function ParseFixed4(s: string): Option<int> {
    var neg := |s| > 0 && s[0] == '-';
    var b := if neg then s[1..] else s;
    if |b| < 6 || b[|b| - 5] != '.' then None
    else
      var ip := b[..|b| - 5];
      var fp := b[|b| - 4..];
      if !AllDigits(ip) || !AllDigits(fp) then None
      else
        var m := DigitsValue(ip) * 10000 + DigitsValue(fp);
        Some(if neg then -m else m)
  }

  lemma Fmt4RoundTrip(w: int)
    ensures ParseFixed4(Fmt4(w)) == Some(w)
  {
    var m := Abs(w);
    var ip := NatToString(m / 10000);
    var fp := Pad4(m % 10000);
    var b := ip + "." + fp;
    NatToStringRoundTrip(m / 10000);
    assert b[..|b| - 5] == ip;
    assert b[|b| - 4..] == fp;
    if w < 0 {
      var s := "-" + b;
      assert s == Fmt4(w);
      assert s[1..] == b;
    } else {
      assert b == Fmt4(w);
      assert IsDigit(b[0]);
    }
  }
}
