/**
 Decimal rendering of whole numbers, as Python's `str(int)` and the `%d` / `%m` / `%Y`
 directives of `strftime` produce it, together with the parser that reads the
 rendering back.
 */
module Decimal {
  import opened Wrappers

  predicate IsDigit(c: char) {
    '0' <= c <= '9'
  }

  predicate AllDigits(s: string) {
    forall i :: 0 <= i < |s| ==> IsDigit(s[i])
  }

  function DigitChar(d: nat): (c: char)
    requires d < 10
    ensures IsDigit(c)
  {
    (d + '0' as int) as char
  }

  function DigitValue(c: char): (d: nat)
    requires IsDigit(c)
    ensures d < 10 && DigitChar(d) == c
  {
    c as int - '0' as int
  }

  /** The shortest decimal rendering of `n` (no leading zero, no sign). */
  function NatToString(n: nat): (s: string)
    ensures 0 < |s| && AllDigits(s)
    ensures |s| > 1 ==> s[0] != '0'
    ensures n < 10 <==> |s| == 1
    decreases n
  {
    if n < 10 then [DigitChar(n)] else NatToString(n / 10) + [DigitChar(n % 10)]
  }

  /** The number a string of digits denotes; leading zeros do not count. */
  function ValueOf(s: string): nat
    requires AllDigits(s)
  {
    if |s| == 0 then 0 else ValueOf(s[..|s| - 1]) * 10 + DigitValue(s[|s| - 1])
  }

  function ParseNat(s: string): (r: Option<nat>)
    ensures r.Some? <==> 0 < |s| && AllDigits(s)
  {
    if 0 < |s| && AllDigits(s) then Some(ValueOf(s)) else None
  }

  /** Python's `str` of an `int`: a minus sign in front of the magnitude when negative. */
  function IntToString(i: int): (s: string)
    ensures 0 < |s|
    ensures i < 0 <==> s[0] == '-'
    ensures forall k :: 0 < k < |s| ==> IsDigit(s[k])
  {
    if i < 0 then "-" + NatToString(-i) else NatToString(i)
  }

  function ParseInt(s: string): (r: Option<int>)
  {
    if 0 < |s| && s[0] == '-' then
      match ParseNat(s[1..])
      case Some(n) => Some(-(n as int))
      case None => None
    else
      match ParseNat(s)
      case Some(n) => Some(n as int)
      case None => None
  }

  function Zeros(k: nat): (z: string)
    ensures |z| == k && AllDigits(z)
    ensures forall i :: 0 <= i < k ==> z[i] == '0'
  {
    seq(k, _ => '0')
  }

  /** `n` rendered with leading zeros up to `width` digits, as `strftime("%d")` renders a day. */
  function PadLeft(n: nat, width: nat): (s: string)
    ensures AllDigits(s)
    ensures |s| == if |NatToString(n)| < width then width else |NatToString(n)|
  {
    var digits := NatToString(n);
    if |digits| < width then Zeros(width - |digits|) + digits else digits
  }

  lemma {:induction false} ValueOfNatToString(n: nat)
    ensures ValueOf(NatToString(n)) == n
    decreases n
  {
    if n >= 10 {
      var s := NatToString(n);
      assert s[..|s| - 1] == NatToString(n / 10);
      ValueOfNatToString(n / 10);
    }
  }

  lemma {:induction false} ValueOfZeros(k: nat)
    ensures ValueOf(Zeros(k)) == 0
  {
    if k > 0 {
      assert Zeros(k)[..k - 1] == Zeros(k - 1);
      ValueOfZeros(k - 1);
    }
  }

  /** Leading zeros do not change the value a digit string denotes. */
  lemma {:induction false} ValueOfLeadingZeros(k: nat, s: string)
    requires AllDigits(s)
    ensures AllDigits(Zeros(k) + s)
    ensures ValueOf(Zeros(k) + s) == ValueOf(s)
    decreases |s|
  {
    var t := Zeros(k) + s;
    assert AllDigits(t) by {
      forall i | 0 <= i < |t| ensures IsDigit(t[i]) {
        if i < k { assert t[i] == Zeros(k)[i]; } else { assert t[i] == s[i - k]; }
      }
    }
    if |s| == 0 {
      assert t == Zeros(k);
      ValueOfZeros(k);
    } else {
      assert t[..|t| - 1] == Zeros(k) + s[..|s| - 1];
      ValueOfLeadingZeros(k, s[..|s| - 1]);
    }
  }

  /** Reading back a rendered number gives the number. */
  lemma NatRoundTrip(n: nat)
    ensures ParseNat(NatToString(n)) == Some(n)
  {
    ValueOfNatToString(n);
  }

  /** Reading back a zero-padded number gives the number, whatever the width. */
  lemma PadRoundTrip(n: nat, width: nat)
    ensures ParseNat(PadLeft(n, width)) == Some(n)
  {
    var digits := NatToString(n);
    ValueOfNatToString(n);
    if |digits| < width {
      ValueOfLeadingZeros(width - |digits|, digits);
    }
  }

  /** A padded number fits its width exactly when the number has at most `width` digits. */
  lemma PadWidth(n: nat, width: nat)
    requires 0 < width
    requires n < Pow10(width)
    ensures |PadLeft(n, width)| == width
  {
    NatToStringLength(n, width);
  }

  function Pow10(k: nat): (p: nat)
    ensures 0 < p
  {
    if k == 0 then 1 else 10 * Pow10(k - 1)
  }

  lemma {:induction false} NatToStringLength(n: nat, width: nat)
    requires 0 < width
    requires n < Pow10(width)
    ensures |NatToString(n)| <= width
    decreases n
  {
    if n >= 10 {
      assert width > 1 by { assert Pow10(1) == 10; }
      assert n / 10 < Pow10(width - 1);
      NatToStringLength(n / 10, width - 1);
    }
  }

  /** Reading back Python's rendering of an integer gives the integer. */
  lemma IntRoundTrip(i: int)
    ensures ParseInt(IntToString(i)) == Some(i)
  {
    if i < 0 {
      var s := IntToString(i);
      assert s[1..] == NatToString(-i);
      NatRoundTrip(-i);
    } else {
      NatRoundTrip(i);
    }
  }
}
