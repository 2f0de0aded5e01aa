/**
  Decimal rendering of integers as JavaScript's `Number.prototype.toString`
  gives it for integral values, `String.prototype.padStart(2, '0')`, and a
  digit parser used to state that the rendered fields read back as the
  numbers they came from.
 */
module Text {

  predicate IsDigit(c: char) {
    '0' <= c <= '9'
  }

  predicate AllDigits(s: string) {
    forall i :: 0 <= i < |s| ==> IsDigit(s[i])
  }

  function DigitChar(d: nat): (c: char)
    requires d < 10
    ensures IsDigit(c)
  {
    ('0' as int + d) as char
  }

  function DigitValue(c: char): (d: nat)
    requires IsDigit(c)
    ensures d < 10 && DigitChar(d) == c
  {
    c as int - '0' as int
  }

  /** The decimal digits of `n`, most significant first, without leading zeros. */
  function NatToString(n: nat): (s: string)
    ensures 1 <= |s| && AllDigits(s)
    ensures |s| == 1 <==> n < 10
    ensures n < 100 ==> |s| <= 2
    ensures |s| > 1 ==> s[0] != '0'
  {
    if n < 10 then [DigitChar(n)] else NatToString(n / 10) + [DigitChar(n % 10)]
  }

  /** The value of a string of decimal digits; the empty string reads as 0. */
  function ParseNat(s: string): nat
    requires AllDigits(s)
  {
    if |s| == 0 then 0 else ParseNat(s[..|s| - 1]) * 10 + DigitValue(s[|s| - 1])
  }

  /** JavaScript's `String(n)` for an integral `n`: a minus sign, then the digits. */
  function IntToString(n: int): (s: string)
    ensures n >= 0 ==> AllDigits(s)
    ensures n < 0 ==> |s| >= 2 && s[0] == '-' && AllDigits(s[1..])
  {
    if n < 0 then "-" + NatToString(-n) else NatToString(n)
  }

  /** `s.padStart(2, '0')`: zeros in front until the string has two characters. */
  function Pad2(s: string): (r: string)
    ensures |r| == if |s| < 2 then 2 else |s|
    ensures r[|r| - |s|..] == s
    ensures forall i :: 0 <= i < |r| - |s| ==> r[i] == '0'
  {
    if |s| == 0 then "00" else if |s| == 1 then "0" + s else s
  }

  /** `n.toString().padStart(2, '0')`, the two-digit field used by the counter and the clocks. */
  function PadInt2(n: int): string {
    Pad2(IntToString(n))
  }

  lemma {:induction false} ParseNatToString(n: nat)
    ensures ParseNat(NatToString(n)) == n
  {
    if n >= 10 {
      var s := NatToString(n);
      assert s[..|s| - 1] == NatToString(n / 10);
      ParseNatToString(n / 10);
    }
  }

  lemma {:induction false} ParseLeadingZero(s: string)
    requires AllDigits(s)
    ensures AllDigits("0" + s) && ParseNat("0" + s) == ParseNat(s)
  {
    assert AllDigits("0" + s);
    if |s| > 0 {
      assert ("0" + s)[..|s|] == "0" + s[..|s| - 1];
      ParseLeadingZero(s[..|s| - 1]);
    }
  }

  /** Padding never changes the value a field reads back as. */
  lemma PadInt2ReadsBack(n: nat)
    ensures AllDigits(PadInt2(n)) && ParseNat(PadInt2(n)) == n
    ensures n < 100 ==> |PadInt2(n)| == 2
  {
    var s := NatToString(n);
    ParseNatToString(n);
    if |s| == 1 {
      ParseLeadingZero(s);
    }
  }

  // ---- UTF-16 ----

  /** A UTF-16 code unit: JavaScript strings are sequences of these. */
  type CodeUnit = u: int | 0 <= u < 0x1_0000

  /** Every character lies in the Basic Multilingual Plane, so it is one code unit. */
  predicate Bmp(s: string) {
    forall k :: 0 <= k < |s| ==> s[k] as int < 0x1_0000
  }

  /** One character's code units: itself, or a high and a low surrogate beyond U+FFFF. */
  function CharUnits(ch: char): (us: seq<CodeUnit>)
    ensures |us| == (if ch as int < 0x1_0000 then 1 else 2)
    ensures |us| == 2 ==> 0xD800 <= us[0] < 0xDC00 <= us[1] < 0xE000
  {
    var c := ch as int;
    if c < 0x1_0000 then [c] else [0xD800 + (c - 0x1_0000) / 0x400, 0xDC00 + (c - 0x1_0000) % 0x400]
  }

  /** The code units of `s`, character by character. */
  function Utf16(s: string): (us: seq<CodeUnit>)
    ensures |us| >= |s|
    ensures |s| > 0 ==> |us| > 0
    decreases |s|
  {
    if |s| == 0 then [] else CharUnits(s[0]) + Utf16(s[1..])
  }

  lemma {:induction false} Utf16Append(a: string, b: string)
    ensures Utf16(a + b) == Utf16(a) + Utf16(b)
    decreases |a|
  {
    if |a| > 0 {
      assert (a + b)[0] == a[0];
      assert (a + b)[1..] == a[1..] + b;
      Utf16Append(a[1..], b);
    } else {
      assert a + b == b;
    }
  }

  /** On the Basic Multilingual Plane, code units and characters coincide one for one. */
  lemma {:induction false} Utf16OfBmp(s: string)
    requires Bmp(s)
    ensures |Utf16(s)| == |s|
    ensures forall k :: 0 <= k < |s| ==> Utf16(s)[k] == s[k] as int
    decreases |s|
  {
    if |s| > 0 {
      assert Bmp(s[1..]) by {
        forall k | 0 <= k < |s[1..]|
          ensures s[1..][k] as int < 0x1_0000
        {
          assert s[1..][k] == s[k + 1];
        }
      }
      Utf16OfBmp(s[1..]);
    }
  }
}
