/** Colours of new labels: a Java `int` colour resource rendered as the
    string `String.format("#%06X", 0xFFFFFF & colorId)` produces. */
module LabelColor {

  /** Java's 32-bit `int`, in which the colour resources are stored
      (opaque colours such as 0xFF7272A7 are negative there). */
  newtype Int32 = x: int | -0x8000_0000 <= x < 0x8000_0000

  /** The digits `%X` writes: 0-9 and upper-case A-F. */
  predicate IsUpperHexDigit(c: char) {
    '0' <= c <= '9' || 'A' <= c <= 'F'
  }

  /** A colour string as the dialog stores it: `#` and six upper-case hex digits. */
  predicate IsColorString(s: string) {
    |s| == 7 && s[0] == '#' && forall i :: 1 <= i < 7 ==> IsUpperHexDigit(s[i])
  }

  /** `0xFFFFFF & colorId`. On the two's-complement form of an `int` this mask
      keeps the residue modulo 2^24, which Dafny's Euclidean `%` gives for
      negative operands as well. */
  function Low24(colorId: Int32): (v: nat)
    ensures v < 0x100_0000
    ensures (colorId as int - v) % 0x100_0000 == 0
    ensures 0 <= colorId < 0x100_0000 ==> v == colorId as int
  {
    (colorId as int) % 0x100_0000
  }

  function HexValue(c: char): (d: nat)
    requires IsUpperHexDigit(c)
    ensures d < 16
  {
    if c <= '9' then c as int - '0' as int else c as int - 'A' as int + 10
  }

  function HexChar(d: nat): (c: char)
    requires d < 16
    ensures IsUpperHexDigit(c) && HexValue(c) == d
  {
    if d < 10 then ('0' as int + d) as char else ('A' as int + d - 10) as char
  }

  function Pow16(n: nat): (p: nat)
    ensures p > 0
  {
    if n == 0 then 1 else 16 * Pow16(n - 1)
  }

  /** The lowest `n` hex digits of `v`, most significant first, zero padded
      (the `%0nX` conversion). */
  function HexDigits(v: nat, n: nat): (s: string)
    ensures |s| == n
    ensures forall i :: 0 <= i < n ==> IsUpperHexDigit(s[i])
  {
    if n == 0 then [] else HexDigits(v / 16, n - 1) + [HexChar(v % 16)]
  }

  /** Reads a string of upper-case hex digits back as a number. */
  function ParseHex(s: string): (v: nat)
    requires forall i :: 0 <= i < |s| ==> IsUpperHexDigit(s[i])
    ensures v < Pow16(|s|)
  {
    if s == [] then 0 else ParseHex(s[..|s| - 1]) * 16 + HexValue(s[|s| - 1])
  }

  /** Any value that fits in `n` hex digits is written without loss. */
  lemma {:induction false} ParseHexDigits(v: nat, n: nat)
    requires v < Pow16(n)
    ensures ParseHex(HexDigits(v, n)) == v
  {
    if n > 0 {
      var s := HexDigits(v, n);
      assert s[..n - 1] == HexDigits(v / 16, n - 1);
      assert v / 16 < Pow16(n - 1);
      ParseHexDigits(v / 16, n - 1);
    }
  }

  /** The colour string stored for colour resource `colorId`. */
  function FormatColor(colorId: Int32): (s: string)
    ensures IsColorString(s)
    ensures ParseHex(s[1..]) == Low24(colorId)
  {
    ParseHexDigits(Low24(colorId), 6);
    assert HexDigits(Low24(colorId), 6) == ("#" + HexDigits(Low24(colorId), 6))[1..];
    "#" + HexDigits(Low24(colorId), 6)
  }

  /** The string depends on the low 24 bits of the colour and on nothing else:
      two colours give the same string exactly when they agree there. */
  lemma FormatColorInjective(a: Int32, b: Int32)
    ensures FormatColor(a) == FormatColor(b) <==> Low24(a) == Low24(b)
  {
    if FormatColor(a) == FormatColor(b) {
      assert FormatColor(a)[1..] == FormatColor(b)[1..];
    }
  }

  /** The alpha byte of an opaque Android colour is dropped. */
  lemma FormatOpaqueColor()
    ensures FormatColor(-0x8D8D59) == "#7272A7"
  {
    assert Low24(-0x8D8D59) == 0x7272A7;
    assert HexDigits(0x7, 1) == "7";
    assert HexDigits(0x72, 2) == "72";
    assert HexDigits(0x727, 3) == "727";
    assert HexDigits(0x7272, 4) == "7272";
    assert HexDigits(0x7272A, 5) == "7272A";
    assert HexDigits(0x7272A7, 6) == "7272A7";
  }
}
