/** The small pieces of Java's standard library that the hashing lab leans on:
    the signed `byte` type, the `0xff & b` widening mask, and
    `Integer.toHexString` on a non-negative value.
 */
module JavaLang {

  import opened Wrappers

  /** A Java `byte`: a signed two's-complement 8-bit value. */
  type JavaByte = b: int | -128 <= b < 128

  /** The `(byte) v` narrowing cast of a value in 0..255. */
  function ToByte(v: nat): (b: JavaByte)
    requires v < 256
    ensures (b - v) % 256 == 0
  {
    if v < 128 then v else v - 256
  }

  /** `0xff & b`: the byte is sign-extended to an int and masked to its low
      eight bits, which yields its unsigned value. */
  function Mask(b: JavaByte): (u: nat)
    ensures u < 256
    ensures (u - b) % 256 == 0
  {
    if b < 0 then b + 256 else b
  }

  lemma MaskToByte(v: nat)
    requires v < 256
    ensures Mask(ToByte(v)) == v
  {
  }

  lemma ToByteMask(b: JavaByte)
    ensures ToByte(Mask(b)) == b
  {
  }

  /** The digit Java uses for a value below sixteen: `0`-`9`, then lower-case `a`-`f`. */
  function Digit(d: nat): (c: char)
    requires d < 16
    ensures IsHexDigit(c)
  {
    if d < 10 then ('0' as int + d) as char else ('a' as int + d - 10) as char
  }

  /** The lower-case base16 alphabet. */
  predicate IsHexDigit(c: char) {
    '0' <= c <= '9' || 'a' <= c <= 'f'
  }

  /** The value of a lower-case base16 digit; None for any other character. */
  function DigitValue(c: char): (d: Option<nat>)
    ensures d.Some? <==> IsHexDigit(c)
    ensures d.Some? ==> d.value < 16 && Digit(d.value) == c
  {
    if '0' <= c <= '9' then Some(c as int - '0' as int)
    else if 'a' <= c <= 'f' then Some(c as int - 'a' as int + 10)
    else None
  }

  lemma DigitValueOfDigit(d: nat)
    requires d < 16
    ensures DigitValue(Digit(d)) == Some(d)
  {
  }

  /** The digits agree, position by position, with the alphabet of section 8
      of RFC 4648, written in lower case. */
  lemma DigitAlphabet(d: nat)
    requires d < 16
    ensures Digit(d) == "0123456789abcdef"[d]
  {
  }

  predicate IsLowerHex(s: string) {
    forall i :: 0 <= i < |s| ==> IsHexDigit(s[i])
  }

  /** `Integer.toHexString(v)` for a non-negative `v`: the base16 numeral of
      `v` in lower case, without leading zeros ("0" for zero). */
  function ToHexString(v: nat): (r: string)
    ensures 1 <= |r|
    ensures |r| == 1 <==> v < 16
    ensures IsLowerHex(r)
    ensures r[0] == '0' ==> v == 0
    decreases v
  {
    if v < 16 then [Digit(v)] else ToHexString(v / 16) + [Digit(v % 16)]
  }

  /** The numeric value of a lower-case base16 numeral, most significant digit first. */
  function HexValue(s: string): (v: nat)
    requires IsLowerHex(s)
  {
    if |s| == 0 then 0
    else HexValue(s[..|s| - 1]) * 16 + DigitValue(s[|s| - 1]).value
  }

  /** `Integer.toHexString` is read back by `Integer.parseInt(_, 16)`. */
  lemma {:induction false} ToHexStringValue(v: nat)
    ensures HexValue(ToHexString(v)) == v
    decreases v
  {
    var r := ToHexString(v);
    if v < 16 {
      DigitValueOfDigit(v);
      assert r[..0] == [];
    } else {
      ToHexStringValue(v / 16);
      DigitValueOfDigit(v % 16);
      assert r[..|r| - 1] == ToHexString(v / 16);
    }
  }

  /** On an unsigned byte value `Integer.toHexString` yields one digit below
      0x10 and exactly the two nibbles otherwise. */
  lemma ToHexStringOfByte(v: nat)
    requires v < 256
    ensures v < 16 ==> ToHexString(v) == [Digit(v)]
    ensures 16 <= v ==> ToHexString(v) == [Digit(v / 16), Digit(v % 16)]
  {
  }
}
