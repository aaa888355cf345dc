/** The hexadecimal rendering of a digest in `generateSHA256Hash`: every byte
    is masked to its unsigned value, rendered with `Integer.toHexString`, and
    left-padded with '0' when that gives a single digit. The result is the
    lower-case base16 encoding of section 8 of RFC 4648.
 */
module HexEncoding {

  import opened Wrappers
  import opened JavaLang

  /** The two characters one loop iteration appends for byte `b`. */
  function ByteHex(b: JavaByte): (r: string)
    ensures r == [Digit(Mask(b) / 16), Digit(Mask(b) % 16)]
  {
    var hex := ToHexString(Mask(b));
    ToHexStringOfByte(Mask(b));
    if |hex| == 1 then ['0'] + hex else hex
  }

  /** The encoding of a whole byte sequence, bytes in order. */
  function Hex(bs: seq<JavaByte>): (r: string)
    ensures |r| == 2 * |bs|
  {
    if |bs| == 0 then [] else ByteHex(bs[0]) + Hex(bs[1..])
  }

  /** Every character of the encoding is a lower-case hex digit. */
  lemma HexAlphabet(bs: seq<JavaByte>)
    ensures IsLowerHex(Hex(bs))
  {
    forall j | 0 <= j < |Hex(bs)|
      ensures IsHexDigit(Hex(bs)[j])
    {
      HexAt(bs, j / 2);
    }
  }

  /** The encoding distributes over concatenation. */
  lemma {:induction false} HexAppend(a: seq<JavaByte>, b: seq<JavaByte>)
    ensures Hex(a + b) == Hex(a) + Hex(b)
    decreases |a|
  {
    if |a| == 0 {
      assert a + b == b;
    } else {
      assert (a + b)[1..] == a[1..] + b;
      HexAppend(a[1..], b);
    }
  }

  /** Characters `2i` and `2i + 1` are the high and low nibble of the
      unsigned value of byte `i`. */
  lemma {:induction false} HexAt(bs: seq<JavaByte>, i: nat)
    requires i < |bs|
    ensures Hex(bs)[2 * i] == Digit(Mask(bs[i]) / 16)
    ensures Hex(bs)[2 * i + 1] == Digit(Mask(bs[i]) % 16)
  {
    HexPair(bs, i);
  }

  /** Characters `2i` and `2i + 1` are the two characters `ByteHex` gives for byte `i`. */
  lemma HexPair(bs: seq<JavaByte>, i: nat)
    requires i < |bs|
    ensures Hex(bs)[2 * i] == ByteHex(bs[i])[0]
    ensures Hex(bs)[2 * i + 1] == ByteHex(bs[i])[1]
  {
    var front, back := bs[..i], bs[i..];
    assert bs == front + back;
    HexAppend(front, back);
    var pre, rest := Hex(front), Hex(back);
    assert |pre| == 2 * i;
    assert back[0] == bs[i];
    assert rest == ByteHex(back[0]) + Hex(back[1..]);
    assert Hex(bs)[2 * i] == rest[0];
    assert Hex(bs)[2 * i + 1] == rest[1];
  }

  /** The inverse of the `(0xff & b)` nibble split: reads two lower-case
      digits back into a byte. */
  function PairByte(hi: char, lo: char): (b: Option<JavaByte>)
    ensures b.Some? <==> IsHexDigit(hi) && IsHexDigit(lo)
    ensures b.Some? ==> ByteHex(b.value) == [hi, lo]
  {
    match (DigitValue(hi), DigitValue(lo))
    case (Some(h), Some(l)) =>
      MaskToByte(h * 16 + l);
      Some(ToByte(h * 16 + l))
    case _ => None
  }

  /** Decodes lower-case base16 text; None on odd length or a foreign character. */
  function Unhex(s: string): (r: Option<seq<JavaByte>>)
    ensures r.Some? ==> 2 * |r.value| == |s|
    decreases |s|
  {
    if |s| == 0 then Some([])
    else if |s| == 1 then None
    else match (PairByte(s[0], s[1]), Unhex(s[2..]))
      case (Some(b), Some(rest)) => Some([b] + rest)
      case _ => None
  }

  /** Decoding undoes encoding. */
  lemma {:induction false} UnhexHex(bs: seq<JavaByte>)
    ensures Unhex(Hex(bs)) == Some(bs)
    decreases |bs|
  {
    if |bs| > 0 {
      var s := Hex(bs);
      var b := bs[0];
      assert s[..2] == ByteHex(b);
      assert s[2..] == Hex(bs[1..]);
      DigitValueOfDigit(Mask(b) / 16);
      DigitValueOfDigit(Mask(b) % 16);
      ToByteMask(b);
      assert PairByte(s[0], s[1]) == Some(b);
      UnhexHex(bs[1..]);
      assert [b] + bs[1..] == bs;
    }
  }

  /** Encoding undoes decoding: whatever decodes is exactly the encoding of
      what it decodes to. */
  lemma {:induction false} HexUnhex(s: string)
    requires Unhex(s).Some?
    ensures Hex(Unhex(s).value) == s
    decreases |s|
  {
    if |s| > 0 {
      var b := PairByte(s[0], s[1]).value;
      HexUnhex(s[2..]);
      var bs := Unhex(s).value;
      assert bs[0] == b && bs[1..] == Unhex(s[2..]).value;
      assert s == [s[0], s[1]] + s[2..];
    }
  }

  /** Exactly the even-length lower-case hex strings decode. */
  lemma {:induction false} UnhexDefined(s: string)
    ensures Unhex(s).Some? <==> |s| % 2 == 0 && IsLowerHex(s)
    decreases |s|
  {
    if |s| >= 2 {
      UnhexDefined(s[2..]);
      LowerHexSplit(s);
      assert |s| % 2 == |s[2..]| % 2;
      assert Unhex(s).Some? <==> PairByte(s[0], s[1]).Some? && Unhex(s[2..]).Some?;
    }
  }

  /** A text is lower-case hex when its first two characters and the rest are. */
  lemma LowerHexSplit(s: string)
    requires |s| >= 2
    ensures IsLowerHex(s) <==> IsHexDigit(s[0]) && IsHexDigit(s[1]) && IsLowerHex(s[2..])
  {
    if IsHexDigit(s[0]) && IsHexDigit(s[1]) && IsLowerHex(s[2..]) {
      forall i | 2 <= i < |s|
        ensures IsHexDigit(s[i])
      {
        assert s[i] == s[2..][i - 2];
      }
    }
  }

  /** Equal encodings come from equal byte sequences. */
  lemma HexInjective(a: seq<JavaByte>, b: seq<JavaByte>)
    ensures Hex(a) == Hex(b) <==> a == b
  {
    if Hex(a) == Hex(b) {
      UnhexHex(a);
      UnhexHex(b);
    }
  }

  /** The `StringBuilder` loop of `generateSHA256Hash`. */
  method EncodeHex(bs: seq<JavaByte>) returns (hexString: string)
    ensures hexString == Hex(bs)
  {
    hexString := [];
    for i := 0 to |bs|
      invariant hexString == Hex(bs[..i])
    {
      ghost var before := hexString;
      var hex := ToHexString(Mask(bs[i]));
      if |hex| == 1 {
        hexString := hexString + ['0'];
      }
      hexString := hexString + hex;
      AppendByteHex(before, bs[i]);
      HexStep(bs, i);
    }
    assert bs[..|bs|] == bs;
  }

  /** What one iteration appends, padding included, is `ByteHex`. */
  lemma AppendByteHex(before: string, b: JavaByte)
    ensures var hex := ToHexString(Mask(b));
      (if |hex| == 1 then before + ['0'] + hex else before + hex) == before + ByteHex(b)
  {
    var hex := ToHexString(Mask(b));
    if |hex| == 1 {
      assert before + ['0'] + hex == before + (['0'] + hex);
    }
  }

  /** The encoding of a prefix one byte longer. */
  lemma HexStep(bs: seq<JavaByte>, i: nat)
    requires i < |bs|
    ensures Hex(bs[..i + 1]) == Hex(bs[..i]) + ByteHex(bs[i])
  {
    assert bs[..i + 1] == bs[..i] + [bs[i]];
    HexAppend(bs[..i], [bs[i]]);
    assert [bs[i]][1..] == [];
    assert Hex([bs[i]]) == ByteHex(bs[i]) + Hex([]);
  }
}
