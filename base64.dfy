/**
 * Padded base64 with the standard alphabet (section 4 of RFC 4648), as Go's
 * base64.StdEncoding provides it to the packer and the unpacker: Encode,
 * EncodedLen, DecodedLen and a Decode that fills a buffer of DecodedLen bytes.
 */
module Base64 {
  import opened Wrappers
  import opened Bytes

  /** A base64 digit value. */
  type sextet = x: int | 0 <= x < 64

  const Pad: byte := 61

  /** base64.StdEncoding.EncodedLen: four characters per started group of three bytes. */
  function EncodedLen(n: nat): nat
  {
    (n + 2) / 3 * 4
  }

  /** base64.StdEncoding.DecodedLen for padded input: three bytes per four characters. */
  function DecodedLen(n: nat): nat
  {
    n / 4 * 3
  }

  /** The character for a digit value: A-Z, a-z, 0-9, '+', '/'. */
  function Alphabet(i: sextet): (c: byte)
    ensures c != Newline && c != Pad
  {
    if i < 26 then 65 + i
    else if i < 52 then 97 + (i - 26)
    else if i < 62 then 48 + (i - 52)
    else if i == 62 then 43
    else 47
  }

  /** The digit value of a character, or None for a character outside the alphabet (including '='). */
  function Digit(c: byte): (d: Option<sextet>)
    ensures d.Some? ==> Alphabet(d.value) == c
  {
    if 65 <= c <= 90 then Some(c - 65)
    else if 97 <= c <= 122 then Some(c - 97 + 26)
    else if 48 <= c <= 57 then Some(c - 48 + 52)
    else if c == 43 then Some(62)
    else if c == 47 then Some(63)
    else None
  }

  lemma DigitOfAlphabet(i: sextet)
    ensures Digit(Alphabet(i)) == Some(i)
  {
  }

  /** Padded encoding of b, one group of three bytes at a time. */
  function Encode(b: Bytes): (e: Bytes)
    ensures |e| == EncodedLen(|b|)
    ensures Newline !in e
    decreases |b|
  {
    if |b| == 0 then []
    else if |b| == 1 then
      [Alphabet(b[0] / 4), Alphabet(b[0] % 4 * 16), Pad, Pad]
    else if |b| == 2 then
      [Alphabet(b[0] / 4), Alphabet(b[0] % 4 * 16 + b[1] / 16), Alphabet(b[1] % 16 * 4), Pad]
    else
      [Alphabet(b[0] / 4), Alphabet(b[0] % 4 * 16 + b[1] / 16),
       Alphabet(b[1] % 16 * 4 + b[2] / 64), Alphabet(b[2] % 64)] + Encode(b[3..])
  }

  /**
   * Decodes complete quanta from the front of s. A quantum of four digits
   * gives three bytes; a final "xx==" gives one byte and a final "xxx=" two.
   * Decoding stops at the first quantum that is malformed or incomplete.
   */
  function DecodeQuanta(s: Bytes): (r: Bytes)
    ensures |r| <= DecodedLen(|s|)
    decreases |s|
  {
    if |s| < 4 then []
    else
      var c0, c1, c2, c3 := Digit(s[0]), Digit(s[1]), Digit(s[2]), Digit(s[3]);
      if c0.None? || c1.None? then []
      else
        var b0 := c0.value * 4 + c1.value / 16;
        if c2.Some? && c3.Some? then
          [b0, c1.value % 16 * 16 + c2.value / 4, c2.value % 4 * 64 + c3.value] + DecodeQuanta(s[4..])
        else if |s| == 4 && s[2] == Pad && s[3] == Pad then
          [b0]
        else if |s| == 4 && c2.Some? && s[3] == Pad then
          [b0, c1.value % 16 * 16 + c2.value / 4]
        else []
  }

  /**
   * What the unpacker's buffer holds after base64.StdEncoding.Decode: a
   * zeroed buffer of DecodedLen(|s|) bytes whose front holds the decoded
   * bytes. The decode error is discarded by the caller.
   */
  function DecodeInto(s: Bytes): (buf: Bytes)
    ensures |buf| == DecodedLen(|s|)
    ensures buf[..|DecodeQuanta(s)|] == DecodeQuanta(s)
    ensures forall k :: |DecodeQuanta(s)| <= k < |buf| ==> buf[k] == Nul
  {
    var d := DecodeQuanta(s);
    d + Zeros(DecodedLen(|s|) - |d|)
  }

  /** The number of NUL bytes the unpacker's buffer adds after n encoded bytes. */
  function PaddingLen(n: nat): nat
  {
    (n + 2) / 3 * 3 - n
  }

  lemma DecodedLenOfEncodedLen(n: nat)
    ensures DecodedLen(EncodedLen(n)) == n + PaddingLen(n)
    ensures PaddingLen(n) < 3
  {
  }

  /** The digit arithmetic of one group inverts the encoder's. */
  lemma GroupArithmetic(b0: byte, b1: byte, b2: byte)
    ensures (b0 / 4) * 4 + (b0 % 4 * 16 + b1 / 16) / 16 == b0
    ensures (b0 % 4 * 16 + b1 / 16) % 16 * 16 + (b1 % 16 * 4 + b2 / 64) / 4 == b1
    ensures (b1 % 16 * 4 + b2 / 64) % 4 * 64 + b2 % 64 == b2
  {
  }

  /** A full quantum decodes to its three bytes and decoding continues after it. */
  lemma DecodeFullQuantum(b0: byte, b1: byte, b2: byte, rest: Bytes)
    ensures DecodeQuanta([Alphabet(b0 / 4), Alphabet(b0 % 4 * 16 + b1 / 16),
                          Alphabet(b1 % 16 * 4 + b2 / 64), Alphabet(b2 % 64)] + rest)
         == [b0, b1, b2] + DecodeQuanta(rest)
  {
    var q := [Alphabet(b0 / 4), Alphabet(b0 % 4 * 16 + b1 / 16),
              Alphabet(b1 % 16 * 4 + b2 / 64), Alphabet(b2 % 64)];
    DigitOfAlphabet(b0 / 4);
    DigitOfAlphabet(b0 % 4 * 16 + b1 / 16);
    DigitOfAlphabet(b1 % 16 * 4 + b2 / 64);
    DigitOfAlphabet(b2 % 64);
    GroupArithmetic(b0, b1, b2);
    assert (q + rest)[4..] == rest;
  }

  /** A final "xx==" quantum decodes to its one byte. */
  lemma DecodeOneByteQuantum(b0: byte)
    ensures DecodeQuanta([Alphabet(b0 / 4), Alphabet(b0 % 4 * 16), Pad, Pad]) == [b0]
  {
    DigitOfAlphabet(b0 / 4);
    DigitOfAlphabet(b0 % 4 * 16);
    GroupArithmetic(b0, 0, 0);
  }

  /** A final "xxx=" quantum decodes to its two bytes. */
  lemma DecodeTwoByteQuantum(b0: byte, b1: byte)
    ensures DecodeQuanta([Alphabet(b0 / 4), Alphabet(b0 % 4 * 16 + b1 / 16), Alphabet(b1 % 16 * 4), Pad])
         == [b0, b1]
  {
    DigitOfAlphabet(b0 / 4);
    DigitOfAlphabet(b0 % 4 * 16 + b1 / 16);
    DigitOfAlphabet(b1 % 16 * 4);
    GroupArithmetic(b0, b1, 0);
  }

  /** Two bytes encode to an "xxx=" quantum. */
  lemma EncodeTwoByteQuantum(b0: byte, b1: byte)
    ensures Encode([b0, b1]) == [Alphabet(b0 / 4), Alphabet(b0 % 4 * 16 + b1 / 16), Alphabet(b1 % 16 * 4), Pad]
  {
  }

  /** Decoding an encoding gives the original bytes back. */
  lemma {:induction false} DecodeEncode(b: Bytes)
    ensures DecodeQuanta(Encode(b)) == b
    decreases |b|
  {
    if |b| == 1 {
      EncodeOneByte(b);
    } else if |b| == 2 {
      EncodeTwoBytes(b);
    } else if |b| >= 3 {
      EncodeFullStep(b);
      DecodeEncode(b[3..]);
      assert b == [b[0], b[1], b[2]] + b[3..];
    }
  }

  /** One byte encodes to an "xx==" quantum, which decodes to it. */
  lemma EncodeOneByte(b: Bytes)
    requires |b| == 1
    ensures DecodeQuanta(Encode(b)) == b
  {
    assert Encode(b) == [Alphabet(b[0] / 4), Alphabet(b[0] % 4 * 16), Pad, Pad];
    DecodeOneByteQuantum(b[0]);
    assert b == [b[0]];
  }

  /** Two bytes encode to an "xxx=" quantum, which decodes to them. */
  lemma EncodeTwoBytes(b: Bytes)
    requires |b| == 2
    ensures DecodeQuanta(Encode(b)) == b
  {
    assert b == [b[0], b[1]];
    EncodeTwoByteQuantum(b[0], b[1]);
    DecodeTwoByteQuantum(b[0], b[1]);
  }

  /** Decoding the encoding of three or more bytes gives the first three, then decodes the rest. */
  lemma EncodeFullStep(b: Bytes)
    requires |b| >= 3
    ensures DecodeQuanta(Encode(b)) == [b[0], b[1], b[2]] + DecodeQuanta(Encode(b[3..]))
  {
    DecodeFullQuantum(b[0], b[1], b[2], Encode(b[3..]));
  }

  /**
   * The unpacker's view of an encoded part: the original bytes followed by
   * PaddingLen(|b|) NUL bytes.
   */
  lemma DecodeIntoEncode(b: Bytes)
    ensures DecodeInto(Encode(b)) == b + Zeros(PaddingLen(|b|))
  {
    DecodeEncode(b);
    DecodedLenOfEncodedLen(|b|);
    DecodeIntoOf(Encode(b), b, PaddingLen(|b|));
  }

  /** A buffer whose quanta decode to d and whose decoded length exceeds |d| by p holds d and p NUL bytes. */
  lemma DecodeIntoOf(s: Bytes, d: Bytes, p: nat)
    requires DecodeQuanta(s) == d && DecodedLen(|s|) == |d| + p
    ensures DecodeInto(s) == d + Zeros(p)
  {
  }

  /**
   * The encoding test vectors of section 10 of RFC 4648: "f", "fo", "foo"
   * and "foobar" encode to "Zg==", "Zm8=", "Zm9v" and "Zm9vYmFy".
   */
  lemma EncodeTestVectors()
    ensures Encode([102]) == [90, 103, 61, 61]
    ensures Encode([102, 111]) == [90, 109, 56, 61]
    ensures Encode([102, 111, 111]) == [90, 109, 57, 118]
    ensures Encode([102, 111, 111, 98, 97, 114]) == [90, 109, 57, 118, 89, 109, 70, 121]
  {
    EncodeShortVectors();
    var foobar: Bytes := [102, 111, 111, 98, 97, 114];
    assert foobar[3..] == [98, 97, 114];
    assert Encode([98, 97, 114]) == [89, 109, 70, 121];
  }

  /** The vectors of at most one quantum: "f", "fo", "foo". */
  lemma EncodeShortVectors()
    ensures Encode([102]) == [90, 103, 61, 61]
    ensures Encode([102, 111]) == [90, 109, 56, 61]
    ensures Encode([102, 111, 111]) == [90, 109, 57, 118]
  {
  }

  /** The same vectors decode back, the padded ones to one and two bytes. */
  lemma DecodeTestVectors()
    ensures DecodeQuanta([90, 103, 61, 61]) == [102]
    ensures DecodeQuanta([90, 109, 56, 61]) == [102, 111]
    ensures DecodeQuanta([90, 109, 57, 118, 89, 109, 70, 121]) == [102, 111, 111, 98, 97, 114]
  {
  }
}
