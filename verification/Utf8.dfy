/** UTF-8 as Rust's `str::from_utf8` reads it: the longest valid prefix, and whether what follows is
    an unfinished character or an invalid one (section 4 of RFC 3629). Encoding is given character
    by character, decoding by the first bytes of a sequence; the lemmas say that the one undoes the
    other, and that decoding may stop anywhere and go on later. */
module Utf8 {
  newtype byte = n: int | 0 <= n < 256

  type Bytes = seq<byte>

  function EncodeChar(c: char): (r: Bytes)
    ensures 1 <= |r| <= 4
  {
    var n := c as int;
    if n < 0x80 then [n as byte] else EncodeWide(n)
  }

  function EncodeWide(n: int): (r: Bytes)
    requires 0x80 <= n < 0x110000
    ensures 2 <= |r| <= 4
  {
    var n6, n12, n18 := n / 64, n / 64 / 64, n / 64 / 64 / 64;
    var last := (0x80 + n % 64) as byte;
    if n < 0x800 then [(0xC0 + n6) as byte, last]
    else if n < 0x10000 then [(0xE0 + n12) as byte, (0x80 + n6 % 64) as byte, last]
    else [(0xF0 + n18) as byte, (0x80 + n12 % 64) as byte, (0x80 + n6 % 64) as byte, last]
  }

  function Encode(text: string): Bytes
  {
    if text == "" then [] else EncodeChar(text[0]) + Encode(text[1..])
  }

  // ---- the first character of a byte sequence ----

  datatype First = Char(scalar: char, width: nat) | Unfinished | Invalid

  predicate IsTail(b: byte)
  {
    0x80 <= b <= 0xBF
  }

  /** The second bytes that may follow a first byte of a three- or four-byte character. */
  predicate SecondFits(b0: byte, b1: byte)
  {
    && IsTail(b1)
    && (b0 == 0xE0 ==> 0xA0 <= b1)
    && (b0 == 0xED ==> b1 <= 0x9F)
    && (b0 == 0xF0 ==> 0x90 <= b1)
    && (b0 == 0xF4 ==> b1 <= 0x8F)
  }

  function Bits(b: byte): int
  {
    b as int - 0x80
  }

  function DecodeFirst(bs: Bytes): First
    requires bs != []
  {
    var b0 := bs[0];
    if b0 < 0x80 then Char(b0 as int as char, 1)
    else if 0xC2 <= b0 <= 0xDF then
      if |bs| < 2 then Unfinished
      else if !IsTail(bs[1]) then Invalid
      else Char(((b0 as int - 0xC0) * 64 + Bits(bs[1])) as char, 2)
    else if 0xE0 <= b0 <= 0xEF then
      if |bs| < 2 then Unfinished
      else if !SecondFits(b0, bs[1]) then Invalid
      else if |bs| < 3 then Unfinished
      else if !IsTail(bs[2]) then Invalid
      else Char(((b0 as int - 0xE0) * 4096 + Bits(bs[1]) * 64 + Bits(bs[2])) as char, 3)
    else if 0xF0 <= b0 <= 0xF4 then
      if |bs| < 2 then Unfinished
      else if !SecondFits(b0, bs[1]) then Invalid
      else if |bs| < 3 then Unfinished
      else if !IsTail(bs[2]) then Invalid
      else if |bs| < 4 then Unfinished
      else if !IsTail(bs[3]) then Invalid
      else Char(((b0 as int - 0xF0) * 262144 + Bits(bs[1]) * 4096 + Bits(bs[2]) * 64 + Bits(bs[3])) as char, 4)
    else Invalid
  }

  lemma SixBits(high: int, low: int)
    requires 0 <= low < 64
    ensures (high * 64 + low) / 64 == high && (high * 64 + low) % 64 == low
  {
  }

  /** What is read as a character is that character's encoding. */
  lemma DecodeFirstSound(bs: Bytes)
    requires bs != [] && DecodeFirst(bs).Char?
    ensures var f := DecodeFirst(bs); 1 <= f.width <= |bs| && EncodeChar(f.scalar) == bs[..f.width]
  {
    var f := DecodeFirst(bs);
    if f.width == 2 {
      SixBits(bs[0] as int - 0xC0, Bits(bs[1]));
    } else if f.width == 3 {
      var n6 := (bs[0] as int - 0xE0) * 64 + Bits(bs[1]);
      SixBits(n6, Bits(bs[2]));
      SixBits(bs[0] as int - 0xE0, Bits(bs[1]));
    } else if f.width == 4 {
      var n12 := (bs[0] as int - 0xF0) * 64 + Bits(bs[1]);
      var n6 := n12 * 64 + Bits(bs[2]);
      SixBits(n6, Bits(bs[3]));
      SixBits(n12, Bits(bs[2]));
      SixBits(bs[0] as int - 0xF0, Bits(bs[1]));
    }
  }

  /** A character's encoding is read back, whatever follows it. */
  lemma DecodeFirstEncoded(c: char, rest: Bytes)
    ensures EncodeChar(c) + rest != []
    ensures DecodeFirst(EncodeChar(c) + rest) == Char(c, |EncodeChar(c)|)
  {
    hide DecodeFirst, EncodeWide;
    var n := c as int;
    if n < 0x80 {
      OneByteRead(n, rest);
    } else if n < 0x800 {
      TwoBytesRead(n, rest);
    } else if n < 0x10000 {
      ThreeBytesRead(n, rest);
    } else {
      FourBytesRead(n, rest);
    }
  }

  lemma OneByteRead(n: int, rest: Bytes)
    requires 0 <= n < 0x80
    ensures DecodeFirst([n as byte] + rest) == Char(n as char, 1)
  {
  }

  lemma TwoBytesRead(n: int, rest: Bytes)
    requires 0x80 <= n < 0x800
    ensures |EncodeWide(n)| == 2 && DecodeFirst(EncodeWide(n) + rest) == Char(n as char, 2)
  {
  }

  lemma ThreeBytesRead(n: int, rest: Bytes)
    requires 0x800 <= n < 0x10000 && !(0xD800 <= n < 0xE000)
    ensures |EncodeWide(n)| == 3 && DecodeFirst(EncodeWide(n) + rest) == Char(n as char, 3)
  {
    var n6, n12 := n / 64, n / 64 / 64;
    assert n == n6 * 64 + n % 64 && n6 == n12 * 64 + n6 % 64;
  }

  lemma FourBytesRead(n: int, rest: Bytes)
    requires 0x10000 <= n < 0x110000
    ensures |EncodeWide(n)| == 4 && DecodeFirst(EncodeWide(n) + rest) == Char(n as char, 4)
  {
    var n6, n12 := n / 64, n / 64 / 64;
    assert n == n6 * 64 + n % 64 && n6 == n12 * 64 + n6 % 64 && n12 == n12 / 64 * 64 + n12 % 64;
  }

  /** Bytes that the start of one character's encoding leaves open. */
  ghost predicate UnfinishedChar(bs: Bytes)
  {
    exists c :: bs < EncodeChar(c)
  }

  lemma UnfinishedIs(bs: Bytes)
    requires bs != []
    ensures DecodeFirst(bs) == Unfinished <==> UnfinishedChar(bs)
  {
    if DecodeFirst(bs) == Unfinished {
      var fill: byte := if |bs| == 1 && (bs[0] == 0xE0 || bs[0] == 0xF0) then 0xA0 else 0x80;
      var fill2: byte := if |bs| == 1 && bs[0] == 0xF0 then 0x90 else fill;
      var full := bs + [fill2, 0x80, 0x80];
      DecodeFirstSound(full);
      assert DecodeFirst(full).Char?;
      assert bs < EncodeChar(DecodeFirst(full).scalar);
    }
    if UnfinishedChar(bs) {
      var c :| bs < EncodeChar(c);
      var rest := EncodeChar(c)[|bs|..];
      assert bs + rest == EncodeChar(c) + [];
      DecodeFirstEncoded(c, []);
      DecodeFirstExtends(bs, rest);
    }
  }

  /** More bytes settle nothing but an unfinished character. */
  lemma DecodeFirstExtends(bs: Bytes, more: Bytes)
    requires bs != []
    ensures DecodeFirst(bs) != Unfinished ==> DecodeFirst(bs + more) == DecodeFirst(bs)
  {
  }

  // ---- whole sequences ----

  /** The text of the longest valid prefix, the bytes after it, and whether they are invalid
      rather than unfinished. */
  datatype Decoded = Decoded(text: string, rest: Bytes, invalid: bool)

  function Decode(bs: Bytes): Decoded
  {
    if bs == [] then Decoded("", [], false)
    else
      match DecodeFirst(bs)
      case Unfinished => Decoded("", bs, false)
      case Invalid => Decoded("", bs, true)
      case Char(c, width) =>
        DecodeFirstSound(bs);
        var d := Decode(bs[width..]);
        Decoded([c] + d.text, d.rest, d.invalid)
  }

  /** Nothing is lost, and what is held back is the start of one character. */
  lemma {:induction false} DecodeExact(bs: Bytes)
    ensures var d := Decode(bs);
            && Encode(d.text) + d.rest == bs
            && (!d.invalid ==> UnfinishedChar(d.rest) && |d.rest| < 4)
            && (d.rest == [] ==> !d.invalid)
    decreases |bs|
  {
    hide DecodeFirst, EncodeChar, UnfinishedChar;
    if bs == [] {
      NothingUnfinished();
    } else if DecodeFirst(bs).Char? {
      var f := DecodeFirst(bs);
      DecodeFirstSound(bs);
      var rest := bs[f.width..];
      DecodeExact(rest);
      var d := Decode(rest);
      EncodeCons(f.scalar, d.text);
      Rejoined(bs, EncodeChar(f.scalar), Encode(d.text), d.rest);
    } else {
      assert [] + bs == bs;
      if DecodeFirst(bs) == Unfinished {
        UnfinishedIs(bs);
        UnfinishedShort(bs);
      }
    }
  }

  lemma Rejoined(bs: Bytes, first: Bytes, text: Bytes, rest: Bytes)
    requires |first| <= |bs| && bs[..|first|] == first && text + rest == bs[|first|..]
    ensures first + text + rest == bs
  {
    assert first + text + rest == first + (text + rest);
  }

  lemma NothingUnfinished()
    ensures UnfinishedChar([])
  {
    assert [] < EncodeChar('a');
  }

  lemma UnfinishedShort(bs: Bytes)
    requires UnfinishedChar(bs)
    ensures |bs| < 4
  {
  }

  lemma EncodeCons(c: char, text: string)
    ensures Encode([c] + text) == EncodeChar(c) + Encode(text)
  {
    assert ([c] + text)[1..] == text;
  }

  lemma DecodeCons(c: char, more: Bytes)
    ensures var d := Decode(more);
            Decode(EncodeChar(c) + more) == Decoded([c] + d.text, d.rest, d.invalid)
  {
    hide DecodeFirst, EncodeChar;
    DecodeFirstEncoded(c, more);
    assert (EncodeChar(c) + more)[|EncodeChar(c)|..] == more;
  }

  /** Encoded text decodes to itself, with what follows decoded after it. */
  lemma {:induction false} DecodeEncoded(text: string, more: Bytes)
    ensures var d := Decode(more); Decode(Encode(text) + more) == Decoded(text + d.text, d.rest, d.invalid)
  {
    hide Decode, EncodeChar;
    var d := Decode(more);
    if text == "" {
      assert [] + more == more && "" + d.text == d.text;
    } else {
      var bs := Encode(text[1..]) + more;
      assert EncodeChar(text[0]) + Encode(text[1..]) + more == EncodeChar(text[0]) + bs;
      DecodeEncoded(text[1..], more);
      DecodeCons(text[0], bs);
      assert text + d.text == [text[0]] + (text[1..] + d.text);
    }
  }

  /** Decoding may stop anywhere and go on later with the bytes held back. */
  lemma DecodeSplit(a: Bytes, b: Bytes)
    requires !Decode(a).invalid
    ensures var first := Decode(a); var second := Decode(first.rest + b);
            Decode(a + b) == Decoded(first.text + second.text, second.rest, second.invalid)
  {
    hide Decode, Encode;
    var first := Decode(a);
    DecodeExact(a);
    assert a + b == Encode(first.text) + (first.rest + b);
    DecodeEncoded(first.text, first.rest + b);
  }

  /** The bytes of a character hold its number: seven bits in one byte, or after a first byte that tells
      the width, six bits in each; the width is the least that is wide enough (section 3 of RFC 3629). */
  lemma EncodingIs(c: char)
    ensures var n, bs := c as int, EncodeChar(c);
            && (n < 128 ==> |bs| == 1 && bs[0] as int == n)
            && (128 <= n < 2048 ==>
                  && |bs| == 2 && 192 <= bs[0] < 224 && IsTail(bs[1])
                  && n == (bs[0] as int - 192) * 64 + (bs[1] as int - 128))
            && (2048 <= n < 65536 ==>
                  && |bs| == 3 && 224 <= bs[0] < 240 && IsTail(bs[1]) && IsTail(bs[2])
                  && n == ((bs[0] as int - 224) * 64 + (bs[1] as int - 128)) * 64 + (bs[2] as int - 128))
            && (65536 <= n ==>
                  && |bs| == 4 && 240 <= bs[0] < 248 && IsTail(bs[1]) && IsTail(bs[2]) && IsTail(bs[3])
                  && n == (((bs[0] as int - 240) * 64 + (bs[1] as int - 128)) * 64 + (bs[2] as int - 128)) * 64 + (bs[3] as int - 128))
  {
  }
}
