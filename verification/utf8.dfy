/**
 * UTF-8 as `String::from_utf8` accepts it: the well-formed byte sequences of
 * section 4 of RFC 3629 (no overlong forms, no surrogates, nothing above
 * U+10FFFF). A Dafny `char` is a Unicode scalar value, so a decoded name is
 * a plain `string`.
 */
module Utf8 {
  import opened Wrappers
  import opened Bytes

  predicate IsTail(b: byte) {
    0x80 <= b <= 0xBF
  }

  /** Second byte of a three-byte form: E0 needs A0..BF, ED needs 80..9F. */
  predicate SecondOfThree(b0: byte, b1: byte) {
    if b0 == 0xE0 then 0xA0 <= b1 <= 0xBF
    else if b0 == 0xED then 0x80 <= b1 <= 0x9F
    else IsTail(b1)
  }

  /** Second byte of a four-byte form: F0 needs 90..BF, F4 needs 80..8F. */
  predicate SecondOfFour(b0: byte, b1: byte) {
    if b0 == 0xF0 then 0x90 <= b1 <= 0xBF
    else if b0 == 0xF4 then 0x80 <= b1 <= 0x8F
    else IsTail(b1)
  }

  /** The character encoded at the start of bs and the number of bytes it
      takes, or None if bs does not start with a well-formed character. */
  function DecodeFirst(bs: seq<byte>): (r: Option<(char, nat)>)
    requires |bs| > 0
    ensures r.Some? ==> 1 <= r.value.1 <= |bs| && r.value.1 <= 4
  {
    var b0 := bs[0];
    if b0 <= 0x7F then Some((b0 as char, 1))
    else if 0xC2 <= b0 <= 0xDF then
      if 2 <= |bs| && IsTail(bs[1]) then
        Some((((b0 as int - 0xC0) * 0x40 + (bs[1] as int - 0x80)) as char, 2))
      else None
    else if 0xE0 <= b0 <= 0xEF then
      if 3 <= |bs| && SecondOfThree(b0, bs[1]) && IsTail(bs[2]) then
        Some((((b0 as int - 0xE0) * 0x1000 + (bs[1] as int - 0x80) * 0x40
               + (bs[2] as int - 0x80)) as char, 3))
      else None
    else if 0xF0 <= b0 <= 0xF4 then
      if 4 <= |bs| && SecondOfFour(b0, bs[1]) && IsTail(bs[2]) && IsTail(bs[3]) then
        Some((((b0 as int - 0xF0) * 0x4_0000 + (bs[1] as int - 0x80) * 0x1000
               + (bs[2] as int - 0x80) * 0x40 + (bs[3] as int - 0x80)) as char, 4))
      else None
    else None
  }

  /** The shortest UTF-8 form of one character. */
  function EncodeChar(c: char): (r: seq<byte>)
    ensures 1 <= |r| <= 4
  {
    var v := c as int;
    if v < 0x80 then [v as byte]
    else if v < 0x800 then
      [(0xC0 + v / 0x40) as byte, (0x80 + v % 0x40) as byte]
    else if v < 0x1_0000 then
      [(0xE0 + v / 0x1000) as byte, (0x80 + (v / 0x40) % 0x40) as byte, (0x80 + v % 0x40) as byte]
    else
      [(0xF0 + v / 0x4_0000) as byte, (0x80 + (v / 0x1000) % 0x40) as byte,
       (0x80 + (v / 0x40) % 0x40) as byte, (0x80 + v % 0x40) as byte]
  }

  function Encode(s: string): (r: seq<byte>)
    ensures |s| <= |r|
  {
    if |s| == 0 then [] else EncodeChar(s[0]) + Encode(s[1..])
  }

  /** `String::from_utf8`: the string the bytes encode, or None if they are
      not well-formed. */
  function Decode(bs: seq<byte>): (r: Option<string>)
    ensures r.Some? ==> |r.value| <= |bs|
    decreases |bs|, 1
  {
    if |bs| == 0 then Some("") else DecodeNonEmpty(bs)
  }

  /** A non-empty sequence decodes as its first character followed by the
      decoding of the bytes after it. */
  function DecodeNonEmpty(bs: seq<byte>): (r: Option<string>)
    requires |bs| > 0
    ensures r.Some? ==> |r.value| <= |bs|
    decreases |bs|, 0
  {
    match DecodeFirst(bs)
    case None => None
    case Some((c, k)) =>
      match Decode(bs[k..])
      case None => None
      case Some(rest) => Some([c] + rest)
  }

  /** Whatever `Decode` returns re-encodes to its input. */
  lemma {:induction false} EncodeDecode(bs: seq<byte>)
    requires Decode(bs).Some?
    ensures Encode(Decode(bs).value) == bs
    decreases |bs|
  {
    if |bs| > 0 {
      var (c, k) := DecodeFirst(bs).value;
      var rest := Decode(bs[k..]).value;
      EncodeDecode(bs[k..]);
      DecodeFirstEncodes(bs);
      assert ([c] + rest)[1..] == rest;
      assert bs == bs[..k] + bs[k..];
    }
  }

  /** The bytes a character was decoded from are its encoding. */
  lemma DecodeFirstEncodes(bs: seq<byte>)
    requires |bs| > 0 && DecodeFirst(bs).Some?
    ensures EncodeChar(DecodeFirst(bs).value.0) == bs[..DecodeFirst(bs).value.1]
  {
    if 0xC2 <= bs[0] <= 0xDF {
      TwoBytesEncode(bs);
    } else if 0xE0 <= bs[0] <= 0xEF {
      ThreeBytesEncode(bs);
    } else if 0xF0 <= bs[0] <= 0xF4 {
      FourBytesEncode(bs);
    }
  }

  lemma TwoBytesEncode(bs: seq<byte>)
    requires |bs| > 0 && DecodeFirst(bs).Some? && 0xC2 <= bs[0] <= 0xDF
    ensures EncodeChar(DecodeFirst(bs).value.0) == bs[..2]
  {
    var b0 := bs[0] as int;
    var t1 := bs[1] as int - 0x80;
    var v := (b0 - 0xC0) * 0x40 + t1;
    DivMod64(v, b0 - 0xC0, t1);
  }

  lemma ThreeBytesEncode(bs: seq<byte>)
    requires |bs| > 0 && DecodeFirst(bs).Some? && 0xE0 <= bs[0] <= 0xEF
    ensures EncodeChar(DecodeFirst(bs).value.0) == bs[..3]
  {
    var b0 := bs[0] as int;
    var t1, t2 := bs[1] as int - 0x80, bs[2] as int - 0x80;
    var hi := (b0 - 0xE0) * 0x40 + t1;
    var v := hi * 0x40 + t2;
    DivMod64(v, hi, t2);
    DivMod64(hi, b0 - 0xE0, t1);
    assert v / 0x1000 == b0 - 0xE0;
  }

  lemma FourBytesEncode(bs: seq<byte>)
    requires |bs| > 0 && DecodeFirst(bs).Some? && 0xF0 <= bs[0] <= 0xF4
    ensures EncodeChar(DecodeFirst(bs).value.0) == bs[..4]
  {
    var b0 := bs[0] as int;
    var t1, t2, t3 := bs[1] as int - 0x80, bs[2] as int - 0x80, bs[3] as int - 0x80;
    var hi2 := (b0 - 0xF0) * 0x40 + t1;
    var hi := hi2 * 0x40 + t2;
    var v := hi * 0x40 + t3;
    DivMod64(v, hi, t3);
    DivMod64(hi, hi2, t2);
    DivMod64(hi2, b0 - 0xF0, t1);
    assert v / 0x1000 == hi2;
    assert v / 0x4_0000 == b0 - 0xF0;
  }

  /** Euclidean division by 64 is unique. */
  lemma DivMod64(a: int, q: int, r: int)
    requires a == 0x40 * q + r && 0 <= r < 0x40
    ensures a / 0x40 == q && a % 0x40 == r
  {
  }

  /** Decoding the encoding of a character gives it back, whatever follows. */
  lemma EncodeCharDecodes(c: char, rest: seq<byte>)
    ensures DecodeFirst(EncodeChar(c) + rest) == Some((c, |EncodeChar(c)|))
  {
    var v := c as int;
    if v < 0x80 {
      assert (EncodeChar(c) + rest)[0] == v as byte;
    } else if v < 0x800 {
      TwoBytesDecode(c, rest);
    } else if v < 0x1_0000 {
      ThreeBytesDecode(c, rest);
    } else {
      FourBytesDecode(c, rest);
    }
  }

  lemma TwoBytesDecode(c: char, rest: seq<byte>)
    requires 0x80 <= c as int < 0x800
    ensures DecodeFirst(EncodeChar(c) + rest) == Some((c, 2))
  {
    var v := c as int;
    var bs := EncodeChar(c) + rest;
    assert bs[0] == (0xC0 + v / 0x40) as byte && bs[1] == (0x80 + v % 0x40) as byte;
    assert v == (v / 0x40) * 0x40 + v % 0x40;
  }

  lemma ThreeBytesDecode(c: char, rest: seq<byte>)
    requires 0x800 <= c as int < 0x1_0000
    ensures DecodeFirst(EncodeChar(c) + rest) == Some((c, 3))
  {
    var v := c as int;
    var bs := EncodeChar(c) + rest;
    assert bs[0] == (0xE0 + v / 0x1000) as byte;
    assert bs[1] == (0x80 + (v / 0x40) % 0x40) as byte && bs[2] == (0x80 + v % 0x40) as byte;
    var hi := v / 0x40;
    assert v == hi * 0x40 + v % 0x40;
    assert hi == (hi / 0x40) * 0x40 + hi % 0x40;
    assert hi / 0x40 == v / 0x1000;
  }

  lemma FourBytesDecode(c: char, rest: seq<byte>)
    requires 0x1_0000 <= c as int
    ensures DecodeFirst(EncodeChar(c) + rest) == Some((c, 4))
  {
    var v := c as int;
    var bs := EncodeChar(c) + rest;
    assert bs[0] == (0xF0 + v / 0x4_0000) as byte && bs[1] == (0x80 + (v / 0x1000) % 0x40) as byte;
    assert bs[2] == (0x80 + (v / 0x40) % 0x40) as byte && bs[3] == (0x80 + v % 0x40) as byte;
    var hi := v / 0x40;
    var hi2 := hi / 0x40;
    assert v == hi * 0x40 + v % 0x40;
    assert hi == hi2 * 0x40 + hi % 0x40;
    assert hi2 == (hi2 / 0x40) * 0x40 + hi2 % 0x40;
    assert hi2 == v / 0x1000;
    assert hi2 / 0x40 == v / 0x4_0000;
  }

  /** Well-formed decoding inverts encoding: every string survives the trip. */
  lemma {:induction false} DecodeEncode(s: string)
    ensures Decode(Encode(s)) == Some(s)
    decreases |s|
  {
    if |s| > 0 {
      var e := EncodeChar(s[0]);
      var tail := Encode(s[1..]);
      EncodeCharDecodes(s[0], tail);
      assert (e + tail)[|e|..] == tail;
      DecodeEncode(s[1..]);
      assert s == [s[0]] + s[1..];
    }
  }

  /** Distinct strings have distinct encodings. */
  lemma EncodeInjective(s: string, t: string)
    requires Encode(s) == Encode(t)
    ensures s == t
  {
    DecodeEncode(s);
    DecodeEncode(t);
  }

  /** The bytes of an encoded string decode to that string. */
  lemma DecodeOfEncoding(s: string, bs: seq<byte>)
    requires Encode(s) == bs
    ensures Decode(bs) == Some(s)
  {
    DecodeEncode(s);
  }
}
