/**
 * Text as bytes: the strings that Python can encode are sequences of Unicode scalar values, and section 3 of
 * RFC 3629 gives their encoding.  Keeping a name as the bytes of its encoding loses nothing.
 */
module Utf8 {
  import opened Bytes
  import opened Wrappers

  predicate IsAscii(s: seq<byte>) {
    forall i :: 0 <= i < |s| ==> s[i] < 128
  }

  /** A code point that is no surrogate. */
  type Scalar = c: int | 0 <= c < 0xD800 || 0xE000 <= c < 0x110000

  /** The byte that carries six bits of a character behind its first byte. */
  function Behind(bits: int): byte
    requires 0 <= bits < 64
  {
    0x80 + bits
  }

  function EncodeChar(c: Scalar): (s: seq<byte>)
    ensures s != []
  {
    if c < 0x80 then [c]
    else if c < 0x800 then [0xC0 + c / 64, Behind(c % 64)]
    else if c < 0x1_0000 then [0xE0 + c / 64 / 64, Behind(c / 64 % 64), Behind(c % 64)]
    else [0xF0 + c / 64 / 64 / 64, Behind(c / 64 / 64 % 64), Behind(c / 64 % 64), Behind(c % 64)]
  }

  /** str.encode('utf-8') */
  function Encode(text: seq<Scalar>): seq<byte> {
    if text == [] then [] else EncodeChar(text[0]) + Encode(text[1..])
  }

  predicate IsBehind(b: byte) {
    0x80 <= b < 0xC0
  }

  /** Six more bits at the low end. */
  function Join(high: int, b: byte): (c: int)
    requires IsBehind(b)
    ensures c / 64 == high && Behind(c % 64) == b
  {
    high * 64 + (b as int - 0x80)
  }

  lemma JoinOfSplit(c: int)
    ensures Join(c / 64, Behind(c % 64)) == c
  {
  }

  /**
   * The first character: one of the well-formed byte sequences of section 4 of RFC 3629, which exclude overlong forms
   * and surrogates.
   */
  function DecodeChar(s: seq<byte>): (r: Option<Scalar>)
    requires s != []
  {
    var a: int := s[0];
    if a < 0x80 then Some(a)
    else if 0xC2 <= a < 0xE0 && |s| >= 2 && IsBehind(s[1]) then Some(Join(a - 0xC0, s[1]))
    else if |s| >= 3 && IsBehind(s[1]) && IsBehind(s[2])
            && ((a == 0xE0 && 0xA0 <= s[1]) || 0xE1 <= a < 0xED || (a == 0xED && s[1] < 0xA0) || 0xEE <= a < 0xF0)
    then Some(Join(Join(a - 0xE0, s[1]), s[2]))
    else if |s| >= 4 && IsBehind(s[1]) && IsBehind(s[2]) && IsBehind(s[3])
            && ((a == 0xF0 && 0x90 <= s[1]) || 0xF1 <= a < 0xF4 || (a == 0xF4 && s[1] < 0x90))
    then Some(Join(Join(Join(a - 0xF0, s[1]), s[2]), s[3]))
    else None
  }

  lemma FirstCharRead(s: seq<byte>)
    requires s != [] && DecodeChar(s).Some?
    ensures EncodeChar(DecodeChar(s).value) <= s
  {
    var c := DecodeChar(s).value;
    assert forall i :: 0 <= i < |EncodeChar(c)| ==> i < |s| && EncodeChar(c)[i] == s[i];
  }

  lemma FirstCharReturns(c: Scalar, rest: seq<byte>)
    ensures DecodeChar(EncodeChar(c) + rest) == Some(c)
  {
    hide Join;
    JoinOfSplit(c);
    JoinOfSplit(c / 64);
    JoinOfSplit(c / 64 / 64);
  }

  /** bytes.decode('utf-8'); None where it raises UnicodeDecodeError. */
  function Decode(s: seq<byte>): Option<seq<Scalar>>
    decreases |s|
  {
    if s == [] then Some([])
    else
      match DecodeChar(s)
      case None => None
      case Some(c) =>
        FirstCharRead(s);
        match Decode(s[|EncodeChar(c)|..])
        case None => None
        case Some(text) => Some([c] + text)
  }

  predicate IsUtf8(s: seq<byte>) {
    Decode(s).Some?
  }

  /** Every string is decoded back from its encoding. */
  lemma {:induction false} DecodeOfEncode(text: seq<Scalar>)
    ensures Decode(Encode(text)) == Some(text)
  {
    hide EncodeChar, DecodeChar;
    if text != [] {
      var rest := Encode(text[1..]);
      FirstCharReturns(text[0], rest);
      assert (EncodeChar(text[0]) + rest)[|EncodeChar(text[0])|..] == rest;
      DecodeOfEncode(text[1..]);
      assert text == [text[0]] + text[1..];
    }
  }

  /** Whatever can be decoded is the encoding of what it is decoded to: no two byte strings give one text. */
  lemma {:induction false} EncodeOfDecode(s: seq<byte>)
    requires IsUtf8(s)
    ensures Encode(Decode(s).value) == s
    decreases |s|
  {
    hide EncodeChar, DecodeChar;
    if s != [] {
      var c := DecodeChar(s).value;
      FirstCharRead(s);
      EncodeOfDecode(s[|EncodeChar(c)|..]);
      assert s == EncodeChar(c) + s[|EncodeChar(c)|..];
    }
  }

  lemma {:induction false} AsciiIsUtf8(s: seq<byte>)
    requires IsAscii(s)
    ensures IsUtf8(s)
    decreases |s|
  {
    if s != [] {
      AsciiIsUtf8(s[1..]);
      FirstCharRead(s);
      assert s[|EncodeChar(DecodeChar(s).value)|..] == s[1..];
    }
  }

  /** The bytes of a name that is written in ASCII. */
  function Ascii(name: string): (s: seq<byte>)
    requires forall i :: 0 <= i < |name| ==> name[i] < 128 as char
    ensures |s| == |name| && forall i :: 0 <= i < |name| ==> s[i] == name[i] as int
  {
    seq(|name|, i requires 0 <= i < |name| => name[i] as int)
  }

  /** A dollar sign, a cent sign, a euro sign and a musical symbol, one of each length. */
  lemma OneOfEach()
    ensures Encode([0x24, 0xa2, 0x20ac, 0x1d11e])
         == [0x24] + [0xc2, 0xa2] + [0xe2, 0x82, 0xac] + [0xf0, 0x9d, 0x84, 0x9e]
  {
    var text: seq<Scalar> := [0x24, 0xa2, 0x20ac, 0x1d11e];
    assert EncodeChar(0x24) == [0x24] && EncodeChar(0xa2) == [0xc2, 0xa2];
    assert EncodeChar(0x20ac) == [0xe2, 0x82, 0xac] && EncodeChar(0x1d11e) == [0xf0, 0x9d, 0x84, 0x9e];
    hide EncodeChar;
    assert text[1..] == [0xa2, 0x20ac, 0x1d11e] && text[1..][1..] == [0x20ac, 0x1d11e];
    assert text[1..][1..][1..] == [0x1d11e] && text[1..][1..][1..][1..] == [];
    assert Encode(text[1..][1..][1..]) == EncodeChar(0x1d11e) + [];
    assert Encode(text[1..][1..]) == EncodeChar(0x20ac) + Encode(text[1..][1..][1..]);
  }
}
