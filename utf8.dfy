/**
 * UTF-8 as section 3 of RFC 3629 defines it, over Dafny's `char`, which is a
 * Unicode scalar value. A Java String is modelled as the sequence of scalar
 * values it holds; String.getBytes(UTF_8) is Encode and new String(bytes, UTF_8)
 * is Decode.
 */
module Utf8 {
  import opened Wire

  /** U+FFFD, what the decoder yields for an octet that starts no well-formed sequence. */
  const REPLACEMENT: char := '\U{FFFD}'

  /** 10xxxxxx: an octet that can only continue a multi-octet sequence. */
  predicate IsContinuation(b: byte)
  {
    0x80 <= b < 0xC0
  }

  /** The one to four octets of a scalar value, in the bit layout of RFC 3629 section 3. */
  function EncodeChar(c: char): (r: seq<byte>)
    ensures 1 <= |r| <= 4
    ensures !IsContinuation(r[0])
    ensures forall i :: 1 <= i < |r| ==> IsContinuation(r[i])
  {
    var cp := c as int;
    if cp < 0x80 then
      [cp]
    else if cp < 0x800 then
      [0xC0 + cp / 0x40, 0x80 + cp % 0x40]
    else if cp < 0x1_0000 then
      [0xE0 + cp / 0x40 / 0x40, 0x80 + cp / 0x40 % 0x40, 0x80 + cp % 0x40]
    else
      [0xF0 + cp / 0x40 / 0x40 / 0x40, 0x80 + cp / 0x40 / 0x40 % 0x40, 0x80 + cp / 0x40 % 0x40, 0x80 + cp % 0x40]
  }

  /**
   * The scalar value a well-formed sequence at the front of `s` stands for, or
   * None when the front of `s` is ill-formed: a stray continuation octet, a
   * truncated sequence, an overlong form, a surrogate or a value above U+10FFFF.
   */
  function DecodeChar(s: seq<byte>): (r: Option<Decoded<char>>)
    ensures r.Some? ==> 1 <= r.value.consumed <= |s| && r.value.consumed <= 4
  {
    if |s| == 0 then None
    else if s[0] < 0x80 then
      Some(Decoded(s[0] as char, 1))
    else if 0xC2 <= s[0] < 0xE0 then
      if |s| >= 2 && IsContinuation(s[1]) then
        var cp: int := (s[0] as int - 0xC0) * 0x40 + (s[1] as int - 0x80);
        Some(Decoded(cp as char, 2))
      else None
    else if 0xE0 <= s[0] < 0xF0 then
      if |s| >= 3 && IsContinuation(s[1]) && IsContinuation(s[2]) then
        var cp: int := ((s[0] as int - 0xE0) * 0x40 + (s[1] as int - 0x80)) * 0x40 + (s[2] as int - 0x80);
        if 0x800 <= cp && !(0xD800 <= cp < 0xE000) then Some(Decoded(cp as char, 3)) else None
      else None
    else if 0xF0 <= s[0] < 0xF5 then
      if |s| >= 4 && IsContinuation(s[1]) && IsContinuation(s[2]) && IsContinuation(s[3]) then
        var cp: int := (((s[0] as int - 0xF0) * 0x40 + (s[1] as int - 0x80)) * 0x40 + (s[2] as int - 0x80)) * 0x40 + (s[3] as int - 0x80);
        if 0x1_0000 <= cp < 0x11_0000 then Some(Decoded(cp as char, 4)) else None
      else None
    else None
  }

  /** String.getBytes(UTF_8) for a string of scalar values. */
  function Encode(s: string): (r: seq<byte>)
    ensures |s| <= |r| <= 4 * |s|
  {
    if s == [] then [] else EncodeChar(s[0]) + Encode(s[1..])
  }

  /** new String(bytes, UTF_8): ill-formed input is replaced, octet by octet, with U+FFFD. */
  function Decode(s: seq<byte>): (r: string)
    ensures |r| <= |s|
    decreases |s|
  {
    if s == [] then []
    else match DecodeChar(s)
      case Some(d) => [d.value] + Decode(s[d.consumed..])
      case None => [REPLACEMENT] + Decode(s[1..])
  }

  /** Every scalar value's encoding decodes to that value, reading exactly its octets. */
  lemma DecodeEncodeChar(c: char, rest: seq<byte>)
    ensures DecodeChar(EncodeChar(c) + rest) == Some(Decoded(c, |EncodeChar(c)|))
  {
    var cp := c as int;
    var s := EncodeChar(c) + rest;
    if cp < 0x80 {
    } else if cp < 0x800 {
      assert s[0] == 0xC0 + cp / 0x40 && s[1] == 0x80 + cp % 0x40;
    } else if cp < 0x1_0000 {
      assert s[0] == 0xE0 + cp / 0x40 / 0x40;
      assert s[1] == 0x80 + cp / 0x40 % 0x40 && s[2] == 0x80 + cp % 0x40;
    } else {
      assert s[0] == 0xF0 + cp / 0x40 / 0x40 / 0x40;
      assert s[1] == 0x80 + cp / 0x40 / 0x40 % 0x40;
      assert s[2] == 0x80 + cp / 0x40 % 0x40 && s[3] == 0x80 + cp % 0x40;
    }
  }

  /** Decoding the UTF-8 encoding of any string gives the string back. */
  lemma {:induction false} DecodeEncode(s: string)
    ensures Decode(Encode(s)) == s
  {
    if s != [] {
      var e := Encode(s);
      DecodeEncodeChar(s[0], Encode(s[1..]));
      assert e[|EncodeChar(s[0])|..] == Encode(s[1..]);
      DecodeEncode(s[1..]);
    }
  }

  /** Distinct strings have distinct encodings. */
  lemma EncodeInjective(s: string, t: string)
    ensures Encode(s) == Encode(t) ==> s == t
  {
    DecodeEncode(s);
    DecodeEncode(t);
  }

  /** Only the empty string has an empty encoding, and only empty input decodes to it. */
  lemma EmptyIff(s: string, b: seq<byte>)
    ensures Encode(s) == [] <==> s == []
    ensures Decode(b) == [] <==> b == []
  {
  }
}
