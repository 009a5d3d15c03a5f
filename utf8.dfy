/**
 * UTF-8, as section 3 of RFC 3629 defines it: the encoding `str.encode("utf-8")`
 * applies to the canonical string before it is checksummed, and the decoder of
 * section 4's syntax that inverts it.
 */
module Utf8 {
  import opened Wrappers

  /** One byte of an encoded string. */
  type Byte = b: int | 0 <= b < 256

  /** A continuation byte, `10xxxxxx`. */
  predicate IsTail(b: Byte) {
    0x80 <= b < 0xC0
  }

  /** The number of bytes RFC 3629 spends on a code point. */
  function EncodedLength(n: int): nat {
    if n < 0x80 then 1 else if n < 0x800 then 2 else if n < 0x1_0000 then 3 else 4
  }

  /** The bytes of one character, `c`'s bits spread over a lead byte and continuation bytes. */
  function EncodeChar(c: char): (bs: seq<Byte>)
    ensures |bs| == EncodedLength(c as int)
    ensures |bs| == 1 <==> bs[0] < 0x80
    ensures |bs| == 2 <==> 0xC0 <= bs[0] < 0xE0
    ensures |bs| == 3 <==> 0xE0 <= bs[0] < 0xF0
    ensures |bs| == 4 <==> 0xF0 <= bs[0] < 0xF8
    ensures forall i :: 1 <= i < |bs| ==> IsTail(bs[i])
  {
    var n := c as int;
    if n < 0x80 then [n]
    else if n < 0x800 then [0xC0 + n / 0x40, 0x80 + n % 0x40]
    else if n < 0x1_0000 then [0xE0 + n / 0x1000, 0x80 + n / 0x40 % 0x40, 0x80 + n % 0x40]
    else [0xF0 + n / 0x4_0000, 0x80 + n / 0x1000 % 0x40, 0x80 + n / 0x40 % 0x40, 0x80 + n % 0x40]
  }

  /** The UTF-8 encoding of a string: the characters' encodings one after another. */
  function Encode(s: string): (bs: seq<Byte>)
    ensures |s| <= |bs| <= 4 * |s|
  {
    if |s| == 0 then [] else EncodeChar(s[0]) + Encode(s[1..])
  }

  /** Reads one character off the front of `bs`: the character and the bytes it took,
      or None when the front is not a well-formed UTF-8 sequence (a stray
      continuation byte, a missing one, an overlong form, a surrogate, or a value
      past U+10FFFF). */
  function DecodeChar(bs: seq<Byte>): (r: Option<(char, nat)>)
    requires |bs| > 0
    ensures r.Some? ==> 1 <= r.value.1 <= 4 && r.value.1 <= |bs|
  {
    var b0: int := bs[0];
    if b0 < 0x80 then
      Some((b0 as char, 1))
    else if 0xC0 <= b0 < 0xE0 then
      if |bs| < 2 || !IsTail(bs[1]) then None
      else
        var n := (b0 - 0xC0) * 0x40 + (bs[1] as int - 0x80);
        if n < 0x80 then None else Some((n as char, 2))
    else if 0xE0 <= b0 < 0xF0 then
      if |bs| < 3 || !IsTail(bs[1]) || !IsTail(bs[2]) then None
      else
        var n := (b0 - 0xE0) * 0x1000 + (bs[1] as int - 0x80) * 0x40 + (bs[2] as int - 0x80);
        if n < 0x800 || 0xD800 <= n < 0xE000 then None else Some((n as char, 3))
    else if 0xF0 <= b0 < 0xF8 then
      if |bs| < 4 || !IsTail(bs[1]) || !IsTail(bs[2]) || !IsTail(bs[3]) then None
      else
        var n := (b0 - 0xF0) * 0x4_0000 + (bs[1] as int - 0x80) * 0x1000 + (bs[2] as int - 0x80) * 0x40 + (bs[3] as int - 0x80);
        if n < 0x1_0000 || 0x11_0000 <= n then None else Some((n as char, 4))
    else
      None
  }

  /** Decodes a whole byte string, or None when some part of it is not well-formed. */
  function Decode(bs: seq<Byte>): Option<string>
    decreases |bs|
  {
    if |bs| == 0 then Some("")
    else match DecodeChar(bs)
      case None => None
      case Some((c, k)) =>
        match Decode(bs[k..])
        case None => None
        case Some(s) => Some([c] + s)
  }

  /** The decoder reads back exactly the character the encoder wrote, whatever follows it. */
  lemma DecodeEncodeChar(c: char, rest: seq<Byte>)
    ensures DecodeChar(EncodeChar(c) + rest) == Some((c, |EncodeChar(c)|))
  {
    var n := c as int;
    if n < 0x80 {
    } else if n < 0x800 {
      DecodeTwo(c, rest);
    } else if n < 0x1_0000 {
      DecodeThree(c, rest);
    } else {
      DecodeFour(c, rest);
    }
  }

  /** The two-byte case: bits 6 and up in the lead byte, the low six in the continuation byte. */
  lemma DecodeTwo(c: char, rest: seq<Byte>)
    requires 0x80 <= c as int < 0x800
    ensures DecodeChar(EncodeChar(c) + rest) == Some((c, 2))
  {
    var n := c as int;
    assert (n / 0x40) * 0x40 + n % 0x40 == n;
  }

  /** The three-byte case, which also never lands in the surrogate gap the decoder refuses. */
  lemma DecodeThree(c: char, rest: seq<Byte>)
    requires 0x800 <= c as int < 0x1_0000
    ensures DecodeChar(EncodeChar(c) + rest) == Some((c, 3))
  {
    var n := c as int;
    assert (n / 0x1000) * 0x1000 + (n / 0x40 % 0x40) * 0x40 + n % 0x40 == n;
  }

  /** The four-byte case, up to U+10FFFF. */
  lemma DecodeFour(c: char, rest: seq<Byte>)
    requires 0x1_0000 <= c as int
    ensures DecodeChar(EncodeChar(c) + rest) == Some((c, 4))
  {
    var n := c as int;
    var bs := EncodeChar(c) + rest;
    var a, b, d, e := n / 0x4_0000, n / 0x1000 % 0x40, n / 0x40 % 0x40, n % 0x40;
    assert n / 0x40 == (n / 0x1000) * 0x40 + d;
    assert n / 0x1000 == a * 0x40 + b;
    assert a * 0x4_0000 + b * 0x1000 + d * 0x40 + e == n;
    assert bs[..4] == [0xF0 + a, 0x80 + b, 0x80 + d, 0x80 + e];
  }

  /** The other direction: whatever the decoder accepts is exactly the encoding of the
      character it returns, so a well-formed sequence has no second reading. */
  lemma EncodeDecodeChar(bs: seq<Byte>)
    requires |bs| > 0 && DecodeChar(bs).Some?
    ensures EncodeChar(DecodeChar(bs).value.0) == bs[..DecodeChar(bs).value.1]
  {
    var b0: int := bs[0];
    if b0 < 0x80 {
    } else if b0 < 0xE0 {
      EncodeDecodeTwo(bs);
    } else if b0 < 0xF0 {
      EncodeDecodeThree(bs);
    } else {
      EncodeDecodeFour(bs);
    }
  }

  /** The two-byte case of `EncodeDecodeChar`. */
  lemma EncodeDecodeTwo(bs: seq<Byte>)
    requires |bs| >= 2 && 0xC0 <= bs[0] < 0xE0 && IsTail(bs[1])
    requires DecodeChar(bs).Some?
    ensures EncodeChar(DecodeChar(bs).value.0) == bs[..2]
  {
    var a, b := bs[0] as int - 0xC0, bs[1] as int - 0x80;
    var n := a * 0x40 + b;
    assert n / 0x40 == a && n % 0x40 == b;
  }

  /** The three-byte case of `EncodeDecodeChar`. */
  lemma EncodeDecodeThree(bs: seq<Byte>)
    requires |bs| >= 3 && 0xE0 <= bs[0] < 0xF0 && IsTail(bs[1]) && IsTail(bs[2])
    requires DecodeChar(bs).Some?
    ensures EncodeChar(DecodeChar(bs).value.0) == bs[..3]
  {
    var a, b, d := bs[0] as int - 0xE0, bs[1] as int - 0x80, bs[2] as int - 0x80;
    var n := a * 0x1000 + b * 0x40 + d;
    assert n / 0x1000 == a && n / 0x40 % 0x40 == b && n % 0x40 == d;
  }

  /** The four-byte case of `EncodeDecodeChar`. */
  lemma EncodeDecodeFour(bs: seq<Byte>)
    requires |bs| >= 4 && 0xF0 <= bs[0] < 0xF8 && IsTail(bs[1]) && IsTail(bs[2]) && IsTail(bs[3])
    requires DecodeChar(bs).Some?
    ensures EncodeChar(DecodeChar(bs).value.0) == bs[..4]
  {
    var a, b, d, e := bs[0] as int - 0xF0, bs[1] as int - 0x80, bs[2] as int - 0x80, bs[3] as int - 0x80;
    var n := a * 0x4_0000 + b * 0x1000 + d * 0x40 + e;
    var c := DecodeChar(bs).value.0;
    assert c as int == n && 0x1_0000 <= n;
    assert n / 0x40 == a * 0x1000 + b * 0x40 + d && n % 0x40 == e;
    assert n / 0x1000 == a * 0x40 + b;
    assert n / 0x4_0000 == a;
    assert EncodeChar(c) == [0xF0 + a, 0x80 + b, 0x80 + d, 0x80 + e];
  }

  /** Decoding inverts encoding: every string round-trips through its UTF-8 bytes. */
  lemma {:induction false} DecodeEncode(s: string)
    ensures Decode(Encode(s)) == Some(s)
  {
    if |s| > 0 {
      var e := EncodeChar(s[0]);
      DecodeEncodeChar(s[0], Encode(s[1..]));
      assert (e + Encode(s[1..]))[|e|..] == Encode(s[1..]);
      DecodeEncode(s[1..]);
      assert [s[0]] + s[1..] == s;
    }
  }

  /** So two strings with the same UTF-8 bytes are the same string. */
  lemma EncodeInjective(s: string, t: string)
    requires Encode(s) == Encode(t)
    ensures s == t
  {
    DecodeEncode(s);
    DecodeEncode(t);
  }

  /** A string of ASCII characters encodes to its character codes, one byte each. */
  lemma {:induction false} EncodeAscii(s: string)
    requires forall i :: 0 <= i < |s| ==> s[i] < 0x80 as char
    ensures |Encode(s)| == |s|
    ensures forall i :: 0 <= i < |s| ==> Encode(s)[i] == s[i] as int
  {
    if |s| > 0 {
      EncodeAscii(s[1..]);
    }
  }
}
