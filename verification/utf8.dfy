/**
 * The text helpers of lib/aes/index.js (`stringToByteArray`, `byteArrayToString`):
 * UTF-8 as defined in section 3 of RFC 3629. A string is a sequence of Unicode
 * scalar values; each becomes one to four octets. A JavaScript string is a
 * sequence of UTF-16 code units instead, and one holding a lone surrogate makes
 * the encoder throw; such strings cannot be written here. Decoding refuses what
 * section 3 forbids: stray continuation octets, truncated sequences, overlong
 * forms, the surrogate range D800-DFFF and values above 10FFFF. The decoder is
 * the one section 3 defines, which differs from aes-js's on four-octet forms.
 */
module Utf8 {
  import opened Wrappers
  import opened Buffers

  /** Octets section 3 of RFC 3629 uses for a code point. */
  function EncodedLength(cp: nat): nat {
    if cp < 0x80 then 1 else if cp < 0x800 then 2 else if cp < 0x1_0000 then 3 else 4
  }

  /** The octet sequence of one scalar value, leading octet first. */
  function EncodeChar(c: char): (r: Bytes)
    ensures |r| == EncodedLength(c as int)
  {
    var cp := c as int;
    if cp < 0x80 then
      [cp]
    else if cp < 0x800 then
      [0xC0 + cp / 0x40, 0x80 + cp % 0x40]
    else if cp < 0x1_0000 then
      [0xE0 + cp / 0x1000, 0x80 + cp / 0x40 % 0x40, 0x80 + cp % 0x40]
    else
      [0xF0 + cp / 0x4_0000, 0x80 + cp / 0x1000 % 0x40, 0x80 + cp / 0x40 % 0x40, 0x80 + cp % 0x40]
  }

  /** `stringToByteArray`: the concatenated encodings of the characters, in order. */
  function StringToByteArray(s: string): (r: Bytes)
    ensures |s| <= |r| <= 4 * |s|
  {
    if |s| == 0 then [] else EncodeChar(s[0]) + StringToByteArray(s[1..])
  }

  /** ASCII text encodes as one octet per character, each the character's code. */
  lemma {:induction false} AsciiEncoding(s: string)
    requires forall i :: 0 <= i < |s| ==> s[i] as int < 0x80
    ensures |StringToByteArray(s)| == |s|
    ensures forall i :: 0 <= i < |s| ==> StringToByteArray(s)[i] == s[i] as int
  {
    if |s| > 0 {
      assert forall i :: 0 <= i < |s[1..]| ==> s[1..][i] == s[i + 1];
      AsciiEncoding(s[1..]);
    }
  }

  predicate IsContinuation(b: Byte) {
    0x80 <= b < 0xC0
  }

  /** The code point of a two-octet form, or None when it is overlong. */
  function DecodeTwo(b0: Byte, b1: Byte): Option<char>
    requires 0xC0 <= b0 < 0xE0 && IsContinuation(b1)
  {
    var cp: int := (b0 - 0xC0) * 0x40 + (b1 - 0x80);
    if cp < 0x80 then None else Some(cp as char)
  }

  /** The code point of a three-octet form, or None when it is overlong or a surrogate. */
  function DecodeThree(b0: Byte, b1: Byte, b2: Byte): Option<char>
    requires 0xE0 <= b0 < 0xF0 && IsContinuation(b1) && IsContinuation(b2)
  {
    var cp: int := (b0 - 0xE0) * 0x1000 + (b1 - 0x80) * 0x40 + (b2 - 0x80);
    if cp < 0x800 || 0xD800 <= cp < 0xE000 then None else Some(cp as char)
  }

  /** The code point of a four-octet form, or None when it is overlong or above 10FFFF. */
  function DecodeFour(b0: Byte, b1: Byte, b2: Byte, b3: Byte): Option<char>
    requires 0xF0 <= b0 < 0xF8 && IsContinuation(b1) && IsContinuation(b2) && IsContinuation(b3)
  {
    var cp: int := (b0 - 0xF0) * 0x4_0000 + (b1 - 0x80) * 0x1000 + (b2 - 0x80) * 0x40 + (b3 - 0x80);
    if cp < 0x1_0000 || cp > 0x10_FFFF then None else Some(cp as char)
  }

  /** The number of octets a leading octet announces; 0 for a continuation or invalid octet. */
  function SequenceLength(b0: Byte): nat {
    if b0 < 0x80 then 1
    else if b0 < 0xC0 then 0
    else if b0 < 0xE0 then 2
    else if b0 < 0xF0 then 3
    else if b0 < 0xF8 then 4
    else 0
  }

  /** The octets after the leading one, up to the announced length (at most 4), are continuations. */
  predicate ContinuationsFollow(b: Bytes, n: nat)
    requires n <= 4 && n <= |b|
  {
    && (n < 2 || IsContinuation(b[1]))
    && (n < 3 || IsContinuation(b[2]))
    && (n < 4 || IsContinuation(b[3]))
  }

  /** Decodes the first character of a non-empty octet sequence, with the number of octets it took. */
  function DecodeFirst(b: Bytes): (r: Option<(char, nat)>)
    requires |b| > 0
    ensures r.Some? ==> r.value.1 == SequenceLength(b[0]) && 1 <= r.value.1 <= |b|
  {
    var n := SequenceLength(b[0]);
    if n == 0 || |b| < n || !ContinuationsFollow(b, n) then None
    else
      var c :=
        if n == 1 then Some(b[0] as char)
        else if n == 2 then DecodeTwo(b[0], b[1])
        else if n == 3 then DecodeThree(b[0], b[1], b[2])
        else DecodeFour(b[0], b[1], b[2], b[3]);
      if c.None? then None else Some((c.value, n))
  }

  /** `byteArrayToString`: None when the octets are not well-formed UTF-8. */
  function ByteArrayToString(b: Bytes): (r: Option<string>)
    ensures r.Some? ==> |r.value| <= |b|
    decreases |b|
  {
    if |b| == 0 then Some([])
    else
      match DecodeFirst(b)
      case None => None
      case Some((c, n)) =>
        match ByteArrayToString(b[n..])
        case None => None
        case Some(rest) => Some([c] + rest)
  }

  lemma DivMod64(x: int)
    requires 0 <= x
    ensures x == x / 0x40 * 0x40 + x % 0x40
    ensures x / 0x40 == x / 0x1000 * 0x40 + x / 0x40 % 0x40
    ensures x / 0x1000 == x / 0x4_0000 * 0x40 + x / 0x1000 % 0x40
  {
  }

  lemma Unsplit64(q: int, r: int)
    requires 0 <= r < 0x40
    ensures (q * 0x40 + r) / 0x40 == q
    ensures (q * 0x40 + r) % 0x40 == r
  {
  }

  lemma DecodeEncodedTwo(c: char, rest: Bytes)
    requires 0x80 <= c as int < 0x800
    ensures DecodeFirst(EncodeChar(c) + rest) == Some((c, 2))
  {
    var cp := c as int;
    var b := EncodeChar(c) + rest;
    DivMod64(cp);
    assert b[0] == 0xC0 + cp / 0x40 && b[1] == 0x80 + cp % 0x40;
    assert DecodeTwo(b[0], b[1]) == Some(c);
  }

  lemma DecodeEncodedThree(c: char, rest: Bytes)
    requires 0x800 <= c as int < 0x1_0000
    ensures DecodeFirst(EncodeChar(c) + rest) == Some((c, 3))
  {
    var cp := c as int;
    var b := EncodeChar(c) + rest;
    DivMod64(cp);
    assert b[0] == 0xE0 + cp / 0x1000 && b[1] == 0x80 + cp / 0x40 % 0x40 && b[2] == 0x80 + cp % 0x40;
    assert cp / 0x1000 * 0x1000 + cp / 0x40 % 0x40 * 0x40 == cp / 0x40 * 0x40;
    assert DecodeThree(b[0], b[1], b[2]) == Some(c);
  }

  lemma DecodeEncodedFour(c: char, rest: Bytes)
    requires 0x1_0000 <= c as int
    ensures DecodeFirst(EncodeChar(c) + rest) == Some((c, 4))
  {
    var cp := c as int;
    var b := EncodeChar(c) + rest;
    DivMod64(cp);
    assert b[0] == 0xF0 + cp / 0x4_0000 && b[1] == 0x80 + cp / 0x1000 % 0x40;
    assert b[2] == 0x80 + cp / 0x40 % 0x40 && b[3] == 0x80 + cp % 0x40;
    assert cp / 0x4_0000 * 0x1000 + cp / 0x1000 % 0x40 * 0x40 == cp / 0x1000 * 0x40;
    assert cp / 0x1000 * 0x1000 + cp / 0x40 % 0x40 * 0x40 == cp / 0x40 * 0x40;
    assert DecodeFour(b[0], b[1], b[2], b[3]) == Some(c);
  }

  /** The decoder reads back exactly one encoded character, whatever follows it. */
  lemma DecodeEncodedChar(c: char, rest: Bytes)
    ensures DecodeFirst(EncodeChar(c) + rest) == Some((c, |EncodeChar(c)|))
  {
    var cp := c as int;
    if cp < 0x80 {
      assert (EncodeChar(c) + rest)[0] == cp;
    } else if cp < 0x800 {
      DecodeEncodedTwo(c, rest);
    } else if cp < 0x1_0000 {
      DecodeEncodedThree(c, rest);
    } else {
      DecodeEncodedFour(c, rest);
    }
  }

  /** The encoding of a string that starts with `c`. */
  lemma EncodeCons(c: char, rest: string)
    ensures StringToByteArray([c] + rest) == EncodeChar(c) + StringToByteArray(rest)
  {
    assert ([c] + rest)[1..] == rest;
  }

  /** The decoding of octets whose first character decodes as `c` and whose remainder decodes as `rest`. */
  lemma DecodeCons(b: Bytes, c: char, n: nat, rest: string)
    requires |b| > 0 && DecodeFirst(b) == Some((c, n))
    requires ByteArrayToString(b[n..]) == Some(rest)
    ensures ByteArrayToString(b) == Some([c] + rest)
  {
  }

  /** Octets that decode have a first character, and the rest decodes too. */
  lemma DecodedHead(b: Bytes)
    requires |b| > 0 && ByteArrayToString(b).Some?
    ensures DecodeFirst(b).Some?
    ensures ByteArrayToString(b[DecodeFirst(b).value.1..]).Some?
    ensures ByteArrayToString(b).value
            == [DecodeFirst(b).value.0] + ByteArrayToString(b[DecodeFirst(b).value.1..]).value
  {
  }

  /** Decoding the encoding of any string gives the string back. */
  lemma {:induction false} DecodeEncode(s: string)
    ensures ByteArrayToString(StringToByteArray(s)) == Some(s)
  {
    if |s| > 0 {
      var e := EncodeChar(s[0]);
      var tail := StringToByteArray(s[1..]);
      assert s == [s[0]] + s[1..];
      EncodeCons(s[0], s[1..]);
      var b := e + tail;
      DecodeEncodedChar(s[0], tail);
      assert b[|e|..] == tail;
      DecodeEncode(s[1..]);
      DecodeCons(b, s[0], |e|, s[1..]);
    }
  }

  /** Dividing by 0x1000 or 0x4_0000 is dividing by 0x40 repeatedly. */
  lemma DivTwice(x: int)
    requires 0 <= x
    ensures x / 0x1000 == x / 0x40 / 0x40
    ensures x / 0x4_0000 == x / 0x40 / 0x40 / 0x40
  {
    DivMod64(x);
    DivMod64(x / 0x40);
    DivMod64(x / 0x40 / 0x40);
  }

  lemma EncodeDecodedTwo(b0: Byte, b1: Byte)
    requires 0xC0 <= b0 < 0xE0 && IsContinuation(b1) && DecodeTwo(b0, b1).Some?
    ensures EncodeChar(DecodeTwo(b0, b1).value) == [b0, b1]
  {
    Unsplit64(b0 - 0xC0, b1 - 0x80);
  }

  lemma EncodeDecodedThree(b0: Byte, b1: Byte, b2: Byte)
    requires 0xE0 <= b0 < 0xF0 && IsContinuation(b1) && IsContinuation(b2) && DecodeThree(b0, b1, b2).Some?
    ensures EncodeChar(DecodeThree(b0, b1, b2).value) == [b0, b1, b2]
  {
    var q: int := (b0 - 0xE0) * 0x40 + (b1 - 0x80);
    var cp: int := q * 0x40 + (b2 - 0x80);
    assert DecodeThree(b0, b1, b2).value as int == cp;
    Unsplit64(q, b2 - 0x80);
    Unsplit64(b0 - 0xE0, b1 - 0x80);
    DivTwice(cp);
  }

  lemma EncodeDecodedFour(b0: Byte, b1: Byte, b2: Byte, b3: Byte)
    requires 0xF0 <= b0 < 0xF8 && IsContinuation(b1) && IsContinuation(b2) && IsContinuation(b3)
    requires DecodeFour(b0, b1, b2, b3).Some?
    ensures EncodeChar(DecodeFour(b0, b1, b2, b3).value) == [b0, b1, b2, b3]
  {
    var q1: int := (b0 - 0xF0) * 0x40 + (b1 - 0x80);
    var q2: int := q1 * 0x40 + (b2 - 0x80);
    var cp: int := q2 * 0x40 + (b3 - 0x80);
    assert DecodeFour(b0, b1, b2, b3).value as int == cp;
    Unsplit64(q2, b3 - 0x80);
    Unsplit64(q1, b2 - 0x80);
    Unsplit64(b0 - 0xF0, b1 - 0x80);
    DivTwice(cp);
  }

  /** What the decoder reads as one character is exactly that character's encoding. */
  lemma EncodeDecodedChar(b: Bytes)
    requires |b| > 0 && DecodeFirst(b).Some?
    ensures EncodeChar(DecodeFirst(b).value.0) == b[..DecodeFirst(b).value.1]
  {
    var n := DecodeFirst(b).value.1;
    if n == 2 {
      EncodeDecodedTwo(b[0], b[1]);
      assert b[..n] == [b[0], b[1]];
    } else if n == 3 {
      EncodeDecodedThree(b[0], b[1], b[2]);
      assert b[..n] == [b[0], b[1], b[2]];
    } else if n == 4 {
      EncodeDecodedFour(b[0], b[1], b[2], b[3]);
      assert b[..n] == [b[0], b[1], b[2], b[3]];
    }
  }

  /** One step of re-encoding: the first character's encoding, then the encoding of the rest. */
  lemma EncodeDecodeStep(b: Bytes, c: char, n: nat, rest: string)
    requires |b| > 0 && DecodeFirst(b) == Some((c, n))
    requires StringToByteArray(rest) == b[n..]
    ensures StringToByteArray([c] + rest) == b
  {
    EncodeDecodedChar(b);
    EncodeCons(c, rest);
    assert b == b[..n] + b[n..];
  }

  /** Encoding what a well-formed octet sequence decodes to gives the octets back. */
  lemma {:induction false} EncodeDecode(b: Bytes)
    requires ByteArrayToString(b).Some?
    ensures StringToByteArray(ByteArrayToString(b).value) == b
    decreases |b|
  {
    if |b| > 0 {
      DecodedHead(b);
      var c := DecodeFirst(b).value.0;
      var n := DecodeFirst(b).value.1;
      EncodeDecode(b[n..]);
      EncodeDecodeStep(b, c, n, ByteArrayToString(b[n..]).value);
    }
  }
}
