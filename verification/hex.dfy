/**
 * The hexadecimal helpers of lib/aes/index.js (`hexToByteArray`, `byteArrayToHex`),
 * a Base16 codec in the sense of section 8 of RFC 4648: every octet becomes two
 * digits, high nibble first. Encoding emits lower-case digits; decoding accepts
 * either case and refuses text of odd length or with a non-digit character.
 */
module Hex {
  import opened Wrappers
  import opened Buffers

  predicate IsLowerDigit(c: char) {
    '0' <= c <= '9' || 'a' <= c <= 'f'
  }

  /** The lower-case digit for a nibble. */
  function DigitChar(n: nat): (c: char)
    requires n < 16
    ensures IsLowerDigit(c)
  {
    if n < 10 then ('0' as int + n) as char else ('a' as int + n - 10) as char
  }

  /** The value of one hexadecimal digit of either case, or None for any other character. */
  function DigitValue(c: char): (r: Option<nat>)
    ensures r.Some? ==> r.value < 16
  {
    if '0' <= c <= '9' then Some(c as int - '0' as int)
    else if 'a' <= c <= 'f' then Some(c as int - 'a' as int + 10)
    else if 'A' <= c <= 'F' then Some(c as int - 'A' as int + 10)
    else None
  }

  predicate IsDigit(c: char) {
    DigitValue(c).Some?
  }

  function ByteToHex(b: Byte): string {
    [DigitChar(b / 16), DigitChar(b % 16)]
  }

  /** `byteArrayToHex`: two lower-case digits per octet. */
  function ByteArrayToHex(data: Bytes): (s: string)
    ensures |s| == 2 * |data|
    ensures forall i :: 0 <= i < |s| ==> IsLowerDigit(s[i])
  {
    if |data| == 0 then [] else ByteToHex(data[0]) + ByteArrayToHex(data[1..])
  }

  /**
   * `hexToByteArray`: decodes pairs of digits. The text decodes exactly when it
   * has even length and consists of hexadecimal digits only.
   */
  function HexToByteArray(s: string): (r: Option<Bytes>)
    ensures r.Some? <==> |s| % 2 == 0 && forall i :: 0 <= i < |s| ==> IsDigit(s[i])
    ensures r.Some? ==> 2 * |r.value| == |s|
  {
    if |s| == 0 then Some([])
    else if |s| == 1 then None
    else if !IsDigit(s[0]) || !IsDigit(s[1]) then None
    else
      match HexToByteArray(s[2..])
      case None =>
        assert |s[2..]| % 2 != 0 || exists i :: 0 <= i < |s[2..]| && !IsDigit(s[2..][i]);
        None
      case Some(rest) =>
        assert forall i :: 2 <= i < |s| ==> s[i] == s[2..][i - 2];
        Some([DigitValue(s[0]).value * 16 + DigitValue(s[1]).value] + rest)
  }

  lemma DigitRoundTrip(n: nat)
    requires n < 16
    ensures DigitValue(DigitChar(n)) == Some(n)
  {
  }

  lemma ByteSplitJoin(b: Byte)
    ensures (b / 16) * 16 + b % 16 == b
  {
  }

  lemma NibblesOfJoin(hi: nat, lo: nat)
    requires hi < 16 && lo < 16
    ensures (hi * 16 + lo) / 16 == hi
    ensures (hi * 16 + lo) % 16 == lo
  {
  }

  /** Decoding the encoding of any octet sequence gives it back. */
  lemma {:induction false} DecodeEncode(data: Bytes)
    ensures HexToByteArray(ByteArrayToHex(data)) == Some(data)
  {
    if |data| > 0 {
      var s := ByteArrayToHex(data);
      assert s[2..] == ByteArrayToHex(data[1..]);
      DecodeEncode(data[1..]);
      DigitRoundTrip(data[0] / 16);
      DigitRoundTrip(data[0] % 16);
      ByteSplitJoin(data[0]);
      assert data == [data[0]] + data[1..];
    }
  }

  /** Encoding what a lower-case hex text decodes to gives that text back. */
  lemma {:induction false} EncodeDecode(s: string)
    requires HexToByteArray(s).Some?
    requires forall i :: 0 <= i < |s| ==> IsLowerDigit(s[i])
    ensures ByteArrayToHex(HexToByteArray(s).value) == s
  {
    if |s| > 0 {
      var hi := DigitValue(s[0]).value;
      var lo := DigitValue(s[1]).value;
      var data := HexToByteArray(s).value;
      assert forall i :: 0 <= i < |s[2..]| ==> IsLowerDigit(s[2..][i]);
      EncodeDecode(s[2..]);
      NibblesOfJoin(hi, lo);
      assert data[0] == hi * 16 + lo;
      assert data[1..] == HexToByteArray(s[2..]).value;
      assert DigitChar(hi) == s[0];
      assert DigitChar(lo) == s[1];
      assert s == [s[0], s[1]] + s[2..];
    }
  }
}
