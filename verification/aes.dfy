/**
 * The key and cipher helpers of lib/aes/index.js. The AES block function of the
 * aes-js library is not part of this model: it is the parameter `aes`, mapping a
 * key and a counter value to one 16-octet block. On top of it, counter (CTR)
 * mode is modelled as in section 6.5 of NIST SP 800-38A: the i-th octet of the
 * data is combined by exclusive or with octet i % 16 of the block for counter
 * value `initial + i / 16` (mod 2^128). `encryptData` and `decryptData` each
 * create a fresh counter context with the library's default initial counter 1.
 */
module Aes {
  import opened Wrappers
  import opened Buffers
  import Hex

  /** One AES block. */
  type Block = b: Bytes | |b| == 16 witness [0, 0, 0, 0, 0, 0, 0, 0, 0, 0, 0, 0, 0, 0, 0, 0]

  /** The forward block function E(key, counter block), with the counter block given as its value. */
  type BlockCipher = (Bytes, nat) -> Block

  const CounterModulus: nat := 0x1_0000_0000_0000_0000_0000_0000_0000_0000

  /** The counter aes-js starts from when `ModeOfOperation.ctr` is given no counter. */
  const DefaultCounter: nat := 1

  /**
   * A counter-mode context, `new aesjs.ModeOfOperation.ctr(key)`: the key and
   * the initial counter value. Each call builds its own, at `DefaultCounter`.
   */
  datatype CtrContext = CtrContext(key: Bytes, initialCounter: nat)

  /** Octet i of the key stream: block i / 16, octet i % 16 within it. */
  function KeystreamByte(aes: BlockCipher, ctx: CtrContext, i: nat): Byte {
    aes(ctx.key, (ctx.initialCounter + i / 16) % CounterModulus)[i % 16]
  }

  /** Combines the data with the key stream, octet by octet. */
  function CtrTransform(aes: BlockCipher, ctx: CtrContext, data: Bytes): (r: Bytes)
    ensures |r| == |data|
  {
    seq(|data|, i requires 0 <= i < |data| => XorByte(data[i], KeystreamByte(aes, ctx, i)))
  }

  /** `encryptData`: a stream cipher, so no padding. */
  function EncryptData(aes: BlockCipher, key: Bytes, data: Bytes): (r: Bytes)
    ensures |r| == |data|
  {
    CtrTransform(aes, CtrContext(key, DefaultCounter), data)
  }

  /** `decryptData`. */
  function DecryptData(aes: BlockCipher, key: Bytes, data: Bytes): (r: Bytes)
    ensures |r| == |data|
  {
    CtrTransform(aes, CtrContext(key, DefaultCounter), data)
  }

  /** Decrypting with the key that encrypted gives the plaintext back. */
  lemma DecryptEncrypt(aes: BlockCipher, key: Bytes, data: Bytes)
    ensures DecryptData(aes, key, EncryptData(aes, key, data)) == data
  {
  }

  /** Encrypting with the key that decrypts gives the ciphertext back: every octet string is a ciphertext. */
  lemma EncryptDecrypt(aes: BlockCipher, key: Bytes, data: Bytes)
    ensures EncryptData(aes, key, DecryptData(aes, key, data)) == data
  {
  }

  /** Encryption works octet by octet: the ciphertext of a prefix is the prefix of the ciphertext. */
  lemma EncryptPrefix(aes: BlockCipher, key: Bytes, a: Bytes, b: Bytes)
    ensures EncryptData(aes, key, a + b)[..|a|] == EncryptData(aes, key, a)
  {
  }

  function XorBytes(a: Bytes, b: Bytes): (r: Bytes)
    requires |a| == |b|
    ensures |r| == |a|
  {
    seq(|a|, i requires 0 <= i < |a| => XorByte(a[i], b[i]))
  }

  /**
   * Every call starts from the same counter, so two ciphertexts under one key
   * combine to the combination of their plaintexts.
   */
  lemma KeystreamReuse(aes: BlockCipher, key: Bytes, a: Bytes, b: Bytes)
    requires |a| == |b|
    ensures XorBytes(EncryptData(aes, key, a), EncryptData(aes, key, b)) == XorBytes(a, b)
  {
    var ea := EncryptData(aes, key, a);
    var eb := EncryptData(aes, key, b);
    forall i | 0 <= i < |a|
      ensures XorByte(ea[i], eb[i]) == XorByte(a[i], b[i])
    {
      var k := KeystreamByte(aes, CtrContext(key, DefaultCounter), i);
      XorCancel(a[i], b[i], k);
    }
  }

  lemma XorCancel(x: Byte, y: Byte, k: Byte)
    ensures XorByte(XorByte(x, k), XorByte(y, k)) == XorByte(x, y)
  {
    BitXorAssociates(x, k, BitXor(y, k));
    BitXorCommutes(y, k);
    BitXorAssociates(k, k, y);
    BitXorSelf(k);
    BitXorCommutes(0, y);
    BitXorZero(y);
  }

  /** A 128-bit key for aes-js: present, 16 entries, each in [0, 256). */
  predicate IsKey128(key: Option<seq<int>>) {
    key.Some? && |key.value| == 16 && forall i :: 0 <= i < 16 ==> 0 <= key.value[i] < 256
  }

  /** `checkKey128`: length test first, then every entry is examined without stopping early. */
  method CheckKey128(key: Option<seq<int>>) returns (valid: bool)
    ensures valid <==> IsKey128(key)
  {
    if key.None? || |key.value| != 16 {
      return false;
    }
    valid := true;
    var i := 0;
    while i < |key.value|
      invariant 0 <= i <= |key.value|
      invariant valid <==> forall j :: 0 <= j < i ==> 0 <= key.value[j] < 256
    {
      var ki := key.value[i];
      if ki < 0 || ki >= 256 {
        valid := false;
      }
      i := i + 1;
    }
  }

  /** The octets of a key whose entries are all in range. */
  function KeyBytes(key: seq<int>): (r: Bytes)
    requires forall i :: 0 <= i < |key| ==> 0 <= key[i] < 256
    ensures |r| == |key| && forall i :: 0 <= i < |key| ==> r[i] == key[i]
  {
    seq(|key|, i requires 0 <= i < |key| => key[i] as Byte)
  }

  /** What `genKey128` returns: the key as a number array and as hex text. */
  datatype GeneratedKey = GeneratedKey(bytes: seq<int>, hex: string)

  /**
   * `genKey128`, given the 16 values `Math.random()` returns in turn; each entry
   * is `Math.floor(r * 256)`.
   */
  method GenKey128(draws: seq<real>) returns (k: GeneratedKey)
    requires |draws| == 16
    requires forall i :: 0 <= i < |draws| ==> 0.0 <= draws[i] < 1.0
    ensures |k.bytes| == 16
    ensures forall i :: 0 <= i < 16 ==> k.bytes[i] == (draws[i] * 256.0).Floor
    ensures IsKey128(Some(k.bytes))
    ensures k.hex == Hex.ByteArrayToHex(KeyBytes(k.bytes)) && |k.hex| == 32
  {
    var key: seq<int> := [];
    var i := 0;
    while i < 16
      invariant 0 <= i <= 16
      invariant |key| == i
      invariant forall j :: 0 <= j < i ==> key[j] == (draws[j] * 256.0).Floor
      invariant forall j :: 0 <= j < i ==> 0 <= key[j] < 256
    {
      key := key + [(draws[i] * 256.0).Floor];
      i := i + 1;
    }
    k := GeneratedKey(key, Hex.ByteArrayToHex(KeyBytes(key)));
  }
}
