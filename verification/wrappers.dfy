/** Failure-carrying result types shared by every module of the model. */
module Wrappers {

  /** A value that may be absent, as a JavaScript `undefined` or `null`. */
  datatype Option<+T> = None | Some(value: T)

  /** The two outcomes of a Node-style callback: `cb(null, value)` or `cb(err)`. */
  datatype Result<+R, +E> = Success(value: R) | Failure(error: E)
}

/**
 * Node `Buffer`s and `Uint8Array`s: sequences of octets, each a number in
 * [0, 256), together with the bitwise exclusive or (JavaScript `^`) on them.
 */
module Buffers {

  type Byte = b: int | 0 <= b < 256

  type Bytes = seq<Byte>

  function Pow2(n: nat): (r: nat)
    ensures r >= 1
  {
    if n == 0 then 1 else 2 * Pow2(n - 1)
  }

  /** Bitwise exclusive or of two non-negative integers, least significant bit first. */
  function BitXor(a: nat, b: nat): nat
    decreases a + b
  {
    if a == 0 && b == 0 then 0
    else 2 * BitXor(a / 2, b / 2) + (if a % 2 == b % 2 then 0 else 1)
  }

  lemma {:induction false} BitXorZero(a: nat)
    ensures BitXor(a, 0) == a
    decreases a
  {
    if a != 0 {
      BitXorZero(a / 2);
    }
  }

  /** Exclusive or with the same value twice is the identity. */
  lemma {:induction false} BitXorInvolution(a: nat, b: nat)
    ensures BitXor(BitXor(a, b), b) == a
    decreases a + b
  {
    if a != 0 || b != 0 {
      var c := BitXor(a, b);
      BitXorInvolution(a / 2, b / 2);
      assert c / 2 == BitXor(a / 2, b / 2);
      if c == 0 && b == 0 {
        BitXorZero(a);
      }
    }
  }

  lemma {:induction false} BitXorCommutes(a: nat, b: nat)
    ensures BitXor(a, b) == BitXor(b, a)
    decreases a + b
  {
    if a != 0 || b != 0 {
      BitXorCommutes(a / 2, b / 2);
    }
  }

  lemma {:induction false} BitXorSelf(a: nat)
    ensures BitXor(a, a) == 0
    decreases a
  {
    if a != 0 {
      BitXorSelf(a / 2);
    }
  }

  lemma {:induction false} BitXorAssociates(a: nat, b: nat, c: nat)
    ensures BitXor(BitXor(a, b), c) == BitXor(a, BitXor(b, c))
    decreases a + b + c
  {
    if a != 0 || b != 0 || c != 0 {
      BitXorAssociates(a / 2, b / 2, c / 2);
      var ab := BitXor(a, b);
      var bc := BitXor(b, c);
      assert ab / 2 == BitXor(a / 2, b / 2) && ab % 2 == (if a % 2 == b % 2 then 0 else 1) by {
        if a == 0 && b == 0 { BitXorZero(0); }
      }
      assert bc / 2 == BitXor(b / 2, c / 2) && bc % 2 == (if b % 2 == c % 2 then 0 else 1) by {
        if b == 0 && c == 0 { BitXorZero(0); }
      }
    }
  }

  /** Exclusive or of two n-bit values is an n-bit value. */
  lemma {:induction false} BitXorBound(a: nat, b: nat, n: nat)
    requires a < Pow2(n) && b < Pow2(n)
    ensures BitXor(a, b) < Pow2(n)
  {
    if n > 0 && (a != 0 || b != 0) {
      BitXorBound(a / 2, b / 2, n - 1);
    }
  }

  /** `a ^ b` on two octets. */
  function XorByte(a: Byte, b: Byte): (r: Byte)
    ensures BitXor(r, b) == a
  {
    BitXorBound(a, b, 8);
    var r := BitXor(a, b);
    BitXorBound(r, b, 8);
    BitXorInvolution(a, b);
    r
  }
}
