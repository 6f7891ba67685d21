/** Byte buffers, the XOR of two bytes, and the optional values the library returns. */
module Bytes {

  /** A Rust `u8`: the unit of every ciphertext, plaintext and hex string. */
  newtype byte = x: int | 0 <= x < 256

  /** Rust's `Option<T>`. */
  datatype Option<T> = None | Some(value: T)

  /** `v as u8` for an integer v: the low eight bits, as two's complement wraps them. */
  function WrapU8(v: int): (b: byte)
    ensures 0 <= v < 256 ==> b as int == v
    ensures (b as int - v) % 256 == 0
  {
    (v % 256) as byte
  }

  function Pow2(n: nat): (p: nat)
    ensures p >= 1
    decreases n
  {
    if n == 0 then 1 else 2 * Pow2(n - 1)
  }

  /**
   * Bitwise exclusive or of the low n bits of a and b, lowest bit first.
   * The result has at most n bits.
   */
  function XorBits(a: nat, b: nat, n: nat): (r: nat)
    ensures r < Pow2(n)
    decreases n
  {
    if n == 0 then 0
    else (if a % 2 == b % 2 then 0 else 1) + 2 * XorBits(a / 2, b / 2, n - 1)
  }

  /** Two numbers of n bits have XOR 0 exactly when they are equal. */
  lemma {:induction false} XorBitsZeroIff(a: nat, b: nat, n: nat)
    requires a < Pow2(n) && b < Pow2(n)
    ensures XorBits(a, b, n) == 0 <==> a == b
    decreases n
  {
    if n > 0 {
      XorBitsZeroIff(a / 2, b / 2, n - 1);
    }
  }

  /** `a ^ b` on two u8 values; it is 0 exactly when a and b are equal. */
  function XorByte(a: byte, b: byte): (r: byte)
    ensures r == 0 <==> a == b
  {
    assert Pow2(8) == 256;
    XorBitsZeroIff(a as int, b as int, 8);
    XorBits(a as int, b as int, 8) as byte
  }

  /** XOR with the same k twice undoes itself on numbers of n bits. */
  lemma {:induction false} XorBitsInvolution(a: nat, k: nat, n: nat)
    requires a < Pow2(n)
    ensures XorBits(XorBits(a, k, n), k, n) == a
    decreases n
  {
    if n > 0 {
      var q := XorBits(a / 2, k / 2, n - 1);
      var r := XorBits(a, k, n);
      assert r % 2 == (if a % 2 == k % 2 then 0 else 1) && r / 2 == q;
      XorBitsInvolution(a / 2, k / 2, n - 1);
    }
  }

  /** The two operands of XOR can be swapped. */
  lemma {:induction false} XorBitsCommutes(a: nat, b: nat, n: nat)
    ensures XorBits(a, b, n) == XorBits(b, a, n)
    decreases n
  {
    if n > 0 {
      XorBitsCommutes(a / 2, b / 2, n - 1);
    }
  }

  /** XOR with 0 changes nothing. */
  lemma {:induction false} XorBitsZero(a: nat, n: nat)
    requires a < Pow2(n)
    ensures XorBits(a, 0, n) == a
    decreases n
  {
    if n > 0 {
      XorBitsZero(a / 2, n - 1);
    }
  }

  /** XOR with all n bits set complements a. */
  lemma {:induction false} XorBitsAllOnes(a: nat, n: nat)
    requires a < Pow2(n)
    ensures XorBits(a, Pow2(n) - 1, n) == Pow2(n) - 1 - a
    decreases n
  {
    if n > 0 {
      assert (Pow2(n) - 1) % 2 == 1 && (Pow2(n) - 1) / 2 == Pow2(n - 1) - 1;
      XorBitsAllOnes(a / 2, n - 1);
    }
  }

  /** XOR with one key byte is its own inverse. */
  lemma XorByteInvolution(a: byte, k: byte)
    ensures XorByte(XorByte(a, k), k) == a
  {
    assert Pow2(8) == 256;
    XorBitsInvolution(a as int, k as int, 8);
  }

  /** XOR of two bytes is commutative. */
  lemma XorByteCommutes(a: byte, b: byte)
    ensures XorByte(a, b) == XorByte(b, a)
  {
    XorBitsCommutes(a as int, b as int, 8);
  }

  /** Key 0 leaves a byte alone; key 0xFF gives its complement 0xFF - a. */
  lemma XorByteDegenerate(a: byte)
    ensures XorByte(a, 0) == a
    ensures XorByte(a, 0xFF) as int == 0xFF - a as int
  {
    assert Pow2(8) == 256;
    XorBitsZero(a as int, 8);
    XorBitsAllOnes(a as int, 8);
  }

  /**
   * The first byte of the `collection_xor` test vector: 0x68 ^ 0x74 == 0x1c
   * ('h' of the first buffer, 't' of the second).
   */
  lemma XorByteCollVectorFirstByte()
    ensures XorByte(0x68, 0x74) == 0x1c
  {
    XorBitsZeroIff(3, 3, 3);
    assert XorBits(6, 7, 4) == 1;
    assert XorBits(13, 14, 5) == 3;
    assert XorBits(26, 29, 6) == 7;
    assert XorBits(52, 58, 7) == 14;
    assert XorBits(104, 116, 8) == 28;
  }

  /**
   * The first byte of the `test_break_single_cipher` vector: ciphertext 0x1b
   * under key 'X' (0x58) is 'C' (0x43).
   */
  lemma XorByteBreakVectorFirstByte()
    ensures XorByte(0x1b, 0x58) == 0x43
  {
    assert XorBits(0, 0, 0) == 0;
    assert XorBits(0, 0, 1) == 0;
    assert XorBits(0, 1, 2) == 1;
    assert XorBits(0, 2, 3) == 2;
    assert XorBits(1, 5, 4) == 4;
    assert XorBits(3, 11, 5) == 8;
    assert XorBits(6, 22, 6) == 16;
    assert XorBits(13, 44, 7) == 33;
    assert XorBits(27, 88, 8) == 67;
  }
}
