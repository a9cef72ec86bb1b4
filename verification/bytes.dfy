/** Octets and the bitwise exclusive or that the field obfuscation uses. */
module Bytes {

  /** One element of a Python `bytes` value. */
  type byte = b: int | 0 <= b < 256

  function Pow2(n: nat): nat {
    if n == 0 then 1 else 2 * Pow2(n - 1)
  }

  /** Bitwise exclusive or of the low `width` bits of `a` and `b`, built one
      bit at a time from the least significant end. */
  function XorBits(a: nat, b: nat, width: nat): (r: nat)
    ensures r < Pow2(width)
  {
    if width == 0 then 0
    else (a % 2 + b % 2) % 2 + 2 * XorBits(a / 2, b / 2, width - 1)
  }

  /** Python's `a ^ b` on two octets. */
  function Xor(a: byte, b: byte): byte
  {
    assert Pow2(8) == 256;
    XorBits(a, b, 8)
  }

  /** Exclusive or with the same `k` twice gives back every value that fits
      in the width. */
  lemma {:induction false} XorBitsInvolutive(a: nat, k: nat, width: nat)
    requires a < Pow2(width)
    ensures XorBits(XorBits(a, k, width), k, width) == a
  {
    if width > 0 {
      var bit := (a % 2 + k % 2) % 2;
      var rest := XorBits(a / 2, k / 2, width - 1);
      var x := XorBits(a, k, width);
      LowBit(x, bit, rest);
      assert XorBits(x, k, width) == (x % 2 + k % 2) % 2 + 2 * XorBits(x / 2, k / 2, width - 1);
      assert a / 2 < Pow2(width - 1);
      XorBitsInvolutive(a / 2, k / 2, width - 1);
      BitCancel(a % 2, k % 2);
      assert XorBits(x, k, width) == a % 2 + 2 * (a / 2);
    }
  }

  /** Adding the same bit twice modulo 2 cancels. */
  lemma BitCancel(a: nat, k: nat)
    requires a < 2 && k < 2
    ensures ((a + k) % 2 + k) % 2 == a
  {
  }

  /** The low bit and the rest of `bit + 2 * rest`. */
  lemma LowBit(x: nat, bit: nat, rest: nat)
    requires bit < 2 && x == bit + 2 * rest
    ensures x % 2 == bit && x / 2 == rest
  {
  }

  /** XOR with the same key octet undoes itself. */
  lemma XorInvolutive(a: byte, k: byte)
    ensures Xor(Xor(a, k), k) == a
  {
    assert Pow2(8) == 256;
    XorBitsInvolutive(a, k, 8);
  }
}
