/** Bitwise exclusive or on Python's unbounded non-negative integers, as used by
    `0xFFFFFF ^ color_int` in scripts/xamarin.py.
 */
module Bits {

  function Pow2(k: nat): (p: nat)
    ensures p >= 1
  {
    if k == 0 then 1 else 2 * Pow2(k - 1)
  }

  /** `a ^ b`: bit i of the result is set iff bit i of exactly one operand is. */
  function Xor(a: nat, b: nat): nat
    decreases a + b
  {
    if a == 0 && b == 0 then 0
    else 2 * Xor(a / 2, b / 2) + (if a % 2 == b % 2 then 0 else 1)
  }

  /** Bit i of n, counting from the least significant bit. */
  function Bit(n: nat, i: nat): (b: nat)
    ensures b < 2
  {
    if i == 0 then n % 2 else Bit(n / 2, i - 1)
  }

  /** Xor is bitwise: each bit of the result is set exactly when the two
      operands disagree in that bit. */
  lemma {:induction false} XorBit(a: nat, b: nat, i: nat)
    ensures Bit(Xor(a, b), i) == (if Bit(a, i) == Bit(b, i) then 0 else 1)
  {
    var x := Xor(a, b);
    if a == 0 && b == 0 {
      ZeroBits(i);
    } else {
      assert x / 2 == Xor(a / 2, b / 2) && x % 2 == (if a % 2 == b % 2 then 0 else 1);
      if i > 0 {
        XorBit(a / 2, b / 2, i - 1);
      }
    }
  }

  lemma {:induction false} ZeroBits(i: nat)
    ensures Bit(0, i) == 0
  {
    if i > 0 {
      ZeroBits(i - 1);
    }
  }

  /** Xor of two k-bit values is a k-bit value. */
  lemma {:induction false} XorBound(a: nat, b: nat, k: nat)
    requires a < Pow2(k) && b < Pow2(k)
    ensures Xor(a, b) < Pow2(k)
    decreases k
  {
    if k == 0 {
      assert a == 0 && b == 0;
    } else if a != 0 || b != 0 {
      XorBound(a / 2, b / 2, k - 1);
    }
  }

  /** Xor with an all-ones mask of k bits subtracts a k-bit value from the mask:
      flipping every bit of v is the same as computing (2^k - 1) - v. */
  lemma {:induction false} XorMaskIsSubtraction(v: nat, k: nat)
    requires v < Pow2(k)
    ensures Xor(v, Pow2(k) - 1) == Pow2(k) - 1 - v
  {
    if k > 0 {
      var m := Pow2(k) - 1;
      assert m / 2 == Pow2(k - 1) - 1 && m % 2 == 1;
      XorMaskIsSubtraction(v / 2, k - 1);
    }
  }

  /** Xor with the same operand twice gives back the original value. */
  lemma {:induction false} XorInvolutive(a: nat, b: nat)
    ensures Xor(Xor(a, b), b) == a
    decreases a + b
  {
    if a != 0 || b != 0 {
      var x := Xor(a, b);
      XorInvolutive(a / 2, b / 2);
      assert x / 2 == Xor(a / 2, b / 2);
      assert x % 2 == (if a % 2 == b % 2 then 0 else 1);
    }
  }

  /** Two to the 24th: the colour range of six hex digits. */
  lemma Pow2Of24()
    ensures Pow2(24) == 0x100_0000
  {
    assert Pow2(4) == 16;
    assert Pow2(8) == 256;
    assert Pow2(12) == 4096;
    assert Pow2(16) == 65536;
    assert Pow2(20) == 1048576;
  }
}
