/** Bit-level arithmetic on Python's unbounded non-negative integers:
    shifts, `|`, `^`, `int.bit_count()` and the Hamming distance built on them. */
module Bits {

  /** 2^k, i.e. Python's `1 << k`. */
  function Pow2(k: nat): (r: nat)
    ensures r >= 1
  {
    if k == 0 then 1 else 2 * Pow2(k - 1)
  }

  /** Bit k of x, i.e. Python's `(x >> k) & 1 == 1`. */
  predicate Bit(x: nat, k: nat)
  {
    if k == 0 then x % 2 == 1 else Bit(x / 2, k - 1)
  }

  /** Python's `a ^ b` on non-negative integers. */
  function Xor(a: nat, b: nat): nat
  {
    if a == 0 then b
    else if b == 0 then a
    else 2 * Xor(a / 2, b / 2) + (if a % 2 == b % 2 then 0 else 1)
  }

  /** Python's `a | b` on non-negative integers. */
  function Or(a: nat, b: nat): nat
  {
    if a == 0 then b
    else if b == 0 then a
    else 2 * Or(a / 2, b / 2) + (if a % 2 == 1 || b % 2 == 1 then 1 else 0)
  }

  /** Python's `int.bit_count()` on a non-negative integer. */
  function PopCount(x: nat): nat
  {
    if x == 0 then 0 else x % 2 + PopCount(x / 2)
  }

  /** `hamming_distance(a, b)` / `hamming(a, b)`: the number of differing bits. */
  function Hamming(a: nat, b: nat): nat
  {
    PopCount(Xor(a, b))
  }

  lemma {:induction false} BitOfZero(k: nat)
    ensures !Bit(0, k)
  {
    if k > 0 {
      BitOfZero(k - 1);
    }
  }

  /** Bit k of x ^ y is set exactly when bit k differs between x and y. */
  lemma {:induction false} XorBit(a: nat, b: nat, k: nat)
    ensures Bit(Xor(a, b), k) == (Bit(a, k) != Bit(b, k))
  {
    BitOfZero(k);
    if a != 0 && b != 0 && k > 0 {
      var x := Xor(a / 2, b / 2);
      var low := if a % 2 == b % 2 then 0 else 1;
      assert (2 * x + low) / 2 == x;
      XorBit(a / 2, b / 2, k - 1);
    }
  }

  lemma {:induction false} XorCommutes(a: nat, b: nat)
    ensures Xor(a, b) == Xor(b, a)
  {
    if a != 0 && b != 0 {
      XorCommutes(a / 2, b / 2);
    }
  }

  lemma {:induction false} XorZeroIff(a: nat, b: nat)
    ensures Xor(a, b) == 0 <==> a == b
  {
    if a != 0 && b != 0 {
      XorZeroIff(a / 2, b / 2);
    }
  }

  lemma {:induction false} PopCountZeroIff(x: nat)
    ensures PopCount(x) == 0 <==> x == 0
  {
    if x != 0 {
      PopCountZeroIff(x / 2);
    }
  }

  /** `hamming_distance` is symmetric. */
  lemma HammingSymmetric(a: nat, b: nat)
    ensures Hamming(a, b) == Hamming(b, a)
  {
    XorCommutes(a, b);
  }

  /** Distance 0 means identical fingerprints, in both directions. */
  lemma HammingZeroIff(a: nat, b: nat)
    ensures Hamming(a, b) == 0 <==> a == b
  {
    XorZeroIff(a, b);
    PopCountZeroIff(Xor(a, b));
  }

  lemma {:induction false} XorBelow(a: nat, b: nat, k: nat)
    requires a < Pow2(k) && b < Pow2(k)
    ensures Xor(a, b) < Pow2(k)
  {
    if a != 0 && b != 0 {
      XorBelow(a / 2, b / 2, k - 1);
    }
  }

  lemma {:induction false} PopCountBelow(x: nat, k: nat)
    requires x < Pow2(k)
    ensures PopCount(x) <= k
  {
    if x != 0 {
      PopCountBelow(x / 2, k - 1);
    }
  }

  /** Two k-bit fingerprints differ in at most k bits (k = 64 for the default 8x8 hashes). */
  lemma HammingAtMostWidth(a: nat, b: nat, k: nat)
    requires a < Pow2(k) && b < Pow2(k)
    ensures Hamming(a, b) <= k
  {
    XorBelow(a, b, k);
    PopCountBelow(Xor(a, b), k);
  }

  /** Shifting left by one and or-ing in a low bit (the MSB-first packing step). */
  lemma ShiftInLowBit(x: nat, b: nat, k: nat)
    requires b <= 1
    ensures Or(2 * x, b) == 2 * x + b
    ensures Bit(2 * x + b, 0) == (b == 1)
    ensures k > 0 ==> Bit(2 * x + b, k) == Bit(x, k - 1)
  {
    assert (2 * x + b) / 2 == x;
    if x != 0 && b != 0 {
      assert (2 * x) / 2 == x && Or(x, 0) == x;
    }
  }

  /** Or-ing in bit i of a number below 2^i adds 2^i (the LSB-first packing step). */
  lemma {:induction false} OrHighBit(x: nat, i: nat)
    requires x < Pow2(i)
    ensures Or(x, Pow2(i)) == x + Pow2(i)
  {
    if x != 0 {
      OrHighBit(x / 2, i - 1);
      assert Pow2(i) / 2 == Pow2(i - 1) && Pow2(i) % 2 == 0;
    }
  }

  /** Adding 2^i to a number below 2^i sets bit i and leaves every other bit alone. */
  lemma {:induction false} AddHighBit(x: nat, i: nat, k: nat)
    requires x < Pow2(i)
    ensures Bit(x + Pow2(i), k) == (k == i || Bit(x, k))
  {
    if i == 0 {
      assert x == 0;
      BitOfZero(k);
      if k > 0 {
        BitOfZero(k - 1);
      }
    } else if k == 0 {
      assert (x + Pow2(i)) % 2 == x % 2;
    } else {
      assert (x + Pow2(i)) / 2 == x / 2 + Pow2(i - 1);
      AddHighBit(x / 2, i - 1, k - 1);
    }
  }

  /** A number below 2^i has no bit at position i or above. */
  lemma {:induction false} NoBitAbove(x: nat, i: nat, k: nat)
    requires x < Pow2(i) && k >= i
    ensures !Bit(x, k)
  {
    if i == 0 {
      BitOfZero(k);
    } else if k > 0 {
      NoBitAbove(x / 2, i - 1, k - 1);
    }
  }
}
