/** The machine words and C bit operations the trace map is built from.

    A `uintptr_t` is a `Word`: an integer in [0, 2^64). The C operators `&` and
    `^` on such words are the recursive functions `And` and `Xor` on naturals,
    `x >> 1` is `x / 2`, and `x - 1` wraps around through `% WordModulus`.
    Map bytes are `bv8`, so `++`, `--`, `|=` and `&` on a `uint8_t` wrap and
    mask exactly as in C. */
module Bits {

  const WordModulus: int := 0x1_0000_0000_0000_0000

  /** `uintptr_t` on a 64-bit target. */
  type Word = x: int | 0 <= x < WordModulus

  function Pow2(n: nat): (r: nat)
    ensures r >= 1
  {
    if n == 0 then 1 else 2 * Pow2(n - 1)
  }

  /** Bitwise and of two naturals, one binary digit at a time. */
  function And(a: nat, b: nat): nat
    decreases a
  {
    if a == 0 || b == 0 then 0
    else 2 * And(a / 2, b / 2) + (if a % 2 == 1 && b % 2 == 1 then 1 else 0)
  }

  /** Bitwise exclusive or of two naturals, one binary digit at a time. */
  function Xor(a: nat, b: nat): nat
    decreases a + b
  {
    if a == 0 && b == 0 then 0
    else 2 * Xor(a / 2, b / 2) + (if a % 2 == b % 2 then 0 else 1)
  }

  /** The number of set bits: the reference meaning of "has exactly one bit set". */
  function PopCount(a: nat): nat
    decreases a
  {
    if a == 0 then 0 else a % 2 + PopCount(a / 2)
  }

  /** `(x & (x - 1)) == 0` on a `uintptr_t`; for `x == 0` the subtraction wraps to all ones. */
  function IsPowerOfTwoOrZero(x: Word): bool
  {
    And(x, (x - 1) % WordModulus) == 0
  }

  lemma {:induction false} AndSelf(a: nat)
    ensures And(a, a) == a
    decreases a
  {
    if a != 0 {
      AndSelf(a / 2);
    }
  }

  lemma {:induction false} PopCountZero(a: nat)
    ensures PopCount(a) == 0 <==> a == 0
    decreases a
  {
    if a != 0 {
      PopCountZero(a / 2);
    }
  }

  lemma {:induction false} AndPredecessor(a: nat)
    requires a > 0
    ensures And(a, a - 1) == 0 <==> PopCount(a) == 1
    decreases a
  {
    if a % 2 == 1 {
      assert (a - 1) / 2 == a / 2;
      AndSelf(a / 2);
      PopCountZero(a / 2);
    } else {
      assert (a - 1) / 2 == a / 2 - 1 && (a - 1) % 2 == 1;
      AndPredecessor(a / 2);
    }
  }

  /** The power-of-two test holds exactly for zero and for words with one set bit. */
  lemma PowerOfTwoOrZeroIff(x: Word)
    ensures IsPowerOfTwoOrZero(x) <==> x == 0 || PopCount(x) == 1
  {
    if x != 0 {
      AndPredecessor(x);
    }
  }

  /** A word has exactly one set bit iff it is a power of two. */
  lemma {:induction false} PopCountOne(x: nat)
    ensures PopCount(x) == 1 <==> exists k: nat :: x == Pow2(k)
    decreases x
  {
    if PopCount(x) == 1 {
      if x % 2 == 1 {
        PopCountZero(x / 2);
        assert x == Pow2(0);
      } else {
        PopCountOne(x / 2);
        var k: nat :| x / 2 == Pow2(k);
        assert x == Pow2(k + 1);
      }
    }
    if exists k: nat :: x == Pow2(k) {
      var k: nat :| x == Pow2(k);
      PopCountOfPow2(k);
    }
  }

  lemma {:induction false} PopCountOfPow2(k: nat)
    ensures PopCount(Pow2(k)) == 1
  {
    if k > 0 {
      PopCountOfPow2(k - 1);
      assert Pow2(k) / 2 == Pow2(k - 1) && Pow2(k) % 2 == 0;
    }
  }

  /** Words below 2^n exclusive-or to a word below 2^n. */
  lemma {:induction false} XorBound(a: nat, b: nat, n: nat)
    requires a < Pow2(n) && b < Pow2(n)
    ensures Xor(a, b) < Pow2(n)
    decreases n
  {
    if n > 0 && !(a == 0 && b == 0) {
      XorBound(a / 2, b / 2, n - 1);
    }
  }

  /** Exclusive or with a fixed word is its own inverse. */
  lemma {:induction false} XorSelfInverse(a: nat, b: nat)
    ensures Xor(a, Xor(a, b)) == b
    decreases a + b
  {
    if !(a == 0 && b == 0) {
      var c := Xor(a, b);
      assert c / 2 == Xor(a / 2, b / 2) && c % 2 == (if a % 2 == b % 2 then 0 else 1);
      XorSelfInverse(a / 2, b / 2);
    }
  }

  /** Zero extension of a `uint8_t` to a `uintptr_t`, written as the sum of its bit weights. */
  function Widen(b: bv8): (r: Word)
    ensures r < 256
    ensures r == 0 <==> b == 0
  {
    (if b & 0x01 != 0 then 1 else 0) + (if b & 0x02 != 0 then 2 else 0)
    + (if b & 0x04 != 0 then 4 else 0) + (if b & 0x08 != 0 then 8 else 0)
    + (if b & 0x10 != 0 then 16 else 0) + (if b & 0x20 != 0 then 32 else 0)
    + (if b & 0x40 != 0 then 64 else 0) + (if b & 0x80 != 0 then 128 else 0)
  }

  /** The widened value is the byte's own value. */
  lemma WidenValue(b: bv8)
    ensures Widen(b) == b as int
  {
  }

  /** `1 << k` for a bit position inside a byte. */
  function Mask(k: nat): bv8
    requires k < 8
  {
    (1 as bv8) << k
  }

  /** The mask names exactly one bit of a byte, bit `k`. */
  lemma MaskSingleBit(k: nat, j: nat)
    requires k < 8 && j < 8
    ensures Mask(k) & Mask(j) != 0 <==> j == k
  {
  }

  /** Or-ing in a bit that is already set leaves the byte as it was. */
  lemma OrMaskSet(b: bv8, k: nat)
    requires k < 8 && b & Mask(k) != 0
    ensures b | Mask(k) == b
  {
  }

  /** Bit `p` of the bitset stored in `m`, byte `p / 8`, bit `p % 8` (as the context map is used). */
  predicate BitSet(m: seq<bv8>, p: nat)
    requires p < 8 * |m|
  {
    m[p / 8] & Mask(p % 8) != 0
  }
}
