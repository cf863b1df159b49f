/** Edge hashing and map indexing.

    XXH32 itself is not part of this model: it is the parameter `xxh`, any
    function from a byte string to a 32-bit digest. What is modelled is what
    the trace map feeds into it (the in-memory bytes of a `uintptr_t` and of a
    `bool`) and how the digest is reduced to an index. */
module Hashing {
  import opened Bits

  /** `kMapSize`: bytes in each of the three maps. */
  const MapSize: nat := 65536

  /** Bits in the context map (`kMapSize * __CHAR_BIT__`). */
  const ContextBits: nat := MapSize * 8

  /** `XXH32_hash_t`. */
  type U32 = x: int | 0 <= x < 0x1_0000_0000

  /** One byte of the input handed to the hash. The bytes of a word are obtained by integer
      division, so they are integers here; the map buffers, whose bytes wrap and are masked,
      use `bv8`. */
  type Octet = x: int | 0 <= x < 256

  /** One-shot XXH32 with seed 0 over the concatenation of everything fed to `XXH32_update`. */
  type Hasher = seq<Octet> -> U32

  /** 256^n, the bound of a number laid out in `n` bytes (`Pow2(8 * n)` in bit terms). */
  function Pow256(n: nat): (r: nat)
    ensures r >= 1
  {
    if n == 0 then 1 else 256 * Pow256(n - 1)
  }

  lemma Pow256Of8()
    ensures Pow256(8) == WordModulus
  {
    assert Pow256(2) == 0x1_0000;
    assert Pow256(4) == 0x1_0000_0000;
    assert Pow256(6) == 0x1_0000_0000_0000;
  }

  /** The `n` bytes of `x` in memory order on a little-endian target. */
  function LeBytes(x: nat, n: nat): (r: seq<Octet>)
    ensures |r| == n
    decreases n
  {
    if n == 0 then [] else [x % 256] + LeBytes(x / 256, n - 1)
  }

  /** Reads a little-endian number back from its bytes. */
  function FromLeBytes(s: seq<Octet>): nat
  {
    if s == [] then 0 else s[0] + 256 * FromLeBytes(s[1..])
  }

  lemma DivBound(x: nat, m: nat)
    requires x < 256 * m
    ensures x / 256 < m
  {
  }

  /** No information is lost when a word is laid out as bytes. */
  lemma {:induction false} LeBytesRoundTrip(x: nat, n: nat)
    requires x < Pow256(n)
    ensures FromLeBytes(LeBytes(x, n)) == x
    decreases n
  {
    if n > 0 {
      var s := LeBytes(x, n);
      assert s[1..] == LeBytes(x / 256, n - 1);
      DivBound(x, Pow256(n - 1));
      LeBytesRoundTrip(x / 256, n - 1);
    }
  }

  /** `sizeof(uintptr_t)` bytes of a word in memory order on a little-endian target. */
  function WordBytes(x: Word): (r: seq<Octet>)
    ensures |r| == 8
  {
    LeBytes(x, 8)
  }

  lemma WordBytesInjective(x: Word, y: Word)
    ensures WordBytes(x) == WordBytes(y) <==> x == y
  {
    if WordBytes(x) == WordBytes(y) {
      Pow256Of8();
      LeBytesRoundTrip(x, 8);
      LeBytesRoundTrip(y, 8);
    }
  }

  /** The bytes `hashPc` hands to XXH32: the address as-is, then the one-byte `bool`. */
  function PcInput(pc: Word, taken: bool): (r: seq<Octet>)
    ensures |r| == 9
  {
    WordBytes(pc) + [if taken then 1 else 0]
  }

  /** The pair (pc, taken) reaches the hash unabridged: only XXH32 and the reduction collide. */
  lemma PcInputInjective(pc1: Word, taken1: bool, pc2: Word, taken2: bool)
    ensures PcInput(pc1, taken1) == PcInput(pc2, taken2) <==> pc1 == pc2 && taken1 == taken2
  {
    if PcInput(pc1, taken1) == PcInput(pc2, taken2) {
      assert PcInput(pc1, taken1)[..8] == WordBytes(pc1);
      assert PcInput(pc2, taken2)[..8] == WordBytes(pc2);
      assert PcInput(pc1, taken1)[8] == PcInput(pc2, taken2)[8];
      WordBytesInjective(pc1, pc2);
    }
  }

  /** `hashPc`: the edge identifier of a branch outcome. */
  function HashPc(xxh: Hasher, pc: Word, taken: bool): (h: Word)
    ensures h < MapSize
  {
    xxh(PcInput(pc, taken)) % MapSize
  }

  /** `getIndex`: `((prev_loc_ >> 1) ^ h) % kMapSize`. */
  function GetIndex(prevLoc: Word, h: Word): (idx: Word)
    ensures idx < MapSize
  {
    Xor(prevLoc / 2, h) % MapSize
  }

  lemma MapSizeIsPow2()
    ensures MapSize == Pow2(16)
  {
    assert Pow2(4) == 16;
    assert Pow2(8) == 256;
    assert Pow2(12) == 4096;
  }

  /** Following a given edge identifier, distinct edge identifiers own distinct map indices. */
  lemma GetIndexInjective(prevLoc: Word, h1: Word, h2: Word)
    requires prevLoc < MapSize && h1 < MapSize && h2 < MapSize
    ensures GetIndex(prevLoc, h1) == GetIndex(prevLoc, h2) <==> h1 == h2
  {
    var a := prevLoc / 2;
    MapSizeIsPow2();
    XorBound(a, h1, 16);
    XorBound(a, h2, 16);
    var x1, x2 := Xor(a, h1), Xor(a, h2);
    assert GetIndex(prevLoc, h1) == x1 && GetIndex(prevLoc, h2) == x2;
    if x1 == x2 {
      XorSelfInverse(a, h1);
      XorSelfInverse(a, h2);
      assert h1 == Xor(a, x1) && h2 == Xor(a, x2);
    }
  }

  /** The bit of the context map owned by the pair (prev_h, h): XXH32 over both words, in that order. */
  function ContextHash(xxh: Hasher, prevH: Word, h: Word): (p: nat)
    ensures p < ContextBits
  {
    xxh(WordBytes(prevH) + WordBytes(h)) % ContextBits
  }

  /** The byte `hash / 8` lies inside the context map and `1 << (hash % 8)` is one bit. */
  lemma ContextSlotInBounds(p: nat)
    requires p < ContextBits
    ensures p / 8 < MapSize
    ensures forall j: nat :: j < 8 ==> (Mask(p % 8) & Mask(j) != 0 <==> j == p % 8)
  {
    forall j: nat | j < 8
      ensures Mask(p % 8) & Mask(j) != 0 <==> j == p % 8
    {
      MaskSingleBit(p % 8, j);
    }
  }
}
