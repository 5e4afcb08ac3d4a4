/** Bits of a 64-bit word and the reference definition of its number of ones. */
module Bits {
  const ALL_ONES: bv64 := 0xFFFF_FFFF_FFFF_FFFF

  /** Bit i of x is set. Square (row, col) of a board word is bit 8 * row + col. */
  predicate Bit(x: bv64, i: bv8)
    requires i < 64
  {
    (x >> i) & 1 == 1
  }

  function Ind(b: bool): nat { if b then 1 else 0 }

  /** Number of set bits of x at positions i..63. */
  function CountFrom(x: bv64, i: bv8): nat
    requires i <= 64
    decreases x, 64 - i as int
  {
    if i == 64 then 0 else Ind(Bit(x, i)) + CountFrom(x, i + 1)
  }

  /** The Hamming weight of x, bit by bit. */
  function PopCount(x: bv64): nat { CountFrom(x, 0) }

  lemma {:induction false} CountFromBound(x: bv64, i: bv8)
    requires i <= 64
    ensures CountFrom(x, i) <= 64 - i as int
    decreases 64 - i as int
  {
    if i < 64 { CountFromBound(x, i + 1); }
  }

  lemma {:induction false} CountFromZero(i: bv8)
    requires i <= 64
    ensures CountFrom(0, i) == 0
    decreases 64 - i as int
  {
    if i < 64 { CountFromZero(i + 1); }
  }

  lemma {:induction false} CountFromAllOnes(i: bv8)
    requires i <= 64
    ensures CountFrom(ALL_ONES, i) == 64 - i as int
    decreases 64 - i as int
  {
    if i < 64 { CountFromAllOnes(i + 1); }
  }

  /** A word has at most 64 ones; the empty word none and the full word 64. */
  lemma PopCountRange(x: bv64)
    ensures PopCount(x) <= 64
    ensures PopCount(0) == 0
    ensures PopCount(ALL_ONES) == 64
  {
    CountFromBound(x, 0);
    CountFromZero(0);
    CountFromAllOnes(0);
  }

  /** A word with exactly 64 ones is the full word. */
  lemma {:induction false} CountFromFull(x: bv64, i: bv8)
    requires i <= 64
    requires CountFrom(x, i) == 64 - i as int
    ensures forall j: bv8 :: i <= j < 64 ==> Bit(x, j)
    decreases 64 - i as int
  {
    if i < 64 {
      CountFromBound(x, i + 1);
      CountFromFull(x, i + 1);
    }
  }

  /** Byte k of x (bits 8k..8k+7) as a small number. */
  function ByteOf(x: bv64, k: bv8): bv64
    requires k < 8
  {
    (x >> (8 * k)) & 0xFF
  }

  /** Number of set bits in byte k of x. */
  function ByteCount(x: bv64, k: bv8): nat
    requires k < 8
  {
    Ind(Bit(x, 8 * k)) + Ind(Bit(x, 8 * k + 1)) + Ind(Bit(x, 8 * k + 2)) + Ind(Bit(x, 8 * k + 3))
    + Ind(Bit(x, 8 * k + 4)) + Ind(Bit(x, 8 * k + 5)) + Ind(Bit(x, 8 * k + 6)) + Ind(Bit(x, 8 * k + 7))
  }

  lemma CountFromFour(x: bv64, i: bv8)
    requires i <= 60
    ensures CountFrom(x, i) == Ind(Bit(x, i)) + Ind(Bit(x, i + 1)) + Ind(Bit(x, i + 2)) + Ind(Bit(x, i + 3))
                               + CountFrom(x, i + 4)
  {
    assert CountFrom(x, i) == Ind(Bit(x, i)) + CountFrom(x, i + 1);
    assert CountFrom(x, i + 1) == Ind(Bit(x, i + 1)) + CountFrom(x, i + 2);
    assert CountFrom(x, i + 2) == Ind(Bit(x, i + 2)) + CountFrom(x, i + 3);
  }

  lemma CountFromByte(x: bv64, k: bv8)
    requires k < 8
    ensures CountFrom(x, 8 * k) == ByteCount(x, k) + CountFrom(x, 8 * k + 8)
  {
    CountFromFour(x, 8 * k);
    CountFromFour(x, 8 * k + 4);
  }

  /** The Hamming weight is the sum of the eight byte weights. */
  lemma PopCountBytes(x: bv64)
    ensures PopCount(x) == ByteCount(x, 0) + ByteCount(x, 1) + ByteCount(x, 2) + ByteCount(x, 3)
                         + ByteCount(x, 4) + ByteCount(x, 5) + ByteCount(x, 6) + ByteCount(x, 7)
  {
    CountFromByte(x, 0); CountFromByte(x, 1); CountFromByte(x, 2); CountFromByte(x, 3);
    CountFromByte(x, 4); CountFromByte(x, 5); CountFromByte(x, 6); CountFromByte(x, 7);
  }

  /** A word whose 64 bits are all set is the full word: its complement has none set. */
  lemma AllBitsSet(x: bv64)
    requires forall j: bv8 :: j < 64 ==> Bit(x, j)
    ensures x == ALL_ONES
  {
    var y := !x;
    forall j: bv8 | j < 64
      ensures !Bit(y, j)
    {
      assert Bit(x, j);
    }
    NoBitsSet(y);
  }

  /** Only the full word has 64 ones. */
  lemma PopCountFull(x: bv64)
    ensures PopCount(x) == 64 <==> x == ALL_ONES
  {
    PopCountRange(x);
    if PopCount(x) == 64 {
      CountFromFull(x, 0);
      AllBitsSet(x);
    }
  }

  /** A word with no ones from bit i upward has none of those bits set. */
  lemma {:induction false} CountFromNone(x: bv64, i: bv8)
    requires i <= 64 && CountFrom(x, i) == 0
    ensures forall j: bv8 :: i <= j < 64 ==> !Bit(x, j)
    decreases 64 - i as int
  {
    if i < 64 {
      CountFromNone(x, i + 1);
    }
  }

  /** A word none of whose 64 bits is set is zero: the 64 instances, a row of the board per line. */
  lemma NoBitsSet(x: bv64)
    requires forall j: bv8 :: j < 64 ==> !Bit(x, j)
    ensures x == 0
  {
    assert !Bit(x, 0) && !Bit(x, 1) && !Bit(x, 2) && !Bit(x, 3) && !Bit(x, 4) && !Bit(x, 5) && !Bit(x, 6) && !Bit(x, 7);
    assert !Bit(x, 8) && !Bit(x, 9) && !Bit(x, 10) && !Bit(x, 11) && !Bit(x, 12) && !Bit(x, 13) && !Bit(x, 14) && !Bit(x, 15);
    assert !Bit(x, 16) && !Bit(x, 17) && !Bit(x, 18) && !Bit(x, 19) && !Bit(x, 20) && !Bit(x, 21) && !Bit(x, 22) && !Bit(x, 23);
    assert !Bit(x, 24) && !Bit(x, 25) && !Bit(x, 26) && !Bit(x, 27) && !Bit(x, 28) && !Bit(x, 29) && !Bit(x, 30) && !Bit(x, 31);
    assert !Bit(x, 32) && !Bit(x, 33) && !Bit(x, 34) && !Bit(x, 35) && !Bit(x, 36) && !Bit(x, 37) && !Bit(x, 38) && !Bit(x, 39);
    assert !Bit(x, 40) && !Bit(x, 41) && !Bit(x, 42) && !Bit(x, 43) && !Bit(x, 44) && !Bit(x, 45) && !Bit(x, 46) && !Bit(x, 47);
    assert !Bit(x, 48) && !Bit(x, 49) && !Bit(x, 50) && !Bit(x, 51) && !Bit(x, 52) && !Bit(x, 53) && !Bit(x, 54) && !Bit(x, 55);
    assert !Bit(x, 56) && !Bit(x, 57) && !Bit(x, 58) && !Bit(x, 59) && !Bit(x, 60) && !Bit(x, 61) && !Bit(x, 62) && !Bit(x, 63);
  }

  /** Only the zero word has no ones. */
  lemma PopCountZero(x: bv64)
    ensures PopCount(x) == 0 <==> x == 0
  {
    CountFromZero(0);
    if PopCount(x) == 0 {
      CountFromNone(x, 0);
      NoBitsSet(x);
    }
  }
}
