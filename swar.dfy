/**
 * The SWAR Hamming weight num_ones of board.cpp: three carry-free adder stages
 * that leave the number of ones of every byte in that byte, then one
 * multiplication that sums the eight bytes into the top byte.
 */
module Swar {
  import opened Bits

  // The three stages of num_ones, one function each.
  function Pairs(x: bv64): bv64 { x - ((x >> 1) & 0x5555555555555555) }
  function Nibbles(x1: bv64): bv64 { (x1 & 0x3333333333333333) + ((x1 >> 2) & 0x3333333333333333) }
  function Bytes(x2: bv64): bv64 { (x2 + (x2 >> 4)) & 0x0F0F0F0F0F0F0F0F }
  function Gather(y: bv64): bv64 { (y * 0x0101010101010101) >> 56 }

  /** num_ones (board.cpp): Hamming weight of x. */
  function NumOnes(x: bv64): (r: bv64)
    ensures r as int == PopCount(x)
    ensures r as int <= 64
  {
    NumOnesIsPopCount(x);
    PopCountRange(x);
    var x1 := Pairs(x);
    var x2 := Nibbles(x1);
    Gather(Bytes(x2))
  }

  // Carry-free closed forms of the three stages.
  function PairsAdder(x: bv64): bv64 {
    (((x & (x >> 1)) & 0x5555555555555555) << 1) | ((x ^ (x >> 1)) & 0x5555555555555555)
  }
  function NibblesAdder(y: bv64): bv64 {
    var a0 := y & 0x1111111111111111; var a1 := (y >> 1) & 0x1111111111111111;
    var b0 := (y >> 2) & 0x1111111111111111; var b1 := (y >> 3) & 0x1111111111111111;
    var c0 := a0 & b0;
    var c1 := (a1 & b1) | (c0 & (a1 ^ b1));
    (a0 ^ b0) | ((a1 ^ b1 ^ c0) << 1) | (c1 << 2)
  }
  function BytesAdder(z: bv64): bv64 {
    var a0 := z & 0x0101010101010101; var a1 := (z >> 1) & 0x0101010101010101;
    var a2 := (z >> 2) & 0x0101010101010101;
    var b0 := (z >> 4) & 0x0101010101010101; var b1 := (z >> 5) & 0x0101010101010101;
    var b2 := (z >> 6) & 0x0101010101010101;
    var c0 := a0 & b0;
    var c1 := (a1 & b1) | (c0 & (a1 ^ b1));
    var c2 := (a2 & b2) | (c1 & (a2 ^ b2));
    (a0 ^ b0) | ((a1 ^ b1 ^ c0) << 1) | ((a2 ^ b2 ^ c1) << 2) | (c2 << 3)
  }

  /** Each 2-bit field becomes the number of ones it held. */
  lemma PairsIsAdder(x: bv64) ensures Pairs(x) == PairsAdder(x) {}
  /** Each nibble becomes the sum of its two 2-bit counts, at most 4. */
  lemma NibblesIsAdder(y: bv64)
    ensures Nibbles(y) == NibblesAdder(y) && NibblesAdder(y) & 0x8888888888888888 == 0
  {}
  /** Each byte becomes the sum of its two nibble counts, given no nibble exceeds 7. */
  lemma BytesIsAdder(z: bv64)
    requires z & 0x8888888888888888 == 0
    ensures Bytes(z) == BytesAdder(z)
  {}

  function OneAt(x: bv64, i: bv8): bv64 requires i < 64 { (x >> i) & 1 }
  function ByteSum(x: bv64, k: bv8): bv64
    requires k < 8
  {
    OneAt(x, 8 * k) + OneAt(x, 8 * k + 1) + OneAt(x, 8 * k + 2) + OneAt(x, 8 * k + 3)
    + OneAt(x, 8 * k + 4) + OneAt(x, 8 * k + 5) + OneAt(x, 8 * k + 6) + OneAt(x, 8 * k + 7)
  }
  lemma AdderByte(x: bv64, k: bv8)
    requires k < 8
    ensures ByteOf(BytesAdder(NibblesAdder(PairsAdder(x))), k) == ByteSum(x, k)
    ensures BytesAdder(NibblesAdder(PairsAdder(x))) & 0xF0F0F0F0F0F0F0F0 == 0
  {}
  lemma ByteSumCount(x: bv64, k: bv8)
    requires k < 8
    ensures ByteSum(x, k) as int == ByteCount(x, k)
  {}

  lemma StagesAreAdders(x: bv64)
    ensures Bytes(Nibbles(Pairs(x))) == BytesAdder(NibblesAdder(PairsAdder(x)))
  {
    PairsIsAdder(x);
    NibblesIsAdder(PairsAdder(x));
    BytesIsAdder(NibblesAdder(PairsAdder(x)));
  }

  /** Every byte of m is below 16, 32 or 64. */
  predicate Below16(m: bv64) { m & 0xF0F0F0F0F0F0F0F0 == 0 }
  predicate Below32(m: bv64) { m & 0xE0E0E0E0E0E0E0E0 == 0 }
  predicate Below64(m: bv64) { m & 0xC0C0C0C0C0C0C0C0 == 0 }

  /** After the three stages every byte holds the number of ones of that byte of x. */
  lemma ByteCounts(x: bv64)
    ensures Below16(Bytes(Nibbles(Pairs(x))))
    ensures ByteOf(Bytes(Nibbles(Pairs(x))), 0) as int == ByteCount(x, 0)
    ensures ByteOf(Bytes(Nibbles(Pairs(x))), 1) as int == ByteCount(x, 1)
    ensures ByteOf(Bytes(Nibbles(Pairs(x))), 2) as int == ByteCount(x, 2)
    ensures ByteOf(Bytes(Nibbles(Pairs(x))), 3) as int == ByteCount(x, 3)
    ensures ByteOf(Bytes(Nibbles(Pairs(x))), 4) as int == ByteCount(x, 4)
    ensures ByteOf(Bytes(Nibbles(Pairs(x))), 5) as int == ByteCount(x, 5)
    ensures ByteOf(Bytes(Nibbles(Pairs(x))), 6) as int == ByteCount(x, 6)
    ensures ByteOf(Bytes(Nibbles(Pairs(x))), 7) as int == ByteCount(x, 7)
  {
    StagesAreAdders(x);
    AdderByte(x, 0); AdderByte(x, 1); AdderByte(x, 2); AdderByte(x, 3);
    AdderByte(x, 4); AdderByte(x, 5); AdderByte(x, 6); AdderByte(x, 7);
    ByteSumCount(x, 0); ByteSumCount(x, 1); ByteSumCount(x, 2); ByteSumCount(x, 3);
    ByteSumCount(x, 4); ByteSumCount(x, 5); ByteSumCount(x, 6); ByteSumCount(x, 7);
  }

  // Multiplying by 0x0101010101010101 is three doublings: by 0x101 (adjacent
  // bytes summed), by 0x10001 (pairs of pairs) and by 0x100000001 (halves).
  // Each level keeps every byte small enough that no carry crosses a byte.

  lemma SumPairs(m: bv64)
    requires Below16(m)
    ensures Below32(m * 0x101)
    ensures (((m * 0x101) >> 8) & 0xFF) as int == (m & 0xFF) as int + ((m >> 8) & 0xFF) as int
    ensures (((m * 0x101) >> 24) & 0xFF) as int == ((m >> 16) & 0xFF) as int + ((m >> 24) & 0xFF) as int
    ensures (((m * 0x101) >> 40) & 0xFF) as int == ((m >> 32) & 0xFF) as int + ((m >> 40) & 0xFF) as int
    ensures (((m * 0x101) >> 56) & 0xFF) as int == ((m >> 48) & 0xFF) as int + ((m >> 56) & 0xFF) as int
  {}
  lemma SumQuads(m: bv64)
    requires Below32(m)
    ensures Below64(m * 0x10001)
    ensures (((m * 0x10001) >> 24) & 0xFF) as int == ((m >> 8) & 0xFF) as int + ((m >> 24) & 0xFF) as int
    ensures (((m * 0x10001) >> 56) & 0xFF) as int == ((m >> 40) & 0xFF) as int + ((m >> 56) & 0xFF) as int
  {}
  lemma SumHalves(m: bv64)
    requires Below64(m)
    ensures ((m * 0x100000001) >> 56) as int == ((m >> 24) & 0xFF) as int + ((m >> 56) & 0xFF) as int
  {}
  lemma SumQuadsAll()
    ensures forall m: bv64 {:trigger Below32(m)} :: Below32(m) ==> (Below64(m * 0x10001)
      && (((m * 0x10001) >> 24) & 0xFF) as int == ((m >> 8) & 0xFF) as int + ((m >> 24) & 0xFF) as int
      && (((m * 0x10001) >> 56) & 0xFF) as int == ((m >> 40) & 0xFF) as int + ((m >> 56) & 0xFF) as int)
  {
    forall m: bv64 | Below32(m)
      ensures Below64(m * 0x10001)
      ensures (((m * 0x10001) >> 24) & 0xFF) as int == ((m >> 8) & 0xFF) as int + ((m >> 24) & 0xFF) as int
      ensures (((m * 0x10001) >> 56) & 0xFF) as int == ((m >> 40) & 0xFF) as int + ((m >> 56) & 0xFF) as int
    {
      SumQuads(m);
    }
  }
  lemma SumHalvesAll()
    ensures forall m: bv64 {:trigger Below64(m)} :: Below64(m) ==>
      ((m * 0x100000001) >> 56) as int == ((m >> 24) & 0xFF) as int + ((m >> 56) & 0xFF) as int
  {
    forall m: bv64 | Below64(m)
      ensures ((m * 0x100000001) >> 56) as int == ((m >> 24) & 0xFF) as int + ((m >> 56) & 0xFF) as int
    {
      SumHalves(m);
    }
  }
  lemma SecondLevel(y: bv64)
    requires Below32(y * 0x101)
    ensures Below64(y * 0x01010101)
    ensures (((y * 0x01010101) >> 24) & 0xFF) as int == (((y * 0x101) >> 8) & 0xFF) as int + (((y * 0x101) >> 24) & 0xFF) as int
    ensures (((y * 0x01010101) >> 56) & 0xFF) as int == (((y * 0x101) >> 40) & 0xFF) as int + (((y * 0x101) >> 56) & 0xFF) as int
  {
    SumQuadsAll();
  }
  lemma ThirdLevel(y: bv64)
    requires Below64(y * 0x01010101)
    ensures ((y * 0x0101010101010101) >> 56) as int == (((y * 0x01010101) >> 24) & 0xFF) as int + (((y * 0x01010101) >> 56) & 0xFF) as int
  {
    SumHalvesAll();
  }
  lemma ByteLiterals(y: bv64)
    ensures ByteOf(y, 0) == y & 0xFF && ByteOf(y, 1) == (y >> 8) & 0xFF
    ensures ByteOf(y, 2) == (y >> 16) & 0xFF && ByteOf(y, 3) == (y >> 24) & 0xFF
    ensures ByteOf(y, 4) == (y >> 32) & 0xFF && ByteOf(y, 5) == (y >> 40) & 0xFF
    ensures ByteOf(y, 6) == (y >> 48) & 0xFF && ByteOf(y, 7) == (y >> 56) & 0xFF
  {}

  /** The last line of num_ones: the top byte of the product is the sum of the eight bytes. */
  lemma GatherSums(y: bv64)
    requires Below16(y)
    ensures Gather(y) as int
      == ByteOf(y, 0) as int + ByteOf(y, 1) as int + ByteOf(y, 2) as int + ByteOf(y, 3) as int
       + ByteOf(y, 4) as int + ByteOf(y, 5) as int + ByteOf(y, 6) as int + ByteOf(y, 7) as int
  {
    SumPairs(y); SecondLevel(y); ThirdLevel(y); ByteLiterals(y);
  }

  lemma NumOnesIsPopCount(x: bv64)
    ensures Gather(Bytes(Nibbles(Pairs(x)))) as int == PopCount(x)
  {
    ByteCounts(x);
    GatherSums(Bytes(Nibbles(Pairs(x))));
    PopCountBytes(x);
  }
}
