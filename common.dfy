/** Sides, the side toggle and the Move record shared by the board and the player. */
module Common {
  /** A C++ `int` (32 bits, two's complement). */
  newtype int32 = x: int | -0x8000_0000 <= x < 0x8000_0000

  /** A C++ `uint8_t`. */
  newtype uint8 = x: int | 0 <= x < 0x100

  /** The two sides, declared in the order that gives WHITE the value 0 and BLACK the value 1. */
  datatype Side = White | Black

  /** The enum value of a side: its index into a board's pair of words. */
  function Index(s: Side): (i: nat)
    ensures i < 2
  {
    match s
    case White => 0
    case Black => 1
  }

  function FromIndex(i: nat): (s: Side)
    requires i < 2
    ensures Index(s) == i
  {
    if i == 0 then White else Black
  }

  /** operator!: the side as a bool, negated, cast back to a side. */
  function Not(s: Side): (r: Side)
  {
    var asBool := Index(s) != 0;
    FromIndex(if !asBool then 1 else 0)
  }

  /** !WHITE == BLACK and !BLACK == WHITE. */
  lemma NotValues()
    ensures Not(White) == Black && Not(Black) == White
  {}

  /** The toggle is an involution that never returns its argument. */
  lemma NotInvolution(s: Side)
    ensures Not(Not(s)) == s
    ensures Not(s) != s
    ensures Index(Not(s)) == 1 - Index(s)
  {}

  /** WHITE is 0 and BLACK is 1, so the white word is the first word of a board. */
  lemma SideValues()
    ensures Index(White) == 0 && Index(Black) == 1
    ensures forall i: nat :: i < 2 ==> Index(FromIndex(i)) == i
  {}

  /** A move: column x and row y. */
  class Move {
    var x: int32
    var y: int32

    constructor (x: int32, y: int32)
      ensures this.x == x && this.y == y
    {
      this.x := x;
      this.y := y;
    }

    method GetX() returns (r: int32)
      ensures r == x
    {
      return x;
    }

    method GetY() returns (r: int32)
      ensures r == y
    {
      return y;
    }

    method SetX(x: int32)
      modifies this
      ensures this.x == x && this.y == old(this.y)
    {
      this.x := x;
    }

    method SetY(y: int32)
      modifies this
      ensures this.y == y && this.x == old(this.x)
    {
      this.y := y;
    }
  }
}
