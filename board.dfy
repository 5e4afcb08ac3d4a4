/**
 * The Board of board.hpp: two 64-bit words, bits[WHITE] and bits[BLACK], in
 * which square (row, col) is bit 8 * row + col and the least significant bit
 * is the upper left-hand corner; the macros over it; and set_board.
 */
module Bitboard {
  import opened Common
  import opened Bits
  import opened Swar
  import opened MoveGen

  /** The opening position of board.hpp: white on (3, 3) and (4, 4), black on (3, 4) and (4, 3). */
  const OPENING_WHITE: bv64 := 0x0000_0010_0800_0000
  const OPENING_BLACK: bv64 := 0x0000_0008_1000_0000

  /** The mask of square n: the 64-bit word 1 << n. */
  function StoneMask(n: bv8): bv64
    requires n < 64
  {
    (1 as bv64) << n
  }

  /** The mask of square n holds square n and no other. */
  lemma StoneMaskBit(m: bv64, n: bv8, p: bv8)
    requires n < 64 && p < 64 && m == StoneMask(n)
    ensures Bit(m, p) <==> p == n
  {}

  /**
   * The mask that set_stone ORs in as written: the literal 1 is an `int`, so the
   * shift happens in 32 bits, and the result is converted to uint64, which
   * sign-extends bit 31. A shift by 32 or more is undefined, hence the requires.
   */
  function StoneMaskAsWritten(n: bv8): (m: bv64)
    requires n < 32
    ensures Bit(m, n)
  {
    var v: bv32 := (1 as bv32) << n;
    if v & 0x8000_0000 != 0 then (v as bv64) | 0xFFFF_FFFF_0000_0000 else v as bv64
  }

  /** Below square 31 the 32-bit shift gives the intended mask. */
  lemma StoneMaskAsWrittenBelow31(n: bv8)
    requires n < 31
    ensures StoneMaskAsWritten(n) == StoneMask(n)
  {}

  /**
   * At square 31 it does not: the sign extension also sets the 32 squares of
   * rows 4 to 7, so set_stone on (3, 7) fills the lower half of the board.
   */
  lemma StoneMaskAsWrittenAt31()
    ensures StoneMaskAsWritten(31) == 0xFFFF_FFFF_8000_0000
    ensures StoneMaskAsWritten(31) != StoneMask(31)
    ensures forall p: bv8 :: 31 <= p < 64 ==> Bit(StoneMaskAsWritten(31), p)
  {
    var m := StoneMaskAsWritten(31);
    assert m == 0xFFFF_FFFF_8000_0000;
    forall p: bv8 | 31 <= p < 64
      ensures Bit(m, p)
    {
      assert (m >> p) & 1 == 1;
    }
  }

  /** is_move: bit 8 * row + col of the move word, as 0 or 1. */
  function IsMove(moves: bv64, row: int, col: int): (r: bv64)
    requires 0 <= 8 * row + col < 64
    ensures r == 0 || r == 1
    ensures r == 1 <==> Bit(moves, (8 * row + col) as bv8)
  {
    (moves >> ((8 * row + col) as bv8)) & 1
  }

  /** num_moves: the number of moves in a move word. */
  function NumMoves(moves: bv64): (r: bv64)
    ensures r as int == PopCount(moves) <= 64
  {
    NumOnes(moves)
  }

  /** The squares whose character in data is c. */
  ghost function Marked(data: seq<char>, c: char): iset<bv8>
    requires |data| >= 64
  {
    iset i: bv8 | i < 64 && data[i] == c
  }

  /** The word whose squares are those of marks below n: what set_board has placed after n characters. */
  ghost function Placed(marks: iset<bv8>, n: bv8): bv64
    requires n <= 64
    decreases n
  {
    if n == 0 then 0
    else if n - 1 in marks then Union(Placed(marks, n - 1), StoneMask(n - 1))
    else Placed(marks, n - 1)
  }

  /** Placing square n adds square n and no other. */
  lemma PlaceStep(u: bv64, w: bv64, n: bv8, p: bv8)
    requires n < 64 && p < 64 && u == Union(w, StoneMask(n))
    ensures Bit(u, p) <==> Bit(w, p) || p == n
  {
    UnionBit(u, w, StoneMask(n), p);
    StoneMaskBit(StoneMask(n), n, p);
  }

  /** Square p is placed exactly when it lies below n and is marked. */
  lemma {:induction false} PlacedSquares(marks: iset<bv8>, n: bv8, p: bv8)
    requires n <= 64 && p < 64
    ensures Bit(Placed(marks, n), p) <==> p < n && p in marks
    decreases n
  {
    if n > 0 {
      PlacedSquares(marks, n - 1, p);
      if n - 1 in marks {
        PlaceStep(Placed(marks, n), Placed(marks, n - 1), n - 1, p);
      }
    }
  }

  class Board {
    /** bits[WHITE] and bits[BLACK]. */
    var bits: array<bv64>

    ghost predicate Valid()
      reads this
    {
      bits.Length == 2
    }

    constructor (white: bv64, black: bv64)
      ensures Valid() && fresh(bits)
      ensures bits[Index(White)] == white && bits[Index(Black)] == black
    {
      bits := new bv64[2] [white, black];
    }

    /** get_stones. */
    function GetStones(side: Side): bv64
      reads this, bits
      requires Valid()
    {
      bits[Index(side)]
    }

    /** all_stones: the squares that either side occupies. */
    function AllStones(): (r: bv64)
      reads this, bits
      requires Valid()
      ensures forall p: bv8 :: p < 64 ==> (Bit(r, p) <==> Bit(bits[0], p) || Bit(bits[1], p))
    {
      var white := bits[Index(White)];
      var black := bits[Index(Black)];
      var r := Union(white, black);
      UnionBits(r, white, black);
      r
    }

    /**
     * set_stone with a 64-bit shift: ORs the bit of square 8 * row + col into the
     * word of side. (As written the shift is a 32-bit one; see StoneMaskAsWritten.)
     */
    method SetStone(row: bv8, col: bv8, side: Side)
      requires Valid() && row < 8 && col < 64 && 8 * row + col < 64
      modifies bits
      ensures bits[Index(side)] == Union(old(bits[Index(side)]), StoneMask(8 * row + col))
      ensures bits[1 - Index(side)] == old(bits[1 - Index(side)])
    {
      bits[Index(side)] := Union(bits[Index(side)], StoneMask(8 * row + col));
    }

    /** get_moves as written, through all_moves as written. */
    function GetMovesAsWritten(side: Side): bv64
      reads this, bits
      requires Valid()
    {
      AllMovesAsWritten(GetStones(side), GetStones(Not(side)))
    }

    /** get_moves through the corrected all_moves. */
    function GetMoves(side: Side): bv64
      reads this, bits
      requires Valid()
    {
      AllMoves(GetStones(side), GetStones(Not(side)))
    }

    /** num_stones: the number of stones of side. */
    function NumStones(side: Side): (r: bv64)
      reads this, bits
      requires Valid()
      ensures r as int == PopCount(bits[Index(side)]) <= 64
    {
      NumOnes(GetStones(side))
    }

    /** is_full: both sides together occupy every square. */
    function IsFull(): (r: bool)
      reads this, bits
      requires Valid()
      ensures r <==> AllStones() == ALL_ONES
    {
      PopCountFull(AllStones());
      NumOnes(AllStones()) == 64
    }
  }

  /** set_stone leaves a square set once it is set, and a second call changes nothing. */
  lemma SetStoneIdempotent(w: bv64, n: bv8)
    requires n < 64
    ensures Union(Union(w, StoneMask(n)), StoneMask(n)) == Union(w, StoneMask(n))
    ensures forall p: bv8 :: p < 64 ==> (Bit(Union(w, StoneMask(n)), p) <==> Bit(w, p) || p == n)
  {
    var m := StoneMask(n);
    var u := Union(w, m);
    UnionAbsorb(w, m, u);
    forall p: bv8 | p < 64
      ensures Bit(u, p) <==> Bit(w, p) || p == n
    {
      PlaceStep(u, w, n, p);
    }
  }

  lemma UnionAbsorb(w: bv64, m: bv64, u: bv64)
    requires u == Union(w, m)
    ensures Union(u, m) == u
  {}

  /** Every bit of a union, by UnionBit. */
  lemma UnionBits(u: bv64, a: bv64, b: bv64)
    requires u == Union(a, b)
    ensures forall p: bv8 :: p < 64 ==> (Bit(u, p) <==> Bit(a, p) || Bit(b, p))
  {
    forall p: bv8 | p < 64
      ensures Bit(u, p) <==> Bit(a, p) || Bit(b, p)
    {
      UnionBit(u, a, b, p);
    }
  }

  /** get_moves as written reports no move for either side of any board. */
  lemma GetMovesAsWrittenIsZero(b: Board, side: Side)
    requires b.Valid()
    ensures b.GetMovesAsWritten(side) == 0
  {
    AllMovesAsWrittenIsZero(b.GetStones(side), b.GetStones(Not(side)));
  }

  /**
   * get_moves passes bits[side] as the mover and bits[!side] as the opponent: it
   * reports exactly the empty squares from which some direction captures.
   */
  lemma GetMovesSquares(b: Board, side: Side, p: bv8)
    requires b.Valid() && p < 64
    ensures p in Squares(b.GetMoves(side))
        <==> (p !in Squares(b.bits[Index(side)]) && p !in Squares(b.bits[1 - Index(side)])
          && AnyCapture(b.bits[Index(side)], b.bits[1 - Index(side)], p))
  {
    NotInvolution(side);
    AllMovesSquares(b.GetStones(side), b.GetStones(Not(side)), p);
  }

  /** One pass of set_board's loop: in each word, the square of a matching character is added. */
  lemma PlacedNext(data: seq<char>, c: char, i: bv8, before: bv64, w: bv64, u: bv64)
    requires |data| >= 64 && i < 64
    requires w == Union(before, Placed(Marked(data, c), i))
    requires u == (if data[i] == c then Union(w, StoneMask(i)) else w)
    ensures u == Union(before, Placed(Marked(data, c), i + 1))
  {
    if data[i] == c {
      assert i in Marked(data, c);
      UnionAssoc(before, Placed(Marked(data, c), i), StoneMask(i));
    } else {
      assert i !in Marked(data, c);
    }
  }

  /** The body of set_board's loop for index i: square i = 8 * (i / 8) + i % 8 gets the stone its character names. */
  method PlaceSquare(data: seq<char>, board: Board, i: bv8)
    requires |data| >= 64 && i < 64 && board.Valid()
    modifies board.bits
    ensures board.bits[Index(White)]
         == (if data[i] == 'w' then Union(old(board.bits[Index(White)]), StoneMask(i)) else old(board.bits[Index(White)]))
    ensures board.bits[Index(Black)]
         == (if data[i] == 'b' then Union(old(board.bits[Index(Black)]), StoneMask(i)) else old(board.bits[Index(Black)]))
  {
    assert 8 * (i / 8) + i % 8 == i;
    if data[i] == 'w' {
      board.SetStone(i / 8, i % 8, White);
    } else if data[i] == 'b' {
      board.SetStone(i / 8, i % 8, Black);
    }
  }

  /**
   * The body of set_board's loop as written, for the word of the side whose
   * character is c: the stone is placed with the 32-bit set_stone, so only
   * squares below 32 are defined.
   */
  function PlaceAsWritten(data: seq<char>, c: char, w: bv64, i: bv8): (r: bv64)
    requires |data| >= 64 && i < 32
    ensures w & r == w
  {
    if data[i] == c then Union(w, StoneMaskAsWritten(8 * (i / 8) + i % 8)) else w
  }

  /**
   * set_board as written, at square 31: a 'w' or 'b' there ORs
   * 0xFFFFFFFF80000000 into that side's word, so squares 31 to 63 all get the
   * stone, where PlaceSquare adds square 31 alone.
   */
  lemma PlaceAsWrittenAt31(data: seq<char>, c: char, w: bv64)
    requires |data| >= 64 && data[31] == c
    ensures PlaceAsWritten(data, c, w, 31) == w | 0xFFFF_FFFF_8000_0000
    ensures forall p: bv8 :: 31 <= p < 64 ==> Bit(PlaceAsWritten(data, c, w, 31), p)
    ensures !Bit(w, 32) ==> PlaceAsWritten(data, c, w, 31) != Union(w, StoneMask(31))
  {
    StoneMaskAsWrittenAt31();
    var u := PlaceAsWritten(data, c, w, 31);
    forall p: bv8 | 31 <= p < 64
      ensures Bit(u, p)
    {
      UnionBit(u, w, StoneMaskAsWritten(31), p);
    }
    if !Bit(w, 32) {
      PlaceStep(Union(w, StoneMask(31)), w, 31, 32);
    }
  }

  /**
   * set_board: for each of the first 64 characters, 'w' places a white stone
   * and 'b' a black one; any other character leaves the board as it is.
   * Uses the 64-bit set_stone; PlaceAsWrittenAt31 shows what the 32-bit one
   * of board.hpp does instead.
   */
  method SetBoard(data: seq<char>, board: Board)
    requires |data| >= 64 && board.Valid()
    modifies board.bits
    ensures board.bits[Index(White)] == Union(old(board.bits[Index(White)]), Placed(Marked(data, 'w'), 64))
    ensures board.bits[Index(Black)] == Union(old(board.bits[Index(Black)]), Placed(Marked(data, 'b'), 64))
  {
    ghost var white := board.bits[Index(White)];
    ghost var black := board.bits[Index(Black)];
    var i: bv8 := 0;
    while i < 64
      invariant i <= 64
      invariant board.bits[Index(White)] == Union(white, Placed(Marked(data, 'w'), i))
      invariant board.bits[Index(Black)] == Union(black, Placed(Marked(data, 'b'), i))
      decreases 64 - i
    {
      ghost var w := board.bits[Index(White)];
      ghost var b := board.bits[Index(Black)];
      PlaceSquare(data, board, i);
      PlacedNext(data, 'w', i, white, w, board.bits[Index(White)]);
      PlacedNext(data, 'b', i, black, b, board.bits[Index(Black)]);
      i := i + 1;
    }
  }

  /**
   * After set_board a square holds a stone of the side whose character is c iff
   * it held one before or its character is c: set_board never clears a square.
   */
  lemma SetBoardSquares(data: seq<char>, before: bv64, after: bv64, c: char, p: bv8)
    requires |data| >= 64 && p < 64 && after == Union(before, Placed(Marked(data, c), 64))
    ensures Bit(after, p) <==> Bit(before, p) || data[p] == c
  {
    UnionBit(after, before, Placed(Marked(data, c), 64), p);
    PlacedSquares(Marked(data, c), 64, p);
  }

  /** The documented opening: disjoint words of two stones each, on the four centre squares. */
  lemma Opening()
    ensures OPENING_WHITE & OPENING_BLACK == 0
    ensures OPENING_WHITE == StoneMask(27) | StoneMask(36)
    ensures OPENING_BLACK == StoneMask(28) | StoneMask(35)
    ensures PopCount(OPENING_WHITE) == 2 && PopCount(OPENING_BLACK) == 2
  {
    NumOnesIsPopCount(OPENING_WHITE);
    NumOnesIsPopCount(OPENING_BLACK);
  }
}
