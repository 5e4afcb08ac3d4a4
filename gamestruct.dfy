/**
 * The game record header (gamestruct.hpp): its own colour numbering, a
 * game as two board words and a move number, and the stone count of a
 * colour.
 */
module GameStruct {
  import opened Bits
  import opened Common
  import Swar

  /** This header numbers black 0 and white 1, the reverse of the Side enum. */
  const BLACK: nat := 0
  const WHITE: nat := 1

  /** The two board words, indexed by colour. */
  type Words = w: seq<bv64> | |w| == 2 witness [0, 0]

  datatype Game = Game(board: Words, moveNum: uint8)

  /**
   * This header defines its own num_ones, with the same constants as the one
   * of board.cpp; Swar.NumOnes models both copies. Its Hamming weight is at most 64, 0 for the empty
   * word and 64 for the full word.
   */
  lemma NumOnesRange(x: bv64)
    ensures Swar.NumOnes(x) as int <= 64
    ensures Swar.NumOnes(0) as int == 0 && Swar.NumOnes(ALL_ONES) as int == 64
  {
    PopCountRange(x);
  }

  /** num_stones(game, color): the Hamming weight of that colour's word. */
  function NumStones(g: Game, color: nat): (r: bv64)
    requires color == BLACK || color == WHITE
    ensures r as int == PopCount(g.board[color]) <= 64
  {
    Swar.NumOnes(g.board[color])
  }

  /** The colour numbering of this header is the opposite of the Side enum's. */
  lemma ColourNumbering()
    ensures Index(Black) == WHITE && Index(White) == BLACK
    ensures Index(Not(Black)) == BLACK
  {
    NotValues();
  }
}
