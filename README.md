# Othello bitboard engine: Dafny model

This project models the engine of a bitboard Othello player in C++. Its parts are:

- the board of two 64-bit words, one per side, in which square (row, col) is bit `8 * row + col`;
- the bit-parallel move generator `all_moves`, built from `downward_moves` and `upward_moves`;
- the SWAR Hamming weight `num_ones`;
- the `set_board` loader;
- the game record header;
- the `Player`. It keeps a stack of positions and a stack of move lists, one slot per search level. It picks its move with a negascout (principal variation) search whose leaves are scored by a static evaluation.

The modules follow the source files:

| module | file | what it holds |
|---|---|---|
| `Common` | common.dfy | `Side`, its toggle `operator!`, the `Move` class |
| `Bits` | bits.dfy | `PopCount`, the bit-by-bit reference definition of a word's number of ones |
| `Swar` | swar.dfy | `num_ones` as written, proved equal to `PopCount` |
| `MoveGen` | movegen.dfy | `downward_moves`, `upward_moves` and `all_moves`, as written and corrected, proved against a line-capture predicate |
| `Bitboard` | board.dfy | the `Board` class, the macros of board.hpp, `set_board` |
| `GameStruct` | gamestruct.dfy | the `game` record, its colour numbering and `num_stones` |
| `Heuristic` | heuristic.dfy | `Player::heuristic` over the counts it reads, with C++ truncating division |
| `Search` | search.dfy | negascout and negamax as specification functions, and the proof that negascout keeps the window guarantee against negamax |
| `Player` | player.dfy | the `Player` class: its two stacks, and `negascout` and `doMove` as methods over them, proved equal to the `Search` functions |

## How the search is stated and proved

`Search.Score` is `Player::negascout` on a position. It is written as four mutually recursive functions:

- `Score`: the leaf case, and the dispatch to the moves;
- `Node`: the first move, on the full window;
- `Rest`: the loop over the remaining moves;
- `Probe`: one null-window probe, with the re-search when the probe lands inside the window.

`Search.Negamax` is the plain negamax value of the same tree. `Search.ScoreBounds` proves the fail-soft window guarantee: if the result `r` is at or below alpha, it bounds the negamax value from above; if it is at or above beta, it bounds the value from below; if it lies strictly inside, it is the value. `Search.FullWindowExact` concludes that on the widest window the search can take, negascout returns the negamax value exactly.

The `Player` methods work in place on `boardStack` (an `array`) and `moveStack` (an `array2`). Each method is proved to return the matching `Search` function of the position in its slot. Each also leaves the slots below its own untouched. `Player.Player.DoMove` is proved to return the first root move whose negamax value is largest.

The board library that a `Player` position needs is not in these source files. It consists of `set_bits`, `add_stone`, `add_stone_copy`, the three-argument `get_moves` that writes a move list, the two-argument `num_moves` and `num_cat1..3`. The search is therefore generic in a position type `Pos`. A `Search.Env` value carries these operations as functions. `Search.ValidEnv` states the three facts the search relies on:

- a move list fits a 64-byte row;
- `set_bits` stores the words it is given;
- placing a stone never empties the board.

## Model

| member | source | states |
|---|---|---|
| Common.NotValues | common.hpp:4-8 | `!WHITE` is `BLACK` and `!BLACK` is `WHITE` |
| Common.NotInvolution | common.hpp:8 | the side toggle is an involution, never returns its argument, and flips the enum value 0/1 |
| Common.SideValues | common.hpp:4-6 | WHITE is 0 and BLACK is 1, and the index of a side round-trips |
| Common.Move.constructor | common.hpp:14-17 | a new move holds the given x and y |
| Common.Move.GetX | common.hpp:20 | returns x |
| Common.Move.GetY | common.hpp:21 | returns y |
| Common.Move.SetX | common.hpp:23 | sets x and leaves y |
| Common.Move.SetY | common.hpp:24 | sets y and leaves x |
| Bits.PopCountRange | board.hpp:82-83 | a word has at most 64 ones; the empty word has none and the full word has 64 |
| Bits.PopCountFull | board.hpp:88-89 | a word has 64 ones exactly when it is the full word |
| Bits.PopCountZero | board.hpp:82-83 | a word has no ones exactly when it is zero |
| Swar.NumOnes | board.cpp:89-98 | `num_ones` returns the Hamming weight (`PopCount`) of its argument, at most 64 |
| Swar.NumOnesIsPopCount | board.cpp:95-97 | the three SWAR lines compute the number of set bits for every 64-bit word |
| Swar.ByteCounts | board.cpp:95-97 | after the 2-bit, 4-bit and 8-bit stages, every byte holds the number of ones of that byte of x and is below 16 |
| Swar.GatherSums | board.cpp:97 | multiplying by 0x0101010101010101 and shifting by 56 adds the eight byte counts |
| Swar.PairsIsAdder | board.cpp:95 | the first line turns each 2-bit field into the count of its ones |
| Swar.NibblesIsAdder | board.cpp:96 | the second line adds pairs of 2-bit counts into each nibble, none above 4 |
| Swar.BytesIsAdder | board.cpp:97 | the third line adds pairs of nibble counts into each byte |
| GameStruct.NumOnesRange | gamestruct.hpp:19-24 | the header's copy of num_ones is at most 64, 0 on the empty and 64 on the full word |
| GameStruct.NumStones | gamestruct.hpp:26 | num_stones(game, color) is the Hamming weight of that colour's word |
| GameStruct.ColourNumbering | gamestruct.hpp:6-7 | the header numbers BLACK 0 and WHITE 1, the reverse of the Side enum |
| Bitboard.StoneMaskBit | board.hpp:43-46 | the 64-bit mask of a square has that square set and no other |
| Bitboard.StoneMaskAsWrittenBelow31 | board.hpp:46 | the 32-bit shift of set_stone gives the right mask for squares below 31 |
| Bitboard.StoneMaskAsWrittenAt31 | board.hpp:46 | for square 31 the 32-bit shift sign-extends to 0xFFFFFFFF80000000, which sets squares 31 to 63 |
| Bitboard.StoneMaskAsWritten | board.hpp:46 | the mask set_stone ORs in as written, a 32-bit shift sign-extended to 64 bits, always holds its own square; `Bitboard.StoneMaskAsWrittenBelow31` and `Bitboard.StoneMaskAsWrittenAt31` say what else it holds |
| Bitboard.IsMove | board.hpp:76 | is_move is 0 or 1, and 1 exactly when bit 8*row+col of the move word is set |
| Bitboard.NumMoves | board.hpp:92 | num_moves is the number of set bits of the move word |
| Bitboard.Board.constructor | board.hpp:32-35 | a board holds the given white and black words in bits[WHITE] and bits[BLACK] |
| Bitboard.Board.GetStones | board.hpp:38 | get_stones: the word of that side, bits[side] |
| Bitboard.Board.GetMovesAsWritten | board.hpp:73 | get_moves through all_moves as written, with bits[side] as mover and bits[!side] as opponent; it is 0 by `Bitboard.GetMovesAsWrittenIsZero` |
| Bitboard.Board.GetMoves | board.hpp:73 | get_moves through the corrected all_moves; its squares are stated by `Bitboard.GetMovesSquares` |
| Bitboard.Board.AllStones | board.hpp:41 | a square is in all_stones exactly when either side occupies it |
| Bitboard.Board.SetStone | board.hpp:45-46 | set_stone, with the shift done in 64 bits, ORs the square into that side's word and leaves the other word unchanged |
| Bitboard.Board.NumStones | board.hpp:86 | num_stones is the Hamming weight of that side's word |
| Bitboard.Board.IsFull | board.hpp:89 | is_full holds exactly when the two words together cover all 64 squares |
| Bitboard.SetStoneIdempotent | board.hpp:45-46 | a second set_stone on the same square changes nothing, and set_stone adds exactly that square |
| Bitboard.GetMovesAsWrittenIsZero | board.hpp:73 | get_moves through all_moves as written is 0 for every board and side |
| Bitboard.GetMovesSquares | board.hpp:73 | through the corrected all_moves, get_moves reports exactly the empty squares from which the side captures in some direction |
| Bitboard.PlacedSquares | board.cpp:104-114 | after n characters a square is placed exactly when it is below n and carries the character |
| Bitboard.PlacedNext | board.cpp:106-113 | one pass of the loop extends the placed squares from i to i + 1 in each word |
| Bitboard.PlaceSquare | board.cpp:108-112 | with the 64-bit set_stone, 'w' adds square i to the white word, 'b' to the black word, and any other character changes nothing |
| Bitboard.PlaceAsWritten | board.cpp:108-112 | the loop body as written, with the 32-bit set_stone, only ever adds squares to the word; at square 31 `Bitboard.PlaceAsWrittenAt31` shows it adds squares 31 to 63 |
| Bitboard.PlaceAsWrittenAt31 | board.cpp:108-112 | as written, with the 32-bit set_stone, a 'w' or 'b' at square 31 ORs 0xFFFFFFFF80000000 into that side's word, setting squares 31 to 63 |
| Bitboard.SetBoard | board.cpp:104-114 | with the 64-bit set_stone, after set_board each word is its old value united with the squares whose character names that side |
| Bitboard.SetBoardSquares | board.cpp:104-114 | with the 64-bit set_stone, after set_board a square holds a side's stone exactly when it held one before or its character is that side's |
| Bitboard.Opening | board.hpp:16-30 | the opening words are disjoint, hold two stones each, on the four centre squares as drawn |
| MoveGen.ShiftIsShl | board.cpp:26 | a fill step is the C++ shift by the direction's amount, left for downward and right for upward |
| MoveGen.DownwardMoves | board.cpp:4-40 | downward_moves reports only squares of its empty-squares word; which ones is stated by `MoveGen.DownwardSquares` |
| MoveGen.UpwardMoves | board.cpp:43-59 | upward_moves reports only squares of its empty-squares word; which ones is stated by `MoveGen.UpwardSquares` |
| MoveGen.AllMoves | board.cpp:62-83 | the corrected all_moves reports only squares neither side occupies; which ones is stated by `MoveGen.AllMovesSquares` |
| MoveGen.AllMovesAsWritten | board.cpp:62-83 | all_moves as written, with `!` and the swapped downward arguments; it is 0 on every input by `MoveGen.AllMovesAsWrittenIsZero` |
| MoveGen.StageFlanked | board.cpp:26-35 | after i fill lines, a square is set exactly when it ends a run of at most i opponent stones with a mover stone behind it |
| MoveGen.FillIsStage | board.cpp:26-35 | the six fill lines of downward_moves and of upward_moves are stage 6 of the fill |
| MoveGen.FlankedIsOpponent | board.cpp:26-35 | a square that ends a run is an opponent square |
| MoveGen.DownwardSquares | board.cpp:4-40 | downward_moves reports an empty square exactly when the square one step back ends a run of at most six masked opponent stones with a mover stone behind it |
| MoveGen.UpwardSquares | board.cpp:43-59 | the same for upward_moves, towards the less significant bits |
| MoveGen.DownwardZero | board.cpp:4-40 | there are no downward moves without mover stones, without masked opponent stones or without empty squares |
| MoveGen.UpwardZero | board.cpp:43-59 | the same for upward_moves |
| MoveGen.DownwardReported | board.cpp:39 | every square downward_moves reports is empty, with a masked opponent stone one step back |
| MoveGen.UpwardReported | board.cpp:58 | every square upward_moves reports is empty, with a masked opponent stone one step back |
| MoveGen.DownwardCaptures | board.cpp:4-40 | a downward direction reports exactly the empty squares from which it captures |
| MoveGen.UpwardCaptures | board.cpp:43-59 | an upward direction reports exactly the empty squares from which it captures |
| MoveGen.AllMovesAsWrittenIsZero | board.cpp:62-83 | all_moves as written reports no move for any pair of words |
| MoveGen.AllMovesCaptures | board.cpp:62-83 | the corrected all_moves reports exactly the empty squares from which one of the eight directions captures |
| MoveGen.AllMovesSquares | board.cpp:62-83 | the corrected all_moves reports exactly the squares neither side occupies from which some direction captures |
| MoveGen.RightWrapsAroundFill | board.cpp:68 | the "right" fill from a mover stone on (0, 7) over an opponent stone on (1, 0) reports (1, 1) |
| MoveGen.RightWrapsAround | board.cpp:62-83 | all_moves therefore reports square (1, 1), which no line of the board joins to the mover's stone |
| Heuristic.TruncDiv | player.cpp:157-159 | the quotient of C++ `/`: the remainder takes the sign of the dividend and is smaller than the divisor |
| Heuristic.TruncDivNeg | player.cpp:172-173 | negating the dividend negates the truncated quotient |
| Heuristic.TruncDivBound | player.cpp:172-173 | a dividend within w multiples of the divisor gives a quotient within w |
| Heuristic.Term | player.cpp:175-197 | a weighted term w*(x-y)/(x+y) lies within the weight, and is 0 for equal counts or when both counts are 0 |
| Heuristic.TermSwap | player.cpp:175-197 | swapping the two counts negates a term |
| Heuristic.Evaluate | player.cpp:149-200 | the evaluation lies within ±2850, and within ±1000 on a full board |
| Heuristic.EvaluateSwap | player.cpp:149-200 | the evaluation is zero-sum: from the other side's counts it is negated |
| Heuristic.FullBoardSign | player.cpp:154-157 | on a full board the evaluation is above 0, 0 or below 0 exactly as the side has more, as many or fewer stones than the other |
| Heuristic.FullBoardExample | player.cpp:154-157 | on a full board 34 stones against 30 evaluate to 1000 * 4 / 64 = 62 |
| Search.WhoseMoveIsSide | player.cpp:93 | the side to move is the player exactly when the multiplier is 1, and negating the multiplier toggles it |
| Search.StoneCounts | player.cpp:153-156 | a board with a stone has a positive stone total, so the coin-parity quotient is defined |
| Search.CountsAt | player.cpp:151-168 | the counts read from an occupied position have a positive stone total |
| Search.HeuristicAt | player.cpp:149-200 | Player::heuristic of an occupied position lies within ±2850 |
| Search.HeuristicAntisymmetric | player.cpp:149-200 | evaluating a position for the other side negates the evaluation |
| Search.Evaluation | player.cpp:149-200 | the leaf evaluation is bounded by ±2850 and agrees with Player::heuristic on every occupied position |
| Search.Leaf | player.cpp:90-91 | a leaf value, the multiplier times the evaluation, lies within ±2850 |
| Search.Score | player.cpp:85-147 | negascout's result is within the int32 range whose negation cannot overflow |
| Search.Node | player.cpp:100-115 | after its moves are searched, a node's result is at least alpha and at most INT32_MAX |
| Search.Probe | player.cpp:119-133 | a probe and its re-search stay within the non-overflowing int32 range |
| Search.Rest | player.cpp:117-146 | the loop over the later moves returns at least alpha |
| Search.NegamaxRange | player.cpp:85-147 | negamax values lie within the range of the evaluation |
| Search.BestAtLeast | player.cpp:109-115 | the best of the children's values is at least the value it starts from |
| Search.BestMax | player.cpp:135-143 | starting the best-of from a higher value a gives the larger of a and the result from the lower value |
| Search.ScoreBounds | player.cpp:85-147 | negascout keeps the fail-soft window guarantee against negamax: at or below alpha an upper bound, at or above beta a lower bound, strictly inside the exact value |
| Search.NodeBounds | player.cpp:100-115 | a node's moves keep the window guarantee against the best negated child value |
| Search.AfterFirst | player.cpp:109-117 | after a first move below beta, the loop keeps the window guarantee from the raised alpha |
| Search.ProbeBounds | player.cpp:119-133 | a null-window probe, with its re-search, keeps the window guarantee against the child's negated negamax value |
| Search.RestBounds | player.cpp:117-146 | the loop reaches the best value unless it stops at beta, and when it stops the best value is at least its result |
| Search.FullWindowExact | player.cpp:58 | on the window (-INT32_MAX, INT32_MAX) negascout returns the negamax value exactly |
| Search.NegateAsWritten | player.cpp:105-106 | int32 negation stays in the int32 range and is exact except on INT32_MIN |
| Search.RootWindowAsWritten | player.cpp:58 | with alpha INT32_MIN, the first child's window (-beta, -alpha) wraps and is empty |
| Search.Wrap32 | player.cpp:125 | the int32 wrap-around of a value lies in the int32 range and leaves int32 values alone |
| Search.ScoreAsWritten | player.cpp:85-147 | negascout as written, with wrapping negations, on any int32 window, returns an int32 value |
| Search.NodeAsWritten | player.cpp:100-115 | as written, the first-move stage never returns below alpha |
| Search.ProbeAsWritten | player.cpp:124-133 | the probe and re-search as written, with the wrapping `-alpha - 1`, returns an int32 value; `Search.ProbeAgrees` ties it to `Probe` |
| Search.RestAsWritten | player.cpp:117-146 | as written, the loop never returns below alpha |
| Search.ScoreAgrees | player.cpp:85-147 | on every window clear of INT32_MIN, negascout as written equals Score, so the overflow is the only place they differ |
| Search.NodeAgrees | player.cpp:100-115 | the first-move stage as written equals Node on such windows |
| Search.ProbeAgrees | player.cpp:119-133 | the probe and re-search as written equal Probe on such windows |
| Search.RestAgrees | player.cpp:117-146 | the loop as written equals Rest on such windows |
| Search.RootChildAsWritten | player.cpp:58 | as written, the root's first child gets the empty window (-INT32_MAX, INT32_MIN) and its grandchild the root window again, so the child returns its first move's score as soon as that is above -INT32_MAX, without searching its other moves |
| Player.FirstBest | player.cpp:59-71 | the index doMove keeps lies within the list |
| Player.FirstBestIsFirstMax | player.cpp:59-71 | the kept index holds a largest value, and every earlier value is strictly smaller |
| Player.FirstBestStep | player.cpp:66-70 | one more value replaces the choice only when it is strictly larger than the chosen one |
| Player.KeepFirstBest | player.cpp:66-70 | doMove's strict `>` update keeps the first best index of the values seen so far |
| Player.RootValues | player.cpp:55-64 | there is one root value per move, each is the negamax value of that move's child, and each lies within the evaluation bound ±2850 |
| Player.RootValue | player.cpp:55-64 | the negamax value of one root move lies within ±2850 |
| Player.Player.constructor | player.cpp:9-15 | slot 0 holds the opening words given to set_bits, the side is stored, testingMinimax is false, and the stacks have MAXDEPTH + 2 slots |
| Player.Player.StoreMoves | player.cpp:94 | the move list is written into its row as a count followed by the squares, and the other rows are unchanged |
| Player.Player.Heuristic | player.cpp:149-200 | Player::heuristic of a slot is the leaf evaluation of that position for the player's side, within ±2850 |
| Player.Player.Negascout | player.cpp:85-147 | Player::negascout on a slot returns Search.Score of the position there, and leaves lower slots and rows unchanged |
| Player.Player.FirstMove | player.cpp:100-115 | the first move and the rest of the moves from a slot return Search.Node |
| Player.Player.Loop | player.cpp:117-146 | the loop over moves 2 and later returns Search.Rest |
| Player.Player.Step | player.cpp:119-143 | one turn of the loop advances Search.Rest by one move, or stops with its result at beta |
| Player.Player.ProbeMove | player.cpp:124-133 | the probe and re-search of a child slot return Search.Probe |
| Player.Player.Answered | player.cpp:37-38 | the position after the opponent's stone is placed for `!side` at (y, x), or the position itself without one; an occupied position stays occupied |
| Player.Player.DoMove | player.cpp:36-83 | after the opponent's stone: no move when the list is empty; otherwise the first move with the largest negamax value, returned as column x and row y and placed in slot 0 |
| Player.Player.Reply | player.cpp:40-82 | the search and the placement from slot 0, with the same result as DoMove |
| Player.Player.BestRootMove | player.cpp:46-71 | the loop over the root moves ends on the first move whose value is largest |
| Player.Player.RootStep | player.cpp:59-71 | one turn of the root loop keeps the first best index of the values seen |
| Player.Player.RootScore | player.cpp:55-64 | the search of one root move's child returns that move's negamax value |

## Left out

- Input and output are not modelled: the commented-out board printing and the `msLeft` time budget, which `doMove` never reads.
- The board library that `player.cpp` calls is not part of this model: `set_bits`, `add_stone`, `add_stone_copy`, the three-argument `get_moves`, `num_moves(board, side)` and `num_cat1..3`. Their declarations are not in these files. They are parameters of a `Search.Env`, constrained only by `Search.ValidEnv`.
- Search.Evaluation: on a position with no stone it returns 0, because Player::heuristic would divide by zero there. The search never reaches such a position, since `ValidEnv` keeps a board occupied once it is.
- Player.Player.constructor: the slots of `board_stack` above 0 are uninitialised in the source. Here they start as the opening position, and nothing reads them before it writes them.
- Player.Player.Negascout: it requires alpha of at least -INT32_MAX (`Search.Window`), because at INT32_MIN the negation `-alpha` overflows int32. It also requires alpha below beta. DoMove, corrected, calls it with alpha -INT32_MAX (see Findings).
- Player.Player.DoMove: it uses the corrected root alpha, -INT32_MAX, instead of INT32_MIN (see Findings).
- Player.Player.RootScore: it searches each root child on the corrected window (-INT32_MAX, INT32_MAX) instead of (INT32_MIN, INT32_MAX) (see Findings); `Search.RootChildAsWritten` states what the source's window does.
- Player.Player.Reply: it picks its move through RootScore, so it uses the same corrected root window.
- The `uint8_t` depth and `int8_t` multiplier of negascout are a `nat` of at most MAXDEPTH and an `int` that is 1 or -1. The `size_t` stack position is a `nat` within the stack.
- The leaf `multiplier * heuristic(...)` is written as the evaluation or its negation, which is the same value for a multiplier of 1 or -1.
- As written, negascout places every stone for the player's own side, whichever side is to move (player.cpp:102 and 121). As written, doMove searches each root child with multiplier 1, so the player moves again there (player.cpp:58 and 64). Both are modelled as written.
- Bitboard.PlaceSquare: it places stones with the 64-bit set_stone. As written, board.cpp:109 and 112 call the 32-bit set_stone of board.hpp:46, so a 'w' or 'b' at square 31 sets squares 31 to 63 (`Bitboard.PlaceAsWrittenAt31`), and one at squares 32 to 63 is undefined behaviour.
- Bitboard.SetBoard: its result assumes the 64-bit set_stone. As written, a 'w' or 'b' at square 31 sets squares 31 to 63, and one at squares 32 to 63 is undefined behaviour.
- Bitboard.SetBoardSquares: the per-square characterisation holds for set_board with the 64-bit set_stone. As written, square 31 sets squares 31 to 63, and squares 32 and up are undefined behaviour.
- The edge masks of all_moves clear only the far edge of the opponent's stones, so the first step from a mover stone can wrap to the next row. `MoveGen.RightWrapsAround` exhibits this. The corrected `MoveGen.AllMoves` keeps these masks as written.
- `Player::~Player` and `Move::~Move` are empty. Heap lifetime is not modelled, and `doMove`'s result is a `fresh` object.
- The `testingMinimax` flag is modelled only through its initial value, because nothing in these files reads it.
- `game.move_num` is carried in `GameStruct.Game` but never read.

## Findings

| source | as written | input that shows it | evidently intended | confidence | as-written member | corrected member |
|---|---|---|---|---|---|---|
| board.hpp:46 | `1 << (8 * (row) + (col))` shifts an `int`, and the result is sign-extended to 64 bits | set_stone on row 3, column 7 ORs in 0xFFFFFFFF80000000, filling squares 31 to 63 (shifts by 32 or more are undefined) | a 64-bit shift that sets only that square | high, not executed | Bitboard.StoneMaskAsWrittenAt31 | Bitboard.Board.SetStone |
| board.cpp:64 | `!(this_side \| other_side)` is a logical not, so the empty-square word is 0 or 1; the downward calls also pass the empty squares and the edge mask in swapped order | the opening position: all_moves as written returns 0 for both sides | `~` for the empty squares, and the arguments in their declared order | high, not executed | MoveGen.AllMovesAsWrittenIsZero | MoveGen.AllMovesSquares |
| player.cpp:58 | doMove opens the search with alpha INT32_MIN, and negascout negates it for the first child | any root move: `-INT32_MIN` wraps to INT32_MIN, so the child's window (-INT32_MAX, INT32_MIN) is empty, and the child returns its first move's score without searching its other moves (`Search.RootChildAsWritten`) | a root window (-INT32_MAX, INT32_MAX), on which negascout returns the negamax value | medium (signed overflow is undefined behaviour), not executed | Search.RootWindowAsWritten | Search.FullWindowExact |
