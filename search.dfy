/**
 * The search of player.cpp as specification functions: negascout
 * (Player::negascout), the evaluation it calls at its leaves
 * (Player::heuristic) and plain negamax over the same tree, with the proof
 * that negascout's result bounds negamax's value within its window and
 * equals it on a full window.
 *
 * The board library behind a position (set_bits, add_stone, add_stone_copy,
 * the three-argument get_moves, the two-argument num_moves and num_cat1..3)
 * is not part of this model; an Env carries those operations as functions
 * over an abstract position.
 */
module Search {
  import opened Common
  import opened Bits
  import MoveGen
  import opened Heuristic

  const INT32_MAX: int := 0x7FFF_FFFF
  const INT32_MIN: int := -0x8000_0000

  /** The board library a search runs on. Rows and columns are passed as ints. */
  datatype Env<!Pos> = Env(
    setBits: (bv64, bv64) -> Pos,
    addStone: (Pos, Side, int, int) -> Pos,
    addStoneCopy: (Pos, Side, int, int) -> Pos,
    getMoves: (Pos, Side) -> seq<uint8>,
    bits: (Pos, Side) -> bv64,
    numMoves: (Pos, Side) -> uint8,
    numCat1: (Pos, Side) -> uint8,
    numCat2: (Pos, Side) -> uint8,
    numCat3: (Pos, Side) -> uint8)

  /** A move list fits a 64-byte move_stack row after its count: at most 63 squares, each below 64. */
  predicate MoveList(moves: seq<uint8>)
  {
    |moves| <= 63 && forall k :: 0 <= k < |moves| ==> moves[k] < 64
  }

  /** At least one stone is on the board, so the evaluation's coin-parity quotient is defined. */
  predicate Occupied<Pos(!new)>(env: Env<Pos>, pos: Pos)
  {
    env.bits(pos, White) != 0 || env.bits(pos, Black) != 0
  }

  /**
   * What the search relies on from the board library: move lists fit their
   * rows, set_bits stores the white and the black word it is given, and
   * placing a stone never empties the board.
   */
  ghost predicate ValidEnv<Pos(!new)>(env: Env<Pos>)
  {
    && (forall p, s :: MoveList(env.getMoves(p, s)))
    && (forall w, b :: env.bits(env.setBits(w, b), White) == w && env.bits(env.setBits(w, b), Black) == b)
    && (forall p, s, row, col :: Occupied(env, p) ==> Occupied(env, env.addStone(p, s, row, col)))
    && (forall p, s, row, col :: Occupied(env, p) ==> Occupied(env, env.addStoneCopy(p, s, row, col)))
  }

  /** A search window the int32 negations of the search cannot overflow on. */
  predicate Window(alpha: int, beta: int)
  {
    -INT32_MAX <= alpha < beta <= INT32_MAX
  }

  predicate Unit(mult: int) { mult == 1 || mult == -1 }

  /** whose_move: the searching side when the multiplier is 1, the other side otherwise. */
  function WhoseMove(side: Side, mult: int): (s: Side)
    requires Unit(mult)
  {
    if mult == 1 then side else Not(side)
  }

  lemma WhoseMoveIsSide(side: Side, mult: int)
    requires Unit(mult)
    ensures WhoseMove(side, mult) == side <==> mult == 1
    ensures WhoseMove(side, -mult) == Not(WhoseMove(side, mult))
  {
    NotInvolution(side);
  }

  /** bits[s] of a board whose white and black words are given. */
  function Word(white: bv64, black: bv64, s: Side): bv64
  {
    if s == White then white else black
  }

  /**
   * is_full and the num_stones of `side` and of !side for a board with the
   * given words, stated with the Hamming weight that num_ones computes.
   */
  function StoneCounts(white: bv64, black: bv64, side: Side): (c: (bool, uint8, uint8))
    requires white != 0 || black != 0
    ensures c.1 as int + c.2 as int > 0
  {
    PopCountZero(white);
    PopCountZero(black);
    var mine := Word(white, black, side);
    var theirs := Word(white, black, Not(side));
    PopCountRange(mine);
    PopCountRange(theirs);
    NotValues();
    (PopCount(MoveGen.Union(white, black)) == 64, PopCount(mine) as uint8, PopCount(theirs) as uint8)
  }

  /** The counts the evaluation reads for `side` from a position. */
  function CountsAt<Pos(!new)>(env: Env<Pos>, side: Side, pos: Pos): (c: Counts)
    requires Occupied(env, pos)
    ensures c.thisStones as int + c.otherStones as int > 0
  {
    var stones := StoneCounts(env.bits(pos, White), env.bits(pos, Black), side);
    Counts(stones.0, stones.1, stones.2,
      env.numMoves(pos, side), env.numMoves(pos, Not(side)),
      env.numCat1(pos, side), env.numCat1(pos, Not(side)),
      env.numCat2(pos, side), env.numCat2(pos, Not(side)),
      env.numCat3(pos, side), env.numCat3(pos, Not(side)))
  }

  /** Player::heuristic for a position, from the point of view of `side`. */
  function HeuristicAt<Pos(!new)>(env: Env<Pos>, side: Side, pos: Pos): (h: int)
    requires Occupied(env, pos)
    ensures -MAX_SCORE <= h <= MAX_SCORE
  {
    Evaluate(CountsAt(env, side, pos))
  }

  /** Evaluating for the other side negates the evaluation. */
  lemma HeuristicAntisymmetric<Pos(!new)>(env: Env<Pos>, side: Side, pos: Pos)
    requires Occupied(env, pos)
    ensures HeuristicAt(env, Not(side), pos) == -HeuristicAt(env, side, pos)
  {
    NotInvolution(side);
    assert CountsAt(env, Not(side), pos) == Swap(CountsAt(env, side, pos));
    EvaluateSwap(CountsAt(env, side, pos));
  }

  /** A leaf evaluation within the range of Player::heuristic. */
  ghost predicate Bounded<Pos(!new)>(eval: (Pos, Side) -> int)
  {
    forall p, s :: -MAX_SCORE <= eval(p, s) <= MAX_SCORE
  }

  /** eval agrees with Player::heuristic on every occupied position. */
  ghost predicate Evaluates<Pos(!new)>(env: Env<Pos>, eval: (Pos, Side) -> int)
  {
    forall p, s {:trigger HeuristicAt(env, s, p)} :: Occupied(env, p) ==> eval(p, s) == HeuristicAt(env, s, p)
  }

  /** Player::heuristic as the leaf evaluation of the search; positions reached by the search are occupied. */
  function Evaluation<Pos(!new)>(env: Env<Pos>): (eval: (Pos, Side) -> int)
    ensures Bounded(eval) && Evaluates(env, eval)
  {
    (p, s) => if Occupied(env, p) then HeuristicAt(env, s, p) else 0
  }

  /** The multiplier times the evaluation for `side`. */
  function Leaf<Pos(!new)>(eval: (Pos, Side) -> int, side: Side, pos: Pos, mult: int): (v: int)
    requires Bounded(eval) && Unit(mult)
    ensures -MAX_SCORE <= v <= MAX_SCORE
  {
    if mult == 1 then eval(pos, side) else -eval(pos, side)
  }

  /** The position after add_stone_copy places a stone for `side` on square sq. */
  function Child<Pos(!new)>(env: Env<Pos>, side: Side, pos: Pos, sq: uint8): Pos
  {
    env.addStoneCopy(pos, side, (sq / 8) as int, (sq % 8) as int)
  }

  /**
   * Player::negascout on a position. At depth 0, or when the side to move
   * has no move, it is the multiplier times the evaluation; otherwise the
   * moves are searched by Node. Stones are placed for `side` whatever the
   * side to move.
   */
  function Score<Pos(!new)>(env: Env<Pos>, eval: (Pos, Side) -> int, side: Side, pos: Pos, depth: nat, alpha: int, beta: int, mult: int): (r: int)
    requires Bounded(eval) && Window(alpha, beta) && Unit(mult)
    ensures -INT32_MAX <= r <= INT32_MAX
    decreases depth, 1, 0
  {
    if depth == 0 then Leaf(eval, side, pos, mult)
    else
      var moves := env.getMoves(pos, WhoseMove(side, mult));
      if |moves| == 0 then Leaf(eval, side, pos, mult)
      else Node(env, eval, side, pos, moves, depth, alpha, beta, mult)
  }

  /**
   * The moves of Player::negascout: the first on the full window (-beta,
   * -alpha) of the child, returning at once if it reaches beta, and the
   * others by Rest from a raised alpha.
   */
  function Node<Pos(!new)>(env: Env<Pos>, eval: (Pos, Side) -> int, side: Side, pos: Pos, moves: seq<uint8>, depth: nat,
                     alpha: int, beta: int, mult: int): (r: int)
    requires Bounded(eval) && Window(alpha, beta) && Unit(mult)
    requires 0 < depth && 0 < |moves|
    ensures alpha <= r <= INT32_MAX
    decreases depth, 0, |moves|
  {
    var score := -Score(env, eval, side, Child(env, side, pos, moves[0]), depth - 1, -beta, -alpha, -mult);
    if score > alpha && score >= beta then score
    else Rest(env, eval, side, pos, moves, 1, depth, if score > alpha then score else alpha, beta, mult)
  }

  /**
   * One later move of Player::negascout: a null-window probe of the child,
   * and a re-search on (alpha, probe) of the child's window when the probe
   * falls strictly inside (alpha, beta).
   */
  function Probe<Pos(!new)>(env: Env<Pos>, eval: (Pos, Side) -> int, side: Side, child: Pos, depth: nat, alpha: int, beta: int, mult: int): (score: int)
    requires Bounded(eval) && Window(alpha, beta) && Unit(mult)
    ensures -INT32_MAX <= score <= INT32_MAX
    decreases depth, 2, 0
  {
    var probe := -Score(env, eval, side, child, depth, -alpha - 1, -alpha, -mult);
    if alpha < probe < beta then -Score(env, eval, side, child, depth, -beta, -probe, -mult) else probe
  }

  /**
   * The loop of Player::negascout over moves k.. of the list: each move is
   * probed, and the loop returns as soon as a raised alpha reaches beta.
   */
  function Rest<Pos(!new)>(env: Env<Pos>, eval: (Pos, Side) -> int, side: Side, pos: Pos, moves: seq<uint8>, k: nat, depth: nat,
                     alpha: int, beta: int, mult: int): (r: int)
    requires Bounded(eval) && Window(alpha, beta) && Unit(mult)
    requires 0 < depth && k <= |moves|
    ensures alpha <= r <= INT32_MAX
    decreases depth, 0, |moves| - k
  {
    if k == |moves| then alpha
    else
      var score := Probe(env, eval, side, Child(env, side, pos, moves[k]), depth - 1, alpha, beta, mult);
      if score > alpha && score >= beta then score
      else Rest(env, eval, side, pos, moves, k + 1, depth, if score > alpha then score else alpha, beta, mult)
  }

  /** Probe in terms of the null-window score. */
  lemma ProbeFirst<Pos(!new)>(env: Env<Pos>, eval: (Pos, Side) -> int, side: Side, child: Pos, depth: nat,
                              alpha: int, beta: int, mult: int, probe: int)
    requires Bounded(eval) && Window(alpha, beta) && Unit(mult)
    requires probe == -Score(env, eval, side, child, depth, -alpha - 1, -alpha, -mult)
    ensures alpha < probe < beta ==> Window(-beta, -probe)
    ensures Probe(env, eval, side, child, depth, alpha, beta, mult) ==
      if alpha < probe < beta then -Score(env, eval, side, child, depth, -beta, -probe, -mult) else probe
  {}

  /** Node in terms of the first move's score. */
  lemma NodeFirst<Pos(!new)>(env: Env<Pos>, eval: (Pos, Side) -> int, side: Side, pos: Pos, moves: seq<uint8>, depth: nat,
                             alpha: int, beta: int, mult: int, score: int)
    requires Bounded(eval) && Window(alpha, beta) && Unit(mult)
    requires 0 < depth && 0 < |moves|
    requires score == -Score(env, eval, side, Child(env, side, pos, moves[0]), depth - 1, -beta, -alpha, -mult)
    ensures Node(env, eval, side, pos, moves, depth, alpha, beta, mult) ==
      if score > alpha && score >= beta then score
      else Rest(env, eval, side, pos, moves, 1, depth, if score > alpha then score else alpha, beta, mult)
  {}

  /** Rest in terms of the score of move k. */
  lemma RestStep<Pos(!new)>(env: Env<Pos>, eval: (Pos, Side) -> int, side: Side, pos: Pos, moves: seq<uint8>, k: nat, depth: nat,
                            alpha: int, beta: int, mult: int, score: int)
    requires Bounded(eval) && Window(alpha, beta) && Unit(mult)
    requires 0 < depth && k < |moves|
    requires score == Probe(env, eval, side, Child(env, side, pos, moves[k]), depth - 1, alpha, beta, mult)
    ensures Rest(env, eval, side, pos, moves, k, depth, alpha, beta, mult) ==
      if score > alpha && score >= beta then score
      else Rest(env, eval, side, pos, moves, k + 1, depth, if score > alpha then score else alpha, beta, mult)
  {}

  function Max(a: int, b: int): int { if a < b then b else a }

  /**
   * Negamax over the same tree as Score, with no window: the best of the
   * negated child values, or the multiplier times the evaluation at a leaf.
   */
  function Negamax<Pos(!new)>(env: Env<Pos>, eval: (Pos, Side) -> int, side: Side, pos: Pos, depth: nat, mult: int): (v: int)
    requires Bounded(eval) && Unit(mult)
    decreases depth, 1, 0
  {
    if depth == 0 then Leaf(eval, side, pos, mult)
    else
      var moves := env.getMoves(pos, WhoseMove(side, mult));
      if |moves| == 0 then Leaf(eval, side, pos, mult)
      else Best(env, eval, side, pos, moves, 1, depth, mult, -Negamax(env, eval, side, Child(env, side, pos, moves[0]), depth - 1, -mult))
  }

  /** The larger of acc and the negated negamax values of the children for moves k.. */
  function Best<Pos(!new)>(env: Env<Pos>, eval: (Pos, Side) -> int, side: Side, pos: Pos, moves: seq<uint8>, k: nat, depth: nat,
                     mult: int, acc: int): (v: int)
    requires Bounded(eval) && Unit(mult)
    requires 0 < depth && k <= |moves|
    decreases depth, 0, |moves| - k
  {
    if k == |moves| then acc
    else Best(env, eval, side, pos, moves, k + 1, depth, mult,
      Max(acc, -Negamax(env, eval, side, Child(env, side, pos, moves[k]), depth - 1, -mult)))
  }

  /** The best value is at least the accumulator. */
  lemma {:induction false} BestAtLeast<Pos(!new)>(env: Env<Pos>, eval: (Pos, Side) -> int, side: Side, pos: Pos, moves: seq<uint8>, k: nat,
                                            depth: nat, mult: int, acc: int)
    requires Bounded(eval) && Unit(mult)
    requires 0 < depth && k <= |moves|
    ensures acc <= Best(env, eval, side, pos, moves, k, depth, mult, acc)
    decreases |moves| - k
  {
    if k < |moves| {
      var m := -Negamax(env, eval, side, Child(env, side, pos, moves[k]), depth - 1, -mult);
      BestAtLeast(env, eval, side, pos, moves, k + 1, depth, mult, Max(acc, m));
    }
  }

  /** Negamax values lie within the range of the evaluation. */
  lemma {:induction false} NegamaxRange<Pos(!new)>(env: Env<Pos>, eval: (Pos, Side) -> int, side: Side, pos: Pos, depth: nat, mult: int)
    requires Bounded(eval) && Unit(mult)
    ensures -MAX_SCORE <= Negamax(env, eval, side, pos, depth, mult) <= MAX_SCORE
    decreases depth, 1, 0
  {
    if depth > 0 {
      var moves := env.getMoves(pos, WhoseMove(side, mult));
      if |moves| > 0 {
        NegamaxRange(env, eval, side, Child(env, side, pos, moves[0]), depth - 1, -mult);
        BestRange(env, eval, side, pos, moves, 1, depth, mult, -Negamax(env, eval, side, Child(env, side, pos, moves[0]), depth - 1, -mult));
      }
    }
  }

  /** From an accumulator within the range of the evaluation, the best value stays within it. */
  lemma {:induction false} BestRange<Pos(!new)>(env: Env<Pos>, eval: (Pos, Side) -> int, side: Side, pos: Pos, moves: seq<uint8>, k: nat,
                                          depth: nat, mult: int, acc: int)
    requires Bounded(eval) && Unit(mult)
    requires 0 < depth && k <= |moves| && -MAX_SCORE <= acc <= MAX_SCORE
    ensures -MAX_SCORE <= Best(env, eval, side, pos, moves, k, depth, mult, acc) <= MAX_SCORE
    decreases depth, 0, |moves| - k
  {
    if k < |moves| {
      var child := Child(env, side, pos, moves[k]);
      NegamaxRange(env, eval, side, child, depth - 1, -mult);
      BestRange(env, eval, side, pos, moves, k + 1, depth, mult, Max(acc, -Negamax(env, eval, side, child, depth - 1, -mult)));
    }
  }

  /** Raising the accumulator above b to a gives the larger of a and the result for b. */
  lemma {:induction false} BestMax<Pos(!new)>(env: Env<Pos>, eval: (Pos, Side) -> int, side: Side, pos: Pos, moves: seq<uint8>, k: nat,
                                        depth: nat, mult: int, a: int, b: int)
    requires Bounded(eval) && Unit(mult)
    requires 0 < depth && k <= |moves| && b <= a
    ensures Best(env, eval, side, pos, moves, k, depth, mult, a) == Max(a, Best(env, eval, side, pos, moves, k, depth, mult, b))
    decreases |moves| - k
  {
    if k < |moves| {
      var m := -Negamax(env, eval, side, Child(env, side, pos, moves[k]), depth - 1, -mult);
      BestMax(env, eval, side, pos, moves, k + 1, depth, mult, Max(a, m), Max(b, m));
    }
  }

  /**
   * The window guarantee of a search result r against the true value v:
   * r at or below alpha bounds v from above, r at or above beta bounds v
   * from below, and r strictly inside the window is v itself.
   */
  predicate Bounds(v: int, r: int, alpha: int, beta: int)
  {
    && (r <= alpha ==> v <= r)
    && (r >= beta ==> v >= r)
    && (alpha < r < beta ==> v == r)
  }

  /** Negascout keeps the window guarantee with respect to negamax. */
  lemma {:induction false} ScoreBounds<Pos(!new)>(env: Env<Pos>, eval: (Pos, Side) -> int, side: Side, pos: Pos, depth: nat,
                                            alpha: int, beta: int, mult: int)
    requires Bounded(eval) && Window(alpha, beta) && Unit(mult)
    ensures Bounds(Negamax(env, eval, side, pos, depth, mult), Score(env, eval, side, pos, depth, alpha, beta, mult), alpha, beta)
    decreases depth, 1, 0, 0
  {
    if depth > 0 {
      var moves := env.getMoves(pos, WhoseMove(side, mult));
      if |moves| > 0 {
        NodeBounds(env, eval, side, pos, moves, depth, alpha, beta, mult);
      }
    }
  }

  /** The moves of a node keep the window guarantee with respect to the best negated child value. */
  lemma {:induction false} NodeBounds<Pos(!new)>(env: Env<Pos>, eval: (Pos, Side) -> int, side: Side, pos: Pos, moves: seq<uint8>,
                                           depth: nat, alpha: int, beta: int, mult: int)
    requires Bounded(eval) && Window(alpha, beta) && Unit(mult)
    requires 0 < depth && 0 < |moves|
    ensures Bounds(Best(env, eval, side, pos, moves, 1, depth, mult, -Negamax(env, eval, side, Child(env, side, pos, moves[0]), depth - 1, -mult)),
      Node(env, eval, side, pos, moves, depth, alpha, beta, mult), alpha, beta)
    decreases depth, 0, |moves|, 1
  {
    var child := Child(env, side, pos, moves[0]);
    var m := -Negamax(env, eval, side, child, depth - 1, -mult);
    var score := -Score(env, eval, side, child, depth - 1, -beta, -alpha, -mult);
    ScoreBounds(env, eval, side, child, depth - 1, -beta, -alpha, -mult);
    NegateBounds(-m, -score, alpha, beta);
    if score > alpha && score >= beta {
      BestAtLeast(env, eval, side, pos, moves, 1, depth, mult, m);
      CutoffBounds(Best(env, eval, side, pos, moves, 1, depth, mult, m), m, score, alpha, beta);
    } else {
      AfterFirst(env, eval, side, pos, moves, depth, alpha, beta, mult, score, m);
    }
  }

  /** A result at or above beta keeps the window guarantee for any value at least the child's. */
  lemma CutoffBounds(v: int, m: int, score: int, alpha: int, beta: int)
    requires alpha < beta && Bounds(m, score, alpha, beta) && score >= beta && v >= m
    ensures Bounds(v, score, alpha, beta)
  {}

  /**
   * After a first move whose score does not reach beta, the loop over the
   * other moves keeps the window guarantee with respect to Best.
   */
  lemma AfterFirst<Pos(!new)>(env: Env<Pos>, eval: (Pos, Side) -> int, side: Side, pos: Pos, moves: seq<uint8>, depth: nat,
                              alpha: int, beta: int, mult: int, score: int, m: int)
    requires Bounded(eval) && Window(alpha, beta) && Unit(mult)
    requires 0 < depth && 0 < |moves| && score <= INT32_MAX
    requires Bounds(m, score, alpha, beta) && !(score > alpha && score >= beta)
    ensures Bounds(Best(env, eval, side, pos, moves, 1, depth, mult, m),
      Rest(env, eval, side, pos, moves, 1, depth, if score > alpha then score else alpha, beta, mult), alpha, beta)
    decreases depth, 0, |moves|, 0
  {
    if score > alpha {
      RestBounds(env, eval, side, pos, moves, 1, depth, score, beta, mult);
    } else {
      RestBounds(env, eval, side, pos, moves, 1, depth, alpha, beta, mult);
      BestMax(env, eval, side, pos, moves, 1, depth, mult, alpha, m);
    }
  }

  /** A probe keeps the window guarantee with respect to the child's negated negamax value. */
  lemma ProbeBounds<Pos(!new)>(env: Env<Pos>, eval: (Pos, Side) -> int, side: Side, child: Pos, depth: nat, alpha: int, beta: int, mult: int)
    requires Bounded(eval) && Window(alpha, beta) && Unit(mult)
    ensures Bounds(-Negamax(env, eval, side, child, depth, -mult), Probe(env, eval, side, child, depth, alpha, beta, mult), alpha, beta)
    decreases depth, 2, 0, 0
  {
    var v := Negamax(env, eval, side, child, depth, -mult);
    var first := Score(env, eval, side, child, depth, -alpha - 1, -alpha, -mult);
    ScoreBounds(env, eval, side, child, depth, -alpha - 1, -alpha, -mult);
    if alpha < -first < beta {
      var second := Score(env, eval, side, child, depth, -beta, first, -mult);
      ScoreBounds(env, eval, side, child, depth, -beta, first, -mult);
      ResearchWindow(v, first, second, alpha, beta);
    } else {
      ProbeWindow(v, first, alpha, beta);
    }
  }

  /** The window guarantee on (-beta, -alpha) is the guarantee on (alpha, beta) for the negated values. */
  lemma NegateBounds(v: int, r: int, alpha: int, beta: int)
    requires Bounds(v, r, -beta, -alpha)
    ensures Bounds(-v, -r, alpha, beta)
  {}

  /** Below beta, the alpha the loop carries on is the larger of alpha and the true value. */
  lemma RaisedAlpha(m: int, score: int, alpha: int, beta: int)
    requires Bounds(m, score, alpha, beta) && !(score > alpha && score >= beta)
    ensures Max(alpha, m) == if score > alpha then score else alpha
  {}

  /** A null-window result outside (alpha, beta) keeps the window guarantee. */
  lemma ProbeWindow(v: int, first: int, alpha: int, beta: int)
    requires alpha < beta && Bounds(v, first, -alpha - 1, -alpha) && !(alpha < -first < beta)
    ensures Bounds(-v, -first, alpha, beta)
  {}

  /** A re-search on (-beta, first) after a null-window result strictly inside (alpha, beta) keeps the window guarantee. */
  lemma ResearchWindow(v: int, first: int, second: int, alpha: int, beta: int)
    requires Bounds(v, first, -alpha - 1, -alpha) && alpha < -first < beta
    requires Bounds(v, second, -beta, first)
    ensures Bounds(-v, -second, alpha, beta)
  {}

  /** The loop over moves k.. reaches Best unless it stops at beta, and then Best is at least its result. */
  lemma {:induction false} RestBounds<Pos(!new)>(env: Env<Pos>, eval: (Pos, Side) -> int, side: Side, pos: Pos, moves: seq<uint8>, k: nat,
                                           depth: nat, alpha: int, beta: int, mult: int)
    requires Bounded(eval) && Window(alpha, beta) && Unit(mult)
    requires 0 < depth && k <= |moves|
    ensures var r := Rest(env, eval, side, pos, moves, k, depth, alpha, beta, mult);
      && (r >= beta ==> Best(env, eval, side, pos, moves, k, depth, mult, alpha) >= r)
      && (r < beta ==> r == Best(env, eval, side, pos, moves, k, depth, mult, alpha))
    decreases depth, 0, |moves| - k, 2
  {
    if k < |moves| {
      var child := Child(env, side, pos, moves[k]);
      var m := -Negamax(env, eval, side, child, depth - 1, -mult);
      var score := Probe(env, eval, side, child, depth - 1, alpha, beta, mult);
      ProbeBounds(env, eval, side, child, depth - 1, alpha, beta, mult);
      if score > alpha && score >= beta {
        BestAtLeast(env, eval, side, pos, moves, k + 1, depth, mult, Max(alpha, m));
      } else {
        RaisedAlpha(m, score, alpha, beta);
        RestBounds(env, eval, side, pos, moves, k + 1, depth, Max(alpha, m), beta, mult);
      }
    }
  }

  /** On the widest window the search can take, negascout computes negamax exactly. */
  lemma FullWindowExact<Pos(!new)>(env: Env<Pos>, eval: (Pos, Side) -> int, side: Side, pos: Pos, depth: nat, mult: int)
    requires Bounded(eval) && Unit(mult)
    ensures Score(env, eval, side, pos, depth, -INT32_MAX, INT32_MAX, mult) == Negamax(env, eval, side, pos, depth, mult)
  {
    ScoreBounds(env, eval, side, pos, depth, -INT32_MAX, INT32_MAX, mult);
    NegamaxRange(env, eval, side, pos, depth, mult);
  }

  /** two's-complement int32 negation, which is what `-alpha` on INT32_MIN yields on common hardware. */
  function NegateAsWritten(x: int): (r: int)
    requires INT32_MIN <= x <= INT32_MAX
    ensures INT32_MIN <= r <= INT32_MAX
    ensures x != INT32_MIN ==> r == -x
  {
    if x == INT32_MIN then x else -x
  }

  /**
   * doMove opens the search with alpha INT32_MIN. The first child's window
   * (-beta, -alpha) then has -INT32_MIN, which does not fit an int32: it
   * wraps to INT32_MIN and the window is empty, so that child stops after
   * its first move.
   */
  lemma RootWindowAsWritten()
    ensures NegateAsWritten(INT32_MIN) == INT32_MIN
    ensures !Window(NegateAsWritten(INT32_MAX), NegateAsWritten(INT32_MIN))
    ensures Window(-INT32_MAX, INT32_MAX)
  {}

  predicate Int32(x: int) { INT32_MIN <= x <= INT32_MAX }

  /** int32 arithmetic as the hardware wraps it: x reduced into the int32 range. */
  function Wrap32(x: int): (r: int)
    ensures Int32(r)
    ensures Int32(x) ==> r == x
  {
    (x - INT32_MIN) % 0x1_0000_0000 + INT32_MIN
  }

  /**
   * Player::negascout as written, on any int32 window: every negation wraps
   * (-INT32_MIN is INT32_MIN), and so does the probe's lower bound -alpha - 1.
   * Nothing here requires the window to be non-empty.
   */
  function ScoreAsWritten<Pos(!new)>(env: Env<Pos>, eval: (Pos, Side) -> int, side: Side, pos: Pos, depth: nat,
                                     alpha: int, beta: int, mult: int): (r: int)
    requires Bounded(eval) && Int32(alpha) && Int32(beta) && Unit(mult)
    ensures Int32(r)
    decreases depth, 1, 0
  {
    if depth == 0 then Leaf(eval, side, pos, mult)
    else
      var moves := env.getMoves(pos, WhoseMove(side, mult));
      if |moves| == 0 then Leaf(eval, side, pos, mult)
      else NodeAsWritten(env, eval, side, pos, moves, depth, alpha, beta, mult)
  }

  function NodeAsWritten<Pos(!new)>(env: Env<Pos>, eval: (Pos, Side) -> int, side: Side, pos: Pos, moves: seq<uint8>, depth: nat,
                                    alpha: int, beta: int, mult: int): (r: int)
    requires Bounded(eval) && Int32(alpha) && Int32(beta) && Unit(mult)
    requires 0 < depth && 0 < |moves|
    ensures Int32(r) && alpha <= r
    decreases depth, 0, |moves|
  {
    var score := NegateAsWritten(ScoreAsWritten(env, eval, side, Child(env, side, pos, moves[0]), depth - 1,
                                                NegateAsWritten(beta), NegateAsWritten(alpha), -mult));
    if score > alpha && score >= beta then score
    else RestAsWritten(env, eval, side, pos, moves, 1, depth, if score > alpha then score else alpha, beta, mult)
  }

  function ProbeAsWritten<Pos(!new)>(env: Env<Pos>, eval: (Pos, Side) -> int, side: Side, child: Pos, depth: nat,
                                     alpha: int, beta: int, mult: int): (score: int)
    requires Bounded(eval) && Int32(alpha) && Int32(beta) && Unit(mult)
    ensures Int32(score)
    decreases depth, 2, 0
  {
    var probe := NegateAsWritten(ScoreAsWritten(env, eval, side, child, depth,
                                                Wrap32(NegateAsWritten(alpha) - 1), NegateAsWritten(alpha), -mult));
    if alpha < probe < beta
    then NegateAsWritten(ScoreAsWritten(env, eval, side, child, depth, NegateAsWritten(beta), NegateAsWritten(probe), -mult))
    else probe
  }

  function RestAsWritten<Pos(!new)>(env: Env<Pos>, eval: (Pos, Side) -> int, side: Side, pos: Pos, moves: seq<uint8>, k: nat, depth: nat,
                                    alpha: int, beta: int, mult: int): (r: int)
    requires Bounded(eval) && Int32(alpha) && Int32(beta) && Unit(mult)
    requires 0 < depth && k <= |moves|
    ensures Int32(r) && alpha <= r
    decreases depth, 0, |moves| - k
  {
    if k == |moves| then alpha
    else
      var score := ProbeAsWritten(env, eval, side, Child(env, side, pos, moves[k]), depth - 1, alpha, beta, mult);
      if score > alpha && score >= beta then score
      else RestAsWritten(env, eval, side, pos, moves, k + 1, depth, if score > alpha then score else alpha, beta, mult)
  }

  /** NodeAsWritten in terms of the first move's score. */
  lemma NodeAsWrittenFirst<Pos(!new)>(env: Env<Pos>, eval: (Pos, Side) -> int, side: Side, pos: Pos, moves: seq<uint8>, depth: nat,
                                      alpha: int, beta: int, mult: int, score: int)
    requires Bounded(eval) && Int32(alpha) && Int32(beta) && Unit(mult)
    requires 0 < depth && 0 < |moves|
    requires score == NegateAsWritten(ScoreAsWritten(env, eval, side, Child(env, side, pos, moves[0]), depth - 1,
                                                     NegateAsWritten(beta), NegateAsWritten(alpha), -mult))
    ensures NodeAsWritten(env, eval, side, pos, moves, depth, alpha, beta, mult) ==
      if score > alpha && score >= beta then score
      else RestAsWritten(env, eval, side, pos, moves, 1, depth, if score > alpha then score else alpha, beta, mult)
  {}

  /** ProbeAsWritten in terms of the null-window score. */
  lemma ProbeAsWrittenFirst<Pos(!new)>(env: Env<Pos>, eval: (Pos, Side) -> int, side: Side, child: Pos, depth: nat,
                                       alpha: int, beta: int, mult: int, probe: int)
    requires Bounded(eval) && Int32(alpha) && Int32(beta) && Unit(mult)
    requires probe == NegateAsWritten(ScoreAsWritten(env, eval, side, child, depth,
                                                     Wrap32(NegateAsWritten(alpha) - 1), NegateAsWritten(alpha), -mult))
    ensures ProbeAsWritten(env, eval, side, child, depth, alpha, beta, mult) ==
      if alpha < probe < beta
      then NegateAsWritten(ScoreAsWritten(env, eval, side, child, depth, NegateAsWritten(beta), NegateAsWritten(probe), -mult))
      else probe
  {}

  /**
   * On a window that keeps clear of INT32_MIN nothing wraps, and negascout as
   * written is Score: the overflow at the root is the only place they part.
   */
  lemma {:induction false} ScoreAgrees<Pos(!new)>(env: Env<Pos>, eval: (Pos, Side) -> int, side: Side, pos: Pos, depth: nat,
                                                  alpha: int, beta: int, mult: int)
    requires Bounded(eval) && Window(alpha, beta) && Unit(mult)
    ensures ScoreAsWritten(env, eval, side, pos, depth, alpha, beta, mult) == Score(env, eval, side, pos, depth, alpha, beta, mult)
    decreases depth, 1, 0
  {
    if depth > 0 {
      var moves := env.getMoves(pos, WhoseMove(side, mult));
      if |moves| > 0 {
        NodeAgrees(env, eval, side, pos, moves, depth, alpha, beta, mult);
      }
    }
  }

  lemma {:induction false} NodeAgrees<Pos(!new)>(env: Env<Pos>, eval: (Pos, Side) -> int, side: Side, pos: Pos, moves: seq<uint8>, depth: nat,
                                                 alpha: int, beta: int, mult: int)
    requires Bounded(eval) && Window(alpha, beta) && Unit(mult)
    requires 0 < depth && 0 < |moves|
    ensures NodeAsWritten(env, eval, side, pos, moves, depth, alpha, beta, mult) == Node(env, eval, side, pos, moves, depth, alpha, beta, mult)
    decreases depth, 0, |moves|
  {
    var child := Child(env, side, pos, moves[0]);
    assert NegateAsWritten(beta) == -beta && NegateAsWritten(alpha) == -alpha;
    ScoreAgrees(env, eval, side, child, depth - 1, -beta, -alpha, -mult);
    var score := -Score(env, eval, side, child, depth - 1, -beta, -alpha, -mult);
    NodeFirst(env, eval, side, pos, moves, depth, alpha, beta, mult, score);
    NodeAsWrittenFirst(env, eval, side, pos, moves, depth, alpha, beta, mult, score);
    if !(score > alpha && score >= beta) {
      RestAgrees(env, eval, side, pos, moves, 1, depth, if score > alpha then score else alpha, beta, mult);
    }
  }

  lemma {:induction false} ProbeAgrees<Pos(!new)>(env: Env<Pos>, eval: (Pos, Side) -> int, side: Side, child: Pos, depth: nat,
                                                  alpha: int, beta: int, mult: int)
    requires Bounded(eval) && Window(alpha, beta) && Unit(mult)
    ensures ProbeAsWritten(env, eval, side, child, depth, alpha, beta, mult) == Probe(env, eval, side, child, depth, alpha, beta, mult)
    decreases depth, 2, 0
  {
    assert NegateAsWritten(alpha) == -alpha && Wrap32(-alpha - 1) == -alpha - 1;
    ScoreAgrees(env, eval, side, child, depth, -alpha - 1, -alpha, -mult);
    var probe := -Score(env, eval, side, child, depth, -alpha - 1, -alpha, -mult);
    ProbeFirst(env, eval, side, child, depth, alpha, beta, mult, probe);
    ProbeAsWrittenFirst(env, eval, side, child, depth, alpha, beta, mult, probe);
    if alpha < probe < beta {
      assert NegateAsWritten(beta) == -beta && NegateAsWritten(probe) == -probe;
      ScoreAgrees(env, eval, side, child, depth, -beta, -probe, -mult);
    }
  }

  lemma {:induction false} RestAgrees<Pos(!new)>(env: Env<Pos>, eval: (Pos, Side) -> int, side: Side, pos: Pos, moves: seq<uint8>, k: nat, depth: nat,
                                                 alpha: int, beta: int, mult: int)
    requires Bounded(eval) && Window(alpha, beta) && Unit(mult)
    requires 0 < depth && k <= |moves|
    ensures RestAsWritten(env, eval, side, pos, moves, k, depth, alpha, beta, mult) == Rest(env, eval, side, pos, moves, k, depth, alpha, beta, mult)
    decreases depth, 0, |moves| - k
  {
    if k < |moves| {
      ProbeAgrees(env, eval, side, Child(env, side, pos, moves[k]), depth - 1, alpha, beta, mult);
      var score := Probe(env, eval, side, Child(env, side, pos, moves[k]), depth - 1, alpha, beta, mult);
      if !(score > alpha && score >= beta) {
        RestAgrees(env, eval, side, pos, moves, k + 1, depth, if score > alpha then score else alpha, beta, mult);
      }
    }
  }

  /**
   * The root's first child as written. doMove's alpha INT32_MIN makes that
   * child's window (-INT32_MAX, INT32_MIN), which is empty, and hands the
   * grandchild the window (INT32_MIN, INT32_MAX) of the root again. So as
   * soon as the child's first move scores above -INT32_MAX, it passes beta
   * and is returned: the child's other moves are never searched.
   */
  lemma RootChildAsWritten<Pos(!new)>(env: Env<Pos>, eval: (Pos, Side) -> int, side: Side, child: Pos, depth: nat)
    requires Bounded(eval) && 0 < depth && 0 < |env.getMoves(child, WhoseMove(side, -1))|
    ensures NegateAsWritten(INT32_MAX) == -INT32_MAX && NegateAsWritten(INT32_MIN) == INT32_MIN
    ensures NegateAsWritten(-INT32_MAX) == INT32_MAX
    ensures var moves := env.getMoves(child, WhoseMove(side, -1));
            var first := NegateAsWritten(ScoreAsWritten(env, eval, side, Child(env, side, child, moves[0]), depth - 1,
                                                        INT32_MIN, INT32_MAX, 1));
            first > -INT32_MAX ==> ScoreAsWritten(env, eval, side, child, depth, -INT32_MAX, INT32_MIN, -1) == first
  {}
}
