/**
 * The Player of player.hpp/player.cpp: the side it plays, a stack of
 * MAXDEPTH + 2 positions, one per search level, and beside it a stack of
 * 64-byte move lists, which negascout and doMove overwrite slot by slot.
 * Each method is proved against the search functions of module Search.
 */
module Player {
  import opened Common
  import opened Bitboard
  import opened Heuristic
  import opened Search

  const MAXDEPTH: nat := 6
  /** board_stack and move_stack have MAXDEPTH + 2 slots. */
  const SLOTS: nat := MAXDEPTH + 2

  /** The index of the first strictly largest value: the move doMove keeps. */
  function FirstBest(values: seq<int>): (k: nat)
    requires |values| > 0
    ensures k < |values|
  {
    if |values| == 1 then 0
    else
      var k := FirstBest(values[..|values| - 1]);
      if values[|values| - 1] > values[k] then |values| - 1 else k
  }

  /** FirstBest picks a largest value, and every value before it is strictly smaller. */
  lemma {:induction false} FirstBestIsFirstMax(values: seq<int>)
    requires |values| > 0
    ensures forall j :: 0 <= j < |values| ==> values[j] <= values[FirstBest(values)]
    ensures forall j :: 0 <= j < FirstBest(values) ==> values[j] < values[FirstBest(values)]
  {
    if |values| > 1 {
      var prefix := values[..|values| - 1];
      FirstBestIsFirstMax(prefix);
      assert forall j :: 0 <= j < |prefix| ==> prefix[j] == values[j];
    }
  }

  /** Extending the values by one keeps the earlier choice unless the new value is strictly larger. */
  lemma FirstBestStep(values: seq<int>, i: nat)
    requires 0 < i < |values|
    ensures FirstBest(values[..i + 1]) ==
      if values[i] > values[FirstBest(values[..i])] then i else FirstBest(values[..i])
  {
    assert values[..i + 1][..i] == values[..i];
  }

  /** doMove's update: taking move i only on a strictly larger score keeps the first best of the values seen. */
  lemma KeepFirstBest(values: seq<int>, i: nat, bestMove: nat, bestScore: int, score: int)
    requires 2 <= i <= |values| && 1 <= bestMove < i
    requires bestMove - 1 == FirstBest(values[..i - 1]) && bestScore == values[bestMove - 1] && score == values[i - 1]
    ensures score > bestScore ==> i - 1 == FirstBest(values[..i])
    ensures score <= bestScore ==> bestMove - 1 == FirstBest(values[..i])
  {
    FirstBestStep(values, i - 1);
  }

  /** The negamax value of root move k, searched with `side` to move again, as doMove searches it. */
  function RootValue<Pos(!new)>(env: Env<Pos>, eval: (Pos, Side) -> int, side: Side, pos: Pos, moves: seq<uint8>, k: nat): (v: int)
    requires Bounded(eval) && k < |moves|
    ensures -MAX_SCORE <= v <= MAX_SCORE
  {
    NegamaxRange(env, eval, side, Child(env, side, pos, moves[k]), MAXDEPTH, 1);
    Negamax(env, eval, side, Child(env, side, pos, moves[k]), MAXDEPTH, 1)
  }

  /** The values of all root moves, in the order of the move list. */
  function RootValues<Pos(!new)>(env: Env<Pos>, eval: (Pos, Side) -> int, side: Side, pos: Pos, moves: seq<uint8>): (values: seq<int>)
    requires Bounded(eval)
    ensures |values| == |moves|
    ensures RootScores(env, eval, side, pos, moves, values)
    ensures forall k :: 0 <= k < |values| ==> -MAX_SCORE <= values[k] <= MAX_SCORE
  {
    seq(|moves|, k requires 0 <= k < |moves| => RootValue(env, eval, side, pos, moves, k))
  }

  /**
   * values holds the root values. The quantifier fires only where a root
   * value is asked for, so the search under each value stays out of the
   * proofs about the loop that picks among them.
   */
  ghost predicate RootScores<Pos(!new)>(env: Env<Pos>, eval: (Pos, Side) -> int, side: Side, pos: Pos, moves: seq<uint8>, values: seq<int>)
    requires Bounded(eval)
  {
    && |values| == |moves|
    && forall k {:trigger RootValue(env, eval, side, pos, moves, k)} :: 0 <= k < |moves| ==> values[k] == RootValue(env, eval, side, pos, moves, k)
  }

  class Player<Pos(!new)> {
    /** The board library the player runs on. */
    const env: Env<Pos>
    /** Player::heuristic as a function of the position and the side. */
    const eval: (Pos, Side) -> int
    const side: Side
    /** board_stack: slot 0 is the game position, slot i + 1 a child of slot i. */
    const boardStack: array<Pos>
    /** move_stack: row i holds the count and then the squares of the moves from slot i. */
    const moveStack: array2<uint8>
    var testingMinimax: bool

    /** The board library meets ValidEnv, eval is Player::heuristic, and both stacks have their sizes. */
    ghost predicate Valid()
    {
      && ValidEnv(env) && Bounded(eval) && Evaluates(env, eval)
      && boardStack.Length == SLOTS
      && moveStack.Length0 == SLOTS && moveStack.Length1 == 64
    }

    /** Player::Player: the opening position in slot 0 and the test hook off. */
    constructor (env: Env<Pos>, side: Side)
      requires ValidEnv(env)
      ensures Valid() && fresh(boardStack) && fresh(moveStack)
      ensures Occupied(env, boardStack[0])
      ensures this.env == env && this.side == side && !testingMinimax
      ensures boardStack[0] == env.setBits(OPENING_WHITE, OPENING_BLACK)
    {
      this.env := env;
      eval := Evaluation(env);
      testingMinimax := false;
      var opening := env.setBits(OPENING_WHITE, OPENING_BLACK);
      boardStack := new Pos[SLOTS](_ => opening);
      moveStack := new uint8[SLOTS, 64];
      this.side := side;
    }

    /** Row `row` of move_stack holds the move list: its count, then its squares. */
    ghost predicate Stored(row: nat, moves: seq<uint8>)
      reads moveStack
      requires Valid() && row < SLOTS && MoveList(moves)
    {
      && moveStack[row, 0] as int == |moves|
      && forall j :: 1 <= j <= |moves| ==> moveStack[row, j] == moves[j - 1]
    }

    /** The move list the three-argument get_moves writes into a row of move_stack. */
    method StoreMoves(row: nat, moves: seq<uint8>)
      requires Valid() && row < SLOTS && MoveList(moves)
      modifies moveStack
      ensures Stored(row, moves)
      ensures forall i, j :: 0 <= i < SLOTS && i != row && 0 <= j < 64 ==> moveStack[i, j] == old(moveStack[i, j])
    {
      moveStack[row, 0] := |moves| as uint8;
      var j := 0;
      while j < |moves|
        invariant 0 <= j <= |moves|
        invariant moveStack[row, 0] as int == |moves|
        invariant forall t :: 1 <= t <= j ==> moveStack[row, t] == moves[t - 1]
        invariant forall i, t :: 0 <= i < SLOTS && i != row && 0 <= t < 64 ==> moveStack[i, t] == old(moveStack[i, t])
      {
        moveStack[row, j + 1] := moves[j];
        j := j + 1;
      }
    }

    /** Player::heuristic on slot stackPos: the evaluation for `side`, which is the search's leaf evaluation. */
    function Heuristic(stackPos: nat): (h: int)
      reads boardStack
      requires Valid() && stackPos < SLOTS && Occupied(env, boardStack[stackPos])
      ensures -MAX_SCORE <= h <= MAX_SCORE
      ensures h == eval(boardStack[stackPos], side)
    {
      HeuristicAt(env, side, boardStack[stackPos])
    }

    /**
     * Player::negascout on slot stackPos: its result is Score of the position
     * there. Only slots above stackPos of board_stack and rows from stackPos
     * on of move_stack change.
     */
    method Negascout(stackPos: nat, depth: nat, alpha: int, beta: int, mult: int) returns (r: int)
      requires Valid() && stackPos + depth < SLOTS && Window(alpha, beta) && Unit(mult)
      requires Occupied(env, boardStack[stackPos])
      modifies boardStack, moveStack
      ensures r == Score(env, eval, side, old(boardStack[stackPos]), depth, alpha, beta, mult)
      ensures forall i :: 0 <= i <= stackPos ==> boardStack[i] == old(boardStack[i])
      ensures forall i, j :: 0 <= i < stackPos && 0 <= j < 64 ==> moveStack[i, j] == old(moveStack[i, j])
      decreases depth, 3
    {
      var pos := boardStack[stackPos];
      if depth == 0 {
        var h := Heuristic(stackPos);
        return if mult == 1 then h else -h;
      }
      var whoseMove := if mult == 1 then side else Not(side);
      var moves := env.getMoves(pos, whoseMove);
      StoreMoves(stackPos, moves);
      var count := moveStack[stackPos, 0];
      if count == 0 {
        var h := Heuristic(stackPos);
        return if mult == 1 then h else -h;
      }
      r := FirstMove(stackPos, depth, alpha, beta, mult, moves);
    }

    /**
     * The moves of Player::negascout from a slot whose move list is stored:
     * the first one on the full window, then the loop over the others.
     */
    method FirstMove(stackPos: nat, depth: nat, alpha: int, beta: int, mult: int, ghost moves: seq<uint8>) returns (r: int)
      requires Valid() && 0 < depth && stackPos + depth < SLOTS && Window(alpha, beta) && Unit(mult)
      requires Occupied(env, boardStack[stackPos]) && MoveList(moves) && 0 < |moves| && Stored(stackPos, moves)
      modifies boardStack, moveStack
      ensures r == Node(env, eval, side, old(boardStack[stackPos]), moves, depth, alpha, beta, mult)
      ensures forall i :: 0 <= i <= stackPos ==> boardStack[i] == old(boardStack[i])
      ensures forall i, j :: 0 <= i < stackPos && 0 <= j < 64 ==> moveStack[i, j] == old(moveStack[i, j])
      decreases depth, 2
    {
      var pos := boardStack[stackPos];
      var sq := moveStack[stackPos, 1];
      assert sq == moves[0];
      ghost var child := Child(env, side, pos, moves[0]);
      boardStack[stackPos + 1] := env.addStoneCopy(pos, side, (sq / 8) as int, (sq % 8) as int);
      assert boardStack[stackPos + 1] == child;
      var score := Negascout(stackPos + 1, depth - 1, -beta, -alpha, -mult);
      score := -score;
      NodeFirst(env, eval, side, pos, moves, depth, alpha, beta, mult, score);
      var a := alpha;
      if score > a {
        a := score;
        if a >= beta {
          return a;
        }
      }
      r := Loop(stackPos, depth, a, beta, mult, moves);
    }

    /** The loop of Player::negascout over moves 2.. of the stored list, from the alpha the first move left. */
    method Loop(stackPos: nat, depth: nat, alpha: int, beta: int, mult: int, ghost moves: seq<uint8>) returns (r: int)
      requires Valid() && 0 < depth && stackPos + depth < SLOTS && Window(alpha, beta) && Unit(mult)
      requires Occupied(env, boardStack[stackPos]) && MoveList(moves) && 0 < |moves| && Stored(stackPos, moves)
      modifies boardStack, moveStack
      ensures r == Rest(env, eval, side, old(boardStack[stackPos]), moves, 1, depth, alpha, beta, mult)
      ensures forall i :: 0 <= i <= stackPos ==> boardStack[i] == old(boardStack[i])
      ensures forall i, j :: 0 <= i < stackPos && 0 <= j < 64 ==> moveStack[i, j] == old(moveStack[i, j])
      decreases depth, 1
    {
      ghost var pos := boardStack[stackPos];
      ghost var goal := Rest(env, eval, side, pos, moves, 1, depth, alpha, beta, mult);
      var count := moveStack[stackPos, 0];
      var a := alpha;
      var i: nat := 2;
      while i <= count as nat
        invariant 2 <= i <= |moves| + 1 && count as int == |moves|
        invariant Window(a, beta) && Valid() && Stored(stackPos, moves) && boardStack[stackPos] == pos
        invariant forall t :: 0 <= t <= stackPos ==> boardStack[t] == old(boardStack[t])
        invariant forall t, j :: 0 <= t < stackPos && 0 <= j < 64 ==> moveStack[t, j] == old(moveStack[t, j])
        invariant Rest(env, eval, side, pos, moves, i - 1, depth, a, beta, mult) == goal
        decreases count as int - i
      {
        var stop;
        a, stop := Step(stackPos, depth, i, a, beta, mult, moves);
        if stop {
          return a;
        }
        i := i + 1;
      }
      return a;
    }

    /**
     * One iteration of the loop of Player::negascout, on move i of the
     * stored list: the probe of its child, alpha raised to its score, and
     * whether the loop returns here.
     */
    method Step(stackPos: nat, depth: nat, i: nat, alpha: int, beta: int, mult: int, ghost moves: seq<uint8>)
      returns (a: int, stop: bool)
      requires Valid() && 0 < depth && stackPos + depth < SLOTS && Window(alpha, beta) && Unit(mult)
      requires Occupied(env, boardStack[stackPos]) && MoveList(moves) && 1 <= i <= |moves| && Stored(stackPos, moves)
      modifies boardStack, moveStack
      ensures !stop ==> Window(a, beta)
      ensures Rest(env, eval, side, old(boardStack[stackPos]), moves, i - 1, depth, alpha, beta, mult) ==
        if stop then a else Rest(env, eval, side, old(boardStack[stackPos]), moves, i, depth, a, beta, mult)
      ensures Valid() && Stored(stackPos, moves)
      ensures forall t :: 0 <= t <= stackPos ==> boardStack[t] == old(boardStack[t])
      ensures forall t, j :: 0 <= t < stackPos && 0 <= j < 64 ==> moveStack[t, j] == old(moveStack[t, j])
      decreases depth, 0
    {
      var pos := boardStack[stackPos];
      var sq := moveStack[stackPos, i];
      assert sq == moves[i - 1];
      ghost var child := Child(env, side, pos, moves[i - 1]);
      boardStack[stackPos + 1] := env.addStoneCopy(pos, side, (sq / 8) as int, (sq % 8) as int);
      assert boardStack[stackPos + 1] == child;
      var score := ProbeMove(stackPos + 1, depth - 1, alpha, beta, mult);
      RestStep(env, eval, side, pos, moves, i - 1, depth, alpha, beta, mult, score);
      a, stop := alpha, false;
      if score > a {
        a := score;
        if a >= beta {
          stop := true;
        }
      }
    }

    /**
     * One move of the loop, on the child in slot stackPos: the null-window
     * probe and, when its score falls strictly inside (alpha, beta), the
     * re-search.
     */
    method ProbeMove(stackPos: nat, depth: nat, alpha: int, beta: int, mult: int) returns (score: int)
      requires Valid() && stackPos + depth < SLOTS && Window(alpha, beta) && Unit(mult)
      requires Occupied(env, boardStack[stackPos])
      modifies boardStack, moveStack
      ensures score == Probe(env, eval, side, old(boardStack[stackPos]), depth, alpha, beta, mult)
      ensures forall i :: 0 <= i <= stackPos ==> boardStack[i] == old(boardStack[i])
      ensures forall i, j :: 0 <= i < stackPos && 0 <= j < 64 ==> moveStack[i, j] == old(moveStack[i, j])
      decreases depth, 4
    {
      ghost var child := boardStack[stackPos];
      score := Negascout(stackPos, depth, -alpha - 1, -alpha, -mult);
      score := -score;
      ProbeFirst(env, eval, side, child, depth, alpha, beta, mult, score);
      if alpha < score < beta {
        score := Negascout(stackPos, depth, -beta, -score, -mult);
        score := -score;
      }
    }

    /** The position once the opponent's move, if any, is on the board: its stone at row y, column x. */
    function Answered(pos: Pos, opponentsMove: Move?): (r: Pos)
      reads opponentsMove
      ensures ValidEnv(env) && Occupied(env, pos) ==> Occupied(env, r)
    {
      if opponentsMove == null then pos
      else env.addStone(pos, Not(side), opponentsMove.y as int, opponentsMove.x as int)
    }

    /**
     * Player::doMove: after the opponent's stone, no move when the list is
     * empty; otherwise the first move whose negamax value is largest, which
     * is then placed in slot 0 and returned as column x, row y.
     */
    method DoMove(opponentsMove: Move?) returns (m: Move?)
      requires Valid() && Occupied(env, boardStack[0])
      modifies boardStack, moveStack
      ensures Occupied(env, boardStack[0])
      ensures var pos := Answered(old(boardStack[0]), opponentsMove);
        var moves := env.getMoves(pos, side);
        && (m == null <==> |moves| == 0)
        && (m == null ==> boardStack[0] == pos)
        && (m != null ==>
              && |moves| > 0 && fresh(m)
              && var sq := moves[FirstBest(RootValues(env, eval, side, pos, moves))];
                 && m.x as int == sq as int % 8 && m.y as int == sq as int / 8
                 && boardStack[0] == env.addStone(pos, side, (sq / 8) as int, (sq % 8) as int))
    {
      if opponentsMove != null {
        boardStack[0] := env.addStone(boardStack[0], Not(side), opponentsMove.y as int, opponentsMove.x as int);
      }
      m := Reply();
    }

    /** The part of doMove after the opponent's stone: the search from slot 0 and the stone it places. */
    method Reply() returns (m: Move?)
      requires Valid() && Occupied(env, boardStack[0])
      modifies boardStack, moveStack
      ensures Occupied(env, boardStack[0])
      ensures var pos := old(boardStack[0]);
        var moves := env.getMoves(pos, side);
        && (m == null <==> |moves| == 0)
        && (m == null ==> boardStack[0] == pos)
        && (m != null ==>
              && |moves| > 0 && fresh(m)
              && var sq := moves[FirstBest(RootValues(env, eval, side, pos, moves))];
                 && m.x as int == sq as int % 8 && m.y as int == sq as int / 8
                 && boardStack[0] == env.addStone(pos, side, (sq / 8) as int, (sq % 8) as int))
    {
      var pos := boardStack[0];
      var moves := env.getMoves(pos, side);
      ghost var values := RootValues(env, eval, side, pos, moves);
      StoreMoves(0, moves);
      var count := moveStack[0, 0];
      if count == 0 {
        return null;
      }
      var bestMove := BestRootMove(count, moves, values);
      var sq := moveStack[0, bestMove];
      assert sq == moves[bestMove - 1];
      boardStack[0] := env.addStone(pos, side, (sq / 8) as int, (sq % 8) as int);
      m := new Move((sq % 8) as int32, (sq / 8) as int32);
    }

    /** doMove's loop over the root moves: the first one whose search value is strictly largest. */
    method BestRootMove(count: uint8, ghost moves: seq<uint8>, ghost values: seq<int>) returns (bestMove: nat)
      requires Valid() && Occupied(env, boardStack[0]) && MoveList(moves) && Stored(0, moves)
      requires 0 < |moves| == count as int
      requires Bounded(eval) && RootScores(env, eval, side, boardStack[0], moves, values)
      modifies boardStack, moveStack
      ensures 1 <= bestMove <= |moves| && bestMove - 1 == FirstBest(values)
      ensures boardStack[0] == old(boardStack[0]) && Stored(0, moves)
    {
      ghost var pos := boardStack[0];
      bestMove := 1;
      var bestScore := RootScore(1, moves, values);
      var i: nat := 2;
      while i <= count as int
        invariant 2 <= i <= |moves| + 1
        invariant Stored(0, moves) && boardStack[0] == pos
        invariant 1 <= bestMove < i && bestMove - 1 == FirstBest(values[..i - 1])
        invariant bestScore == values[bestMove - 1]
        decreases count as int - i
      {
        bestMove, bestScore := RootStep(i, bestMove, bestScore, moves, values);
        i := i + 1;
      }
      assert values[..i - 1] == values;
    }

    /** One turn of doMove's loop: move i replaces the best so far only with a strictly larger score. */
    method RootStep(i: nat, bestMove: nat, bestScore: int, ghost moves: seq<uint8>, ghost values: seq<int>)
      returns (newMove: nat, newScore: int)
      requires Valid() && Occupied(env, boardStack[0]) && MoveList(moves) && Stored(0, moves)
      requires 2 <= i <= |moves| && Bounded(eval) && RootScores(env, eval, side, boardStack[0], moves, values)
      requires 1 <= bestMove < i && bestMove - 1 == FirstBest(values[..i - 1]) && bestScore == values[bestMove - 1]
      modifies boardStack, moveStack
      ensures 1 <= newMove <= i && newMove - 1 == FirstBest(values[..i]) && newScore == values[newMove - 1]
      ensures boardStack[0] == old(boardStack[0]) && Stored(0, moves)
    {
      var score := RootScore(i as uint8, moves, values);
      KeepFirstBest(values, i, bestMove, bestScore, score);
      if score > bestScore {
        newMove, newScore := i, score;
      } else {
        newMove, newScore := bestMove, bestScore;
      }
    }

    /**
     * The search doMove runs for move i of its list: the child in slot 1,
     * searched to MAXDEPTH with `side` to move, on the widest window.
     */
    method RootScore(i: uint8, ghost moves: seq<uint8>, ghost values: seq<int>) returns (score: int)
      requires Valid() && Occupied(env, boardStack[0]) && MoveList(moves) && 1 <= i as int <= |moves| && Stored(0, moves)
      requires Bounded(eval) && RootScores(env, eval, side, boardStack[0], moves, values)
      modifies boardStack, moveStack
      ensures score == values[i - 1]
      ensures boardStack[0] == old(boardStack[0]) && Stored(0, moves)
    {
      var pos := boardStack[0];
      var sq := moveStack[0, i];
      boardStack[1] := env.addStoneCopy(pos, side, (sq / 8) as int, (sq % 8) as int);
      score := Negascout(1, MAXDEPTH, -INT32_MAX, INT32_MAX, 1);
      FullWindowExact(env, eval, side, boardStack[1], MAXDEPTH, 1);
      assert score == RootValue(env, eval, side, pos, moves, i as nat - 1);
    }
  }
}
