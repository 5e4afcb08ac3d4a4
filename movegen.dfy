/**
 * Directional move generation of board.cpp. A direction is a shift of the
 * board word: a "downward" direction (right, down-left, down, down-right)
 * shifts towards the more significant bits by 1, 7, 8 or 9, an "upward" one
 * (left, up-right, up, up-left) towards the less significant bits.
 */
module MoveGen {
  import opened Bits

  /** The shift amounts of the eight directions. */
  predicate IsShift(s: bv8) { s == 1 || s == 7 || s == 8 || s == 9 }

  /**
   * The board word shifted by one of the direction amounts: towards the more
   * significant bits when down, towards the less significant ones otherwise.
   * Written per amount, so that each case is a fixed shift (see ShiftIsShl).
   */
  function Shift(t: bv64, s: bv8, down: bool): bv64
    requires IsShift(s)
  {
    if down then
      (if s == 1 then t << 1 else if s == 7 then t << 7 else if s == 8 then t << 8 else t << 9)
    else
      (if s == 1 then t >> 1 else if s == 7 then t >> 7 else if s == 8 then t >> 8 else t >> 9)
  }

  /** Square p has a square one step back against the direction (the square a shift moves onto p). */
  predicate HasBack(p: bv8, s: bv8, down: bool)
    requires p < 64 && s < 64
  {
    if down then s <= p else p + s < 64
  }

  function Back(p: bv8, s: bv8, down: bool): (q: bv8)
    requires p < 64 && s < 64 && HasBack(p, s, down)
    ensures q < 64
  {
    if down then p - s else p + s
  }

  // Each lemma below names the words it relates as parameters tied together by
  // equations, so that the bit of each word at p is a fact about a variable.
  lemma DownBit1(t: bv64, u: bv64, p: bv8) requires p < 64 && u == t << 1 ensures Bit(u, p) <==> 1 <= p && Bit(t, p - 1) {}
  lemma DownBit7(t: bv64, u: bv64, p: bv8) requires p < 64 && u == t << 7 ensures Bit(u, p) <==> 7 <= p && Bit(t, p - 7) {}
  lemma DownBit8(t: bv64, u: bv64, p: bv8) requires p < 64 && u == t << 8 ensures Bit(u, p) <==> 8 <= p && Bit(t, p - 8) {}
  lemma DownBit9(t: bv64, u: bv64, p: bv8) requires p < 64 && u == t << 9 ensures Bit(u, p) <==> 9 <= p && Bit(t, p - 9) {}
  lemma UpBit1(t: bv64, u: bv64, p: bv8) requires p < 64 && u == t >> 1 ensures Bit(u, p) <==> p + 1 < 64 && Bit(t, p + 1) {}
  lemma UpBit7(t: bv64, u: bv64, p: bv8) requires p < 64 && u == t >> 7 ensures Bit(u, p) <==> p + 7 < 64 && Bit(t, p + 7) {}
  lemma UpBit8(t: bv64, u: bv64, p: bv8) requires p < 64 && u == t >> 8 ensures Bit(u, p) <==> p + 8 < 64 && Bit(t, p + 8) {}
  lemma UpBit9(t: bv64, u: bv64, p: bv8) requires p < 64 && u == t >> 9 ensures Bit(u, p) <==> p + 9 < 64 && Bit(t, p + 9) {}

  /** Bit p of a shifted word is the bit one step back, or clear when that square is off the board. */
  lemma ShiftBit(t: bv64, u: bv64, s: bv8, down: bool, p: bv8)
    requires IsShift(s) && p < 64 && u == Shift(t, s, down)
    ensures Bit(u, p) <==> HasBack(p, s, down) && Bit(t, Back(p, s, down))
  {
    if down {
      if s == 1 { DownBit1(t, u, p); } else if s == 7 { DownBit7(t, u, p); }
      else if s == 8 { DownBit8(t, u, p); } else { DownBit9(t, u, p); }
    } else {
      if s == 1 { UpBit1(t, u, p); } else if s == 7 { UpBit7(t, u, p); }
      else if s == 8 { UpBit8(t, u, p); } else { UpBit9(t, u, p); }
    }
  }

  lemma AndBit(a: bv64, b: bv64, c: bv64, p: bv8)
    requires p < 64 && c == a & b
    ensures Bit(c, p) <==> Bit(a, p) && Bit(b, p)
  {}

  lemma OrBit(a: bv64, b: bv64, c: bv64, p: bv8)
    requires p < 64 && c == a | b
    ensures Bit(c, p) <==> Bit(a, p) || Bit(b, p)
  {}

  /** The squares whose bits are set in x. */
  ghost function Squares(x: bv64): iset<bv8>
  {
    iset p: bv8 | p < 64 && Bit(x, p)
  }

  /**
   * A run of k opponent stones ends on p: p and the k - 1 squares stepping back
   * from it are in opp, and the square behind them holds a mover stone.
   */
  ghost predicate Run(mover: iset<bv8>, opp: iset<bv8>, s: bv8, down: bool, k: nat, p: bv8)
    requires IsShift(s) && p < 64
    decreases k
  {
    k >= 1 && p in opp && HasBack(p, s, down)
    && (if k == 1 then Back(p, s, down) in mover else Run(mover, opp, s, down, k - 1, Back(p, s, down)))
  }

  /** p ends a run of between 1 and n opponent stones with a mover stone behind it. */
  ghost predicate Flanked(mover: iset<bv8>, opp: iset<bv8>, s: bv8, down: bool, n: nat, p: bv8)
    requires IsShift(s) && p < 64
  {
    exists k: nat {:trigger Run(mover, opp, s, down, k, p)} :: 1 <= k <= n && Run(mover, opp, s, down, k, p)
  }

  lemma FlankedOne(mover: iset<bv8>, opp: iset<bv8>, s: bv8, down: bool, p: bv8)
    requires IsShift(s) && p < 64
    ensures Flanked(mover, opp, s, down, 1, p)
        <==> (p in opp && HasBack(p, s, down) && Back(p, s, down) in mover)
  {
    if p in opp && HasBack(p, s, down) && Back(p, s, down) in mover {
      assert Run(mover, opp, s, down, 1, p);
    }
  }

  /** A run of at most i ends on p iff one of at most i - 1 does, or p is an opponent stone one step past one. */
  lemma FlankedStep(mover: iset<bv8>, opp: iset<bv8>, s: bv8, down: bool, i: nat, p: bv8)
    requires IsShift(s) && i > 1 && p < 64
    ensures Flanked(mover, opp, s, down, i, p)
        <==> (Flanked(mover, opp, s, down, i - 1, p)
          || (p in opp && HasBack(p, s, down) && Flanked(mover, opp, s, down, i - 1, Back(p, s, down))))
  {
    if Flanked(mover, opp, s, down, i, p) {
      var k: nat :| 1 <= k <= i && Run(mover, opp, s, down, k, p);
      if k > 1 {
        assert Run(mover, opp, s, down, k - 1, Back(p, s, down));
      } else {
        assert Run(mover, opp, s, down, k, p);
      }
    }
    if HasBack(p, s, down) && p in opp && Flanked(mover, opp, s, down, i - 1, Back(p, s, down)) {
      var k: nat :| 1 <= k <= i - 1 && Run(mover, opp, s, down, k, Back(p, s, down));
      assert Run(mover, opp, s, down, k + 1, p);
    }
    if Flanked(mover, opp, s, down, i - 1, p) {
      var k: nat :| 1 <= k <= i - 1 && Run(mover, opp, s, down, k, p);
      assert Run(mover, opp, s, down, k, p);
    }
  }

  /** One step of the fill: add to t the opponent squares one step from it. */
  function Step(t: bv64, opp: bv64, s: bv8, down: bool): bv64
    requires IsShift(s)
  {
    t | (Shift(t, s, down) & opp)
  }

  /** The i-th accumulation of the fill: the ends of runs of at most i opponent stones. */
  function Stage(mover: bv64, opp: bv64, s: bv8, down: bool, i: nat): bv64
    requires IsShift(s) && i >= 1
  {
    if i == 1 then Shift(mover, s, down) & opp else Step(Stage(mover, opp, s, down, i - 1), opp, s, down)
  }

  lemma FirstSquares(mover: bv64, opp: bv64, sh: bv64, w: bv64, s: bv8, down: bool, p: bv8)
    requires IsShift(s) && p < 64 && sh == Shift(mover, s, down) && w == sh & opp
    ensures p in Squares(w) <==> (p in Squares(opp) && HasBack(p, s, down) && Back(p, s, down) in Squares(mover))
  {
    AndBit(sh, opp, w, p);
    ShiftBit(mover, sh, s, down, p);
  }

  lemma StepSquares(t: bv64, opp: bv64, sh: bv64, w: bv64, u: bv64, s: bv8, down: bool, p: bv8)
    requires IsShift(s) && p < 64 && sh == Shift(t, s, down) && w == sh & opp && u == t | w
    ensures p in Squares(u)
        <==> (p in Squares(t) || (p in Squares(opp) && HasBack(p, s, down) && Back(p, s, down) in Squares(t)))
  {
    OrBit(t, w, u, p);
    AndBit(sh, opp, w, p);
    ShiftBit(t, sh, s, down, p);
  }

  lemma StageOneIs(mover: bv64, opp: bv64, s: bv8, down: bool)
    requires IsShift(s)
    ensures Stage(mover, opp, s, down, 1) == Shift(mover, s, down) & opp
  {}
  lemma StageNextIs(mover: bv64, opp: bv64, s: bv8, down: bool, i: nat)
    requires IsShift(s) && i > 1
    ensures Stage(mover, opp, s, down, i) == Step(Stage(mover, opp, s, down, i - 1), opp, s, down)
  {}
  lemma StageOne(mover: bv64, opp: bv64, s: bv8, down: bool, p: bv8)
    requires IsShift(s) && p < 64
    ensures p in Squares(Stage(mover, opp, s, down, 1))
        <==> (p in Squares(opp) && HasBack(p, s, down) && Back(p, s, down) in Squares(mover))
  {
    StageOneIs(mover, opp, s, down);
    FirstSquares(mover, opp, Shift(mover, s, down), Stage(mover, opp, s, down, 1), s, down, p);
  }

  lemma StepParts(t: bv64, opp: bv64, sh: bv64, w: bv64, u: bv64, s: bv8, down: bool)
    requires IsShift(s) && sh == Shift(t, s, down) && w == sh & opp && u == Step(t, opp, s, down)
    ensures u == t | w
  {}

  lemma StepSquaresOf(t: bv64, opp: bv64, u: bv64, s: bv8, down: bool, p: bv8)
    requires IsShift(s) && p < 64 && u == Step(t, opp, s, down)
    ensures p in Squares(u)
        <==> (p in Squares(t) || (p in Squares(opp) && HasBack(p, s, down) && Back(p, s, down) in Squares(t)))
  {
    var sh := Shift(t, s, down);
    var w := sh & opp;
    StepParts(t, opp, sh, w, u, s, down);
    StepSquares(t, opp, sh, w, u, s, down, p);
  }

  lemma StageNext(mover: bv64, opp: bv64, s: bv8, down: bool, i: nat, p: bv8)
    requires IsShift(s) && i > 1 && p < 64
    ensures p in Squares(Stage(mover, opp, s, down, i))
        <==> (p in Squares(Stage(mover, opp, s, down, i - 1))
          || (p in Squares(opp) && HasBack(p, s, down) && Back(p, s, down) in Squares(Stage(mover, opp, s, down, i - 1))))
  {
    StageNextIs(mover, opp, s, down, i);
    StepSquaresOf(Stage(mover, opp, s, down, i - 1), opp, Stage(mover, opp, s, down, i), s, down, p);
  }

  /** Stage i holds exactly the ends of runs of at most i opponent stones behind which is a mover stone. */
  lemma {:induction false} StageFlanked(mover: bv64, opp: bv64, s: bv8, down: bool, i: nat, p: bv8)
    requires IsShift(s) && i >= 1 && p < 64
    ensures p in Squares(Stage(mover, opp, s, down, i)) <==> Flanked(Squares(mover), Squares(opp), s, down, i, p)
    decreases i
  {
    if i == 1 {
      StageOne(mover, opp, s, down, p);
      FlankedOne(Squares(mover), Squares(opp), s, down, p);
    } else {
      StageNext(mover, opp, s, down, i, p);
      FlankedStep(Squares(mover), Squares(opp), s, down, i, p);
      StageFlanked(mover, opp, s, down, i - 1, p);
      if HasBack(p, s, down) {
        StageFlanked(mover, opp, s, down, i - 1, Back(p, s, down));
      }
    }
  }

  /**
   * downward_moves: mask the opponent's stones with the edge mask, run the six
   * fill lines (Stage 6, see FillIsStageDown), then shift once more onto empty squares.
   */
  function DownwardMoves(thisSide: bv64, otherSide: bv64, edgeSpaces: bv64, emptySpaces: bv64, shift: bv8): (r: bv64)
    requires IsShift(shift)
    ensures r & !emptySpaces == 0
  {
    var other := otherSide & edgeSpaces;
    Shift(Stage(thisSide, other, shift, true, 6), shift, true) & emptySpaces
  }

  /** upward_moves: the same fill towards the less significant bits; note its argument order. */
  function UpwardMoves(thisSide: bv64, otherSide: bv64, emptySpaces: bv64, edgeSpaces: bv64, shift: bv8): (r: bv64)
    requires IsShift(shift)
    ensures r & !emptySpaces == 0
  {
    var other := otherSide & edgeSpaces;
    Shift(Stage(thisSide, other, shift, false, 6), shift, false) & emptySpaces
  }

  /** Stage 6 is the six fill lines of downward_moves and upward_moves written out. */
  lemma FillIsStage(m: bv64, o: bv64, s: bv8, down: bool)
    requires IsShift(s)
    ensures Stage(m, o, s, down, 6)
         == Step(Step(Step(Step(Step(Shift(m, s, down) & o, o, s, down), o, s, down), o, s, down), o, s, down), o, s, down)
  {
    StageNextIs(m, o, s, down, 2);
    StageNextIs(m, o, s, down, 3);
    StageNextIs(m, o, s, down, 4);
    StageNextIs(m, o, s, down, 5);
    StageNextIs(m, o, s, down, 6);
  }

  lemma ShiftMaskSquares(mover: bv64, opp: bv64, f: bv64, sh: bv64, emptySpaces: bv64, r: bv64, s: bv8, down: bool, p: bv8)
    requires IsShift(s) && p < 64
    requires f == Stage(mover, opp, s, down, 6) && sh == Shift(f, s, down) && r == sh & emptySpaces
    ensures p in Squares(r)
        <==> (p in Squares(emptySpaces) && HasBack(p, s, down)
          && Flanked(Squares(mover), Squares(opp), s, down, 6, Back(p, s, down)))
  {
    AndBit(sh, emptySpaces, r, p);
    ShiftBit(f, sh, s, down, p);
    if HasBack(p, s, down) {
      StageFlanked(mover, opp, s, down, 6, Back(p, s, down));
    }
  }

  lemma ShiftMaskDown(mover: bv64, opp: bv64, f: bv64, emptySpaces: bv64, r: bv64, s: bv8, p: bv8)
    requires IsShift(s) && p < 64
    requires f == Stage(mover, opp, s, true, 6) && r == Shift(f, s, true) & emptySpaces
    ensures p in Squares(r)
        <==> (p in Squares(emptySpaces) && HasBack(p, s, true)
          && Flanked(Squares(mover), Squares(opp), s, true, 6, Back(p, s, true)))
  {
    ShiftMaskSquares(mover, opp, f, Shift(f, s, true), emptySpaces, r, s, true, p);
  }

  lemma ShiftMaskUp(mover: bv64, opp: bv64, f: bv64, emptySpaces: bv64, r: bv64, s: bv8, p: bv8)
    requires IsShift(s) && p < 64
    requires f == Stage(mover, opp, s, false, 6) && r == Shift(f, s, false) & emptySpaces
    ensures p in Squares(r)
        <==> (p in Squares(emptySpaces) && HasBack(p, s, false)
          && Flanked(Squares(mover), Squares(opp), s, false, 6, Back(p, s, false)))
  {
    ShiftMaskSquares(mover, opp, f, Shift(f, s, false), emptySpaces, r, s, false, p);
  }

  lemma DownwardSquares(thisSide: bv64, otherSide: bv64, edgeSpaces: bv64, emptySpaces: bv64, s: bv8, p: bv8)
    requires IsShift(s) && p < 64
    ensures p in Squares(DownwardMoves(thisSide, otherSide, edgeSpaces, emptySpaces, s))
        <==> (p in Squares(emptySpaces) && HasBack(p, s, true)
          && Flanked(Squares(thisSide), Squares(otherSide & edgeSpaces), s, true, 6, Back(p, s, true)))
  {
    ShiftMaskDown(thisSide, otherSide & edgeSpaces, Stage(thisSide, otherSide & edgeSpaces, s, true, 6),
      emptySpaces, DownwardMoves(thisSide, otherSide, edgeSpaces, emptySpaces, s), s, p);
  }

  lemma UpwardSquares(thisSide: bv64, otherSide: bv64, emptySpaces: bv64, edgeSpaces: bv64, s: bv8, p: bv8)
    requires IsShift(s) && p < 64
    ensures p in Squares(UpwardMoves(thisSide, otherSide, emptySpaces, edgeSpaces, s))
        <==> (p in Squares(emptySpaces) && HasBack(p, s, false)
          && Flanked(Squares(thisSide), Squares(otherSide & edgeSpaces), s, false, 6, Back(p, s, false)))
  {
    ShiftMaskUp(thisSide, otherSide & edgeSpaces, Stage(thisSide, otherSide & edgeSpaces, s, false, 6),
      emptySpaces, UpwardMoves(thisSide, otherSide, emptySpaces, edgeSpaces, s), s, p);
  }

  /** Shift is the C++ shift by the direction amount. */
  lemma ShiftIsShl(t: bv64, s: bv8)
    requires IsShift(s)
    ensures Shift(t, s, true) == t << s && Shift(t, s, false) == t >> s
  {}

  /** A square that ends a run is an opponent square. */
  lemma FlankedIsOpponent(mover: iset<bv8>, opp: iset<bv8>, s: bv8, down: bool, n: nat, p: bv8)
    requires IsShift(s) && p < 64 && Flanked(mover, opp, s, down, n, p)
    ensures p in opp
  {
    var k: nat :| 1 <= k <= n && Run(mover, opp, s, down, k, p);
  }

  lemma {:induction false} StageOfEmpty(mover: bv64, opp: bv64, s: bv8, down: bool, i: nat)
    requires IsShift(s) && i >= 1 && (mover == 0 || opp == 0)
    ensures Stage(mover, opp, s, down, i) == 0
    decreases i
  {
    if i > 1 {
      StageOfEmpty(mover, opp, s, down, i - 1);
    }
  }

  /** No mover stones, no masked opponent stones or no empty squares: no moves. */
  lemma DownwardZero(thisSide: bv64, otherSide: bv64, edgeSpaces: bv64, emptySpaces: bv64, s: bv8)
    requires IsShift(s) && (thisSide == 0 || otherSide & edgeSpaces == 0 || emptySpaces == 0)
    ensures DownwardMoves(thisSide, otherSide, edgeSpaces, emptySpaces, s) == 0
  {
    if emptySpaces != 0 {
      StageOfEmpty(thisSide, otherSide & edgeSpaces, s, true, 6);
    }
  }

  lemma UpwardZero(thisSide: bv64, otherSide: bv64, emptySpaces: bv64, edgeSpaces: bv64, s: bv8)
    requires IsShift(s) && (thisSide == 0 || otherSide & edgeSpaces == 0 || emptySpaces == 0)
    ensures UpwardMoves(thisSide, otherSide, emptySpaces, edgeSpaces, s) == 0
  {
    if emptySpaces != 0 {
      StageOfEmpty(thisSide, otherSide & edgeSpaces, s, false, 6);
    }
  }

  /** Every reported square is empty, and the square behind it is a masked opponent stone. */
  lemma DownwardReported(thisSide: bv64, otherSide: bv64, edgeSpaces: bv64, emptySpaces: bv64, s: bv8, p: bv8)
    requires IsShift(s) && p < 64 && p in Squares(DownwardMoves(thisSide, otherSide, edgeSpaces, emptySpaces, s))
    ensures p in Squares(emptySpaces) && HasBack(p, s, true) && Back(p, s, true) in Squares(otherSide & edgeSpaces)
  {
    DownwardSquares(thisSide, otherSide, edgeSpaces, emptySpaces, s, p);
    FlankedIsOpponent(Squares(thisSide), Squares(otherSide & edgeSpaces), s, true, 6, Back(p, s, true));
  }

  lemma UpwardReported(thisSide: bv64, otherSide: bv64, emptySpaces: bv64, edgeSpaces: bv64, s: bv8, p: bv8)
    requires IsShift(s) && p < 64 && p in Squares(UpwardMoves(thisSide, otherSide, emptySpaces, edgeSpaces, s))
    ensures p in Squares(emptySpaces) && HasBack(p, s, false) && Back(p, s, false) in Squares(otherSide & edgeSpaces)
  {
    UpwardSquares(thisSide, otherSide, emptySpaces, edgeSpaces, s, p);
    FlankedIsOpponent(Squares(thisSide), Squares(otherSide & edgeSpaces), s, false, 6, Back(p, s, false));
  }

  /** Bitwise union as a named operation, so that unions can be taken apart one at a time. */
  function Union(a: bv64, b: bv64): bv64
  {
    a | b
  }

  /** The bitwise union a | b | c | d. */
  function Union4(a: bv64, b: bv64, c: bv64, d: bv64): bv64
  {
    Union(Union(Union(a, b), c), d)
  }

  /** The bitwise union of eight words; `|` is associative, so the grouping does not matter. */
  function Union8(a: bv64, b: bv64, c: bv64, d: bv64, e: bv64, f: bv64, g: bv64, h: bv64): bv64
  {
    Union(Union4(a, b, c, d), Union4(e, f, g, h))
  }

  /**
   * all_moves as written: `!` is the logical not, so emptySpaces is 1 or 0, and the
   * downward calls pass emptySpaces as the edge mask and the edge mask as emptySpaces.
   */
  function AllMovesAsWritten(thisSide: bv64, otherSide: bv64): bv64
  {
    var emptySpaces: bv64 := if thisSide | otherSide == 0 then 1 else 0;
    Union8(
      DownwardMoves(thisSide, otherSide, emptySpaces, 0x7F7F7F7F7F7F7F7F, 1),
      DownwardMoves(thisSide, otherSide, emptySpaces, 0x00FEFEFEFEFEFEFE, 7),
      DownwardMoves(thisSide, otherSide, emptySpaces, 0x00FFFFFFFFFFFFFF, 8),
      DownwardMoves(thisSide, otherSide, emptySpaces, 0x007F7F7F7F7F7F7F, 9),
      UpwardMoves(thisSide, otherSide, emptySpaces, 0xFEFEFEFEFEFEFEFE, 1),
      UpwardMoves(thisSide, otherSide, emptySpaces, 0x7F7F7F7F7F7F7F00, 7),
      UpwardMoves(thisSide, otherSide, emptySpaces, 0xFFFFFFFFFFFFFF00, 8),
      UpwardMoves(thisSide, otherSide, emptySpaces, 0xFEFEFEFEFEFEFE00, 9))
  }

  /** As written, all_moves reports no move for any position. */
  lemma AllMovesAsWrittenIsZero(thisSide: bv64, otherSide: bv64)
    ensures AllMovesAsWritten(thisSide, otherSide) == 0
  {
    var emptySpaces: bv64 := if thisSide | otherSide == 0 then 1 else 0;
    if thisSide | otherSide == 0 {
      assert thisSide == 0;
    }
    DownwardZero(thisSide, otherSide, emptySpaces, 0x7F7F7F7F7F7F7F7F, 1);
    DownwardZero(thisSide, otherSide, emptySpaces, 0x00FEFEFEFEFEFEFE, 7);
    DownwardZero(thisSide, otherSide, emptySpaces, 0x00FFFFFFFFFFFFFF, 8);
    DownwardZero(thisSide, otherSide, emptySpaces, 0x007F7F7F7F7F7F7F, 9);
    UpwardZero(thisSide, otherSide, emptySpaces, 0xFEFEFEFEFEFEFEFE, 1);
    UpwardZero(thisSide, otherSide, emptySpaces, 0x7F7F7F7F7F7F7F00, 7);
    UpwardZero(thisSide, otherSide, emptySpaces, 0xFFFFFFFFFFFFFF00, 8);
    UpwardZero(thisSide, otherSide, emptySpaces, 0xFEFEFEFEFEFEFE00, 9);
  }

  /** all_moves with the complement `~` for the empty squares and the downward arguments in their declared order. */
  function AllMoves(thisSide: bv64, otherSide: bv64): (r: bv64)
    ensures r & (thisSide | otherSide) == 0
  {
    var emptySpaces := !(thisSide | otherSide);
    Union8(
      DownwardMoves(thisSide, otherSide, 0x7F7F7F7F7F7F7F7F, emptySpaces, 1),
      DownwardMoves(thisSide, otherSide, 0x00FEFEFEFEFEFEFE, emptySpaces, 7),
      DownwardMoves(thisSide, otherSide, 0x00FFFFFFFFFFFFFF, emptySpaces, 8),
      DownwardMoves(thisSide, otherSide, 0x007F7F7F7F7F7F7F, emptySpaces, 9),
      UpwardMoves(thisSide, otherSide, emptySpaces, 0xFEFEFEFEFEFEFEFE, 1),
      UpwardMoves(thisSide, otherSide, emptySpaces, 0x7F7F7F7F7F7F7F00, 7),
      UpwardMoves(thisSide, otherSide, emptySpaces, 0xFFFFFFFFFFFFFF00, 8),
      UpwardMoves(thisSide, otherSide, emptySpaces, 0xFEFEFEFEFEFEFE00, 9))
  }

  lemma EmptySquares(thisSide: bv64, otherSide: bv64, p: bv8)
    requires p < 64
    ensures p in Squares(!(thisSide | otherSide)) <==> p !in Squares(thisSide) && p !in Squares(otherSide)
  {
    EmptyBit(thisSide, otherSide, !(thisSide | otherSide), p);
  }

  lemma EmptyBit(thisSide: bv64, otherSide: bv64, e: bv64, p: bv8)
    requires p < 64 && e == !(thisSide | otherSide)
    ensures Bit(e, p) <==> !Bit(thisSide, p) && !Bit(otherSide, p)
  {}

  lemma UnionSquares(u: bv64, a: bv64, b: bv64, p: bv8)
    requires p < 64 && u == Union(a, b)
    ensures p in Squares(u) <==> p in Squares(a) || p in Squares(b)
  {
    OrBit(a, b, u, p);
  }

  /** The bits of a union: the bit form of UnionSquares. */
  lemma UnionBit(u: bv64, a: bv64, b: bv64, p: bv8)
    requires p < 64 && u == Union(a, b)
    ensures Bit(u, p) <==> Bit(a, p) || Bit(b, p)
  {
    OrBit(a, b, u, p);
  }

  lemma UnionAssoc(a: bv64, b: bv64, c: bv64)
    ensures Union(Union(a, b), c) == Union(a, Union(b, c))
  {}

  lemma Union4Squares(all: bv64, a: bv64, b: bv64, c: bv64, d: bv64, p: bv8)
    requires p < 64 && all == Union4(a, b, c, d)
    ensures p in Squares(all) <==> p in Squares(a) || p in Squares(b) || p in Squares(c) || p in Squares(d)
  {
    var ab := Union(a, b);
    var abc := Union(ab, c);
    UnionSquares(ab, a, b, p);
    UnionSquares(abc, ab, c, p);
    UnionSquares(all, abc, d, p);
  }

  /**
   * The mover captures in direction (s, down) by a move on p: the opponent stones
   * that the edge mask keeps form a run of one to six behind p, ending at a mover stone.
   */
  ghost predicate Captures(mover: bv64, opp: bv64, s: bv8, down: bool, edge: bv64, p: bv8)
    requires IsShift(s) && p < 64
  {
    HasBack(p, s, down) && Flanked(Squares(mover), Squares(opp & edge), s, down, 6, Back(p, s, down))
  }

  /** The four downward directions of all_moves (right, down-left, down, down-right), with their edge masks. */
  ghost predicate AnyDownward(mover: bv64, opp: bv64, p: bv8)
    requires p < 64
  {
    Captures(mover, opp, 1, true, 0x7F7F7F7F7F7F7F7F, p)
    || Captures(mover, opp, 7, true, 0x00FEFEFEFEFEFEFE, p)
    || Captures(mover, opp, 8, true, 0x00FFFFFFFFFFFFFF, p)
    || Captures(mover, opp, 9, true, 0x007F7F7F7F7F7F7F, p)
  }

  /** The four upward directions of all_moves (left, up-right, up, up-left), with their edge masks. */
  ghost predicate AnyUpward(mover: bv64, opp: bv64, p: bv8)
    requires p < 64
  {
    Captures(mover, opp, 1, false, 0xFEFEFEFEFEFEFEFE, p)
    || Captures(mover, opp, 7, false, 0x7F7F7F7F7F7F7F00, p)
    || Captures(mover, opp, 8, false, 0xFFFFFFFFFFFFFF00, p)
    || Captures(mover, opp, 9, false, 0xFEFEFEFEFEFEFE00, p)
  }

  /** Some direction of all_moves captures from p. */
  ghost predicate AnyCapture(mover: bv64, opp: bv64, p: bv8)
    requires p < 64
  {
    AnyDownward(mover, opp, p) || AnyUpward(mover, opp, p)
  }

  /** One downward direction of all_moves: the empty squares from which that direction captures. */
  lemma DownwardCaptures(thisSide: bv64, otherSide: bv64, edgeSpaces: bv64, emptySpaces: bv64, s: bv8, p: bv8)
    requires IsShift(s) && p < 64
    ensures p in Squares(DownwardMoves(thisSide, otherSide, edgeSpaces, emptySpaces, s))
        <==> p in Squares(emptySpaces) && Captures(thisSide, otherSide, s, true, edgeSpaces, p)
  {
    DownwardSquares(thisSide, otherSide, edgeSpaces, emptySpaces, s, p);
  }

  /** One upward direction of all_moves. */
  lemma UpwardCaptures(thisSide: bv64, otherSide: bv64, emptySpaces: bv64, edgeSpaces: bv64, s: bv8, p: bv8)
    requires IsShift(s) && p < 64
    ensures p in Squares(UpwardMoves(thisSide, otherSide, emptySpaces, edgeSpaces, s))
        <==> p in Squares(emptySpaces) && Captures(thisSide, otherSide, s, false, edgeSpaces, p)
  {
    UpwardSquares(thisSide, otherSide, emptySpaces, edgeSpaces, s, p);
  }

  lemma UnionHalves(all: bv64, a: bv64, b: bv64, c: bv64, d: bv64, e: bv64, f: bv64, g: bv64, h: bv64, p: bv8)
    requires p < 64 && all == Union8(a, b, c, d, e, f, g, h)
    ensures p in Squares(all) <==> p in Squares(Union4(a, b, c, d)) || p in Squares(Union4(e, f, g, h))
  {
    UnionSquares(all, Union4(a, b, c, d), Union4(e, f, g, h), p);
  }

  /** The four downward directions of all_moves over the empty squares emptySpaces, as a union of their squares. */
  lemma DownwardUnion(thisSide: bv64, otherSide: bv64, emptySpaces: bv64, p: bv8)
    requires p < 64
    ensures p in Squares(Union4(
          DownwardMoves(thisSide, otherSide, 0x7F7F7F7F7F7F7F7F, emptySpaces, 1),
          DownwardMoves(thisSide, otherSide, 0x00FEFEFEFEFEFEFE, emptySpaces, 7),
          DownwardMoves(thisSide, otherSide, 0x00FFFFFFFFFFFFFF, emptySpaces, 8),
          DownwardMoves(thisSide, otherSide, 0x007F7F7F7F7F7F7F, emptySpaces, 9)))
        <==> (p in Squares(DownwardMoves(thisSide, otherSide, 0x7F7F7F7F7F7F7F7F, emptySpaces, 1))
          || p in Squares(DownwardMoves(thisSide, otherSide, 0x00FEFEFEFEFEFEFE, emptySpaces, 7))
          || p in Squares(DownwardMoves(thisSide, otherSide, 0x00FFFFFFFFFFFFFF, emptySpaces, 8))
          || p in Squares(DownwardMoves(thisSide, otherSide, 0x007F7F7F7F7F7F7F, emptySpaces, 9)))
  {
    Union4Squares(Union4(
        DownwardMoves(thisSide, otherSide, 0x7F7F7F7F7F7F7F7F, emptySpaces, 1),
        DownwardMoves(thisSide, otherSide, 0x00FEFEFEFEFEFEFE, emptySpaces, 7),
        DownwardMoves(thisSide, otherSide, 0x00FFFFFFFFFFFFFF, emptySpaces, 8),
        DownwardMoves(thisSide, otherSide, 0x007F7F7F7F7F7F7F, emptySpaces, 9)),
      DownwardMoves(thisSide, otherSide, 0x7F7F7F7F7F7F7F7F, emptySpaces, 1),
      DownwardMoves(thisSide, otherSide, 0x00FEFEFEFEFEFEFE, emptySpaces, 7),
      DownwardMoves(thisSide, otherSide, 0x00FFFFFFFFFFFFFF, emptySpaces, 8),
      DownwardMoves(thisSide, otherSide, 0x007F7F7F7F7F7F7F, emptySpaces, 9), p);
  }

  /** The downward half of all_moves: the squares of emptySpaces from which a downward direction captures. */
  lemma DownwardHalf(thisSide: bv64, otherSide: bv64, emptySpaces: bv64, p: bv8)
    requires p < 64
    ensures p in Squares(Union4(
          DownwardMoves(thisSide, otherSide, 0x7F7F7F7F7F7F7F7F, emptySpaces, 1),
          DownwardMoves(thisSide, otherSide, 0x00FEFEFEFEFEFEFE, emptySpaces, 7),
          DownwardMoves(thisSide, otherSide, 0x00FFFFFFFFFFFFFF, emptySpaces, 8),
          DownwardMoves(thisSide, otherSide, 0x007F7F7F7F7F7F7F, emptySpaces, 9)))
        <==> p in Squares(emptySpaces) && AnyDownward(thisSide, otherSide, p)
  {
    DownwardUnion(thisSide, otherSide, emptySpaces, p);
    DownwardCaptures(thisSide, otherSide, 0x7F7F7F7F7F7F7F7F, emptySpaces, 1, p);
    DownwardCaptures(thisSide, otherSide, 0x00FEFEFEFEFEFEFE, emptySpaces, 7, p);
    DownwardCaptures(thisSide, otherSide, 0x00FFFFFFFFFFFFFF, emptySpaces, 8, p);
    DownwardCaptures(thisSide, otherSide, 0x007F7F7F7F7F7F7F, emptySpaces, 9, p);
  }

  /** The four upward directions of all_moves over the empty squares emptySpaces, as a union of their squares. */
  lemma UpwardUnion(thisSide: bv64, otherSide: bv64, emptySpaces: bv64, p: bv8)
    requires p < 64
    ensures p in Squares(Union4(
          UpwardMoves(thisSide, otherSide, emptySpaces, 0xFEFEFEFEFEFEFEFE, 1),
          UpwardMoves(thisSide, otherSide, emptySpaces, 0x7F7F7F7F7F7F7F00, 7),
          UpwardMoves(thisSide, otherSide, emptySpaces, 0xFFFFFFFFFFFFFF00, 8),
          UpwardMoves(thisSide, otherSide, emptySpaces, 0xFEFEFEFEFEFEFE00, 9)))
        <==> (p in Squares(UpwardMoves(thisSide, otherSide, emptySpaces, 0xFEFEFEFEFEFEFEFE, 1))
          || p in Squares(UpwardMoves(thisSide, otherSide, emptySpaces, 0x7F7F7F7F7F7F7F00, 7))
          || p in Squares(UpwardMoves(thisSide, otherSide, emptySpaces, 0xFFFFFFFFFFFFFF00, 8))
          || p in Squares(UpwardMoves(thisSide, otherSide, emptySpaces, 0xFEFEFEFEFEFEFE00, 9)))
  {
    Union4Squares(Union4(
        UpwardMoves(thisSide, otherSide, emptySpaces, 0xFEFEFEFEFEFEFEFE, 1),
        UpwardMoves(thisSide, otherSide, emptySpaces, 0x7F7F7F7F7F7F7F00, 7),
        UpwardMoves(thisSide, otherSide, emptySpaces, 0xFFFFFFFFFFFFFF00, 8),
        UpwardMoves(thisSide, otherSide, emptySpaces, 0xFEFEFEFEFEFEFE00, 9)),
      UpwardMoves(thisSide, otherSide, emptySpaces, 0xFEFEFEFEFEFEFEFE, 1),
      UpwardMoves(thisSide, otherSide, emptySpaces, 0x7F7F7F7F7F7F7F00, 7),
      UpwardMoves(thisSide, otherSide, emptySpaces, 0xFFFFFFFFFFFFFF00, 8),
      UpwardMoves(thisSide, otherSide, emptySpaces, 0xFEFEFEFEFEFEFE00, 9), p);
  }

  /** The upward half of all_moves. */
  lemma UpwardHalf(thisSide: bv64, otherSide: bv64, emptySpaces: bv64, p: bv8)
    requires p < 64
    ensures p in Squares(Union4(
          UpwardMoves(thisSide, otherSide, emptySpaces, 0xFEFEFEFEFEFEFEFE, 1),
          UpwardMoves(thisSide, otherSide, emptySpaces, 0x7F7F7F7F7F7F7F00, 7),
          UpwardMoves(thisSide, otherSide, emptySpaces, 0xFFFFFFFFFFFFFF00, 8),
          UpwardMoves(thisSide, otherSide, emptySpaces, 0xFEFEFEFEFEFEFE00, 9)))
        <==> p in Squares(emptySpaces) && AnyUpward(thisSide, otherSide, p)
  {
    UpwardUnion(thisSide, otherSide, emptySpaces, p);
    UpwardCaptures(thisSide, otherSide, emptySpaces, 0xFEFEFEFEFEFEFEFE, 1, p);
    UpwardCaptures(thisSide, otherSide, emptySpaces, 0x7F7F7F7F7F7F7F00, 7, p);
    UpwardCaptures(thisSide, otherSide, emptySpaces, 0xFFFFFFFFFFFFFF00, 8, p);
    UpwardCaptures(thisSide, otherSide, emptySpaces, 0xFEFEFEFEFEFEFE00, 9, p);
  }

  /** all_moves' union taken apart into its downward and upward halves. */
  lemma AllMovesHalves(thisSide: bv64, otherSide: bv64, p: bv8)
    requires p < 64
    ensures p in Squares(AllMoves(thisSide, otherSide))
        <==> (p in Squares(Union4(
          DownwardMoves(thisSide, otherSide, 0x7F7F7F7F7F7F7F7F, !(thisSide | otherSide), 1),
          DownwardMoves(thisSide, otherSide, 0x00FEFEFEFEFEFEFE, !(thisSide | otherSide), 7),
          DownwardMoves(thisSide, otherSide, 0x00FFFFFFFFFFFFFF, !(thisSide | otherSide), 8),
          DownwardMoves(thisSide, otherSide, 0x007F7F7F7F7F7F7F, !(thisSide | otherSide), 9)))
          || p in Squares(Union4(
          UpwardMoves(thisSide, otherSide, !(thisSide | otherSide), 0xFEFEFEFEFEFEFEFE, 1),
          UpwardMoves(thisSide, otherSide, !(thisSide | otherSide), 0x7F7F7F7F7F7F7F00, 7),
          UpwardMoves(thisSide, otherSide, !(thisSide | otherSide), 0xFFFFFFFFFFFFFF00, 8),
          UpwardMoves(thisSide, otherSide, !(thisSide | otherSide), 0xFEFEFEFEFEFEFE00, 9))))
  {
    UnionHalves(AllMoves(thisSide, otherSide), DownwardMoves(thisSide, otherSide, 0x7F7F7F7F7F7F7F7F, !(thisSide | otherSide), 1),
      DownwardMoves(thisSide, otherSide, 0x00FEFEFEFEFEFEFE, !(thisSide | otherSide), 7),
      DownwardMoves(thisSide, otherSide, 0x00FFFFFFFFFFFFFF, !(thisSide | otherSide), 8),
      DownwardMoves(thisSide, otherSide, 0x007F7F7F7F7F7F7F, !(thisSide | otherSide), 9),
      UpwardMoves(thisSide, otherSide, !(thisSide | otherSide), 0xFEFEFEFEFEFEFEFE, 1),
      UpwardMoves(thisSide, otherSide, !(thisSide | otherSide), 0x7F7F7F7F7F7F7F00, 7),
      UpwardMoves(thisSide, otherSide, !(thisSide | otherSide), 0xFFFFFFFFFFFFFF00, 8),
      UpwardMoves(thisSide, otherSide, !(thisSide | otherSide), 0xFEFEFEFEFEFEFE00, 9), p);
  }

  /** The corrected all_moves reports exactly the empty squares from which some direction captures. */
  lemma AllMovesCaptures(thisSide: bv64, otherSide: bv64, p: bv8)
    requires p < 64
    ensures p in Squares(AllMoves(thisSide, otherSide))
        <==> (p in Squares(!(thisSide | otherSide)) && AnyCapture(thisSide, otherSide, p))
  {
    AllMovesHalves(thisSide, otherSide, p);
    DownwardHalf(thisSide, otherSide, !(thisSide | otherSide), p);
    UpwardHalf(thisSide, otherSide, !(thisSide | otherSide), p);
  }

  /** The same, with the empty squares spelled out: squares neither side occupies. */
  lemma AllMovesSquares(thisSide: bv64, otherSide: bv64, p: bv8)
    requires p < 64
    ensures p in Squares(AllMoves(thisSide, otherSide))
        <==> (p !in Squares(thisSide) && p !in Squares(otherSide) && AnyCapture(thisSide, otherSide, p))
  {
    AllMovesCaptures(thisSide, otherSide, p);
    EmptySquares(thisSide, otherSide, p);
  }

  /**
   * The edge masks clear only the exit edge of the opponent's stones, so the first
   * shift from a mover stone may still wrap: the "right" fill from a mover stone on
   * (0, 7) over an opponent stone on (1, 0) reports the empty square (1, 1).
   */
  lemma RightWrapsAroundFill()
    ensures DownwardMoves(0x80, 0x100, 0x7F7F7F7F7F7F7F7F, !(0x180 as bv64), 1) == 0x200
  {
    var opp: bv64 := 0x100;
    assert (0x100 as bv64) & 0x7F7F7F7F7F7F7F7F == opp;
    assert Stage(0x80, opp, 1, true, 1) == 0x100;
    assert Stage(0x80, opp, 1, true, 2) == 0x100;
    assert Stage(0x80, opp, 1, true, 3) == 0x100;
    assert Stage(0x80, opp, 1, true, 4) == 0x100;
    assert Stage(0x80, opp, 1, true, 5) == 0x100;
    assert Stage(0x80, opp, 1, true, 6) == 0x100;
  }

  /** Hence all_moves reports square 9, (1, 1), although no line of the board joins it to the mover's stone on (0, 7). */
  lemma RightWrapsAround()
    ensures 9 in Squares(AllMoves(0x80, 0x100))
  {
    var emptySpaces: bv64 := !(0x80 | 0x100);
    assert emptySpaces == !(0x180 as bv64);
    RightWrapsAroundFill();
    assert Bit(0x200, 9);
    DownwardCaptures(0x80, 0x100, 0x7F7F7F7F7F7F7F7F, emptySpaces, 1, 9);
    AllMovesCaptures(0x80, 0x100, 9);
  }
}
