/**
 * The static evaluation of player.cpp (Player::heuristic), as integer
 * arithmetic over the counts it reads from a position. C++ `/` on `int`
 * truncates toward zero, so the quotients here use TruncDiv, not Dafny's
 * Euclidean `/`.
 */
module Heuristic {
  import opened Common

  /** The largest absolute value the evaluation can take: 100 + 1000 + 1000 + 500 + 250. */
  const MAX_SCORE: int := 2850

  /**
   * C++ integer division by a positive divisor: the quotient truncated
   * toward zero, so that the remainder takes the dividend's sign.
   */
  function TruncDiv(a: int, b: int): (q: int)
    requires b > 0
    ensures a >= 0 ==> 0 <= a - q * b < b
    ensures a < 0 ==> -b < a - q * b <= 0
  {
    if a >= 0 then a / b
    else
      NegQuotient(-a, b);
      -((-a) / b)
  }

  lemma NegQuotient(n: int, b: int)
    requires n >= 0 && b > 0
    ensures -b < -n + (n / b) * b <= 0
  {
    assert n == (n / b) * b + n % b;
  }

  /** Negating the dividend negates a truncated quotient (a Euclidean one would not). */
  lemma TruncDivNeg(a: int, b: int)
    requires b > 0
    ensures TruncDiv(-a, b) == -TruncDiv(a, b)
  {}

  /** A dividend within w multiples of the divisor gives a quotient within w. */
  lemma TruncDivBound(a: int, b: int, w: int)
    requires b > 0 && w >= 0 && -(w * b) <= a <= w * b
    ensures -w <= TruncDiv(a, b) <= w
  {
    var q := TruncDiv(a, b);
    assert (w + 1) * b == w * b + b;
    assert (-w - 1) * b == -(w * b) - b;
    MulStrict(q, w + 1, b);
    MulStrict(-w - 1, q, b);
  }

  /** Multiplying by a positive factor keeps strict order, in both directions. */
  lemma MulStrict(p: int, q: int, b: int)
    requires b > 0
    ensures p < q <==> p * b < q * b
  {
    if p < q {
      MulLeft(p + 1, q, b);
      assert (p + 1) * b == p * b + b;
    } else {
      MulLeft(q, p, b);
    }
  }

  lemma MulLeft(p: int, q: int, b: nat)
    requires p <= q
    ensures p * b <= q * b
  {}

  /** w*(x-y) lies within w multiples of x+y for counts x and y. */
  lemma WeightedDifference(w: int, x: int, y: int, d: int)
    requires x >= 0 && y >= 0 && d == w * (x - y)
    ensures -(Abs(w) * (x + y)) <= d <= Abs(w) * (x + y)
  {
    if w >= 0 {
      MulLeft(x - y, x + y, w);
      MulLeft(-(x + y), x - y, w);
    } else {
      MulLeft(x - y, x + y, -w);
      MulLeft(-(x + y), x - y, -w);
    }
  }

  function Abs(x: int): int { if x < 0 then -x else x }

  /** A weighted difference of counts, w*(x-y)/(x+y), or 0 when both counts are 0. */
  function Term(w: int, x: uint8, y: uint8): (t: int)
    ensures -Abs(w) <= t <= Abs(w)
    ensures x == y ==> t == 0
  {
    var sum := x as int + y as int;
    var d := w * (x as int - y as int);
    if sum == 0 then 0
    else
      WeightedDifference(w, x as int, y as int, d);
      TruncDivBound(d, sum, Abs(w));
      assert x == y ==> d == 0;
      TruncDiv(d, sum)
  }

  /** Swapping the two sides' counts negates a term. */
  lemma TermSwap(w: int, x: uint8, y: uint8)
    ensures Term(w, y, x) == -Term(w, x, y)
  {
    var sum := x as int + y as int;
    if sum != 0 {
      assert w * (y as int - x as int) == -(w * (x as int - y as int));
      TruncDivNeg(w * (x as int - y as int), sum);
    }
  }

  /**
   * What the evaluation reads from a position, all as uint8 counts: stones,
   * moves and the three square categories for the evaluated side and for
   * the other side, and whether the board is full.
   */
  datatype Counts = Counts(
    full: bool,
    thisStones: uint8, otherStones: uint8,
    thisMoves: uint8, otherMoves: uint8,
    thisCat1: uint8, otherCat1: uint8,
    thisCat2: uint8, otherCat2: uint8,
    thisCat3: uint8, otherCat3: uint8)

  /** The same counts seen from the other side. */
  function Swap(c: Counts): Counts
  {
    Counts(c.full, c.otherStones, c.thisStones, c.otherMoves, c.thisMoves,
      c.otherCat1, c.thisCat1, c.otherCat2, c.thisCat2, c.otherCat3, c.thisCat3)
  }

  /**
   * Player::heuristic. A full board scores the stone difference alone;
   * otherwise coin parity (weight 100, whose denominator is not guarded, so
   * at least one stone must be on the board), mobility (1000), category 1
   * (1000), category 2 (-500) and category 3 (250) are added.
   */
  function Evaluate(c: Counts): (h: int)
    requires c.thisStones as int + c.otherStones as int > 0
    ensures -MAX_SCORE <= h <= MAX_SCORE
    ensures c.full ==> -1000 <= h <= 1000
  {
    var a := c.thisStones as int;
    var b := c.otherStones as int;
    TruncDivBound(1000 * (a - b), a + b, 1000);
    TruncDivBound(100 * (a - b), a + b, 100);
    if c.full then TruncDiv(1000 * (a - b), a + b)
    else
      var coinParity := TruncDiv(100 * (a - b), a + b);
      var mobility := Term(1000, c.thisMoves, c.otherMoves);
      var cat1 := Term(1000, c.thisCat1, c.otherCat1);
      var cat2 := Term(-500, c.thisCat2, c.otherCat2);
      var cat3 := Term(250, c.thisCat3, c.otherCat3);
      coinParity + mobility + cat1 + cat2 + cat3
  }

  /** The evaluation is zero-sum: seen from the other side it is negated. */
  lemma EvaluateSwap(c: Counts)
    requires c.thisStones as int + c.otherStones as int > 0
    ensures Evaluate(Swap(c)) == -Evaluate(c)
  {
    var a := c.thisStones as int;
    var b := c.otherStones as int;
    assert 1000 * (b - a) == -(1000 * (a - b));
    assert 100 * (b - a) == -(100 * (a - b));
    TruncDivNeg(1000 * (a - b), a + b);
    TruncDivNeg(100 * (a - b), a + b);
    TermSwap(1000, c.thisMoves, c.otherMoves);
    TermSwap(1000, c.thisCat1, c.otherCat1);
    TermSwap(-500, c.thisCat2, c.otherCat2);
    TermSwap(250, c.thisCat3, c.otherCat3);
  }

  /**
   * On a full board the evaluation has the sign of the stone difference:
   * the side with more stones scores above 0, and equal counts score 0.
   */
  lemma FullBoardSign(c: Counts)
    requires c.full && c.thisStones as int + c.otherStones as int > 0
    ensures Evaluate(c) > 0 <==> c.thisStones > c.otherStones
    ensures Evaluate(c) == 0 <==> c.thisStones == c.otherStones
    ensures Evaluate(c) < 0 <==> c.thisStones < c.otherStones
  {
    var a := c.thisStones as int;
    var b := c.otherStones as int;
    if a > b {
      WinnerPositive(a, b);
    } else if a < b {
      WinnerPositive(b, a);
      assert 1000 * (a - b) == -(1000 * (b - a));
      TruncDivNeg(1000 * (b - a), a + b);
    }
  }

  /** With at most 255 stones a side, a lead of one stone is worth at least 1 after the division. */
  lemma WinnerPositive(a: int, b: int)
    requires 0 <= b < a <= 255
    ensures TruncDiv(1000 * (a - b), a + b) > 0
  {
    var q := TruncDiv(1000 * (a - b), a + b);
    if q <= 0 {
      MulStrict(q, 1, a + b);
      assert false;
    }
  }

  /** The terminal example: on a full board, 34 stones against 30 score 1000 * 4 / 64 = 62. */
  lemma FullBoardExample()
    ensures Evaluate(Counts(true, 34, 30, 0, 0, 0, 0, 0, 0, 0, 0)) == 62
  {}
}
