/**
 * The computer's hard-mode heuristic: a one-ply evaluation that adds a fixed
 * positional weight (corners high, cells next to corners low) to the number
 * of discs a White move would flip, and takes the first move, in list order,
 * whose score is strictly greatest.
 */
module Strategy {
  import opened Rules

  /** Positional weights, indexed Weights[y][x]. */
  const Weights: seq<seq<int>> :=
    [[100, -20, 10,  5,  5, 10, -20, 100],
     [-20, -50, -2, -2, -2, -2, -50, -20],
     [ 10,  -2, -1, -1, -1, -1,  -2,  10],
     [  5,  -2, -1, -1, -1, -1,  -2,   5],
     [  5,  -2, -1, -1, -1, -1,  -2,   5],
     [ 10,  -2, -1, -1, -1, -1,  -2,  10],
     [-20, -50, -2, -2, -2, -2, -50, -20],
     [100, -20, 10,  5,  5, 10, -20, 100]]

  /** Lower than every score a move can get; stands in for minus infinity. */
  const NoScore: int := -51

  /** The weight table is 8x8, ranges over -50 .. 100 and gives 100 to exactly the corners. */
  lemma WeightsShape()
    ensures IsBoard(Weights)
    ensures forall y, x :: InBounds(x, y) ==> -50 <= Weights[y][x] <= 100
    ensures forall y, x :: InBounds(x, y) ==>
      (Weights[y][x] == 100 <==> (x == 0 || x == Size - 1) && (y == 0 || y == Size - 1))
  {
  }

  /** The hard-mode score of a White move at c: its weight plus the discs it flips. */
  function MoveScore(g: Grid, c: Pos): (s: int)
    requires IsBoard(g) && InBounds(c.x, c.y)
    ensures s > NoScore
  {
    WeightsShape();
    Weights[c.y][c.x] + |Flips(g, c.x, c.y, White)|
  }

  /**
   * The index of the first strictly greatest among the first n elements,
   * scanning left to right and replacing the candidate only on a strictly
   * greater value.
   */
  function FirstMax(s: seq<int>, n: int): (r: nat)
    requires 0 < n <= |s|
    ensures r < n
    ensures forall k :: 0 <= k < n ==> s[k] <= s[r]
    ensures forall k :: 0 <= k < r ==> s[k] < s[r]
  {
    if n == 1 then 0
    else
      var j := FirstMax(s, n - 1);
      if s[n - 1] > s[j] then n - 1 else j
  }

  /**
   * After scanning the first n scores with the running maximum starting
   * below every score, best is the first strict maximum and bestScore its
   * score.
   */
  predicate Leading(s: seq<int>, n: int, best: int, bestScore: int) {
    && 0 <= n <= |s|
    && if n == 0 then best == 0 && bestScore == NoScore
       else best == FirstMax(s, n) && bestScore == s[best]
  }

  /** One step of the scan: take the next element when it is strictly greater. */
  lemma LeadingStep(s: seq<int>, n: int, best: int, bestScore: int)
    requires Leading(s, n, best, bestScore) && n < |s| && s[n] > NoScore
    ensures s[n] > bestScore ==> Leading(s, n + 1, n, s[n])
    ensures s[n] <= bestScore ==> Leading(s, n + 1, best, bestScore)
  {
  }

  /** The scores of the given moves, in list order. */
  function Scores(g: Grid, moves: seq<Pos>): (s: seq<int>)
    requires IsBoard(g) && forall c :: c in moves ==> InBounds(c.x, c.y)
    ensures |s| == |moves|
  {
    if |moves| == 0 then []
    else Scores(g, moves[..|moves| - 1]) + [MoveScore(g, moves[|moves| - 1])]
  }

  /** The i-th score is the score of the i-th move. */
  lemma {:induction false} ScoreAt(g: Grid, moves: seq<Pos>, i: int)
    requires IsBoard(g) && forall c :: c in moves ==> InBounds(c.x, c.y)
    requires 0 <= i < |moves|
    ensures Scores(g, moves)[i] == MoveScore(g, moves[i])
  {
    if i < |moves| - 1 {
      var init := moves[..|moves| - 1];
      ScoreAt(g, init, i);
      assert init[i] == moves[i];
    }
  }

  /** One step of the hard opponent's scan over moves, whose i-th score is score. */
  lemma ScanStep(g: Grid, moves: seq<Pos>, i: int, best: int, bestScore: int, score: int)
    requires IsBoard(g) && forall c :: c in moves ==> InBounds(c.x, c.y)
    requires 0 <= i < |moves| && Leading(Scores(g, moves), i, best, bestScore)
    requires score == MoveScore(g, moves[i])
    ensures score > bestScore ==> Leading(Scores(g, moves), i + 1, i, score)
    ensures score <= bestScore ==> Leading(Scores(g, moves), i + 1, best, bestScore)
  {
    ScoreAt(g, moves, i);
    LeadingStep(Scores(g, moves), i, best, bestScore);
  }

  /** The move the hard opponent picks: the one at the first strict maximum of the scores. */
  function BestMove(g: Grid, moves: seq<Pos>): Pos
    requires IsBoard(g) && |moves| > 0 && forall c :: c in moves ==> InBounds(c.x, c.y)
  {
    moves[FirstMax(Scores(g, moves), |moves|)]
  }

  /**
   * The hard opponent's pick is one of the given moves, scores at least as
   * much as every other, and occurs in the list no later than any other move
   * of the same score.
   */
  lemma BestMoveSpec(g: Grid, moves: seq<Pos>)
    requires IsBoard(g) && |moves| > 0 && forall c :: c in moves ==> InBounds(c.x, c.y)
    ensures BestMove(g, moves) in moves
    ensures forall c :: c in moves ==> MoveScore(g, c) <= MoveScore(g, BestMove(g, moves))
    ensures forall i :: 0 <= i < |moves| && MoveScore(g, moves[i]) == MoveScore(g, BestMove(g, moves)) ==>
      exists j :: 0 <= j <= i && moves[j] == BestMove(g, moves)
  {
    var s := Scores(g, moves);
    var r := FirstMax(s, |s|);
    forall i | 0 <= i < |moves|
      ensures s[i] == MoveScore(g, moves[i])
    {
      ScoreAt(g, moves, i);
    }
  }
}
