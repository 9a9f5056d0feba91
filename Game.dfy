/**
 * The Othello engine: one game against the computer on an 8x8 board held in
 * an array indexed board[y, x]. The human plays Black (1) and moves first,
 * the computer plays White (-1).
 *
 * Turn sequencing: after the player's move the engine leaves the game with
 * currentPlayer == White and gameOver == false, which means that a call of
 * ComputerMove is due (the page runs it after a short delay). ComputerMove
 * either hands the turn back to the player or, when the player has to pass,
 * leaves that same state so that the caller runs ComputerMove once more.
 */
module Othello {
  import opened Rules
  import opened Strategy

  datatype Difficulty = Easy | Hard

  /** The status line shown beside the board. */
  datatype Message =
    | YourTurn        // the player (Black) is to move
    | Thinking        // the computer's reply is due
    | ComputerPassed  // the computer had no move
    | PlayerMustPass  // the player has no move; the computer moves again
    | PlayerWins
    | ComputerWins
    | Draw

  /** The standard start: White on (3,3) and (4,4), Black on (4,3) and (3,4), as (x,y). */
  function StartCell(x: int, y: int): int {
    if (x == 3 && y == 3) || (x == 4 && y == 4) then White
    else if (x == 4 && y == 3) || (x == 3 && y == 4) then Black
    else Empty
  }

  const Initial: Grid := seq(Size, y => seq(Size, x => StartCell(x, y)))

  /** Exactly the four centre cells are taken at the start, two discs each. */
  lemma StartPosition()
    ensures WellFormed(Initial)
    ensures forall y, x :: InBounds(x, y) ==> Initial[y][x] == StartCell(x, y)
    ensures forall y, x :: InBounds(x, y) ==>
      (Initial[y][x] != Empty <==> (x == 3 || x == 4) && (y == 3 || y == 4))
    ensures Count(Initial, Black) == 2 && Count(Initial, White) == 2
  {
    StartCounts();
  }

  /** The start board holds two discs of each colour. */
  lemma StartCounts()
    ensures Count(Initial, Black) == 2 && Count(Initial, White) == 2
  {
    StartCountUpTo(Black, Size);
    StartCountUpTo(White, Size);
  }

  /** The first m rows of the start board hold v this many times. */
  lemma {:induction false} StartCountUpTo(v: int, m: int)
    requires v in {Black, White} && 0 <= m <= Size
    ensures CountUpTo(Initial, v, m) == if m > 4 then 2 else if m > 3 then 1 else 0
  {
    if m > 0 {
      StartCountUpTo(v, m - 1);
      StartRowCount(m - 1, v, Size);
    }
  }

  /** Row y of the start board holds v in its first n cells this many times. */
  lemma {:induction false} StartRowCount(y: int, v: int, n: int)
    requires 0 <= y < Size && v in {Black, White} && 0 <= n <= Size
    ensures RowCount(Initial[y], v, n) ==
      if (y == 3 || y == 4) && n > (if (y == 3) == (v == White) then 3 else 4) then 1 else 0
  {
    if n > 0 {
      StartRowCount(y, v, n - 1);
      StartLookup(n - 1, y);
    }
  }

  /** The four opening moves: each flips the one White disc next to it. */
  predicate OpeningRay(x: int, y: int, i: int) {
    || (x == 3 && y == 2 && i == 0)
    || (x == 2 && y == 3 && i == 1)
    || (x == 4 && y == 5 && i == 2)
    || (x == 5 && y == 4 && i == 3)
  }

  /** What Black's move at an empty start cell flips along the i-th direction. */
  lemma StartRay(x: int, y: int, i: int)
    requires InBounds(x, y) && StartCell(x, y) == Empty && 0 <= i < |Directions|
    ensures RayFlips(Initial, x, y, Directions[i], Black) ==
      if OpeningRay(x, y, i) then [At(x, y, Directions[i], 1)] else []
  {
    var c := At(x, y, Directions[i], 1);
    if InBounds(c.x, c.y) && StartCell(c.x, c.y) == White {
      StartRayNextToWhite(x, y, i);
    } else {
      StartPosition();
      QuietRay(Initial, x, y, Directions[i], Black);
    }
  }

  /** A ray from an empty start cell whose first cell holds one of the two White discs. */
  lemma StartRayNextToWhite(x: int, y: int, i: int)
    requires InBounds(x, y) && StartCell(x, y) == Empty && 0 <= i < |Directions|
    requires var c := At(x, y, Directions[i], 1); InBounds(c.x, c.y) && StartCell(c.x, c.y) == White
    ensures RayFlips(Initial, x, y, Directions[i], Black) ==
      if OpeningRay(x, y, i) then [At(x, y, Directions[i], 1)] else []
  {
    if At(x, y, Directions[i], 1) == Pos(3, 3) {
      assert (x, y, i) in {(3, 2, 0), (2, 3, 1), (2, 2, 4), (2, 4, 5), (4, 2, 6)};
      StartRayPast33(x, y, i);
    } else {
      assert (x, y, i) in {(4, 5, 2), (5, 4, 3), (3, 5, 5), (5, 3, 6), (5, 5, 7)};
      StartRayPast44(x, y, i);
    }
  }

  /** The rays from empty cells that start on the White disc at (3, 3), cell by cell. */
  lemma StartRayPast33(x: int, y: int, i: int)
    requires (x, y, i) in {(3, 2, 0), (2, 3, 1), (2, 2, 4), (2, 4, 5), (4, 2, 6)}
    ensures RayFlips(Initial, x, y, Directions[i], Black) ==
      if OpeningRay(x, y, i) then [Pos(3, 3)] else []
  {
    if x == 3 && y == 2 && i == 0 {
      assert Directions[i] == Dir(0, 1);
      WalkStep(Initial, 3, 2, Dir(0, 1), 1, Black);
      WalkStep(Initial, 3, 2, Dir(0, 1), 2, Black);
      WalkStep(Initial, 3, 2, Dir(0, 1), 3, Black);
      StartLookup(3, 3);
      StartLookup(3, 4);
      StartLookup(3, 5);
    } else if x == 2 && y == 3 && i == 1 {
      assert Directions[i] == Dir(1, 0);
      WalkStep(Initial, 2, 3, Dir(1, 0), 1, Black);
      WalkStep(Initial, 2, 3, Dir(1, 0), 2, Black);
      WalkStep(Initial, 2, 3, Dir(1, 0), 3, Black);
      StartLookup(3, 3);
      StartLookup(4, 3);
      StartLookup(5, 3);
    } else if x == 2 && y == 2 && i == 4 {
      assert Directions[i] == Dir(1, 1);
      WalkStep(Initial, 2, 2, Dir(1, 1), 1, Black);
      WalkStep(Initial, 2, 2, Dir(1, 1), 2, Black);
      WalkStep(Initial, 2, 2, Dir(1, 1), 3, Black);
      StartLookup(3, 3);
      StartLookup(4, 4);
      StartLookup(5, 5);
    } else if x == 2 && y == 4 && i == 5 {
      assert Directions[i] == Dir(1, -1);
      WalkStep(Initial, 2, 4, Dir(1, -1), 1, Black);
      WalkStep(Initial, 2, 4, Dir(1, -1), 2, Black);
      WalkStep(Initial, 2, 4, Dir(1, -1), 3, Black);
      StartLookup(3, 3);
      StartLookup(4, 2);
      StartLookup(5, 1);
    } else {
      assert Directions[i] == Dir(-1, 1);
      WalkStep(Initial, 4, 2, Dir(-1, 1), 1, Black);
      WalkStep(Initial, 4, 2, Dir(-1, 1), 2, Black);
      WalkStep(Initial, 4, 2, Dir(-1, 1), 3, Black);
      StartLookup(3, 3);
      StartLookup(2, 4);
      StartLookup(1, 5);
    }
  }

  /** The rays from empty cells that start on the White disc at (4, 4), cell by cell. */
  lemma StartRayPast44(x: int, y: int, i: int)
    requires (x, y, i) in {(4, 5, 2), (5, 4, 3), (3, 5, 5), (5, 3, 6), (5, 5, 7)}
    ensures RayFlips(Initial, x, y, Directions[i], Black) ==
      if OpeningRay(x, y, i) then [Pos(4, 4)] else []
  {
    if x == 4 && y == 5 && i == 2 {
      assert Directions[i] == Dir(0, -1);
      WalkStep(Initial, 4, 5, Dir(0, -1), 1, Black);
      WalkStep(Initial, 4, 5, Dir(0, -1), 2, Black);
      WalkStep(Initial, 4, 5, Dir(0, -1), 3, Black);
      StartLookup(4, 4);
      StartLookup(4, 3);
      StartLookup(4, 2);
    } else if x == 5 && y == 4 && i == 3 {
      assert Directions[i] == Dir(-1, 0);
      WalkStep(Initial, 5, 4, Dir(-1, 0), 1, Black);
      WalkStep(Initial, 5, 4, Dir(-1, 0), 2, Black);
      WalkStep(Initial, 5, 4, Dir(-1, 0), 3, Black);
      StartLookup(4, 4);
      StartLookup(3, 4);
      StartLookup(2, 4);
    } else if x == 3 && y == 5 && i == 5 {
      assert Directions[i] == Dir(1, -1);
      WalkStep(Initial, 3, 5, Dir(1, -1), 1, Black);
      WalkStep(Initial, 3, 5, Dir(1, -1), 2, Black);
      WalkStep(Initial, 3, 5, Dir(1, -1), 3, Black);
      StartLookup(4, 4);
      StartLookup(5, 3);
      StartLookup(6, 2);
    } else if x == 5 && y == 3 && i == 6 {
      assert Directions[i] == Dir(-1, 1);
      WalkStep(Initial, 5, 3, Dir(-1, 1), 1, Black);
      WalkStep(Initial, 5, 3, Dir(-1, 1), 2, Black);
      WalkStep(Initial, 5, 3, Dir(-1, 1), 3, Black);
      StartLookup(4, 4);
      StartLookup(3, 5);
      StartLookup(2, 6);
    } else {
      assert Directions[i] == Dir(-1, -1);
      WalkStep(Initial, 5, 5, Dir(-1, -1), 1, Black);
      WalkStep(Initial, 5, 5, Dir(-1, -1), 2, Black);
      WalkStep(Initial, 5, 5, Dir(-1, -1), 3, Black);
      StartLookup(4, 4);
      StartLookup(3, 3);
      StartLookup(2, 2);
    }
  }

  lemma StartLookup(x: int, y: int)
    requires InBounds(x, y)
    ensures Initial[y][x] == StartCell(x, y)
  {
  }

  /** Black's legal moves at the start are the four cells that outflank a centre disc. */
  lemma StartLegal(x: int, y: int)
    requires InBounds(x, y)
    ensures IsLegal(Initial, x, y, Black) <==>
      (x == 3 && y == 2) || (x == 2 && y == 3) || (x == 5 && y == 4) || (x == 4 && y == 5)
  {
    StartLookup(x, y);
    if StartCell(x, y) == Empty {
      if (x == 3 && y == 2) || (x == 2 && y == 3) || (x == 5 && y == 4) || (x == 4 && y == 5) {
        var i := if x == 3 then 0 else if x == 2 then 1 else if y == 5 then 2 else 3;
        assert OpeningRay(x, y, i);
        StartRay(x, y, i);
        RayInFlips(Initial, x, y, Black, i);
      } else {
        StartQuiet(x, y);
      }
    }
  }

  /** An empty start cell that is not one of the four opening moves flips nothing. */
  lemma StartQuiet(x: int, y: int)
    requires InBounds(x, y) && StartCell(x, y) == Empty
    requires !((x == 3 && y == 2) || (x == 2 && y == 3) || (x == 5 && y == 4) || (x == 4 && y == 5))
    ensures Flips(Initial, x, y, Black) == []
  {
    forall i | 0 <= i < |Directions|
      ensures RayFlips(Initial, x, y, Directions[i], Black) == []
    {
      StartRay(x, y, i);
    }
    QuietUpTo(Initial, x, y, Black, |Directions|);
  }

  /** From the start Black has four moves, listed in row-major order. */
  lemma StartMoves()
    ensures LegalMoves(Initial, Black) == [Pos(3, 2), Pos(2, 3), Pos(5, 4), Pos(4, 5)]
  {
    var none: seq<Pos> := [];
    assert none + none + [Pos(3, 2)] + [Pos(2, 3)] + [Pos(5, 4)] + [Pos(4, 5)] + none + none ==
      [Pos(3, 2), Pos(2, 3), Pos(5, 4), Pos(4, 5)];
    StartRows();
    LegalMovesByRow(Initial, Black);
  }

  /** The board after Black's opening move at (2, 3). */
  function OpenedCell(x: int, y: int): int {
    if y == 3 && 2 <= x <= 4 then Black
    else if y == 4 && x == 3 then Black
    else if y == 4 && x == 4 then White
    else Empty
  }

  const Opened: Grid := seq(Size, y => seq(Size, x => OpenedCell(x, y)))

  lemma OpenedLookup(x: int, y: int)
    requires InBounds(x, y)
    ensures Opened[y][x] == OpenedCell(x, y)
  {
  }

  /**
   * Black opening at (2, 3) flips only the White disc at (3, 3), leaving
   * four Black discs and one White.
   */
  lemma OpeningMove()
    ensures Flips(Initial, 2, 3, Black) == [Pos(3, 3)]
    ensures Apply(Initial, 2, 3, Black) == Opened
    ensures Count(Apply(Initial, 2, 3, Black), Black) == 4 && Count(Apply(Initial, 2, 3, Black), White) == 1
  {
    OpeningFlips(2, 3);
    OpeningApply();
    OpenedCountUpTo(Black, Size);
    OpenedCountUpTo(White, Size);
  }

  /**
   * Of the eight rays from (2, 3) only the eastward one flips, and only (3, 3).
   * The cell is passed as variables so that the literal board is not unfolded.
   */
  lemma OpeningFlips(x: int, y: int)
    requires x == 2 && y == 3
    ensures Flips(Initial, x, y, Black) == [Pos(3, 3)]
  {
    OpeningRays(x, y);
    LoneRayUpTo(Initial, x, y, Black, 1, |Directions|);
  }

  lemma OpeningRays(x: int, y: int)
    requires x == 2 && y == 3
    ensures forall i :: 0 <= i < |Directions| ==>
      RayFlips(Initial, x, y, Directions[i], Black) == if i == 1 then [Pos(3, 3)] else []
  {
    forall i | 0 <= i < |Directions|
      ensures RayFlips(Initial, x, y, Directions[i], Black) == if i == 1 then [Pos(3, 3)] else []
    {
      StartRay(x, y, i);
    }
  }

  lemma OpeningApply()
    requires Flips(Initial, 2, 3, Black) == [Pos(3, 3)]
    ensures Apply(Initial, 2, 3, Black) == Opened
  {
    StartPosition();
    ApplyCells(Initial, 2, 3, Black);
    forall j, i | 0 <= j < Size && 0 <= i < Size
      ensures Apply(Initial, 2, 3, Black)[j][i] == Opened[j][i]
    {
      StartLookup(i, j);
      OpenedLookup(i, j);
    }
    SameBoard(Apply(Initial, 2, 3, Black), Opened);
  }

  /** The first m rows after the opening hold v this many times. */
  lemma {:induction false} OpenedCountUpTo(v: int, m: int)
    requires v in {Black, White} && 0 <= m <= Size
    ensures CountUpTo(Opened, v, m) ==
      if v == Black then (if m > 4 then 4 else if m > 3 then 3 else 0)
      else (if m > 4 then 1 else 0)
  {
    if m > 0 {
      OpenedCountUpTo(v, m - 1);
      OpenedRowCount(m - 1, v, Size);
    }
  }

  /** Row y after the opening holds v in its first n cells this many times. */
  lemma {:induction false} OpenedRowCount(y: int, v: int, n: int)
    requires 0 <= y < Size && v in {Black, White} && 0 <= n <= Size
    ensures RowCount(Opened[y], v, n) ==
      if v == Black && y == 3 then (if n > 4 then 3 else if n > 2 then n - 2 else 0)
      else if v == Black && y == 4 then (if n > 3 then 1 else 0)
      else if v == White && y == 4 then (if n > 4 then 1 else 0)
      else 0
  {
    if n > 0 {
      OpenedRowCount(y, v, n - 1);
      OpenedLookup(n - 1, y);
    }
  }

  /** Black's start moves row by row: one each in rows 2 to 5, none elsewhere. */
  lemma StartRows()
    ensures RowMoves(Initial, Black, 0, Size) == [] && RowMoves(Initial, Black, 1, Size) == []
    ensures RowMoves(Initial, Black, 2, Size) == [Pos(3, 2)]
    ensures RowMoves(Initial, Black, 3, Size) == [Pos(2, 3)]
    ensures RowMoves(Initial, Black, 4, Size) == [Pos(5, 4)]
    ensures RowMoves(Initial, Black, 5, Size) == [Pos(4, 5)]
    ensures RowMoves(Initial, Black, 6, Size) == [] && RowMoves(Initial, Black, 7, Size) == []
  {
    forall x, y | InBounds(x, y)
      ensures IsLegal(Initial, x, y, Black) <==>
        (x == 3 && y == 2) || (x == 2 && y == 3) || (x == 5 && y == 4) || (x == 4 && y == 5)
    {
      StartLegal(x, y);
    }
    NoRowMoves(Initial, Black, 0, Size);
    NoRowMoves(Initial, Black, 1, Size);
    OneRowMove(Initial, Black, 2, 3, Size);
    OneRowMove(Initial, Black, 3, 2, Size);
    OneRowMove(Initial, Black, 4, 5, Size);
    OneRowMove(Initial, Black, 5, 4, Size);
    NoRowMoves(Initial, Black, 6, Size);
    NoRowMoves(Initial, Black, 7, Size);
  }

  /** Neither player can move: the game is over. */
  predicate NoMovesLeft(g: Grid)
    requires IsBoard(g)
  {
    |LegalMoves(g, Black)| == 0 && |LegalMoves(g, White)| == 0
  }

  /** The game is over exactly when no cell is a legal move for either colour. */
  lemma NoMovesLeftSpec(g: Grid)
    requires IsBoard(g)
    ensures NoMovesLeft(g) <==>
      forall x, y :: InBounds(x, y) ==> !IsLegal(g, x, y, Black) && !IsLegal(g, x, y, White)
  {
    LegalMovesSpec(g, Black);
    LegalMovesSpec(g, White);
    if NoMovesLeft(g) {
      forall x, y | InBounds(x, y)
        ensures !IsLegal(g, x, y, Black) && !IsLegal(g, x, y, White)
      {
        assert Pos(x, y) !in LegalMoves(g, Black) && Pos(x, y) !in LegalMoves(g, White);
      }
    } else {
      var p := if |LegalMoves(g, Black)| > 0 then Black else White;
      var c := LegalMoves(g, p)[0];
      assert c in LegalMoves(g, p);
    }
  }

  /** The verdict at the end: more discs wins, equal counts draw. */
  function Outcome(g: Grid): (m: Message)
    requires IsBoard(g)
    ensures m == PlayerWins <==> Count(g, Black) > Count(g, White)
    ensures m == ComputerWins <==> Count(g, White) > Count(g, Black)
    ensures m == Draw <==> Count(g, Black) == Count(g, White)
  {
    if Count(g, Black) > Count(g, White) then PlayerWins
    else if Count(g, White) > Count(g, Black) then ComputerWins
    else Draw
  }

  /**
   * The turn state agrees with board g: the game is over exactly when neither
   * side can move, and then the verdict is shown; while the player is to
   * move, clicks are accepted and the player has a legal move; while the
   * computer is to move, clicks are ignored.
   */
  ghost predicate InTurn(g: Grid, over: bool, player: int, click: bool, msg: Message)
    requires IsBoard(g)
  {
    && (over <==> NoMovesLeft(g))
    && (over ==> msg == Outcome(g))
    && (!over && player == Black ==> click && |LegalMoves(g, Black)| > 0)
    && (!over && player == White ==> !click)
  }

  /** A board holding the start position is the start board, and Black, to move, can. */
  lemma StartBoard(g: Grid)
    requires IsBoard(g) && forall y, x :: 0 <= y < Size && 0 <= x < Size ==> g[y][x] == StartCell(x, y)
    ensures g == Initial && WellFormed(g) && InTurn(g, false, Black, true, YourTurn)
  {
    StartPosition();
    SameBoard(g, Initial);
    StartMoves();
  }

  /** A fresh 8x8 array holding the start position. */
  method NewStartBoard() returns (b: array2<int>)
    ensures fresh(b) && b.Length0 == Size && b.Length1 == Size
    ensures forall y, x :: 0 <= y < Size && 0 <= x < Size ==> b[y, x] == StartCell(x, y)
  {
    b := new int[Size, Size]((y, x) => Empty);
    var mid := Size / 2;
    b[mid - 1, mid - 1] := White;
    b[mid, mid] := White;
    b[mid - 1, mid] := Black;
    b[mid, mid - 1] := Black;
  }

  /**
   * Writing p on (x, y) and then on every cell the move flips yields the
   * board Apply describes.
   */
  lemma PaintedMove(g: Grid, after: Grid, x: int, y: int, p: int)
    requires WellFormed(g) && InBounds(x, y) && IsPlayer(p)
    requires IsBoard(after)
    requires forall j, k :: 0 <= j < Size && 0 <= k < Size ==>
      after[j][k] == if Pos(k, j) in [Pos(x, y)] + Flips(g, x, y, p) then p else g[j][k]
    ensures after == Apply(g, x, y, p) && WellFormed(after)
  {
    var a := Apply(g, x, y, p);
    ApplyCells(g, x, y, p);
    forall j, k | 0 <= j < Size && 0 <= k < Size
      ensures after[j][k] == a[j][k]
    {
      assert Pos(k, j) in [Pos(x, y)] + Flips(g, x, y, p) <==> (k == x && j == y) || Pos(k, j) in Flips(g, x, y, p);
    }
    SameBoard(after, a);
  }

  /** The part of the game state a turn changes: board, side to move, game over, clicks accepted, status line. */
  datatype Snapshot = Snapshot(cells: Grid, player: int, over: bool, click: bool, msg: Message)

  /**
   * The computer passes from s to t: the board stays, the player is to move
   * and may click, and the game ends if the player cannot move either.
   */
  ghost predicate PassTurn(s: Snapshot, t: Snapshot)
    requires IsBoard(s.cells)
  {
    && t.cells == s.cells
    && t.player == Black && t.click
    && t.over == (|LegalMoves(s.cells, Black)| == 0)
    && t.msg == (if t.over then Outcome(s.cells) else ComputerPassed)
  }

  /**
   * The computer plays m from s to t: m is one of its legal moves (for Hard,
   * the heuristic's choice) and is applied; then the game ends, or the
   * player must pass and the computer is due again, or the turn goes to the
   * player.
   */
  ghost predicate PlayTurn(s: Snapshot, t: Snapshot, m: Pos, level: Difficulty)
    requires IsBoard(s.cells)
  {
    && m in LegalMoves(s.cells, White)
    && (level == Hard ==> m == BestMove(s.cells, LegalMoves(s.cells, White)))
    && t.cells == Apply(s.cells, m.x, m.y, White)
    && if NoMovesLeft(t.cells) then
         t.over && t.msg == Outcome(t.cells) && t.player == s.player && t.click == s.click
       else if |LegalMoves(t.cells, Black)| == 0 then
         !t.over && t.msg == PlayerMustPass && t.player == s.player && t.click == s.click
       else
         !t.over && t.msg == YourTurn && t.player == Black && t.click
  }

  /**
   * One computer turn from s to t. Once the game is over nothing changes;
   * without a legal move the computer passes, otherwise it plays.
   */
  ghost predicate ComputerTurn(s: Snapshot, t: Snapshot, played: Option<Pos>, level: Difficulty)
    requires IsBoard(s.cells)
  {
    if s.over then
      t == s && played == None
    else if |LegalMoves(s.cells, White)| == 0 then
      played == None && PassTurn(s, t)
    else
      played.Some? && PlayTurn(s, t, played.value, level)
  }

  /**
   * A computer turn taken while the game is over or the computer is due
   * leaves the turn state agreeing with the board.
   */
  lemma ComputerTurnKeepsInvariant(s: Snapshot, t: Snapshot, played: Option<Pos>, level: Difficulty)
    requires WellFormed(s.cells) && IsBoard(t.cells)
    requires InTurn(s.cells, s.over, s.player, s.click, s.msg) && (s.over || s.player == White)
    requires ComputerTurn(s, t, played, level)
    ensures InTurn(t.cells, t.over, t.player, t.click, t.msg)
  {
  }

  class OthelloGame {
    var board: array2<int>
    var currentPlayer: int
    var difficulty: Difficulty
    var gameOver: bool
    var canClick: bool
    var message: Message

    /** The board as a value, row by row. */
    ghost function Cells(): (g: Grid)
      reads this`board, board
      ensures |g| == board.Length0
      ensures forall y :: 0 <= y < board.Length0 ==> |g[y]| == board.Length1
      ensures forall y, x {:trigger board[y, x]} :: 0 <= y < board.Length0 && 0 <= x < board.Length1 ==> g[y][x] == board[y, x]
    {
      RowsUpTo(board.Length0)
    }

    /** The first m rows of the board. */
    ghost function RowsUpTo(m: int): (g: Grid)
      reads this`board, board
      requires 0 <= m <= board.Length0
      ensures |g| == m
      ensures forall y :: 0 <= y < m ==> |g[y]| == board.Length1
      ensures forall y, x {:trigger board[y, x]} :: 0 <= y < m && 0 <= x < board.Length1 ==> g[y][x] == board[y, x]
    {
      if m == 0 then [] else RowsUpTo(m - 1) + [RowUpTo(m - 1, board.Length1)]
    }

    /** The first n cells of row y. */
    ghost function RowUpTo(y: int, n: int): (r: seq<int>)
      reads this`board, board
      requires 0 <= y < board.Length0 && 0 <= n <= board.Length1
      ensures |r| == n
      ensures forall x {:trigger board[y, x]} :: 0 <= x < n ==> r[x] == board[y, x]
    {
      if n == 0 then [] else RowUpTo(y, n - 1) + [board[y, n - 1]]
    }

    ghost predicate Valid()
      reads this, board
    {
      board.Length0 == Size && board.Length1 == Size && WellFormed(Cells()) && IsPlayer(currentPlayer)
    }

    /** The turn state agrees with the board (see InTurn). */
    ghost predicate TurnInvariant()
      reads this, board
      requires Valid()
    {
      InTurn(Cells(), gameOver, currentPlayer, canClick, message)
    }

    constructor (difficulty: Difficulty)
      ensures Valid() && TurnInvariant() && fresh(board)
      ensures Cells() == Initial && this.difficulty == difficulty
      ensures currentPlayer == Black && !gameOver && canClick && message == YourTurn
    {
      this.difficulty := difficulty;
      board := new int[0, 0];
      currentPlayer := Black;
      gameOver := false;
      canClick := true;
      message := YourTurn;
      new;
      Init();
    }

    /** Starts a new game on a fresh board in the standard position, Black to move. */
    method Init()
      modifies this
      ensures Valid() && TurnInvariant() && fresh(board)
      ensures Cells() == Initial && difficulty == old(difficulty)
      ensures currentPlayer == Black && !gameOver && canClick && message == YourTurn
    {
      board := NewStartBoard();
      currentPlayer := Black;
      gameOver := false;
      canClick := true;
      message := YourTurn;
      StartBoard(Cells());
    }

    /**
     * The discs a move by player at (x, y) would flip, walking the eight
     * directions in turn and keeping each run of opponent discs that ends on
     * one of player's own.
     */
    method GetFlippedDiscs(x: int, y: int, player: int) returns (flipped: seq<Pos>)
      requires Valid() && InBounds(x, y)
      ensures flipped == Flips(Cells(), x, y, player)
    {
      ghost var g := Cells();
      flipped := [];
      for i := 0 to |Directions|
        invariant flipped == FlipsUpTo(g, x, y, player, i)
      {
        var run := ScanRay(x, y, Directions[i], player, g);
        FlipsUpToStep(g, x, y, player, i + 1);
        flipped := flipped + run;
      }
    }

    /**
     * One direction of GetFlippedDiscs: step from (x, y) along d collecting
     * opponent discs; keep them if the run ends on one of player's own, drop
     * them if it runs into an empty cell or off the board.
     */
    method ScanRay(x: int, y: int, d: Dir, player: int, ghost g: Grid) returns (run: seq<Pos>)
      requires Valid() && InBounds(x, y) && d in Directions && g == Cells()
      ensures run == RayFlips(g, x, y, d, player)
    {
      var cx, cy := x + d.dx, y + d.dy;
      var potential: seq<Pos> := [];
      run := [];
      ghost var k := 1;
      assert Extend(potential, Walk(g, x, y, d, k, player)) == Walk(g, x, y, d, 1, player) by {
        assert forall w: seq<Pos> :: [] + w == w;
      }
      WalkStep(g, x, y, d, k, player);
      while cx >= 0 && cx < Size && cy >= 0 && cy < Size
        invariant 1 <= k && Pos(cx, cy) == At(x, y, d, k)
        invariant Walk(g, x, y, d, 1, player) == Extend(potential, Walk(g, x, y, d, k, player))
        invariant !InBounds(cx, cy) ==> RayFlips(g, x, y, d, player) == []
        decreases Size - k
      {
        RayLength(x, y, d, k);
        WalkStep(g, x, y, d, k, player);
        assert g[cy][cx] == board[cy, cx];
        if board[cy, cx] == Empty {
          return;
        }
        if board[cy, cx] == player {
          return potential;
        }
        ExtendTwice(potential, [Pos(cx, cy)], Walk(g, x, y, d, k + 1, player));
        AtNext(x, y, d, k);
        potential := potential + [Pos(cx, cy)];
        cx, cy := cx + d.dx, cy + d.dy;
        k := k + 1;
        WalkStep(g, x, y, d, k, player);
      }
    }

    /** Whether player may play at (x, y). */
    method IsValidMove(x: int, y: int, player: int) returns (valid: bool)
      requires Valid() && InBounds(x, y)
      ensures valid == IsLegal(Cells(), x, y, player)
    {
      if board[y, x] != Empty {
        return false;
      }
      var flipped := GetFlippedDiscs(x, y, player);
      return |flipped| > 0;
    }

    /**
     * Plays player's disc at (x, y) when that is legal, flipping the flanked
     * discs in place; an illegal move is refused and leaves the board as it was.
     */
    method PlaceDisc(x: int, y: int, player: int) returns (placed: bool)
      requires Valid() && InBounds(x, y) && IsPlayer(player)
      modifies board
      ensures Valid()
      ensures placed == IsLegal(old(Cells()), x, y, player)
      ensures Cells() == if placed then Apply(old(Cells()), x, y, player) else old(Cells())
    {
      var valid := IsValidMove(x, y, player);
      if !valid {
        return false;
      }
      ghost var g := Cells();
      var flipped := GetFlippedDiscs(x, y, player);
      FlipsUpToCells(g, x, y, player, |Directions|);
      PaintDiscs([Pos(x, y)] + flipped, player);
      PaintedMove(g, Cells(), x, y, player);
      return true;
    }

    /** Puts player's disc on every listed cell, leaving the other cells as they were. */
    method PaintDiscs(cells: seq<Pos>, player: int)
      requires board.Length0 == Size && board.Length1 == Size
      requires forall c :: c in cells ==> InBounds(c.x, c.y)
      modifies board
      ensures forall j, k :: 0 <= j < Size && 0 <= k < Size ==>
        Cells()[j][k] == if Pos(k, j) in cells then player else old(Cells())[j][k]
    {
      for i := 0 to |cells|
        invariant forall j, k :: 0 <= j < Size && 0 <= k < Size ==>
          board[j, k] == if Pos(k, j) in cells[..i] then player else old(board[j, k])
      {
        assert cells[..i + 1] == cells[..i] + [cells[i]];
        board[cells[i].y, cells[i].x] := player;
      }
      assert cells[..|cells|] == cells;
    }

    /** Every legal move of player, scanning rows top to bottom and each row left to right. */
    method GetAllValidMoves(player: int) returns (moves: seq<Pos>)
      requires Valid()
      ensures moves == LegalMoves(Cells(), player)
    {
      ghost var g := Cells();
      moves := [];
      for y := 0 to Size
        invariant moves == MovesUpTo(g, player, y)
      {
        var row := RowValidMoves(player, y, g);
        moves := moves + row;
        MovesUpToStep(g, player, y + 1);
      }
      assert moves == LegalMoves(g, player);
    }

    /** The legal moves of player in row y, left to right (the inner loop of GetAllValidMoves). */
    method RowValidMoves(player: int, y: int, ghost g: Grid) returns (row: seq<Pos>)
      requires Valid() && 0 <= y < Size && g == Cells()
      ensures row == RowMoves(g, player, y, Size)
    {
      row := [];
      for x := 0 to Size
        invariant row == RowMoves(g, player, y, x)
      {
        var valid := IsValidMove(x, y, player);
        RowMovesStep(g, player, y, x + 1);
        if valid {
          row := row + [Pos(x, y)];
        }
      }
    }

    /**
     * The hard opponent's choice among moves: the first move whose weight
     * plus the number of discs it flips for White is strictly the greatest.
     */
    method GetBestMove(moves: seq<Pos>) returns (bestMove: Pos)
      requires Valid() && |moves| > 0 && forall c :: c in moves ==> InBounds(c.x, c.y)
      ensures bestMove == BestMove(Cells(), moves)
    {
      ghost var g := Cells();
      ghost var scores := Scores(g, moves);
      var bestScore := NoScore;
      bestMove := moves[0];
      ghost var bestIdx := 0;
      for i := 0 to |moves|
        invariant Leading(scores, i, bestIdx, bestScore) && bestMove == moves[bestIdx]
      {
        var move := moves[i];
        var score := ScoreMove(move, g);
        ScanStep(g, moves, i, bestIdx, bestScore, score);
        if score > bestScore {
          bestScore := score;
          bestMove := move;
          bestIdx := i;
        }
      }
    }

    /** The hard-mode score of a White move: its positional weight plus the discs it flips. */
    method ScoreMove(move: Pos, ghost g: Grid) returns (score: int)
      requires Valid() && InBounds(move.x, move.y) && g == Cells()
      ensures score == MoveScore(g, move)
    {
      WeightsShape();
      score := Weights[move.y][move.x];
      var flips := GetFlippedDiscs(move.x, move.y, White);
      score := score + |flips|;
    }

    /** The number of Black and of White discs on the board. */
    method UpdateScore() returns (black: int, white: int)
      requires Valid()
      ensures black == Count(Cells(), Black) && white == Count(Cells(), White)
      ensures black + white + Count(Cells(), Empty) == Size * Size
    {
      ghost var g := Cells();
      black, white := 0, 0;
      for y := 0 to Size
        invariant black == CountUpTo(g, Black, y) && white == CountUpTo(g, White, y)
      {
        for x := 0 to Size
          invariant black == CountUpTo(g, Black, y) + RowCount(g[y], Black, x)
          invariant white == CountUpTo(g, White, y) + RowCount(g[y], White, x)
        {
          if board[y, x] == Black {
            black := black + 1;
          } else if board[y, x] == White {
            white := white + 1;
          }
        }
      }
      CountsCoverBoard(g);
    }

    /**
     * Ends the game when neither side has a legal move, showing the verdict;
     * otherwise changes nothing.
     */
    method CheckGameOver() returns (over: bool)
      requires Valid()
      modifies this`gameOver, this`message
      ensures Valid() && Cells() == old(Cells())
      ensures over == NoMovesLeft(Cells())
      ensures gameOver == (old(gameOver) || over)
      ensures message == if over then Outcome(Cells()) else old(message)
    {
      ghost var g := Cells();
      var movesBlack := GetAllValidMoves(Black);
      var movesWhite := GetAllValidMoves(White);
      if |movesBlack| == 0 && |movesWhite| == 0 {
        gameOver := true;
        assert Cells() == g;
        var black, white := UpdateScore();
        if black > white {
          message := PlayerWins;
        } else if white > black {
          message := ComputerWins;
        } else {
          message := Draw;
        }
        assert Cells() == g;
        return true;
      }
      return false;
    }

    /**
     * The player clicks (x, y). Ignored unless it is the player's turn and
     * clicks are accepted; an illegal cell is ignored too. A legal move is
     * played; then either the game ends or the computer's reply becomes due.
     */
    method HandleCellClick(x: int, y: int)
      requires Valid() && InBounds(x, y)
      modifies this, board
      ensures Valid() && board == old(board) && difficulty == old(difficulty)
      ensures old(gameOver || !canClick || currentPlayer != Black) || !IsLegal(old(Cells()), x, y, Black) ==>
        unchanged(this) && Cells() == old(Cells())
      ensures old(!gameOver && canClick && currentPlayer == Black) && IsLegal(old(Cells()), x, y, Black) ==>
        && Cells() == Apply(old(Cells()), x, y, Black)
        && !canClick
        && (if NoMovesLeft(Cells())
            then gameOver && currentPlayer == Black && message == Outcome(Cells())
            else !gameOver && currentPlayer == White && message == Thinking)
      ensures old(TurnInvariant()) ==> TurnInvariant()
    {
      if gameOver || !canClick || currentPlayer != Black {
        return;
      }
      var placed := PlaceDisc(x, y, Black);
      if placed {
        PassToComputer();
      }
    }

    /**
     * After the player's move: clicks are refused; the game ends if neither
     * side can move, otherwise the computer is due.
     */
    method PassToComputer()
      requires Valid()
      modifies this`message, this`currentPlayer, this`canClick, this`gameOver
      ensures Valid() && Cells() == old(Cells()) && !canClick
      ensures if NoMovesLeft(Cells()) then
          gameOver && message == Outcome(Cells()) && currentPlayer == old(currentPlayer)
        else
          gameOver == old(gameOver) && message == Thinking && currentPlayer == White
    {
      ghost var g := Cells();
      canClick := false;
      assert Cells() == g;
      var over := CheckGameOver();
      assert Cells() == g && over == NoMovesLeft(g);
      if over {
        return;
      }
      currentPlayer := White;
      message := Thinking;
      assert Cells() == g;
    }

    /** The state a turn changes, as a value. */
    ghost function State(): (s: Snapshot)
      reads this, board
      ensures s.cells == Cells()
    {
      Snapshot(Cells(), currentPlayer, gameOver, canClick, message)
    }

    /**
     * The computer's turn (see ComputerTurn). The ghost result names the
     * move played.
     */
    method ComputerMove() returns (ghost played: Option<Pos>)
      requires Valid()
      modifies this, board
      ensures Valid() && board == old(board) && difficulty == old(difficulty)
      ensures ComputerTurn(old(State()), State(), played, difficulty)
      ensures old(TurnInvariant() && (gameOver || currentPlayer == White)) ==> TurnInvariant()
    {
      played := None;
      ghost var s := State();
      if gameOver {
        return;
      }
      var validMoves := GetAllValidMoves(White);
      if |validMoves| == 0 {
        ComputerPass(s);
      } else {
        var move := ComputerPlay(validMoves, s);
        played := Some(move);
      }
      if old(TurnInvariant() && (gameOver || currentPlayer == White)) {
        ComputerTurnKeepsInvariant(s, State(), played, difficulty);
      }
    }

    /** The computer has no legal move: it passes, and the game ends if the player cannot move either. */
    method ComputerPass(ghost s: Snapshot)
      requires Valid() && s == State() && !s.over && |LegalMoves(s.cells, White)| == 0
      modifies this`message, this`currentPlayer, this`canClick, this`gameOver
      ensures Valid() && PassTurn(s, State())
    {
      message := ComputerPassed;
      currentPlayer := Black;
      canClick := true;
      assert Cells() == s.cells;
      var playerMoves := GetAllValidMoves(Black);
      if |playerMoves| == 0 {
        var over := CheckGameOver();
      }
    }

    /**
     * The computer plays one of its legal moves: any of them for Easy, the
     * heuristic's choice for Hard; then the game ends, or the player must
     * pass, or the turn goes to the player.
     */
    method ComputerPlay(validMoves: seq<Pos>, ghost s: Snapshot) returns (move: Pos)
      requires Valid() && s == State() && !s.over
      requires validMoves == LegalMoves(s.cells, White) && |validMoves| > 0
      modifies this`message, this`currentPlayer, this`canClick, this`gameOver, board
      ensures Valid() && PlayTurn(s, State(), move, difficulty)
    {
      move := ChooseMove(validMoves);
      LegalMovesSpec(s.cells, White);
      var placed := PlaceDisc(move.x, move.y, White);
      HandOver();
    }

    /**
     * After the computer's move: the game ends if neither side can move;
     * otherwise the player must pass when without a legal move, or is to
     * move and may click.
     */
    method HandOver()
      requires Valid()
      modifies this`message, this`currentPlayer, this`canClick, this`gameOver
      ensures Valid() && Cells() == old(Cells())
      ensures if NoMovesLeft(Cells()) then
          gameOver && message == Outcome(Cells()) && currentPlayer == old(currentPlayer) && canClick == old(canClick)
        else if |LegalMoves(Cells(), Black)| == 0 then
          gameOver == old(gameOver) && message == PlayerMustPass && currentPlayer == old(currentPlayer) && canClick == old(canClick)
        else
          gameOver == old(gameOver) && message == YourTurn && currentPlayer == Black && canClick
    {
      ghost var g := Cells();
      var over := CheckGameOver();
      if !over {
        var playerMoves := GetAllValidMoves(Black);
        if |playerMoves| == 0 {
          message := PlayerMustPass;
        } else {
          currentPlayer := Black;
          canClick := true;
          message := YourTurn;
        }
        assert Cells() == g;
      }
    }

    /** Easy picks any of the moves at random; Hard picks the heuristic's choice. */
    method ChooseMove(validMoves: seq<Pos>) returns (move: Pos)
      requires Valid() && |validMoves| > 0 && forall c :: c in validMoves ==> InBounds(c.x, c.y)
      ensures move in validMoves
      ensures difficulty == Hard ==> move == BestMove(Cells(), validMoves)
    {
      if difficulty == Easy {
        var randomIdx :| 0 <= randomIdx < |validMoves|;
        move := validMoves[randomIdx];
      } else {
        move := GetBestMove(validMoves);
        BestMoveSpec(Cells(), validMoves);
      }
    }
  }
}
