/**
 * The rules of Othello as the engine applies them, stated on board values:
 * which discs a move flips, which moves are legal, what a move does to the
 * board, which moves a player has and how the discs are counted.
 *
 * A board is an 8x8 grid indexed g[y][x] (row y, column x), each cell holding
 * Empty (0), Black (1, the human player) or White (-1, the computer).
 * The engine's methods (module Othello) are proved against these functions.
 */
module Rules {

  datatype Option<T> = None | Some(value: T)

  /** A cell of the board: column x, row y. */
  datatype Pos = Pos(x: int, y: int)

  /** One step along a compass direction. */
  datatype Dir = Dir(dx: int, dy: int)

  type Grid = seq<seq<int>>

  const Size: int := 8
  const Empty: int := 0
  const Black: int := 1
  const White: int := -1

  /** The eight directions, in the order in which the engine walks them. */
  const Directions: seq<Dir> :=
    [Dir(0, 1), Dir(1, 0), Dir(0, -1), Dir(-1, 0),
     Dir(1, 1), Dir(1, -1), Dir(-1, 1), Dir(-1, -1)]

  predicate InBounds(x: int, y: int) {
    0 <= x < Size && 0 <= y < Size
  }

  predicate IsPlayer(p: int) {
    p == Black || p == White
  }

  /** The grid has the 8x8 shape of the board. */
  predicate IsBoard(g: Grid) {
    |g| == Size && forall y :: 0 <= y < Size ==> |g[y]| == Size
  }

  /** An 8x8 grid whose cells are all Empty, Black or White. */
  predicate WellFormed(g: Grid) {
    IsBoard(g) && forall y, x :: 0 <= y < Size && 0 <= x < Size ==> White <= g[y][x] <= Black
  }

  /** Two boards with the same cells are the same board. */
  lemma SameBoard(g: Grid, h: Grid)
    requires IsBoard(g) && IsBoard(h)
    requires forall y, x :: 0 <= y < Size && 0 <= x < Size ==> g[y][x] == h[y][x]
    ensures g == h
  {
    forall y | 0 <= y < Size
      ensures g[y] == h[y]
    {
      assert forall x :: 0 <= x < Size ==> g[y][x] == h[y][x];
    }
  }

  // ---------------------------------------------------------------------------
  // Rays and flips
  // ---------------------------------------------------------------------------

  /** The cell k steps away from (x, y) along d. */
  function At(x: int, y: int, d: Dir, k: int): Pos {
    Pos(x + k * d.dx, y + k * d.dy)
  }

  /** The cell one step further along d. */
  lemma AtNext(x: int, y: int, d: Dir, k: int)
    ensures At(x, y, d, k + 1) == Pos(At(x, y, d, k).x + d.dx, At(x, y, d, k).y + d.dy)
  {
  }

  /** The cells lo, lo+1, ..., lo+n-1 steps away from (x, y) along d. */
  function Run(x: int, y: int, d: Dir, lo: int, n: nat): (r: seq<Pos>)
    ensures |r| == n
  {
    seq(n, i => At(x, y, d, lo + i))
  }

  /** A ray leaves the board after at most seven steps. */
  lemma RayLength(x: int, y: int, d: Dir, k: int)
    requires InBounds(x, y) && d in Directions && 1 <= k
    requires InBounds(At(x, y, d, k).x, At(x, y, d, k).y)
    ensures k < Size
  {
  }

  /**
   * Walking outward along d from (x, y), starting k steps away: the run of
   * opponent discs met before one of p's discs (Some), or None when the walk
   * reaches an empty cell or the edge of the board first.
   */
  function Walk(g: Grid, x: int, y: int, d: Dir, k: int, p: int): Option<seq<Pos>>
    requires IsBoard(g) && InBounds(x, y) && d in Directions && 1 <= k
    decreases Size - k
  {
    var c := At(x, y, d, k);
    if !InBounds(c.x, c.y) || g[c.y][c.x] == Empty then None
    else if g[c.y][c.x] == p then Some([])
    else
      RayLength(x, y, d, k);
      match Walk(g, x, y, d, k + 1, p)
      case None => None
      case Some(rest) => Some([c] + rest)
  }

  /**
   * The run a walk finds lies along d, starting k steps out, on the board,
   * and holds only opponent discs.
   */
  lemma {:induction false} WalkCells(g: Grid, x: int, y: int, d: Dir, k: int, p: int)
    requires IsBoard(g) && InBounds(x, y) && d in Directions && 1 <= k
    ensures Walk(g, x, y, d, k, p).Some? ==> forall i :: 0 <= i < |Walk(g, x, y, d, k, p).value| ==>
      var c := Walk(g, x, y, d, k, p).value[i];
      c == At(x, y, d, k + i) && InBounds(c.x, c.y) && g[c.y][c.x] != Empty && g[c.y][c.x] != p
    decreases if Walk(g, x, y, d, k, p).Some? then |Walk(g, x, y, d, k, p).value| else 0
  {
    var w := Walk(g, x, y, d, k, p);
    if w.Some? && w.value != [] {
      WalkUncons(g, x, y, d, k, p);
      WalkCells(g, x, y, d, k + 1, p);
      var r, rest := w.value, Walk(g, x, y, d, k + 1, p).value;
      forall i | 0 <= i < |r|
        ensures r[i] == At(x, y, d, k + i) && InBounds(r[i].x, r[i].y) && g[r[i].y][r[i].x] != Empty && g[r[i].y][r[i].x] != p
      {
        if i > 0 {
          assert r[i] == rest[i - 1] == At(x, y, d, k + 1 + (i - 1));
          assert k + 1 + (i - 1) == k + i;
        }
      }
    }
  }

  /** A walk's outcome with the cells already passed put in front of its run. */
  function Extend(prefix: seq<Pos>, w: Option<seq<Pos>>): Option<seq<Pos>> {
    match w
    case None => None
    case Some(run) => Some(prefix + run)
  }

  /** One step of a walk. */
  lemma WalkStep(g: Grid, x: int, y: int, d: Dir, k: int, p: int)
    requires IsBoard(g) && InBounds(x, y) && d in Directions && 1 <= k
    ensures var c := At(x, y, d, k);
      Walk(g, x, y, d, k, p) ==
        if !InBounds(c.x, c.y) || g[c.y][c.x] == Empty then None
        else if g[c.y][c.x] == p then Some([])
        else Extend([c], Walk(g, x, y, d, k + 1, p))
  {
  }

  lemma ExtendTwice(a: seq<Pos>, b: seq<Pos>, w: Option<seq<Pos>>)
    ensures Extend(a, Extend(b, w)) == Extend(a + b, w)
  {
    if w.Some? {
      assert a + (b + w.value) == (a + b) + w.value;
    }
  }

  /** The discs that a move by p at (x, y) flips along the single direction d. */
  function RayFlips(g: Grid, x: int, y: int, d: Dir, p: int): seq<Pos>
    requires IsBoard(g) && InBounds(x, y) && d in Directions
  {
    match Walk(g, x, y, d, 1, p)
    case None => []
    case Some(run) => run
  }

  /** The flips along the first n directions, one direction after the other. */
  function FlipsUpTo(g: Grid, x: int, y: int, p: int, n: nat): seq<Pos>
    requires IsBoard(g) && InBounds(x, y) && n <= |Directions|
  {
    if n == 0 then []
    else FlipsUpTo(g, x, y, p, n - 1) + RayFlips(g, x, y, Directions[n - 1], p)
  }

  /** Every cell flipped along the first n directions is on the board and holds an opponent disc. */
  lemma {:induction false} FlipsUpToCells(g: Grid, x: int, y: int, p: int, n: nat)
    requires IsBoard(g) && InBounds(x, y) && n <= |Directions|
    ensures forall c :: c in FlipsUpTo(g, x, y, p, n) ==>
      InBounds(c.x, c.y) && g[c.y][c.x] != Empty && g[c.y][c.x] != p
  {
    if n > 0 {
      FlipsUpToCells(g, x, y, p, n - 1);
      FlipsUpToStep(g, x, y, p, n);
      RayFlipsCells(g, x, y, Directions[n - 1], p);
    }
  }

  /** A ray flips nothing when its first cell is off the board, empty or p's own. */
  lemma QuietRay(g: Grid, x: int, y: int, d: Dir, p: int)
    requires IsBoard(g) && InBounds(x, y) && d in Directions
    requires var c := At(x, y, d, 1);
      !InBounds(c.x, c.y) || g[c.y][c.x] == Empty || g[c.y][c.x] == p
    ensures RayFlips(g, x, y, d, p) == []
  {
    WalkStep(g, x, y, d, 1, p);
  }

  /** Directions that each flip nothing flip nothing together. */
  lemma {:induction false} QuietUpTo(g: Grid, x: int, y: int, p: int, n: nat)
    requires IsBoard(g) && InBounds(x, y) && n <= |Directions|
    requires forall i :: 0 <= i < n ==> RayFlips(g, x, y, Directions[i], p) == []
    ensures FlipsUpTo(g, x, y, p, n) == []
  {
    if n > 0 {
      QuietUpTo(g, x, y, p, n - 1);
    }
  }

  /** When only the i-th direction flips anything, the flips are that ray's. */
  lemma {:induction false} LoneRayUpTo(g: Grid, x: int, y: int, p: int, i: int, n: nat)
    requires IsBoard(g) && InBounds(x, y) && 0 <= i < |Directions| && n <= |Directions|
    requires forall j :: 0 <= j < |Directions| && j != i ==> RayFlips(g, x, y, Directions[j], p) == []
    ensures FlipsUpTo(g, x, y, p, n) == if n > i then RayFlips(g, x, y, Directions[i], p) else []
  {
    if n > 0 {
      LoneRayUpTo(g, x, y, p, i, n - 1);
      FlipsUpToStep(g, x, y, p, n);
      var prev, r := FlipsUpTo(g, x, y, p, n - 1), RayFlips(g, x, y, Directions[n - 1], p);
      if n - 1 == i {
        assert prev == [];
        assert prev + r == r;
      } else {
        assert r == [];
        assert prev + r == prev;
      }
    }
  }

  /** Every disc that a move by p at (x, y) flips, direction by direction. */
  function Flips(g: Grid, x: int, y: int, p: int): seq<Pos>
    requires IsBoard(g) && InBounds(x, y)
  {
    FlipsUpTo(g, x, y, p, |Directions|)
  }

  lemma FlipsUpToStep(g: Grid, x: int, y: int, p: int, n: nat)
    requires IsBoard(g) && InBounds(x, y) && 0 < n <= |Directions|
    ensures FlipsUpTo(g, x, y, p, n) == FlipsUpTo(g, x, y, p, n - 1) + RayFlips(g, x, y, Directions[n - 1], p)
  {
  }

  /** Whatever one direction flips is among the flips of the whole move. */
  lemma RayInFlips(g: Grid, x: int, y: int, p: int, i: int)
    requires IsBoard(g) && InBounds(x, y) && 0 <= i < |Directions|
    ensures |Flips(g, x, y, p)| >= |RayFlips(g, x, y, Directions[i], p)|
  {
    RayInFlipsUpTo(g, x, y, p, i, |Directions|);
  }

  lemma {:induction false} RayInFlipsUpTo(g: Grid, x: int, y: int, p: int, i: int, n: nat)
    requires IsBoard(g) && InBounds(x, y) && 0 <= i < n <= |Directions|
    ensures |FlipsUpTo(g, x, y, p, n)| >= |RayFlips(g, x, y, Directions[i], p)|
  {
    FlipsUpToStep(g, x, y, p, n);
    if i < n - 1 {
      RayInFlipsUpTo(g, x, y, p, i, n - 1);
    }
  }

  /**
   * Along d from (x, y) the cells 1 .. m-1 steps away hold the opponent's
   * discs and the cell m steps away holds one of p's: the run is flanked.
   */
  ghost predicate Brackets(g: Grid, x: int, y: int, d: Dir, m: int, p: int)
    requires IsBoard(g)
  {
    && 2 <= m
    && InBounds(At(x, y, d, m).x, At(x, y, d, m).y)
    && g[At(x, y, d, m).y][At(x, y, d, m).x] == p
    && forall k :: 1 <= k < m ==>
         InBounds(At(x, y, d, k).x, At(x, y, d, k).y) && g[At(x, y, d, k).y][At(x, y, d, k).x] == -p
  }

  /** Cell c lies inside a flanked run on one of the eight rays from (x, y). */
  ghost predicate Flanked(g: Grid, x: int, y: int, p: int, c: Pos)
    requires IsBoard(g)
  {
    FlankedWithin(g, x, y, p, |Directions|, c)
  }

  /** A closed walk ends on one of p's discs after a run of opponent discs. */
  lemma {:induction false} WalkSound(g: Grid, x: int, y: int, d: Dir, k: int, p: int)
    requires IsBoard(g) && InBounds(x, y) && d in Directions && 1 <= k
    ensures Walk(g, x, y, d, k, p).Some? ==>
      var n := |Walk(g, x, y, d, k, p).value|;
      InBounds(At(x, y, d, k + n).x, At(x, y, d, k + n).y) &&
      g[At(x, y, d, k + n).y][At(x, y, d, k + n).x] == p
    decreases if Walk(g, x, y, d, k, p).Some? then |Walk(g, x, y, d, k, p).value| else 0
  {
    var w := Walk(g, x, y, d, k, p);
    if w.Some? {
      if w.value == [] {
        WalkEnd(g, x, y, d, k, p);
      } else {
        WalkUncons(g, x, y, d, k, p);
        WalkSound(g, x, y, d, k + 1, p);
        WalkEndShift(x, y, d, k, |w.value|, |Walk(g, x, y, d, k + 1, p).value|);
      }
    }
  }

  lemma WalkEndShift(x: int, y: int, d: Dir, k: int, n: int, n': int)
    requires n == n' + 1
    ensures At(x, y, d, k + n) == At(x, y, d, k + 1 + n')
  {
  }

  /** A walk that closes at once stops on one of p's discs. */
  lemma WalkEnd(g: Grid, x: int, y: int, d: Dir, k: int, p: int)
    requires IsBoard(g) && InBounds(x, y) && d in Directions && 1 <= k
    requires Walk(g, x, y, d, k, p) == Some([])
    ensures InBounds(At(x, y, d, k).x, At(x, y, d, k).y) && g[At(x, y, d, k).y][At(x, y, d, k).x] == p
  {
    WalkStep(g, x, y, d, k, p);
  }

  /** A walk that closes later starts with an opponent disc and goes on from the next cell. */
  lemma WalkUncons(g: Grid, x: int, y: int, d: Dir, k: int, p: int)
    requires IsBoard(g) && InBounds(x, y) && d in Directions && 1 <= k
    requires Walk(g, x, y, d, k, p).Some? && Walk(g, x, y, d, k, p).value != []
    ensures var c := At(x, y, d, k); InBounds(c.x, c.y) && g[c.y][c.x] != Empty && g[c.y][c.x] != p
    ensures Walk(g, x, y, d, k + 1, p).Some?
    ensures Walk(g, x, y, d, k, p).value == [At(x, y, d, k)] + Walk(g, x, y, d, k + 1, p).value
  {
    WalkStep(g, x, y, d, k, p);
  }

  /** A run of opponent discs closed by one of p's discs is what the walk finds. */
  lemma {:induction false} WalkComplete(g: Grid, x: int, y: int, d: Dir, k: int, m: int, p: int)
    requires WellFormed(g) && InBounds(x, y) && d in Directions && 1 <= k <= m && IsPlayer(p)
    requires InBounds(At(x, y, d, m).x, At(x, y, d, m).y) && g[At(x, y, d, m).y][At(x, y, d, m).x] == p
    requires forall j :: k <= j < m ==>
      InBounds(At(x, y, d, j).x, At(x, y, d, j).y) && g[At(x, y, d, j).y][At(x, y, d, j).x] == -p
    ensures Walk(g, x, y, d, k, p) == Some(Run(x, y, d, k, m - k))
    decreases m - k
  {
    if k < m {
      WalkComplete(g, x, y, d, k + 1, m, p);
      RunCons(x, y, d, k, m - k - 1);
      WalkCons(g, x, y, d, k, p, Run(x, y, d, k + 1, m - k - 1));
    } else {
      WalkStep(g, x, y, d, k, p);
    }
  }

  /** An opponent disc in front of a closed walk extends it by one cell. */
  lemma WalkCons(g: Grid, x: int, y: int, d: Dir, k: int, p: int, rest: seq<Pos>)
    requires WellFormed(g) && InBounds(x, y) && d in Directions && 1 <= k && IsPlayer(p)
    requires InBounds(At(x, y, d, k).x, At(x, y, d, k).y) && g[At(x, y, d, k).y][At(x, y, d, k).x] == -p
    requires Walk(g, x, y, d, k + 1, p) == Some(rest)
    ensures Walk(g, x, y, d, k, p) == Some([At(x, y, d, k)] + rest)
  {
    WalkStep(g, x, y, d, k, p);
  }

  /** A run is its first cell followed by the rest. */
  lemma RunCons(x: int, y: int, d: Dir, k: int, n: nat)
    ensures Run(x, y, d, k, n + 1) == [At(x, y, d, k)] + Run(x, y, d, k + 1, n)
  {
    var r, s := Run(x, y, d, k, n + 1), Run(x, y, d, k + 1, n);
    forall i | 0 <= i < n + 1
      ensures r[i] == ([At(x, y, d, k)] + s)[i]
    {
      if i > 0 {
        assert s[i - 1] == At(x, y, d, k + 1 + (i - 1));
      }
    }
  }

  /**
   * The flips along one ray are exactly the flanked run on it: when the run
   * of opponent discs m-1 long is closed by one of p's discs, those m-1
   * cells; and a ray contributes something only when such a run exists.
   */
  lemma RayFlipsSpec(g: Grid, x: int, y: int, d: Dir, p: int)
    requires WellFormed(g) && InBounds(x, y) && d in Directions && IsPlayer(p)
    ensures forall m :: Brackets(g, x, y, d, m, p) ==> RayFlips(g, x, y, d, p) == Run(x, y, d, 1, m - 1)
    ensures RayFlips(g, x, y, d, p) != [] ==>
      Brackets(g, x, y, d, |RayFlips(g, x, y, d, p)| + 1, p) &&
      RayFlips(g, x, y, d, p) == Run(x, y, d, 1, |RayFlips(g, x, y, d, p)|)
  {
    forall m | Brackets(g, x, y, d, m, p)
      ensures RayFlips(g, x, y, d, p) == Run(x, y, d, 1, m - 1)
    {
      RayFlipsComplete(g, x, y, d, m, p);
    }
    if RayFlips(g, x, y, d, p) != [] {
      RayFlipsSound(g, x, y, d, p);
      RayFlipsRun(g, x, y, d, p);
    }
  }

  lemma RayFlipsComplete(g: Grid, x: int, y: int, d: Dir, m: int, p: int)
    requires WellFormed(g) && InBounds(x, y) && d in Directions && IsPlayer(p)
    requires Brackets(g, x, y, d, m, p)
    ensures RayFlips(g, x, y, d, p) == Run(x, y, d, 1, m - 1)
  {
    WalkComplete(g, x, y, d, 1, m, p);
  }

  lemma RayFlipsSound(g: Grid, x: int, y: int, d: Dir, p: int)
    requires WellFormed(g) && InBounds(x, y) && d in Directions && IsPlayer(p)
    requires RayFlips(g, x, y, d, p) != []
    ensures Brackets(g, x, y, d, |RayFlips(g, x, y, d, p)| + 1, p)
  {
    var r := RayFlips(g, x, y, d, p);
    assert Walk(g, x, y, d, 1, p) == Some(r);
    RayFlipsCells(g, x, y, d, p);
    WalkSound(g, x, y, d, 1, p);
    forall k | 1 <= k < |r| + 1
      ensures InBounds(At(x, y, d, k).x, At(x, y, d, k).y) && g[At(x, y, d, k).y][At(x, y, d, k).x] == -p
    {
      assert r[k - 1] == At(x, y, d, k);
    }
  }

  /** The j-th cell a ray flips lies j + 1 steps out, on the board, and holds an opponent disc. */
  lemma RayFlipsCells(g: Grid, x: int, y: int, d: Dir, p: int)
    requires IsBoard(g) && InBounds(x, y) && d in Directions
    ensures forall j :: 0 <= j < |RayFlips(g, x, y, d, p)| ==>
      var c := RayFlips(g, x, y, d, p)[j];
      c == At(x, y, d, 1 + j) && InBounds(c.x, c.y) && g[c.y][c.x] != Empty && g[c.y][c.x] != p
  {
    WalkCells(g, x, y, d, 1, p);
  }

  /** What a ray flips is the run of cells 1, 2, ... steps out along it. */
  lemma RayFlipsRun(g: Grid, x: int, y: int, d: Dir, p: int)
    requires IsBoard(g) && InBounds(x, y) && d in Directions
    ensures RayFlips(g, x, y, d, p) == Run(x, y, d, 1, |RayFlips(g, x, y, d, p)|)
  {
    var r := RayFlips(g, x, y, d, p);
    RayFlipsCells(g, x, y, d, p);
    assert forall j :: 0 <= j < |r| ==> r[j] == Run(x, y, d, 1, |r|)[j];
  }

  /** Cell c lies inside a flanked run on one of the first n rays from (x, y). */
  ghost predicate FlankedWithin(g: Grid, x: int, y: int, p: int, n: int, c: Pos)
    requires IsBoard(g)
  {
    exists i, k, m :: 0 <= i < n && i < |Directions| && 1 <= k < m &&
      c == At(x, y, Directions[i], k) && Brackets(g, x, y, Directions[i], m, p)
  }

  /** Every cell flipped along the first n directions is flanked on one of those rays. */
  lemma {:induction false} FlipsUpToSound(g: Grid, x: int, y: int, p: int, n: nat, c: Pos)
    requires WellFormed(g) && InBounds(x, y) && IsPlayer(p) && n <= |Directions|
    requires c in FlipsUpTo(g, x, y, p, n)
    ensures FlankedWithin(g, x, y, p, n, c)
  {
    assert n > 0;
    var prev := FlipsUpTo(g, x, y, p, n - 1);
    FlipsUpToStep(g, x, y, p, n);
    if c in prev {
      FlipsUpToSound(g, x, y, p, n - 1, c);
      FlankedWithinGrowsTo(g, x, y, p, n - 1, n, c);
    } else {
      assert c in RayFlips(g, x, y, Directions[n - 1], p);
      RayFlipsFlanked(g, x, y, p, n - 1);
    }
  }

  /** Every cell flipped along the i-th direction is flanked on that ray. */
  lemma RayFlipsFlanked(g: Grid, x: int, y: int, p: int, i: int)
    requires WellFormed(g) && InBounds(x, y) && IsPlayer(p) && 0 <= i < |Directions|
    ensures forall c :: c in RayFlips(g, x, y, Directions[i], p) ==> FlankedWithin(g, x, y, p, i + 1, c)
  {
    var d := Directions[i];
    var r := RayFlips(g, x, y, d, p);
    if r != [] {
      RayFlipsSound(g, x, y, d, p);
      RayFlipsCells(g, x, y, d, p);
      forall j | 0 <= j < |r|
        ensures FlankedWithin(g, x, y, p, i + 1, r[j])
      {
        FlankedOnRay(g, x, y, p, i, d, 1 + j, |r| + 1, r[j]);
      }
    }
  }

  /** Every cell flanked on one of the first n rays is flipped along them. */
  lemma {:induction false} FlipsUpToComplete(g: Grid, x: int, y: int, p: int, n: nat, c: Pos)
    requires WellFormed(g) && InBounds(x, y) && IsPlayer(p) && n <= |Directions|
    requires FlankedWithin(g, x, y, p, n, c)
    ensures c in FlipsUpTo(g, x, y, p, n)
  {
    var d := Directions[n - 1];
    var prev := FlipsUpTo(g, x, y, p, n - 1);
    var r := RayFlips(g, x, y, d, p);
    FlipsUpToStep(g, x, y, p, n);
    var i, k, m :| 0 <= i < n && i < |Directions| && 1 <= k < m &&
      c == At(x, y, Directions[i], k) && Brackets(g, x, y, Directions[i], m, p);
    if i < n - 1 {
      FlankedOnRay(g, x, y, p, i, Directions[i], k, m, c);
      FlankedWithinGrowsTo(g, x, y, p, i + 1, n - 1, c);
      FlipsUpToComplete(g, x, y, p, n - 1, c);
    } else {
      RayFlipsHas(g, x, y, d, k, m, p, c);
      assert c in prev + r;
    }
  }

  /** A cell flanked on a ray is among that ray's flips. */
  lemma RayFlipsHas(g: Grid, x: int, y: int, d: Dir, k: int, m: int, p: int, c: Pos)
    requires WellFormed(g) && InBounds(x, y) && d in Directions && IsPlayer(p)
    requires 1 <= k < m && c == At(x, y, d, k) && Brackets(g, x, y, d, m, p)
    ensures c in RayFlips(g, x, y, d, p)
  {
    RayFlipsComplete(g, x, y, d, m, p);
    assert Run(x, y, d, 1, m - 1)[k - 1] == c;
  }

  lemma FlankedOnRay(g: Grid, x: int, y: int, p: int, i: int, d: Dir, k: int, m: int, c: Pos)
    requires IsBoard(g) && 0 <= i < |Directions| && d == Directions[i] && 1 <= k < m
    requires c == At(x, y, d, k) && Brackets(g, x, y, d, m, p)
    ensures FlankedWithin(g, x, y, p, i + 1, c)
  {
  }

  lemma FlankedWithinGrowsTo(g: Grid, x: int, y: int, p: int, n: int, n': int, c: Pos)
    requires IsBoard(g) && n <= n' && FlankedWithin(g, x, y, p, n, c)
    ensures FlankedWithin(g, x, y, p, n', c)
  {
  }

  /**
   * A move by p at (x, y) flips exactly the cells lying in a flanked run on
   * one of the eight rays from (x, y); each of them holds an opponent disc.
   */
  lemma FlipsSpec(g: Grid, x: int, y: int, p: int)
    requires WellFormed(g) && InBounds(x, y) && IsPlayer(p)
    ensures forall c :: c in Flips(g, x, y, p) <==> Flanked(g, x, y, p, c)
    ensures forall c :: c in Flips(g, x, y, p) ==> InBounds(c.x, c.y) && g[c.y][c.x] == -p
  {
    forall c | c in Flips(g, x, y, p)
      ensures Flanked(g, x, y, p, c)
    {
      FlipsUpToSound(g, x, y, p, |Directions|, c);
    }
    forall c | Flanked(g, x, y, p, c)
      ensures c in Flips(g, x, y, p)
    {
      FlipsUpToComplete(g, x, y, p, |Directions|, c);
    }
  }

  /** The direction from (x, y) towards c, each component -1, 0 or 1. */
  function DirTo(x: int, y: int, c: Pos): Dir {
    Dir(Sign(c.x - x), Sign(c.y - y))
  }

  function Sign(n: int): int {
    if n > 0 then 1 else if n < 0 then -1 else 0
  }

  /** The number of steps from (x, y) to c along a compass direction. */
  function StepsTo(x: int, y: int, c: Pos): int {
    var ax := if c.x < x then x - c.x else c.x - x;
    var ay := if c.y < y then y - c.y else c.y - y;
    if ax < ay then ay else ax
  }

  /** Direction and distance can be read back off a cell on a ray. */
  lemma AtInverse(x: int, y: int, d: Dir, k: int)
    requires d in Directions && 1 <= k
    ensures DirTo(x, y, At(x, y, d, k)) == d && StepsTo(x, y, At(x, y, d, k)) == k
  {
  }

  lemma DirectionsDistinct()
    ensures forall i, j :: 0 <= i < j < |Directions| ==> Directions[i] != Directions[j]
  {
  }

  /** The cells flipped along the first n directions are distinct and each points back along one of them. */
  lemma {:induction false} FlipsUpToDistinct(g: Grid, x: int, y: int, p: int, n: nat)
    requires IsBoard(g) && InBounds(x, y) && n <= |Directions|
    ensures forall a, b :: 0 <= a < b < |FlipsUpTo(g, x, y, p, n)| ==>
      FlipsUpTo(g, x, y, p, n)[a] != FlipsUpTo(g, x, y, p, n)[b]
    ensures forall c :: c in FlipsUpTo(g, x, y, p, n) ==>
      exists i :: 0 <= i < n && DirTo(x, y, c) == Directions[i]
  {
    if n > 0 {
      FlipsUpToDistinct(g, x, y, p, n - 1);
      FlipsUpToStep(g, x, y, p, n);
      RayFlipsOnRay(g, x, y, Directions[n - 1], p);
      AppendRay(FlipsUpTo(g, x, y, p, n - 1), RayFlips(g, x, y, Directions[n - 1], p), x, y, n);
    }
  }

  /** The j-th cell one ray flips lies j + 1 steps out along that ray. */
  lemma RayFlipsOnRay(g: Grid, x: int, y: int, d: Dir, p: int)
    requires IsBoard(g) && InBounds(x, y) && d in Directions
    ensures forall j :: 0 <= j < |RayFlips(g, x, y, d, p)| ==>
      DirTo(x, y, RayFlips(g, x, y, d, p)[j]) == d && StepsTo(x, y, RayFlips(g, x, y, d, p)[j]) == j + 1
  {
    var r := RayFlips(g, x, y, d, p);
    RayFlipsCells(g, x, y, d, p);
    forall j | 0 <= j < |r|
      ensures DirTo(x, y, r[j]) == d && StepsTo(x, y, r[j]) == j + 1
    {
      AtInverse(x, y, d, j + 1);
    }
  }

  /**
   * Distinct cells pointing back along the first n-1 directions, followed by
   * a run along the n-th at distances 1, 2, ..., stay distinct.
   */
  lemma AppendRay(prev: seq<Pos>, r: seq<Pos>, x: int, y: int, n: int)
    requires 0 < n <= |Directions|
    requires forall a, b :: 0 <= a < b < |prev| ==> prev[a] != prev[b]
    requires forall c :: c in prev ==> exists i :: 0 <= i < n - 1 && DirTo(x, y, c) == Directions[i]
    requires forall j :: 0 <= j < |r| ==> DirTo(x, y, r[j]) == Directions[n - 1] && StepsTo(x, y, r[j]) == j + 1
    ensures forall a, b :: 0 <= a < b < |prev + r| ==> (prev + r)[a] != (prev + r)[b]
    ensures forall c :: c in prev + r ==> exists i :: 0 <= i < n && DirTo(x, y, c) == Directions[i]
  {
    DirectionsDistinct();
    var all := prev + r;
    forall a, b | 0 <= a < b < |all|
      ensures all[a] != all[b]
    {
      if b < |prev| {
        assert all[a] == prev[a] && all[b] == prev[b];
      } else if a < |prev| {
        assert all[a] in prev;
        var i :| 0 <= i < n - 1 && DirTo(x, y, all[a]) == Directions[i];
        assert all[b] == r[b - |prev|];
      } else {
        assert all[a] == r[a - |prev|] && all[b] == r[b - |prev|];
      }
    }
    forall c | c in all
      ensures exists i :: 0 <= i < n && DirTo(x, y, c) == Directions[i]
    {
      if c !in prev {
        var j :| 0 <= j < |r| && r[j] == c;
        assert DirTo(x, y, c) == Directions[n - 1];
      }
    }
  }

  /** No cell is flipped twice: the flips of a move are pairwise distinct. */
  lemma FlipsDistinct(g: Grid, x: int, y: int, p: int)
    requires IsBoard(g) && InBounds(x, y)
    ensures forall a, b :: 0 <= a < b < |Flips(g, x, y, p)| ==> Flips(g, x, y, p)[a] != Flips(g, x, y, p)[b]
  {
    FlipsUpToDistinct(g, x, y, p, |Directions|);
  }

  // ---------------------------------------------------------------------------
  // Legal moves and their effect
  // ---------------------------------------------------------------------------

  /** p may play at (x, y): the cell is empty and the move flips at least one disc. */
  predicate IsLegal(g: Grid, x: int, y: int, p: int)
    requires IsBoard(g) && InBounds(x, y)
  {
    g[y][x] == Empty && |Flips(g, x, y, p)| > 0
  }

  /** A move is legal exactly when its cell is empty and some ray from it is flanked. */
  lemma IsLegalSpec(g: Grid, x: int, y: int, p: int)
    requires WellFormed(g) && InBounds(x, y) && IsPlayer(p)
    ensures IsLegal(g, x, y, p) <==>
      g[y][x] == Empty && exists i, m :: 0 <= i < |Directions| && Brackets(g, x, y, Directions[i], m, p)
  {
    FlipsSpec(g, x, y, p);
    var f := Flips(g, x, y, p);
    if exists i, m :: 0 <= i < |Directions| && Brackets(g, x, y, Directions[i], m, p) {
      var i, m :| 0 <= i < |Directions| && Brackets(g, x, y, Directions[i], m, p);
      assert Flanked(g, x, y, p, At(x, y, Directions[i], 1));
    }
    if |f| > 0 {
      assert Flanked(g, x, y, p, f[0]);
    }
  }

  /** The board after p plays at (x, y): that cell and every flipped cell hold p. */
  function Apply(g: Grid, x: int, y: int, p: int): (r: Grid)
    requires IsBoard(g) && InBounds(x, y)
    ensures IsBoard(r)
  {
    var f := Flips(g, x, y, p);
    seq(Size, j requires 0 <= j < Size =>
      seq(Size, i requires 0 <= i < Size =>
        if (i == x && j == y) || Pos(i, j) in f then p else g[j][i]))
  }

  /** Cell by cell, Apply sets (x, y) and the flipped cells to p and keeps the rest. */
  lemma ApplyCells(g: Grid, x: int, y: int, p: int)
    requires IsBoard(g) && InBounds(x, y)
    ensures forall j, i :: 0 <= j < Size && 0 <= i < Size ==>
      Apply(g, x, y, p)[j][i] == if (i == x && j == y) || Pos(i, j) in Flips(g, x, y, p) then p else g[j][i]
  {
  }

  /**
   * A legal move puts p's disc on (x, y), turns every flanked opponent disc
   * to p, and changes no other cell; the board stays well formed.
   */
  lemma ApplySpec(g: Grid, x: int, y: int, p: int)
    requires WellFormed(g) && InBounds(x, y) && IsPlayer(p) && IsLegal(g, x, y, p)
    ensures WellFormed(Apply(g, x, y, p))
    ensures g[y][x] == Empty && Apply(g, x, y, p)[y][x] == p
    ensures forall i, j :: InBounds(i, j) && Flanked(g, x, y, p, Pos(i, j)) ==>
      g[j][i] == -p && Apply(g, x, y, p)[j][i] == p
    ensures forall i, j :: InBounds(i, j) && !(i == x && j == y) && !Flanked(g, x, y, p, Pos(i, j)) ==>
      Apply(g, x, y, p)[j][i] == g[j][i]
  {
    FlipsSpec(g, x, y, p);
  }

  // ---------------------------------------------------------------------------
  // Enumerating moves
  // ---------------------------------------------------------------------------

  /** Row-major position of a cell: y outer, x inner. */
  function Index(c: Pos): int {
    c.y * Size + c.x
  }

  /** The legal moves of p in row y among the first n columns, left to right. */
  function RowMoves(g: Grid, p: int, y: int, n: int): (r: seq<Pos>)
    requires IsBoard(g) && 0 <= y < Size && 0 <= n <= Size
    ensures forall i :: 0 <= i < |r| ==> r[i].y == y && 0 <= r[i].x < n
  {
    if n == 0 then []
    else RowMoves(g, p, y, n - 1) + (if IsLegal(g, n - 1, y, p) then [Pos(n - 1, y)] else [])
  }

  lemma RowMovesStep(g: Grid, p: int, y: int, n: int)
    requires IsBoard(g) && 0 <= y < Size && 0 < n <= Size
    ensures RowMoves(g, p, y, n) == RowMoves(g, p, y, n - 1) + if IsLegal(g, n - 1, y, p) then [Pos(n - 1, y)] else []
  {
  }

  /** A row without a legal move among its first n cells contributes nothing. */
  lemma {:induction false} NoRowMoves(g: Grid, p: int, y: int, n: int)
    requires IsBoard(g) && 0 <= y < Size && 0 <= n <= Size
    requires forall x :: 0 <= x < n ==> !IsLegal(g, x, y, p)
    ensures RowMoves(g, p, y, n) == []
  {
    if n > 0 {
      NoRowMoves(g, p, y, n - 1);
    }
  }

  /** The legal moves, row by row from the top. */
  lemma LegalMovesByRow(g: Grid, p: int)
    requires IsBoard(g)
    ensures LegalMoves(g, p) ==
      RowMoves(g, p, 0, Size) + RowMoves(g, p, 1, Size) + RowMoves(g, p, 2, Size) + RowMoves(g, p, 3, Size) +
      RowMoves(g, p, 4, Size) + RowMoves(g, p, 5, Size) + RowMoves(g, p, 6, Size) + RowMoves(g, p, 7, Size)
  {
    MovesUpToStep(g, p, 1);
    assert MovesUpTo(g, p, 1) == RowMoves(g, p, 0, Size);
    MovesUpToStep(g, p, 2);
    MovesUpToStep(g, p, 3);
    MovesUpToStep(g, p, 4);
    MovesUpToStep(g, p, 5);
    MovesUpToStep(g, p, 6);
    MovesUpToStep(g, p, 7);
    MovesUpToStep(g, p, 8);
  }

  lemma MovesUpToStep(g: Grid, p: int, m: int)
    requires IsBoard(g) && 0 < m <= Size
    ensures MovesUpTo(g, p, m) == MovesUpTo(g, p, m - 1) + RowMoves(g, p, m - 1, Size)
  {
  }

  /** A row whose only legal move among its first n cells is x0 lists just that move. */
  lemma {:induction false} OneRowMove(g: Grid, p: int, y: int, x0: int, n: int)
    requires IsBoard(g) && 0 <= y < Size && 0 <= x0 < n <= Size
    requires forall x :: 0 <= x < n ==> (IsLegal(g, x, y, p) <==> x == x0)
    ensures RowMoves(g, p, y, n) == [Pos(x0, y)]
  {
    if n == x0 + 1 {
      NoRowMoves(g, p, y, x0);
      assert RowMoves(g, p, y, n) == [] + [Pos(x0, y)];
    } else {
      OneRowMove(g, p, y, x0, n - 1);
      assert !IsLegal(g, n - 1, y, p);
      assert RowMoves(g, p, y, n) == [Pos(x0, y)] + [];
    }
  }

  /** The legal moves of p in the first m rows, in row-major order. */
  function MovesUpTo(g: Grid, p: int, m: int): (r: seq<Pos>)
    requires IsBoard(g) && 0 <= m <= Size
    ensures forall i :: 0 <= i < |r| ==> InBounds(r[i].x, r[i].y) && r[i].y < m
  {
    if m == 0 then []
    else MovesUpTo(g, p, m - 1) + RowMoves(g, p, m - 1, Size)
  }

  /** Every legal move of p, scanning rows top to bottom and each row left to right. */
  function LegalMoves(g: Grid, p: int): (r: seq<Pos>)
    requires IsBoard(g)
    ensures forall i :: 0 <= i < |r| ==> InBounds(r[i].x, r[i].y)
  {
    MovesUpTo(g, p, Size)
  }

  /** Cell c is in a row's list exactly when it is a legal move among the row's first n cells. */
  lemma {:induction false} RowMovesHas(g: Grid, p: int, y: int, n: int, c: Pos)
    requires IsBoard(g) && 0 <= y < Size && 0 <= n <= Size
    ensures c in RowMoves(g, p, y, n) <==> c.y == y && 0 <= c.x < n && IsLegal(g, c.x, c.y, p)
  {
    if n > 0 {
      var prev := RowMoves(g, p, y, n - 1);
      var last := if IsLegal(g, n - 1, y, p) then [Pos(n - 1, y)] else [];
      RowMovesHas(g, p, y, n - 1, c);
      RowMovesStep(g, p, y, n);
      assert RowMoves(g, p, y, n) == prev + last;
      if c == Pos(n - 1, y) {
        assert c !in prev;
        assert c in prev + last <==> c in last;
        assert c in last <==> IsLegal(g, n - 1, y, p);
      } else {
        assert c !in last;
        assert c in prev + last <==> c in prev;
        assert c.y == y && 0 <= c.x < n <==> c.y == y && 0 <= c.x < n - 1;
      }
    }
  }

  /** Cell c is in the list for the first m rows exactly when it is in the list of its own row, one of those m. */
  lemma {:induction false} MovesUpToRows(g: Grid, p: int, m: int, c: Pos)
    requires IsBoard(g) && 0 <= m <= Size
    ensures c in MovesUpTo(g, p, m) <==> 0 <= c.y < m && c in RowMoves(g, p, c.y, Size)
  {
    if m > 0 {
      var prev, row := MovesUpTo(g, p, m - 1), RowMoves(g, p, m - 1, Size);
      MovesUpToRows(g, p, m - 1, c);
      MovesUpToStep(g, p, m);
      assert MovesUpTo(g, p, m) == prev + row;
      if c.y == m - 1 {
        assert forall i :: 0 <= i < |prev| ==> prev[i] != c;
        assert c in prev + row <==> c in row;
      } else {
        assert forall i :: 0 <= i < |row| ==> row[i] != c;
        assert c in prev + row <==> c in prev;
      }
    }
  }

  /** LegalMoves holds every legal move of p and nothing else. */
  lemma LegalMovesSpec(g: Grid, p: int)
    requires IsBoard(g)
    ensures forall c :: c in LegalMoves(g, p) <==> InBounds(c.x, c.y) && IsLegal(g, c.x, c.y, p)
  {
    forall c
      ensures c in LegalMoves(g, p) <==> InBounds(c.x, c.y) && IsLegal(g, c.x, c.y, p)
    {
      MovesUpToRows(g, p, Size, c);
      if 0 <= c.y < Size {
        RowMovesHas(g, p, c.y, Size, c);
      }
    }
  }

  /** Strictly increasing in row-major position, hence free of repeats. */
  predicate Increasing(r: seq<Pos>) {
    forall i, j :: 0 <= i < j < |r| ==> Index(r[i]) < Index(r[j])
  }

  /** A row's moves run left to right. */
  lemma {:induction false} RowMovesOrdered(g: Grid, p: int, y: int, n: int)
    requires IsBoard(g) && 0 <= y < Size && 0 <= n <= Size
    ensures Increasing(RowMoves(g, p, y, n))
  {
    if n > 0 {
      var prev := RowMoves(g, p, y, n - 1);
      var r := RowMoves(g, p, y, n);
      RowMovesOrdered(g, p, y, n - 1);
      RowMovesStep(g, p, y, n);
      forall i, j | 0 <= i < j < |r|
        ensures Index(r[i]) < Index(r[j])
      {
        assert r[i] == prev[i];
        if j < |prev| {
          assert r[j] == prev[j];
        } else {
          assert r[j] == Pos(n - 1, y) && prev[i].y == y && prev[i].x < n - 1;
        }
      }
    }
  }

  /** The moves of the first m rows run in row-major order. */
  lemma {:induction false} MovesUpToOrdered(g: Grid, p: int, m: int)
    requires IsBoard(g) && 0 <= m <= Size
    ensures Increasing(MovesUpTo(g, p, m))
  {
    if m > 0 {
      var prev := MovesUpTo(g, p, m - 1);
      var row := RowMoves(g, p, m - 1, Size);
      var r := MovesUpTo(g, p, m);
      MovesUpToOrdered(g, p, m - 1);
      RowMovesOrdered(g, p, m - 1, Size);
      MovesUpToStep(g, p, m);
      forall i, j | 0 <= i < j < |r|
        ensures Index(r[i]) < Index(r[j])
      {
        if j < |prev| {
          assert r[i] == prev[i] && r[j] == prev[j];
        } else if i < |prev| {
          assert r[i] == prev[i] && r[j] == row[j - |prev|];
          assert prev[i].y < m - 1 && row[j - |prev|].y == m - 1;
        } else {
          assert r[i] == row[i - |prev|] && r[j] == row[j - |prev|];
        }
      }
    }
  }

  /** The legal moves come in row-major order, so each occurs exactly once. */
  lemma LegalMovesOrdered(g: Grid, p: int)
    requires IsBoard(g)
    ensures Increasing(LegalMoves(g, p))
    ensures forall i, j :: 0 <= i < j < |LegalMoves(g, p)| ==> LegalMoves(g, p)[i] != LegalMoves(g, p)[j]
  {
    MovesUpToOrdered(g, p, Size);
  }

  // ---------------------------------------------------------------------------
  // Counting discs
  // ---------------------------------------------------------------------------

  /** How many of the first n cells of a row hold v. */
  function RowCount(row: seq<int>, v: int, n: int): nat
    requires 0 <= n <= |row|
  {
    if n == 0 then 0 else RowCount(row, v, n - 1) + (if row[n - 1] == v then 1 else 0)
  }

  /** How many cells of the first m rows hold v. */
  function CountUpTo(g: Grid, v: int, m: int): nat
    requires IsBoard(g) && 0 <= m <= Size
  {
    if m == 0 then 0 else CountUpTo(g, v, m - 1) + RowCount(g[m - 1], v, Size)
  }

  /** How many cells of the board hold v. */
  function Count(g: Grid, v: int): nat
    requires IsBoard(g)
  {
    CountUpTo(g, v, Size)
  }

  lemma {:induction false} RowCountsCover(row: seq<int>, n: int)
    requires 0 <= n <= |row|
    requires forall i :: 0 <= i < |row| ==> White <= row[i] <= Black
    ensures RowCount(row, Black, n) + RowCount(row, White, n) + RowCount(row, Empty, n) == n
  {
    if n > 0 {
      RowCountsCover(row, n - 1);
    }
  }

  lemma {:induction false} CountsCoverUpTo(g: Grid, m: int)
    requires WellFormed(g) && 0 <= m <= Size
    ensures CountUpTo(g, Black, m) + CountUpTo(g, White, m) + CountUpTo(g, Empty, m) == m * Size
  {
    if m > 0 {
      CountsCoverUpTo(g, m - 1);
      RowCountsCover(g[m - 1], Size);
    }
  }

  /** Black, white and empty cells together make up the 64 cells of the board. */
  lemma CountsCoverBoard(g: Grid)
    requires WellFormed(g)
    ensures Count(g, Black) + Count(g, White) + Count(g, Empty) == Size * Size
  {
    CountsCoverUpTo(g, Size);
  }
}
