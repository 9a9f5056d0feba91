# Othello engine

A Dafny model of the Othello (Reversi) engine of the web mini-game, the class
`OthelloGame` in `web_project/othello.js`. The human plays Black (1) and moves
first; the computer plays White (-1); empty cells hold 0. The board is 8x8 and
indexed `board[y][x]`.

The model has three modules:

- `Rules` (Rules.dfy) states the rules on board values (`seq<seq<int>>`):
  - which discs a move flips along one ray (`Walk`, `RayFlips`) and along all eight (`Flips`);
  - when a move is legal (`IsLegal`) and what it does to the board (`Apply`);
  - the legal moves in row-major order (`LegalMoves`);
  - the disc counts (`Count`).
  The flips, legality, `Apply` and `LegalMoves` are each tied by lemmas to an independent
  description: a move flips a disc exactly when the disc lies in an unbroken run of opponent discs
  that a disc of the mover closes. `Count` is the counting loop written as recursion. The only
  general fact proved about it is that the three counts cover the 64 cells.
- `Strategy` (Strategy.dfy) is the hard-mode heuristic. A move scores its positional weight plus
  the number of discs it flips, and the first move in list order with a strictly greatest score
  is chosen.
- `Othello` (Game.dfy) is the engine itself, a class over an `array2<int>` board with the fields
  `currentPlayer`, `difficulty`, `gameOver`, `canClick` and `message`. Its methods keep the
  source's loops and in-place updates, and each is proved against the `Rules` and `Strategy`
  functions. The turn machine (player's click, the computer's reply, passes and the end of the
  game) is stated by the predicates `InTurn`, `PassTurn`, `PlayTurn` and `ComputerTurn`.

The delayed calls of the page are modelled as a pending state. After the player's move the game
is left with `currentPlayer == White` and `!gameOver`, and the caller then runs `ComputerMove`.
When the player must pass, `ComputerMove` leaves that same state, so the caller runs it again.

## Model

| member | source | states |
|---|---|---|
| Rules.RayFlipsSpec | web_project/othello.js:102-116 | one ray flips exactly the run of cells before the first cell that brackets it: every run of opponent discs closed by a mover's disc is what the ray flips, and a non-empty result is such a run |
| Rules.RayFlipsCells | web_project/othello.js:107-116 | the cells one ray collects lie one after the other along the ray, starting next to the move, on the board, and hold opponent discs |
| Rules.FlipsUpToCells | web_project/othello.js:100-117 | every cell flipped along the first n directions is on the board and holds neither an empty cell nor a mover's disc |
| Rules.FlipsSpec | web_project/othello.js:95-119 | a cell is flipped if and only if it is outflanked along one of the eight directions; every flipped cell is on the board and holds an opponent disc |
| Rules.FlipsDistinct | web_project/othello.js:95-119 | no cell is returned twice by the flip computation |
| Rules.LoneRayUpTo | web_project/othello.js:102-117 | when every ray but one flips nothing, the flips are that ray's run |
| Rules.QuietUpTo | web_project/othello.js:102-117 | rays that each flip nothing flip nothing together |
| Rules.IsLegalSpec | web_project/othello.js:90-93 | a move is legal if and only if its cell is empty and some direction holds a bracketed run of opponent discs |
| Rules.ApplySpec | web_project/othello.js:79-88 | a legal move puts the mover's disc on its empty cell and on every outflanked cell, which held opponent discs, and leaves every other cell unchanged; the board stays well formed |
| Rules.LegalMovesSpec | web_project/othello.js:170-180 | a cell is listed among the moves if and only if it is on the board and legal |
| Rules.LegalMovesOrdered | web_project/othello.js:172-177 | the moves are listed in strictly increasing row-major order (y outer, x inner), hence each at most once |
| Rules.RowMovesHas | web_project/othello.js:173-177 | a row's list holds exactly the legal cells of that row among the columns scanned |
| Rules.MovesUpToRows | web_project/othello.js:172-178 | the list after m rows holds exactly the moves of those rows |
| Rules.CountsCoverBoard | web_project/othello.js:219-227 | Black, White and empty cells together number 64 |
| Strategy.WeightsShape | web_project/othello.js:190-199 | the weight table is 8x8, its weights lie in -50..100, and exactly the corners weigh 100 |
| Strategy.MoveScore | web_project/othello.js:205-208 | every move scores above the sentinel that replaces minus infinity |
| Strategy.FirstMax | web_project/othello.js:204-214 | the scan's choice is an index of a greatest score, and every earlier score is strictly smaller |
| Strategy.LeadingStep | web_project/othello.js:210-213 | one step of the scan keeps the running choice at the first strict maximum of the scores seen |
| Strategy.ScanStep | web_project/othello.js:204-214 | the same step, stated for the scores of the moves on the board |
| Strategy.BestMoveSpec | web_project/othello.js:182-217 | the hard pick is one of the moves, scores at least as much as every move, and comes no later in the list than any move of equal score |
| Othello.StartPosition | web_project/othello.js:17-24 | the start board is well formed, exactly the four centre cells are taken, White on (3,3) and (4,4), Black on (4,3) and (3,4), two discs each |
| Othello.StartLegal | web_project/othello.js:90-93 | from the start, Black's legal cells are exactly (3,2), (2,3), (5,4) and (4,5) |
| Othello.StartMoves | web_project/othello.js:170-180 | from the start, Black's move list is [(3,2), (2,3), (5,4), (4,5)] in this order |
| Othello.OpeningMove | web_project/othello.js:79-88 | Black's opening at (2,3) flips only (3,3) and leaves four Black discs and one White |
| Othello.NoMovesLeftSpec | web_project/othello.js:237-241 | the game is over exactly when no cell is legal for either colour |
| Othello.Outcome | web_project/othello.js:243-247 | the verdict is a player win, a computer win or a draw exactly as Black's count is greater, smaller or equal |
| Othello.StartBoard | web_project/othello.js:17-28 | a board holding the start position is the start board, the game is not over and Black, to move, has a legal move |
| Othello.NewStartBoard | web_project/othello.js:18-24 | the fresh 8x8 array holds the start position |
| Othello.PaintedMove | web_project/othello.js:83-86 | painting the move's cell and then every flipped cell yields the board the rules describe |
| Othello.ComputerTurnKeepsInvariant | web_project/othello.js:121-168 | a computer turn keeps the turn state in agreement with the board: the game is over exactly when no one can move, and the player, when due, can move and click |
| Othello.OthelloGame.constructor | web_project/othello.js:2-15 | a new game holds the start board with Black to move, not over, clicks accepted, and the chosen difficulty |
| Othello.OthelloGame.Init | web_project/othello.js:17-31 | the game restarts on a fresh board in the start position, Black to move, not over, clicks accepted |
| Othello.OthelloGame.GetFlippedDiscs | web_project/othello.js:95-119 | the loop over the eight directions returns exactly the flips of the rules |
| Othello.OthelloGame.ScanRay | web_project/othello.js:103-116 | the walk along one direction returns exactly that ray's flips |
| Othello.OthelloGame.IsValidMove | web_project/othello.js:90-93 | the answer is exactly the legality of the move |
| Othello.OthelloGame.PlaceDisc | web_project/othello.js:79-88 | an illegal move is refused and changes nothing; a legal move is accepted and leaves the board the rules describe |
| Othello.OthelloGame.PaintDiscs | web_project/othello.js:83-86 | every listed cell gets the mover's colour and every other cell keeps its value |
| Othello.OthelloGame.GetAllValidMoves | web_project/othello.js:170-180 | the nested scan returns exactly the legal moves, in row-major order |
| Othello.OthelloGame.RowValidMoves | web_project/othello.js:173-177 | the inner scan returns exactly the row's legal moves, left to right |
| Othello.OthelloGame.GetBestMove | web_project/othello.js:182-217 | the scan returns the heuristic's choice |
| Othello.OthelloGame.ScoreMove | web_project/othello.js:205-208 | a move's score is its weight plus the discs it flips for White |
| Othello.OthelloGame.UpdateScore | web_project/othello.js:219-231 | the counts are the numbers of Black and of White discs, and with the empty cells they cover the 64 cells |
| Othello.OthelloGame.CheckGameOver | web_project/othello.js:237-253 | the result is true exactly when neither side can move; then the game is over and the verdict shown, otherwise nothing changes; the board is never touched |
| Othello.OthelloGame.HandleCellClick | web_project/othello.js:60-77 | a click is ignored when the game is over, clicks are refused, it is not Black's turn or the cell is illegal; otherwise the move is played, clicks are refused, and the game ends or the computer's reply becomes due; the turn invariant is kept |
| Othello.OthelloGame.PassToComputer | web_project/othello.js:64-71 | after the player's move clicks are refused, and the game ends with the verdict or the computer is due |
| Othello.OthelloGame.ComputerMove | web_project/othello.js:121-168 | the computer's turn does nothing once the game is over, passes without a legal move, and otherwise plays one; the turn invariant is kept |
| Othello.OthelloGame.ComputerPass | web_project/othello.js:125-137 | a pass leaves the board, gives the turn and clicks to the player, and ends the game when the player cannot move either |
| Othello.OthelloGame.ComputerPlay | web_project/othello.js:139-167 | the computer plays a legal move (the heuristic's under Hard), and then the game ends, the player must pass, or the player is to move |
| Othello.OthelloGame.HandOver | web_project/othello.js:153-167 | after the computer's move the game ends, or the player must pass, or the player is to move and may click |
| Othello.OthelloGame.ChooseMove | web_project/othello.js:139-147 | the computer's pick is one of its legal moves; under Hard it is the heuristic's choice |

## Left out

- Rendering and the page: `renderBoard`, `updateMessage`, the score text writes in `updateScore`, the element lookups in the constructor and the start button handler are left out. They only draw the game. The status strings become the `Message` datatype.
- `setTimeout`: each delayed `computerMove` is a pending state that the caller ends by calling `ComputerMove`.
- `Math.random` in easy mode is a nondeterministic choice of an index in range (`:|`); only the fact that the pick is one of the legal moves is stated.
- The initial best score of minus infinity is the integer `NoScore` = -51. Every score is at least -50, so the comparisons come out the same.
- The cell k steps along a direction is written in closed form, `(x + k*dx, y + k*dy)`, in place of the repeated `cx += dx`. The loop in `ScanRay` still steps one cell at a time and is proved to visit the same cells.
- The `updateScore` calls that only refresh the page after a move are not modelled. Only the counting is modelled, as `UpdateScore` and as part of `CheckGameOver`.
- `handleCellClick` and `computerMove` keep their own bodies, but parts of them sit in helper methods (`PassToComputer`, `ComputerPass`, `ComputerPlay`, `HandOver`, `ChooseMove`) so that each contract stays small.
- Othello.OthelloGame.PlaceDisc writes the move's cell and the flipped cells through `PaintDiscs`, in the same order as the source. Only the final board is stated, not the order of the writes.
- The computer's pass when the player cannot move either leaves `currentPlayer` as Black and clicks accepted even though the game is over. The model keeps this; the turn invariant allows it because every click is ignored once the game is over.
- `Difficulty` has two values, Easy and Hard. The source's constructor defaults to 'easy', and any value other than 'easy' plays the hard heuristic. Neither behaviour is modelled, because the page always passes the selected 'easy' or 'hard'.
- `web_project/script.js` (scrolling and animation effects of the page) is not part of this model.
