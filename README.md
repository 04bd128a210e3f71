# Connect-N game core in Dafny

This project models the core of a browser connect-N game (`js/game.js`). The
board has 3 to 30 rows and columns. A player wins with `win` equal marks in a row,
column, diagonal or anti-diagonal. A human plays `X` or `O` against a computer
at one of three strengths.

- **Board** (`board.dfy`). Marks, cells (EMPTY or a mark), positions, and the
  board as a value (`Grid`, a sequence of rows). The two-dimensional array
  the game mutates is an `array2<Cell>`. `Snapshot` reads it as a `Grid`.
  `SetCell` is the in-place write `board[i][j] = c`.
- **Scanner** (`scanner.dfy`).
  - checkLine.
  - checkWinner, as three loop methods over the horizontal, vertical and
    diagonal windows. Each pass is proved equal to "some window of its
    direction or directions passes checkLine" (`WinsIn`). `CheckWinner`, which
    runs the three passes, is proved equal to `HasWinningLine`: some window
    that fits on the board passes checkLine. The win test is also proved to
    give the same answer on the board turned by 180 degrees.
  - isBoardFull.
- **Moves** (`moves.dfy`). getEmptyCells, as a nested loop. It is proved to
  list exactly the EMPTY cells, each once, in strictly row-major order.
- **Strategy** (`strategy.dfy`). The three computer strategies as functions
  of the board, with their properties:
  - the random choice;
  - block-or-attack;
  - minimax with its clock cut-off and the candidate loop of the top-level
    move.
- **Game** (`game.dfy`).
  - The validation of initGame.
  - The click state machine (`Click`) over the board and the
    `currentPlayer`/`bot` globals.
  - The class `Page` (the globals of the page script), whose methods update the board array and those fields
    in place. Each method is proved equal to its specification function.

The search methods place a mark on the shared board, recurse and clear the
cell. Each one proves the board is unchanged when it returns.

Two effects become parameters:
- The random index `Math.floor(Math.random() * n)` becomes an oracle value
  `rand`, used as `rand % n`.
- The wall clock `Date.now() - startTime >= maxTime` becomes a count of clock
  readings, `t`, with a `budget`. A reading times out when `t >= budget`.
  This covers any clock that never goes backwards. Under such a clock, once
  one reading has timed out, every later reading times out too. So the index
  of the first reading that times out can serve as the budget.

Minimax reads the clock before each child, as the code does.

### Behaviour of the code worth noting

- **The heuristic blocks before it wins.** It tries the non-bot mark first
  and the bot's mark second (`BlockAttackSpec`). The comments in the code
  label the first scan "winning move" and the second "block".
- **Clicks on a finished game flip the players.** A click on an EMPTY cell of
  a finished game leaves the board alone. But `isGameOver`, called in the
  guard of cellClick, flips `currentPlayer` and `bot` (`ClickIgnored`).
- **A timeout can be hidden by Math.min.** When the last child of a
  minimising position times out, `Math.min` keeps any finite score already
  pushed instead of the Infinity (`TimeoutMaskedByMin`). A truncated search
  can therefore still produce a finite score.

## Model

| member | source | states |
|---|---|---|
| Board.Opponent | js/game.js:201 | the other mark is never the mark itself; X and O swap |
| Board.Place | js/game.js:100 | writing a cell keeps the board rectangular with the same size, sets that cell and no other |
| Board.PlaceThenClear | js/game.js:206-213 | placing a mark on an EMPTY cell and setting it back to EMPTY restores the board exactly |
| Board.Snapshot | js/game.js:29 | the value view of the array is rectangular, with one row per array row, and agrees with the array cell by cell |
| Board.SetCell | js/game.js:100 | the in-place write changes the board value exactly as `Place` does |
| Board.CreateTwoDimensionalArray | js/game.js:38-50 | a fresh rows-by-columns array with every cell equal to the fill value |
| Scanner.CheckLine | js/game.js:171-178 | a line passes when its first cell is not EMPTY and every cell equals it; an empty line passes, as `[].every` does |
| Scanner.Anchored | js/game.js:131-155 | the anchors the scan loops visit: a horizontal window starts at a column up to columns - win, a vertical one at a row up to rows - win, and both diagonals need both bounds |
| Scanner.HasWinningLine | js/game.js:126-169 | some window of `win` cells anchored on the board, in one of the four directions, passes checkLine |
| Scanner.WinsIn | js/game.js:131-166 | some window of one direction passes checkLine |
| Scanner.IsBoardFull | js/game.js:180-182 | no cell of any row is EMPTY |
| Scanner.Terminal | js/game.js:118 | the game is over when there is a winning line or the board is full |
| Scanner.Window | js/game.js:133 | a window of checkWinner holds exactly `win` cells |
| Scanner.AnchoredInBounds | js/game.js:131-166 | every cell of every window the scan loops visit lies on the board, for non-square boards too |
| Scanner.CheckLineIsRun | js/game.js:171-178 | a non-empty line passes checkLine exactly when it is one mark repeated |
| Scanner.CheckLineReverse | js/game.js:171-178 | checkLine does not depend on the direction a line is read in |
| Scanner.CollectLine | js/game.js:143-146 | the cells pushed by the scan's inner loop are the window's cells, in order |
| Scanner.ScanHorizontal | js/game.js:131-138 | the row pass finds a line exactly when some horizontal window passes checkLine |
| Scanner.ScanVertical | js/game.js:141-151 | the column pass finds a line exactly when some vertical window passes checkLine |
| Scanner.ScanDiagonals | js/game.js:154-166 | the diagonal pass finds a line exactly when some diagonal or anti-diagonal window passes checkLine |
| Scanner.Rot | js/game.js:126-169 | the board turned by 180 degrees is rectangular and has the same size |
| Scanner.RotRot | js/game.js:126-169 | turning the board twice gives it back |
| Scanner.RotWindow | js/game.js:131-166 | every window of the turned board is a window of the board, anchored on the board and read backwards |
| Scanner.RotWins | js/game.js:126-169 | a winning line on the turned board gives a winning line on the board |
| Scanner.RotationInvariant | js/game.js:126-169 | checkWinner gives the same answer on the board turned by 180 degrees |
| Scanner.WinningLineByDirection | js/game.js:126-169 | a board has a winning window exactly when one of the four directions has one |
| Scanner.CheckWinner | js/game.js:126-169 | checkWinner is true exactly when some window of `win` cells that fits on the board has a non-EMPTY first cell and all cells equal |
| Moves.EmptyFrom | js/game.js:288-294 | the EMPTY cells from (i, j) to the end of the board, in the order the nested loop visits them |
| Moves.EmptyCells | js/game.js:285-297 | every cell getEmptyCells lists is EMPTY |
| Moves.EmptySet | js/game.js:285-297 | the set of empty cells holds exactly the in-bounds EMPTY cells |
| Moves.EmptyFromStep | js/game.js:288-294 | one step of the row-major scan: an EMPTY cell is listed, an occupied one skipped, the end of a row moves to the next row |
| Moves.ScanCell | js/game.js:289-293 | a turn of the inner loop pushes the cell exactly when it is EMPTY, and the list so far followed by the rest of the scan is still the whole list |
| Moves.EmptyFromSpec | js/game.js:285-297 | the scan from (i, j) lists exactly the EMPTY cells at or after (i, j), in strictly increasing row-major order |
| Moves.EmptyFromAllEmpty | js/game.js:285-297 | every suffix of the scan lists only EMPTY cells |
| Moves.EmptyCellsSpec | js/game.js:285-297 | getEmptyCells lists exactly the EMPTY cells, without repetition, in strictly row-major order |
| Moves.FullIffNoEmptyCells | js/game.js:180-182 | isBoardFull holds exactly when getEmptyCells returns nothing |
| Moves.PlaceShrinks | js/game.js:255 | a mark placed on an EMPTY cell removes exactly that cell from the empty cells, so the search always terminates |
| Moves.GetEmptyCells | js/game.js:285-297 | the nested loop returns exactly the EMPTY cells in strictly row-major order |
| Strategy.Less | js/game.js:276 | JavaScript's `<` on numbers with both infinities |
| Strategy.LessOrder | js/game.js:276 | `>` on scores, with the infinities, is a strict total order |
| Strategy.MaxOf | js/game.js:260 | Math.max of no scores is -Infinity, and otherwise one of the scores |
| Strategy.MinOf | js/game.js:260 | Math.min of no scores is Infinity, and otherwise one of the scores |
| Strategy.Aggregate | js/game.js:260 | Math.max of the children's scores when maximising, Math.min otherwise |
| Strategy.MaxMinExtremal | js/game.js:260 | no score of the list exceeds Math.max or falls below Math.min |
| Strategy.RandomMove | js/game.js:194-198 | the empty cell at index rand % n of the n empty cells, and None (undefined) when there is none |
| Strategy.RandomMoveSpec | js/game.js:194-198 | the random choice is an EMPTY cell exactly when the board has one, and undefined on a full board |
| Strategy.RandomMoveCovers | js/game.js:196 | every empty cell can be drawn: random index k picks the k-th empty cell |
| Strategy.Completes | js/game.js:207-208 | the cell is on the board and placing the mark on it gives a winning line |
| Strategy.FirstCompleting | js/game.js:204-215 | the first of the listed cells that is EMPTY and where placing the mark gives a winning line |
| Strategy.FirstInSpec | js/game.js:204-215 | a scan that stops at its first hit finds nothing exactly when no cell is a hit, and otherwise the first hit with none before it |
| Strategy.FirstCompletingFromStep | js/game.js:204-215 | one cell of a heuristic scan: an EMPTY cell that completes a line ends the scan there, any other cell passes the scan on |
| Strategy.FirstCompletingNone | js/game.js:204-215 | a heuristic scan finds nothing exactly when no EMPTY cell completes a line for the mark |
| Strategy.FirstCompletingFound | js/game.js:204-215 | what a heuristic scan finds is an EMPTY cell completing a line for the mark, with no earlier EMPTY cell in row-major order doing so |
| Strategy.BlockAttack | js/game.js:200-233 | the first EMPTY cell where the non-bot mark completes a line, else the first where the bot's mark does, else `RandomMove` |
| Strategy.BlockAttackSpec | js/game.js:200-233 | the heuristic returns a cell exactly when one is EMPTY, and always an EMPTY one. Its choice, in order: the first cell where the non-bot mark would win; otherwise the first where the bot's mark would win; otherwise the random choice |
| Strategy.Mover | js/game.js:255 | the mark placed by the side to move: the bot's when maximising, the other mark otherwise |
| Strategy.Minimax | js/game.js:235-261 | the search never turns the clock back: clock readings only accumulate |
| Strategy.Expand | js/game.js:245-260 | the child loop never turns the clock back |
| Strategy.Child | js/game.js:253-257 | scoring one child never turns the clock back |
| Strategy.ChildValues | js/game.js:248-258 | the reference game value has one child value per empty cell |
| Strategy.Value | js/game.js:235-261 | the game value the search approximates: the same recursion with no clock, max of the children's values when maximising and min otherwise |
| Strategy.ValueIsFinite | js/game.js:237-243 | the game value without a clock (the max/min recursion of minimax) is always -1, 0 or 1 |
| Strategy.MinimaxWithinBudget | js/game.js:235-261 | a search that times out on no clock reading returns the exact game value: the maximum of the children's values when maximising, the minimum when minimising |
| Strategy.ExpandWithinBudget | js/game.js:248-260 | a child loop that never times out aggregates the scores pushed so far together with the game values of the remaining children |
| Strategy.MinimaxExpands | js/game.js:245-248 | a position with no winning line and an empty cell is scored by the child loop over getEmptyCells |
| Strategy.MinimaxLeaves | js/game.js:237-243 | a winning line scores -1 when maximising and 1 otherwise, even on a full board; a full board without one scores 0; neither reads the clock |
| Strategy.ExpandStep | js/game.js:248-258 | a turn of the child loop within the budget pushes the child's score and carries its clock readings on |
| Strategy.TimeoutMaskedByMin | js/game.js:248-260 | a timeout in the last child of a minimising position is hidden by Math.min when a finite score was pushed before it |
| Strategy.MinimaxInDomain | js/game.js:235-261 | minimax only ever returns -1, 0, 1 or Infinity |
| Strategy.ExpandInDomain | js/game.js:248-260 | the child loop only returns -1, 0, 1 or Infinity |
| Strategy.Scores | js/game.js:268-274 | the candidate loop scores at most one value per empty cell |
| Strategy.ScoresSpec | js/game.js:268-274 | every candidate score is -1, 0, 1 or Infinity, and without an Infinity every candidate is scored |
| Strategy.ScoresStep | js/game.js:268-274 | one candidate: the bot's mark on it, minimax for the minimising side, and the list stops at Infinity |
| Strategy.FirstMax | js/game.js:265-279 | the best score and move after the candidates scored so far, starting from -Infinity and null; a candidate replaces the best only with a strictly greater score |
| Strategy.FirstMaxStep | js/game.js:276-279 | a candidate replaces the best move only when its score is strictly greater |
| Strategy.FirstMaxSpec | js/game.js:265-282 | the move kept is the first candidate with a maximal score: every earlier candidate scores strictly less, no later one more |
| Strategy.MinimaxMove | js/game.js:263-283 | if any candidate scores Infinity, `BlockAttack`'s cell; otherwise `FirstMax`'s move over all the candidates' scores |
| Strategy.CandidateStep | js/game.js:268-280 | a candidate scoring Infinity means the whole score list contains Infinity; a finite score extends the scores seen |
| Strategy.MinimaxMoveTimedOut | js/game.js:274 | a candidate scoring Infinity hands the whole choice to the heuristic |
| Strategy.MinimaxMoveFinished | js/game.js:268-282 | without an Infinity every candidate is scored, and the move is the first best one |
| Strategy.MinimaxMoveSpec | js/game.js:263-283 | the minimax move is an EMPTY cell exactly when the board has one (never null then) |
| Strategy.MinimaxMoveOrder | js/game.js:263-283 | a timed-out search defers to the heuristic; otherwise the move is the first empty cell with maximal score, strictly better than every earlier one and no worse than any later one |
| Strategy.MinimaxTimeout | js/game.js:249-252 | a clock reading past the budget on a position that is not over scores Infinity |
| Strategy.ZeroBudgetScores | js/game.js:268-274 | with no time at all, a candidate whose board is not over puts Infinity in the score list |
| Strategy.MinimaxMoveZeroBudget | js/game.js:263-283 | with no time at all and some candidate whose board is not over, the minimax strategy plays the heuristic's move |
| Strategy.MinimaxMoveSingleCell | js/game.js:263-283 | with one empty cell, minimax returns that cell whatever its score |
| Strategy.Choose | js/game.js:188-190 | the random choice for the easy level, block-or-attack for medium, minimax for hard |
| Strategy.ChooseSpec | js/game.js:188-192 | every level's strategy returns an EMPTY cell exactly when the board has one |
| Game.IsBadInt | js/game.js:52-54 | the value lies outside [min, max] |
| Game.MinInt | js/game.js:63 | the smaller of rows and columns, as `Math.min` |
| Game.Validate | js/game.js:63-68 | the configuration is accepted exactly when rows and columns are in 3..30 and win is in 3..min(rows, columns). A bad size is reported before a bad win length |
| Game.Flip | js/game.js:119-122 | game over flips currentPlayer, makes bot the other mark and leaves the board alone |
| Game.FlipTwice | js/game.js:117-124 | a third flip gives the same session as the first; two flips give the session back exactly when bot and currentPlayer differ |
| Game.Click | js/game.js:98-115 | a click, with the computer's replies, never changes a cell that was already marked and keeps the board's size |
| Game.ComputerMoveSpec | js/game.js:188-192 | the computer's move never changes a cell that was already marked and keeps the board's size |
| Game.ClickIgnored | js/game.js:99 | a click on an occupied cell changes nothing; on an EMPTY cell of a finished game only the players flip |
| Game.ClickTurn | js/game.js:98-115 | on an EMPTY cell of an unfinished game the player's mark is placed. If that ends the game the players flip; otherwise the bot answers on the EMPTY cell its strategy picks and the same player is to move |
| Game.ClickKeepsRoles | js/game.js:98-124 | a click keeps bot the other mark than currentPlayer, so the roles of the opening X against O last all game |
| Game.Page.constructor | js/game.js:25-28 | the initial globals: hard level, win length 3, X to move, bot O, no board |
| Game.Page.SetDifficulty | js/game.js:32-36 | the level changes and nothing else |
| Game.Page.InitGame | js/game.js:56-76 | a valid configuration installs a fresh all-EMPTY rows-by-columns board and its sizes; an invalid one reports the error and changes nothing |
| Game.Page.IsGameOver | js/game.js:117-124 | the result is win-or-full, and the players flip exactly when it is true |
| Game.Page.CellClick | js/game.js:98-115 | the new board and players are those of the click state machine |
| Game.Page.ComputerMove | js/game.js:188-192 | the level's strategy picks a move and it is clicked, as `ComputerMoveSpec` says |
| Game.Page.GetComputerMoveRandom | js/game.js:194-198 | returns the random choice over the empty cells |
| Game.Page.TryWin | js/game.js:206-213 | a speculative placement reports whether it completes a line, and the board is left unchanged |
| Game.Page.FirstWinningCell | js/game.js:204-215 | one heuristic scan returns the first completing EMPTY cell, and the board is left unchanged |
| Game.Page.GetComputerMoveBlockAttack | js/game.js:200-233 | the heuristic in place returns the heuristic's choice, and the board is left unchanged |
| Game.Page.TryMove | js/game.js:253-257 | place, recurse and clear: the child's score and clock, and the board is left unchanged |
| Game.Page.Minimax | js/game.js:235-261 | the recursive search in place returns minimax's score and clock, and the board is left unchanged |
| Game.Page.ExpandChildren | js/game.js:245-260 | the child loop in place returns the child loop's score and clock, and the board is left unchanged |
| Game.Page.ScoreCandidates | js/game.js:268-280 | the candidate loop reports a timeout exactly when some candidate scores Infinity. Otherwise it returns the first best candidate. The board is left unchanged |
| Game.Page.GetComputerMoveMinimax | js/game.js:263-283 | returns the minimax move, falling back to the heuristic on Infinity, and the board is left unchanged |

## Left out

- Rendering and messages: `renderBoard`, the `result` text, and `getWinner`, which only names the winner in that text.
- Reading the inputs and the slider: the DOM, `parseInt` and the slider event are I/O. `Game.Page.SetDifficulty` takes the level directly.
- Parsing: `isBadInt`'s `Number.isNaN` case is left out, because an unparsable input has no counterpart in Dafny integers.
- Clock and randomness: `Date.now` and `Math.random` are parameters (a clock-reading budget and an oracle index), not the real clock and generator. A `Date.now` that steps backwards is not modelled: a reading could then stop timing out after an earlier one had timed out.
- The `depth` argument of minimax is not modelled: the code passes it but never reads it.
- Game.Page.CellClick: requires the clicked cell to be on the board. The page only produces such clicks.
- Game.Page.CellClick: the second game-over test (`!isGameOver(board)` inside the else branch) is not modelled. It runs on the same board as the test just before it, so it is always false and changes nothing.
- Game.Page.ComputerMove: requires a board that is not full, the only state in which cellClick calls it. The code would fail when destructuring the undefined move on a full board.
- The `ALGORITHMS` map is modelled as the `Difficulty` datatype and a `match`.
- Game.Page.ScoreCandidates: minimax's candidate loop is split in two. `ScoreCandidates` reports a timeout as a flag, and `GetComputerMoveMinimax` then calls the heuristic. The state reached is the same.
- Game.Page.ExpandChildren: it is the child loop of minimax as its own method. The board state it passes through is the same.
- A missing move (`undefined` from the random strategy, `null` from minimax) is `None`.
