# Tic-tac-toe game logic in Dafny

This project models the game logic of a browser tic-tac-toe game (`script.js`). You can play it against another person or against the computer. The computer player ("O") chooses its move with a depth-limited minimax search. It does not always play the top-scoring move. It picks at random among the moves whose score is within 2 of the best. With probability 1 − difficulty it plays a random legal move instead.

The model has three modules, each with its own file:

- `Boards` (`boards.dfy`) is the 3x3 board: nine cells in row-major order, each `Empty` or `Mark(X)`/`Mark(O)`. It holds the eight winning triples in their scan order (rows, columns, diagonals) and the board queries: `CheckWinner`, `CheckWin`, `IsBoardFull` (which is also `checkDraw`) and the list of empty cells that `makeRandomMove` builds.
- `Engine` (`engine.dfy`) is the move engine.
  - `Minimax` and `FindBestMove` are methods. They work in place on the board array, as the source does: mark a cell, recurse, clear it again.
  - Each one is proved to hand the board back unchanged. Each one is proved to compute a specification function: `MinimaxValue` for the search, `SelectMove` for the move choice.
  - The lemmas next to those functions state what they mean. A node's value is the maximum or minimum over its children. Scores stay in [−(10 − depth), 10 − depth]. The chosen cell is empty and scores within 2 of the best. `bestMove` is the lowest cell that reaches the best score. The fallback is reached only on a full board. Every good move, and every empty cell for the random move, is chosen by some draw. On the empty board the depth cap keeps X below three marks, so no first move of O scores below 0. Within the cap neither side reaches three marks from the empty board, so the search from it scores 0.
  - Two worked positions show the tolerance band at work. On `O O _ / X X _ / _ _ _` the winning cell is always taken. On `X X _ / O O _ / _ _ _` the computer may block at cell 2 instead of winning at cell 5.
- `Game` (`game.dfy`) is the session. The class `GameState` has the fields of the `gameState` record, and `Session` is that record as a value. The constructor establishes `InitialSession`. `InitGame`, `SetGameMode` and `RestartGame` carry out `Start`, `EndGame` carries out `Finish`, and `HandleCellClick`, `MakeRandomMove` and `MakeAIMove` carry out `Click`, `RandomMove` and `AIMove`. `MakeMove` is the single cell write that `Click` contains. The lemmas about these transitions cover three things:
  - what a click does;
  - the invariant of alternating play that every transition keeps;
  - why the player whose tally goes up is the player who completed the line.

Inputs that the source takes from its environment are parameters here:

- Each call to `Math.random()` is a real parameter `r` with `0 <= r < 1`. `Math.floor(Math.random() * n)` becomes `Pick(r, n)`.
- The difficulty (`aiDifficulty = 0.7`) is a `real`.
- `setTimeout(makeAIMove, 500)` becomes the result `aiScheduled` of `HandleCellClick`. A caller runs `MakeAIMove` later with its own draws.
- The `-Infinity`/`Infinity` starting values of the search are the sentinels `NegInf = -1000` and `PosInf = 1000`. `MinimaxBounds` proves that they never come out of the search. It also proves that every real score beats `-1000`, so this choice changes no comparison.
- `cells[bestMove]` with `bestMove == null` makes `handleCellClick` look up the index of a missing cell. That index is −1, and the click is then ignored because `board[-1]` is not `''`. `AIMove` models this as `Click(s, -1)`, which `Click` ignores.

The model keeps these behaviours of the code as written:

- `findBestMove` on a full board returns `null`, not an error.
- `findBestMove` on a board that is already won runs the search anyway.
- The difficulty is a field, fixed at 0.7 by the record's initialiser.
- A click that arrives while the computer's reply is pending is accepted. It places the current player's mark (O), exactly as the code does. The invariant `Consistent` still holds in that case.

## Model

| member | source | states |
|---|---|---|
| `Boards.EmptyBoard` | script.js:43 | the board a game starts from has every cell empty |
| `Boards.WinnerFrom` | script.js:195-205 | definition of the checkWinner scan from line `k` on; its meaning is `Boards.WinnerFromSpec` |
| `Boards.CheckWinner` | script.js:194-206 | definition of checkWinner; `Boards.CheckWinnerIsFirstCompleteLine` states what it returns |
| `Boards.CheckWin` | script.js:209-225 | definition of checkWin without the highlighting; `Boards.CheckWinnerNoneIffNoLine` relates it to checkWinner |
| `Boards.IsBoardFull` | script.js:189-191 | definition of isBoardFull and checkDraw (script.js:228-230); `Boards.FullIffNoEmptyCells` relates it to the empty-cell list |
| `Boards.EmptyCells` | script.js:105-107 | definition of makeRandomMove's empty-cell list; its contract is that of `Boards.EmptyCellsFrom` |
| `Boards.WinnerFromSpec` | script.js:195-205 | scanning lines from `k`, the result is null iff no line from `k` on is complete; otherwise it is the player owning a line before which, from `k` on, no line is complete |
| `Boards.CheckWinnerIsFirstCompleteLine` | script.js:194-205 | checkWinner returns `p` iff some winning triple has all three cells `p` and no earlier triple in row/column/diagonal order is complete |
| `Boards.CheckWinnerNoneIffNoLine` | script.js:209-225 | checkWin (without highlighting) holds iff checkWinner is not null |
| `Boards.EmptyCellsFrom` | script.js:105-107 | the empty-cell list holds exactly the indices of the empty cells, in ascending order, each below 9 |
| `Boards.FullIffNoEmptyCells` | script.js:189-191 | isBoardFull (and checkDraw, script.js:228-230) holds iff the empty-cell list is empty |
| `Boards.OnlyMoverCanWin` | script.js:64-66 | marking an empty cell of a board with no complete line completes a line only for the player who moved, so checkWin then means checkWinner is that player |
| `Boards.OwnedLineHasThreeMarks` | script.js:196-205 | a winning triple owned by `p` puts at least three `p` marks on the board |
| `Boards.FewMarksCannotWin` | script.js:194-206 | checkWinner never returns a player with at most two marks on the board |
| `Boards.CountAfterPlace` | script.js:86 | placing `p` on an empty cell adds one `p` mark and leaves the other player's count alone |
| `Engine.MinimaxValue` | script.js:154-186 | definition of minimax's score; `Engine.Minimax` computes it and `Engine.MinimaxIsBestChild`, `Engine.MinimaxBounds` and `Engine.MinimaxScoresFirstWinner` state what it means |
| `Engine.ChildValue` | script.js:166-181 | definition of the score of one recursive call; bounded by `Engine.ChildValueBound` |
| `Engine.BestChild` | script.js:163-185 | definition of a node's loop over the cells; `Engine.BestChildIsExtremum` states that it is the maximum or minimum over the children |
| `Engine.BestChildIsExtremum` | script.js:164-184 | the node loop returns its start value or some empty child's value, is at least (max) or at most (min) every empty child's value, and never falls behind its start value |
| `Engine.MinimaxBounds` | script.js:154-186 | every minimax score at depth `d <= 10` lies in [−(10 − d), 10 − d], so the ±Infinity start values never escape |
| `Engine.OpenValueBound` | script.js:163-185 | a node that nobody has won, with a free cell and depth left, scores within [−(9 − d), 9 − d], because its value comes from a child one level deeper |
| `Engine.ChildValueBound` | script.js:166-181 | the score of the recursive call on a child of a node at depth `d` lies within [−(9 − d), 9 − d] |
| `Engine.BestChildWithin` | script.js:164-184 | if there is an empty cell and every child scores within a band inside the sentinels, the node loop's result lies in that band |
| `Engine.MinimaxIsBestChild` | script.js:163-185 | in an open position a maximizing node returns the maximum over the empty cells with O placed and depth+1, a minimizing node the minimum with X placed, and the value is some child's value |
| `Engine.MinimaxScoresFirstWinner` | script.js:156-157 | when the first complete line in scan order is O's the score is 10 − depth, when it is X's it is depth − 10 |
| `Engine.Minimax` | script.js:154-186 | the board is handed back exactly as received, and the score is MinimaxValue of that board, depth and side |
| `Engine.MoveScore` | script.js:125-127 | definition of the score findBestMove gives a cell; bounded by `Engine.MoveScoreBounds`, and 10 exactly on a win by `Engine.MoveScoreTenIffWin` |
| `Engine.Candidates` | script.js:123-131 | availableMoves holds exactly the empty cells below `n`, each with its minimax score after O is placed, in ascending index order |
| `Engine.BestOf` | script.js:118-135 | definition of bestScore and bestMove after the loop; `Engine.BestOfIsFirstMaximum` states what they are |
| `Engine.GoodMoves` | script.js:140-142 | goodMoves holds exactly the candidates whose score lies in the closed band [best − 2, best + 2], and is no longer than the candidate list |
| `Engine.GoodMovesAscending` | script.js:140-142 | the filter keeps the candidates' order: over ascending candidates goodMoves is strictly ascending, so each good move appears once and in order |
| `Engine.Pick` | script.js:146 | Math.floor(r · n) for 0 ≤ r < 1 is a valid index below n |
| `Engine.PickInterval` | script.js:146 | the draw `r` picks index `k` exactly when k/n ≤ r < (k+1)/n |
| `Engine.PickAtSliceStart` | script.js:146 | the draw k/n lies in [0, 1) and picks index `k`, so every index below `n` can be picked |
| `Engine.SelectMove` | script.js:117-151 | definition of findBestMove's result for a draw; `Engine.FindBestMove` computes it and `Engine.SelectMoveIsNearOptimal` states what it means |
| `Engine.RandomChoice` | script.js:104-113 | definition of makeRandomMove's cell for a draw; `Engine.RandomChoiceIsEmptyCell` states what it means |
| `Engine.MoveScoreBounds` | script.js:125-127 | every score findBestMove computes lies in [−10, 10] |
| `Engine.MoveScoreTenIffWin` | script.js:126 | a cell scores 10 iff placing O there wins at once |
| `Engine.BestOfIsFirstMaximum` | script.js:132-135 | with strict `>`, bestScore is the maximum candidate score and bestMove the first candidate reaching it; with no candidates they stay −Infinity and null |
| `Engine.BestOfAscending` | script.js:132-135 | over ascending candidates the recorded best is a candidate, has the maximum score, and no lower index reaches that score |
| `Engine.CandidateScoresBounded` | script.js:130 | every stored candidate score lies in [−10, 10] |
| `Engine.BestMoveIsLowestMaximum` | script.js:119-137 | on a board with an empty cell, bestScore is the maximum score over the empty cells and bestMove is the lowest empty cell reaching it |
| `Engine.GoodMovesHoldBest` | script.js:140-150 | goodMoves is empty iff the board is full, so the bestMove fallback is reached only with no empty cell |
| `Engine.SelectMoveIsNearOptimal` | script.js:117-151 | findBestMove returns null iff the board is full; otherwise an empty cell whose score is at least the best empty cell's score minus 2 |
| `Engine.ImmediateWinIsBest` | script.js:123-137 | when O can win at once, bestScore is 10 and bestMove is the lowest winning cell |
| `Engine.ClearBestIsChosen` | script.js:139-147 | an empty cell that scores more than 2 above every other empty cell is the only good move, so it is returned for every draw |
| `Engine.DrawSelectsGoodMove` | script.js:145-147 | the draw k / (number of good moves) makes findBestMove return the k-th good move, so every good move can be returned |
| `Engine.SelectMoveSlice` | script.js:140-147 | findBestMove returns the x-th good move exactly for the draws in [x/n, (x+1)/n), n the number of good moves: each good move owns one slice of width 1/n |
| `Engine.DrawSelectsEmptyCell` | script.js:108-112 | the draw k / (number of empty cells) makes makeRandomMove play the k-th empty cell |
| `Engine.EveryEmptyCellIsReachable` | script.js:104-113 | every empty cell is makeRandomMove's choice for some draw in [0, 1) |
| `Engine.NoWinBound` | script.js:156-161 | a position that O has not won scores at most 9 − depth |
| `Engine.CannotWinBound` | script.js:154-186 | if a player cannot reach three marks before the depth cap of 4, the score is at least 0 (that player is X) or at most 0 (that player is O) |
| `Engine.ChildCannotWinBound` | script.js:166-181 | the same bound for one recursive call: marking a cell uses one of the mover's remaining marks |
| `Engine.EmptyBoardScoresZero` | script.js:154-186 | on the empty board, with O to move at depth 0, minimax scores 0 |
| `Engine.EmptyBoardMovesScoreNonNegative` | script.js:123-127 | on the empty board no cell scores below 0 for findBestMove, because X places at most two marks within the cap |
| `Engine.WinAtTwoOthersLow` | script.js:123-127 | on `O O _ / X X _ / _ _ _` every empty cell except 2 scores at most 7 for O |
| `Engine.BlockingFiveScoresLow` | script.js:154-186 | on that board, O at 5 scores at most 7: X blocks at 2 and O has no immediate win left |
| `Engine.TakesTheWinAtTwo` | script.js:117-151 | on that board findBestMove returns cell 2, the winning cell, whatever the draw |
| `Engine.BlockAtTwoScoresEight` | script.js:154-186 | on `X X _ / O O _ / _ _ _` blocking at 2 scores 8: every reply of X leaves O a win at depth 2 |
| `Engine.BandAdmitsBlockOverWin` | script.js:139-147 | on that board O can win at 5, yet with draw 0 findBestMove plays the block at 2, because 8 lies within 2 of the best score 10 |
| `Engine.RandomChoiceIsEmptyCell` | script.js:104-113 | makeRandomMove's choice is an empty cell in 0..8 whenever one exists, and nothing on a full board |
| `Engine.FindBestMove` | script.js:117-151 | the board is returned exactly as received; the result is SelectMove of that board, null iff the board is full, and otherwise an empty cell |
| `Game.InitialSession` | script.js:2-13 | definition of the record's initial value; `Game.GameState.constructor` establishes it |
| `Game.Start` | script.js:38-47 | definition of initGame on the record; `Game.StartIsConsistent` states that it establishes the invariant |
| `Game.Finish` | script.js:233-247 | definition of endGame on the record; `Game.ClickCountsFinishedGames` states its effect on the tallies |
| `Game.Click` | script.js:50-82 | definition of handleCellClick on the record; `Game.ClickOutcome`, `Game.ClickKeepsConsistent` and `Game.ClickCreditsWinner` state what it does |
| `Game.RandomMove` | script.js:104-114 | definition of makeRandomMove on the record; `Game.AIMovePlaysEmptyCell` and `Engine.RandomChoiceIsEmptyCell` state what it plays |
| `Game.AIMove` | script.js:92-101 | definition of makeAIMove on the record; `Game.AIMovePlaysEmptyCell`, `Game.AIMoveKeepsConsistent` and `Game.FullDifficultyAlwaysSearches` state what it does |
| `Game.Credit` | script.js:242 | `scores[p]++` adds one to `p`'s tally and nothing else |
| `Game.StartIsConsistent` | script.js:38-47 | initGame establishes the alternating-play invariant |
| `Game.ClickOutcome` | script.js:50-82 | a click on an occupied or missing cell, or after the game ended, changes nothing; otherwise the current mark goes into exactly that cell, and the game ends on a win (current player credited), or on a full board (draw counted), or the turn passes, with the reply scheduled iff single-player and O is next |
| `Game.ClickKeepsConsistent` | script.js:54-75 | every click keeps the invariant: while the game runs nobody has won, a cell is free, and X leads O by one mark exactly when O is to move |
| `Game.ClickCreditsWinner` | script.js:64-66 | under the invariant, a click that ends the game on a win makes the clicking player checkWinner's winner, so endGame credits the winner |
| `Game.ClickCountsFinishedGames` | script.js:233-244 | the tallies grow by exactly one on the click that ends a running game and stay the same otherwise |
| `Game.AIMovePlaysEmptyCell` | script.js:92-114 | on a running game with a free cell the computer's move, random or searched, is a click on an empty cell |
| `Game.AIMoveKeepsConsistent` | script.js:92-101 | the computer's move keeps the invariant |
| `Game.FullDifficultyAlwaysSearches` | script.js:92-101 | with difficulty at least 1 the random branch is never taken: with a free cell the search move is played, and on a full board the missing move is an ignored click that changes nothing |
| `Game.GameState.constructor` | script.js:2-13 | the record starts with an empty board, X to move, no mode, the game inactive, zero tallies and difficulty 0.7 |
| `Game.GameState.InitGame` | script.js:38-47 | a new empty board array, X to move, the game active; mode, tallies and difficulty unchanged |
| `Game.GameState.SetGameMode` | script.js:272-278 | records the mode, then starts a game |
| `Game.GameState.RestartGame` | script.js:262-269 | starts a new game in the same mode |
| `Game.GameState.MakeMove` | script.js:85-89 | writes the current player's mark to exactly that cell |
| `Game.GameState.EndGame` | script.js:233-247 | clears gameActive and adds one to the draw tally or to the current player's tally |
| `Game.GameState.HandleCellClick` | script.js:50-82 | performs Click on the record, in place on the same board array |
| `Game.GameState.MakeRandomMove` | script.js:104-114 | performs RandomMove: clicks the empty cell that the draw selects, or does nothing on a full board |
| `Game.GameState.MakeAIMove` | script.js:92-101 | performs AIMove: a random move when the first draw exceeds the difficulty, otherwise a click on findBestMove's cell |

## Left out

- Page handling is not modelled because it is presentation only. This covers element lookups, CSS classes and text, `updateStatus`, `updateScoreboard`, the show/hide in `setGameMode` and `restartGame`, and the event-listener wiring (script.js:15-23, 39-42, 46, 76, 87-88, 237, 241, 246, 249-259, 263-267, 273-276, 280-283).
- The winning-cell highlighting inside `checkWin` (script.js:218-220) is left out. `CheckWin` is only the test that some line is complete.
- Sound playback (script.js:25-28, 57-58, 239, 243) is I/O.
- The 500 ms delay of `setTimeout(makeAIMove, 500)` (script.js:80) is scheduling. `aiScheduled` records that the call was set up. When the call runs, and anything the user does before it runs, is up to the caller.
- `Math.random()` is not modelled. Each draw is a real parameter in [0, 1), and no distribution over draws is stated. So no lemma states that a choice is uniform. The lemmas state which choice each draw gives: index `k` of `n` is picked by exactly the draws in [k/n, (k+1)/n), a slice of width 1/n. They also state that every choice is legal.
- Floating point is not modelled. `aiDifficulty` and the draws are mathematical reals, and `Math.floor(r * n)` is computed exactly. For n ≤ 9 the floating-point product cannot round up to n, so the index stays below n. At a few draws on a slice boundary rounding moves the draw into the neighbouring slice (for example just under 5/6 with n = 6), so the draw that selects a given index can differ slightly. Which indices can be selected does not change.
- The `{ once: true }` option on the click listeners (script.js:40) is not modelled. It stops a cell's listener after its first click. The model instead ignores every later click on an occupied cell, as `handleCellClick`'s own guard does.
