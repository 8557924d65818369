# Tic-tac-toe rules engine and minimax opponent

This project models the browser tic-tac-toe game in `script.js` in Dafny. Rendering is left out. Two parts are modelled:

- **The rules engine.** It covers the 3×3 board of `""`, `"X"` and `"O"` cells and the eight winning lines. It has two win checks: `checkWinner` asks whether any mark has won, and `checkWin` asks whether a given mark has won. It enumerates the empty cells in ascending index order. The click handler rejects a click, or places the current mark, detects a win or a draw, and passes the turn.
- **The computer opponent.** On the easy and medium levels it picks a random empty cell. On the hard level it runs an exhaustive minimax search with no pruning. "O" always maximises and "X" always minimises. Terminal boards score −10 (X has a line, checked first), +10 (O has a line) or 0 (full board). Ties go to the earliest cell because the comparisons are strict.

Modules, one per component:

- `Board` (`board.dfy`) holds cells, lines, `checkWin`, `checkWinner` and the empty-cell enumeration. Their reference meanings are the ghost predicates `HasLine`, `Decided` and `ListsEmptyCells`.
- `Game` (`game.dfy`) holds the game state and the click handler, `HandleCellClick`. It also defines a run of many clicks and the invariants of such runs.
- `Search` (`search.dfy`) holds minimax as a pure recursive function. Its termination measure is the number of empty cells.
- `InPlace` (`inplace.dfy`) runs the same search the way `minimax` in script.js does. It places and undoes marks on one shared array. It is proved to equal `Search.Minimax` and to leave the array exactly as it found it.
- `Opponent` (`opponent.dfy`) holds the random pick, the dispatch on difficulty, and a human click followed by the opponent's reply.
- `Wrappers` (`wrappers.dfy`) holds an `Option` type. `None` stands for `undefined` in script.js.

Modelling decisions:

- **Out-of-range clicks.** An index outside 0..8 reads an `undefined` cell. That is not `""`, so the handler ignores the click. A missing index is handled the same way. This covers the random pick on a full board and the search on a terminal board. It also covers non-integer indices. `resetGame` registers `handleCellClick` itself as the board's click listener (script.js:89), so a click on a cell also calls the handler with the click event as `index`. `gameState[event]` is `undefined`, so the guard at script.js:37 ignores that call. The model stands for such a value by an integer outside 0..8, which its handler rejects in the same way. The handler is a single function object, so repeated resets leave that board listener registered once.
- **Infinite sentinels.** The `-Infinity`/`Infinity` starting scores of the selection loops become `None`, a state that every score beats. This matches script.js for every integer score.
- **Recording the best move.** The selection loop records the best candidate's position. The result is then looked up by cell, as `moves.find` does. `FindAscending` proves this lookup returns that same candidate, because cells are listed once each in ascending order.
- **Scoping defect in `checkWin`.** `checkWin` (script.js:156-164) is a top-level function. It reads `winningConditions`, but that name is declared inside the `DOMContentLoaded` closure (script.js:11). As written, the first call on the hard level throws a `ReferenceError`, so the hard opponent never moves. The model's `CheckWin` scans the same eight lines, which is what the search evidently intends. The comment on `Board.CheckWin` records this.
- **Behaviour of the code the model keeps:**
  - The code has no separate "game over" flag. A full board is rejected because no cell is empty.
  - After a win or a draw the current player is not switched.
  - When the opponent has no move, the code raises no error. The click is simply ignored.

## Model

| member | source | states |
|---|---|---|
| Board.CheckWinFrom | script.js:156-164 | scanning lines `i..` finds a win for `p` iff one of those lines has all three cells equal to `p` |
| Board.CheckWin | script.js:156-164 | `checkWin(b, p)` holds iff some of the eight lines of script.js:11-20 is entirely `p` |
| Board.CheckWinnerFrom | script.js:69-77 | scanning lines `i..` finds a winner iff one of those lines has three equal non-empty cells |
| Board.CompleteLineIsOwned | script.js:69-77 | some line has three equal non-empty cells exactly when "X" or "O" owns a whole line |
| Board.CheckWinner | script.js:69-77 | `checkWinner` holds iff some mark owns one of the eight lines |
| Board.CheckWinnerIsEitherWin | script.js:69-77 | `checkWinner` holds iff `checkWin(b,"X") || checkWin(b,"O")`, i.e. iff some mark owns a line |
| Board.PlacingKeepsOtherLines | script.js:38 | putting `p` on an empty cell neither creates nor removes a line of any other mark |
| Board.OnlyMoverCanWin | script.js:38-41 | on an undecided board, after a move the board is decided iff the mover has a line, and the other mark has none |
| Board.EmptyFrom | script.js:64 | the enumeration from `i` lists exactly the empty cells at or after `i`, each once, strictly ascending |
| Board.EmptyCells | script.js:104 | the enumeration lists exactly the empty cells, strictly ascending |
| Board.EmptyFromCount | script.js:64 | the enumeration from `i` has as many entries as there are empty cells in `b[i..]` |
| Board.EmptyCellsCount | script.js:104 | number of empty cells listed plus number of marked cells is 9 |
| Board.FullIffNoEmptyCells | script.js:42 | `!gameState.includes("")` holds exactly when the empty-cell list is empty (script.js:110) |
| Board.SoleEmptyCell | script.js:104 | a board with one empty cell enumerates exactly that cell |
| Game.NewGame | script.js:84-86 | a new game has nine empty cells and "X" to move |
| Game.HandleCellClick | script.js:36-50 | rejected iff the index is off the board, the cell is occupied or someone has won, and then nothing changes; otherwise only the target cell changes, to the current mark; Won iff the new board has a line; Drawn iff no line and no empty cell; the player flips only when the game continues |
| Game.WinnerIsMover | script.js:40-41 | when a click wins, the winning line is the current player's, and the other mark has none |
| Game.ClickKeepsSingleWinner | script.js:36-45 | a click never gives both marks a line when they did not both have one before |
| Game.NeverTwoWinners | script.js:36-50 | along any sequence of clicks, the board never has lines for both marks |
| Game.FinishedGameIsFrozen | script.js:37 | once a game is won or the board is full, every further click is ignored |
| Game.TopRowScenario | script.js:36-41 | X completing the top row on cell 2 wins, with a line for X |
| Game.DrawScenario | script.js:36-43 | filling the last cell without a line draws, and X keeps the turn |
| Search.Select | script.js:133-150 | the selection picks a candidate that no other candidate beats for the mover (max for "O", min for "X"), and every earlier candidate is strictly worse |
| Search.Find | script.js:152 | `find` returns the first listed candidate with the requested cell (no earlier candidate has it), or nothing when no candidate has that cell |
| Search.FindAscending | script.js:152 | with candidates listed by strictly ascending cell, looking up the `k`-th candidate's cell returns that candidate |
| Search.Minimax | script.js:103-153 | every score is −10, 0 or 10; an X line scores −10 (also when O has one too); otherwise an O line scores +10; a full undecided board scores 0; a board still in play yields an empty cell |
| Search.Candidates | script.js:114-131 | one candidate per empty cell, in enumeration order, each with a score in {−10, 0, 10} |
| Search.CandidatesScores | script.js:116-130 | each candidate's score is the search's score after placing the mover's mark on that cell with the other mark to move |
| Search.MinimaxIsSelected | script.js:133-152 | on a board in play, the result is the candidate the selection picks, carrying the cell at the same position of the empty-cell enumeration and that candidate's score |
| Search.MinimaxSelects | script.js:133-152 | on a board in play, the returned cell is empty, its score is that cell's child score, no empty cell beats it for the mover, and every empty cell of lower index is strictly worse |
| Search.SoleCellIsChosen | script.js:103-153 | with one empty cell and no winner, the search returns that cell |
| Search.ImmediateWinForO | script.js:106-127 | if "O" can complete a line in one move, its search scores the board +10 |
| Search.ImmediateWinForX | script.js:106-127 | if "X" can complete a line in one move, its search scores the board −10 |
| InPlace.EmptyCellsOf | script.js:104 | the left-to-right pass over the array yields the same ascending empty-cell list as the pure enumeration |
| InPlace.SelectInPlace | script.js:133-150 | the strict-comparison loops with an infinite starting score return the cell of the selected best candidate, and return nothing only for an empty candidate list |
| InPlace.CandidatesInPlace | script.js:114-131 | the place/search/undo loop leaves the array as it was and yields the same candidates as the pure model |
| InPlace.MinimaxInPlace | script.js:103-153 | the in-place search leaves the board exactly as it found it and returns the pure search's result |
| Opponent.RandomCell | script.js:63-66 | the pick is defined iff `k` is below the number of empty cells, and then it is an empty cell; past the end of the list it is undefined |
| Opponent.RandomCellCovers | script.js:63-66 | every empty cell is the pick for some random index below the number of empty cells |
| Opponent.RandomCellInjective | script.js:63-66 | two different random indices in range pick two different cells, so the in-range indices and the empty cells correspond one to one |
| Opponent.AIChoice | script.js:52-61 | easy and medium both make the random pick; any cell picked is empty; on a board still in play, the hard level always picks a cell, and so do easy and medium when the random index is below the number of empty cells |
| Opponent.HardPlaysBestCell | script.js:57-59 | on a board still in play the hard level picks an empty cell that no empty cell beats for the mover under the search's scores, and every empty cell of lower index is strictly worse |
| Opponent.MakeAIMove | script.js:52-67 | an accepted move is exactly the click handler applied to the chosen cell; an ignored move changes nothing; on a terminal board the move is always ignored; on a board in play with the random index in range, the move is accepted and changes exactly the chosen cell, which was empty, to the current mark |
| Opponent.Turn | script.js:36-48 | a rejected, winning or drawing click triggers no reply; when "O" clicks no reply follows; after "X"'s click continues the game, with the random index in range, the opponent's move lands on an empty cell and puts an "O" there and changes nothing else, and the turn ends exactly as the click handler ends that move: an "O" line wins with "O" kept, a full board draws, otherwise "X" moves next |
| Opponent.TurnReturnsToX | script.js:44-48 | after X's click and the opponent's reply, X is to move again unless the game ended, provided the random index is in range for the board the reply sees whenever a reply follows |
| Opponent.SoleCellAtEveryLevel | script.js:52-66 | with one empty cell and no winner, every difficulty plays that cell |

## Left out

- Rendering, the status text, `showResult`, and the DOM listeners on the buttons and the difficulty select (script.js:1-7, 24-34, 79-98). These are presentation, not game logic.
- The 500 ms `setTimeout` before the opponent moves (script.js:47). `Opponent.Turn` plays the reply at once. Anything that can happen during the delay is not modelled. A click in that window would place an "O". A reset during the delay does not cancel the pending move.
- `Math.random` (script.js:65). The random choice is the parameter `k`, which may be any natural number. The script's `floor(random * length)` is always below the length when the list is non-empty. Where a property needs that bound, it is stated as a condition (`Opponent.PickInRange`). An index past the end reads `undefined`, exactly as a JavaScript array read does.
- A difficulty value other than easy, medium or hard. In script.js such a value makes no move. The model's `Difficulty` type has only the three levels.
- Cell values other than `""`, `"X"` and `"O"`. The page never stores any other value in a cell.
- The search is not proved to compute game-theoretic optimal play beyond what its own definition gives. Two things are not proved: that it never misses a forced draw, and that the empty board scores 0. Proving these would mean evaluating the whole game tree inside the verifier.
