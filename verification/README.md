# Tic-tac-toe game logic with a minimax opponent

A Dafny model of the game logic of a browser tic-tac-toe page (`Task-3.js`),
with the DOM calls taken out. The model has three parts:

- **Win/draw evaluation** (`evaluator.dfy`). `checkWinner` scans the fixed
  table of eight winning lines (`board.dfy`) in order. It reports the mark of
  the first complete line. Failing that, it reports a draw when no cell is
  empty, and otherwise says the game is in progress. `checkGameResult` runs
  the same scan.
- **The game state machine** (`game.dfy`). The state is a record with the
  board, the current player and the active flag. Each transition is a pure
  function: the human click (`handleCellClick` with `updateCell`), the
  computer's move (`aiMove`), the result bookkeeping (`checkGameResult`) and
  `resetGame`. A strict-alternation invariant is proved for every sequence
  of clicks and resets.
- **Minimax search** (`search.dfy`). `minimax` searches every line of play.
  O maximizes, X minimizes, and terminal scores are adjusted by depth.
  `getBestMove` chooses the cell with the highest score, and a tie goes to
  the lowest index.

`scenarios.dfy` works through three concrete games: a top-row win, a game
clicked in cell order, and a position where the computer must block.

Modelling decisions:

- The board is a nine-cell sequence `Board`. A cell is `Empty` or
  `Mark(X)`/`Mark(O)`. The game's empty string becomes `Empty`.
- `checkWinner` returns `null`, a mark or `'draw'`. Here it returns the
  `Outcome` values `InProgress`, `Won(p)` and `Draw`.
- The `-Infinity`/`Infinity` starting values of the search loops become
  `None` in an `Option` accumulator.
- The loops of `minimax` and `getBestMove` become left folds (`BestFrom`,
  `ScanBest`). Their accumulators are the loops' variables. `ScanBest`
  replaces its candidate only on a strictly greater score, as the `>` test
  does.
- The source places a tentative mark, recurses, then resets the cell. The
  model passes board values instead, so the caller's board cannot change.
  `UndoRestores` states that resetting the cell gives back the original
  board.
- The computer-opponent checkbox becomes a boolean carried by each click
  event. The source delays the computer's reply with `setTimeout`. The model
  applies the reply immediately, under the same guard: the opponent is
  enabled, the game is active, and it is O's turn.
- The cell index is an `Index` (0..8), not the element's string
  `data-index`.
- `aiMove` writes `O` whoever the current player is. The model does the
  same. Because of this, the alternation invariant needs the line-212 guard
  (`AiMovePreservesInv` requires it).
- A rejected click returns the state unchanged; the code has no error value.
- Clicking cells 0 to 8 in order does not fill the board: X completes 2-4-6
  at cell 6 and the clicks on 7 and 8 are ignored
  (`InOrderClicksEndOnDiagonal`).

## Model

| member | source | states |
|---|---|---|
| Board.Place | Task-3.js:218-220 | writing a mark into an empty cell sets exactly that cell; the other eight are unchanged |
| Board.PlaceCounts | Task-3.js:218-220 | writing a mark into an empty cell leaves one empty cell fewer, one more of that mark, and the other player's count unchanged |
| Board.UndoRestores | Task-3.js:140-142 | resetting a tentatively filled cell to empty gives back the board the search started from |
| Evaluator.FirstCompleteFrom | Task-3.js:190-195 | scanning the line table from line k finds the first complete line at or after k, or finds none exactly when all remaining lines are incomplete |
| Evaluator.FirstCompleteLine | Task-3.js:61-72 | the scan in `checkGameResult` finds a line exactly when some line is complete, and the one it finds is the first complete line in table order |
| Evaluator.CheckWinner | Task-3.js:189-198 | in progress iff no line is complete and some cell is empty; draw iff no line is complete and no cell is empty; otherwise won by the mark on the first complete line of the table |
| Evaluator.FirstCompleteLineUnique | Task-3.js:190-195 | at most one line is the first complete one, so the winner is determined even on boards with several complete lines |
| Evaluator.SwapKeepsLines | Task-3.js:192 | exchanging X and O on the board leaves exactly the same lines complete |
| Evaluator.CheckWinnerSymmetric | Task-3.js:189-198 | exchanging X and O exchanges the winner and leaves draws and unfinished boards unchanged |
| Search.Minimax | Task-3.js:155-186 | an O win scores 10 - depth, an X win -10 + depth, a draw 0; on an unfinished board the score is at least every child's score when O is to move and at most every child's score when X is to move; it lies in [-10 + depth, 10 - depth] when depth plus the empty cells is at most 10 |
| Search.BestFrom | Task-3.js:163-185 | the loop over children returns None only when no empty cell remains and nothing was scored; otherwise the result bounds every visited child's score and the incoming best, from the side of the player to move |
| Search.Combine | Task-3.js:170 | one `Math.max`/`Math.min` step returns either the new score or the best so far, and bounds both from the side of the player to move |
| Search.BestFromAttained | Task-3.js:163-185 | the loop's result is either the starting value or the score of one of the children it visited |
| Search.MinimaxAttained | Task-3.js:163-185 | an unfinished board scores exactly as one of its children does, so with the bounds on Minimax the score is the maximum or the minimum over the children |
| Search.MaxNodeLowerBound | Task-3.js:163-173 | with O to move on an unfinished board at depth d, the score is at least -9 + d |
| Search.RootScore | Task-3.js:139-141 | the score of a tentative O move, searched from depth 0 with X to move, lies in [-10, 10] |
| Search.ScanBest | Task-3.js:138-151 | the `getBestMove` loop returns a scored empty cell whose score is at least every later empty cell's and strictly above every earlier one's; a candidate is replaced only by a strictly greater score; it returns None only if no empty cell is left and nothing was scored |
| Search.BestMove | Task-3.js:134-152 | None iff the board has no empty cell; otherwise an empty cell with maximal score, strictly better than every empty cell before it |
| Search.BestMoveUnique | Task-3.js:144-147 | at most one cell satisfies the best-move property, so the tie-break by strict comparison makes the choice deterministic |
| Search.BestMoveSingleEmpty | Task-3.js:134-152 | with one empty cell left, the best move is that cell |
| Game.CheckGameResult | Task-3.js:56-85 | the board is never changed; a complete line or a full board ends the game and keeps the current player; otherwise the turn passes to the other player and the active flag is kept |
| Game.ClickCell | Task-3.js:201-209 | a click on an occupied cell or in an inactive game changes nothing; an accepted click puts the current player's mark into exactly that cell, leaves the other cells unchanged, ends the game iff the new board is finished, and otherwise passes the turn |
| Game.AiMove | Task-3.js:120-131 | on an inactive game or a full board nothing changes; otherwise O is written into the cell satisfying the best-move property; no other cell changes and no occupied cell is overwritten; then the result bookkeeping follows |
| Game.HandleCellClick | Task-3.js:201-215 | a rejected click changes nothing and does not trigger the computer; an accepted click leaves the player's mark in the cell; no occupied cell is ever overwritten; the computer replies exactly when it is enabled, the game is still active after the human move and O is to move, and then O goes into the best-move cell of the board after the human move with every other cell kept, the game stays active iff the board is still unfinished, X is to move if it goes on and O stays recorded as current if the reply ends it; otherwise the result is the human move alone |
| Game.ResetGame | Task-3.js:102-105 | whatever the prior state, the board is all empty, X is to move, the game is active and in progress, and the invariant holds |
| Game.ClickCellPreservesInv | Task-3.js:204-209 | a human click keeps the invariant: X count minus O count is 0 or 1; while active, X is to move iff the counts are equal; the game is active iff the board is unfinished |
| Game.AiMovePreservesInv | Task-3.js:120-131 | the computer's move keeps the invariant when it is made on O's turn |
| Game.HandleCellClickPreservesInv | Task-3.js:201-215 | a whole click keeps the invariant, with or without the computer's reply, because the reply is guarded by O being current |
| Game.ComputerReplies | Task-3.js:211-214 | with the computer enabled, an accepted X move that leaves the game running is answered at once: one more X and one more O, and X to move again if the game goes on |
| Game.RunPreservesInv | Task-3.js:201-226 | any sequence of clicks and resets keeps the invariant |
| Game.ReachableInv | Task-3.js:7-9 | every state reachable from the initial state satisfies the invariant |
| Scenarios.ClickPasses | Task-3.js:74-84 | without the computer, a click that neither completes a line nor fills the board writes the mark and passes the turn |
| Scenarios.ClickWins | Task-3.js:74-77 | without the computer, a click that completes a line writes the mark and ends the game with the mover still current |
| Scenarios.TopRowWin | Task-3.js:56-85 | clicks 0, 4, 1, 7, 2 end with X winning on the top row, the game inactive and X still recorded as current |
| Scenarios.InOrderClicksEndOnDiagonal | Task-3.js:56-85 | clicking cells 0 to 8 in order ends with X winning on the 2-4-6 diagonal; the clicks on 7 and 8 are ignored |
| Scenarios.NonBlockingMoveLoses | Task-3.js:155-161 | with X on 0 and 1 and O on 4, any O move other than 2 scores at most -9 |
| Scenarios.BlockingMoveHolds | Task-3.js:163-173 | in the same position, blocking at 2 scores at least -8 |
| Scenarios.BlocksTopRow | Task-3.js:134-152 | in the same position, the computer's best move is cell 2 |

## Left out

- DOM work is not modelled: element creation, cell text, the `taken` and
  `winning-cell` classes, highlighting and the message strings. It is UI
  output with no effect on the game state. The winning cells that
  `checkGameResult` keeps exist only to be highlighted, so the model keeps
  only whether a line was found.
- The checkbox read in `isAgainstAI` is not modelled. Its value becomes the
  `aiEnabled` field of each click event.
- The `setTimeout` delay before the computer's reply is not modelled. The
  reply is applied immediately under the same guard. So the event-loop races
  the delay allows are not modelled either: a click or a reset while a reply
  is pending could place O out of turn or on a fresh board.
- The first definitions of `handleCellClick` and `updateCell` (lines 37-53)
  are not modelled. The later definitions replace them before the page
  attaches any listener.
- `initializeBoard` is not modelled. It only rebuilds the page's cells and
  message. The model's initial state is the declared state at lines 7-9.
- Optimality against every continuation is not proved: that the computer
  never loses when a draw is reachable. Stating it needs a separate
  game-value definition. The model proves the minimax recurrence, the bounds
  and the argmax with tie-break, and it proves the optimal reply in one
  concrete position (`BlocksTopRow`).
