# Tic-tac-toe move engine

A model of the move engine of a browser tic-tac-toe game (`minimax.ts`),
with proofs about it. The engine has three parts:

- **Terminal evaluator** (module `Board`, `board.dfy`).
  - `checkWinner`, `getWinningLine` and `isBoardFull` scan a fixed table of
    eight lines over a 9-cell board in a fixed order: rows, then columns,
    then diagonals.
  - `getAvailableMoves` lists the empty cells.
- **Search** (module `Search`, `search.dfy`).
  - `minimax` is a depth-first minimax with alpha-beta pruning.
  - Terminal scores are adjusted by depth.
  - It uses the caller's board array as scratch space: it writes a trial
    symbol into an empty cell, searches one ply deeper and clears the cell
    again.
- **Move policy** (module `Policy`, `policy.dfy`). `findBestMove` does three
  things:
  - it returns `-1` when no cell is free;
  - on Easy and Medium it may return a random free cell;
  - otherwise it keeps the first free cell with the strictly highest search
    score.

The pure scans are Dafny functions. `minimax` and `findBestMove` are methods
over an `array<Cell>` of length 9 with `modifies board`. Each is proved to hand
the array back unchanged. Each also returns exactly what a recursive
specification function computes from the board it was given:
`AlphaBetaValue`, the pruned search, and `ChooseMove`, the policy. What those
results mean is proved of the specification functions:

- exact terminal scores;
- the bounds `[depth - 10, 10 - depth]`;
- the pruned search equals plain minimax (`MinimaxValue`) at the full window,
  by the fail-soft theorem of Knuth and Moore;
- the sentinel rule, the legality of the returned cell, and first-index
  tie-breaking.

Two positions are worked through:

- X X . / O O . / . . . with X to move: X takes cell 2.
- O O . / X X . / . . . with X to move: the engine takes the immediate win
  at cell 5, not the block at cell 2, because only cell 5 scores 10.

## Model

| member | source | states |
|---|---|---|
| Board.Completed | minimax.ts:16 | The line test of both scans: the first cell of the line is non-empty and the other two equal it. This is the definition the winner and winning-line contracts are stated in. |
| Board.WinnerFrom | minimax.ts:15-20 | The scan from table position k is Empty exactly when no line from k on is completed. Otherwise it is the symbol of a completed line from k on that has no completed line before it. |
| Board.CheckWinner | minimax.ts:8-21 | Empty exactly when none of the eight lines holds three equal non-empty cells. Otherwise it is the symbol of the first completed line in table order. |
| Board.WinningLineFrom | minimax.ts:33-39 | None exactly when the winner scan from k finds nothing. Otherwise it is the first completed line from k on, and all three of its cells hold that scan's symbol. |
| Board.GetWinningLine | minimax.ts:26-40 | None exactly when CheckWinner is Empty. Otherwise it is the first completed line in table order, and its three cells all equal CheckWinner. |
| Board.IsBoardFull | minimax.ts:45-47 | True exactly when no cell is empty, that is, when the empty count is 0. |
| Board.AvailableFrom | minimax.ts:102-105 | From cell i on: every entry is an empty cell at or after i, every such cell is listed, and the list is strictly ascending. |
| Board.AvailableFromCount | minimax.ts:102-105 | The list from cell i has as many entries as there are empty cells from i on. |
| Board.GetAvailableMoves | minimax.ts:101-106 | Exactly the indices of the empty cells, strictly ascending (so without duplicates). Its length is the number of empty cells, and it is empty exactly when the board is full. |
| Search.Place | minimax.ts:73 | Writing a symbol into an empty cell leaves one fewer empty cell. This is the measure every recursive call of the search decreases. |
| Search.Terminal | minimax.ts:62-67 | The terminal tests in the source's order: a win for the searching side gives `10 - depth`, then a win for the opponent gives `depth - 10`, then a full board gives 0, and otherwise there is no terminal value. `AlphaBetaValue` is defined through it, so it fixes the value `Minimax` is proved to return at the early returns. |
| Search.AlphaBetaValue | minimax.ts:53-96 | The pruned search as a function of the board: the terminal value, or else the maximizing or minimizing pruned fold from cell 0. It is the definition `Search.Minimax` is proved equal to. Its meaning is given by TerminalScores, AlphaBetaBounds, ExtremeScores and AlphaBetaFailSoft. |
| Search.PrunedMax | minimax.ts:69-81 | The maximizing loop from cell i: an empty cell is scored one ply deeper with the opponent to move, and the running maximum and alpha are raised. The loop stops once `beta <= alpha`. It is the definition `MaximizingPly` is proved equal to. |
| Search.PrunedMin | minimax.ts:82-95 | The minimizing loop from cell i: an empty cell is scored one ply deeper with the searching side to move, and the running minimum and beta are lowered. The loop stops once `beta <= alpha`. It is the definition `MinimizingPly` is proved equal to. |
| Search.Minimax | minimax.ts:53-96 | The in-place search returns the pruned search value of the board it was given, and the array afterwards equals the array before. |
| Search.MaximizingPly | minimax.ts:69-81 | The maximizing loop, with the early `break` on `beta <= alpha`, returns the pruned maximizing fold. Every trial placement is cleared, so the array is unchanged. |
| Search.MinimizingPly | minimax.ts:82-95 | The minimizing loop, with the early `break` on `beta <= alpha`, returns the pruned minimizing fold. Every trial placement is cleared, so the array is unchanged. |
| Search.TerminalScores | minimax.ts:62-67 | A win for the searching side scores `10 - depth`. A win for the opponent (checked second) scores `depth - 10`. A full board without a winner scores 0. These hold for every window and ply. |
| Search.AlphaBetaBounds | minimax.ts:65-94 | For `0 <= depth` and `depth + empty <= 10`, the search value lies in `[depth - 10, 10 - depth]`, so it is never an infinite initialiser. |
| Search.PrunedMaxBounds | minimax.ts:69-81 | Starting from a score within bounds, or from -Infinity with an empty cell still ahead, the maximizing loop ends within the bounds of the next ply. |
| Search.PrunedMinBounds | minimax.ts:82-95 | Starting from a score within bounds, or from +Infinity with an empty cell still ahead, the minimizing loop ends within the bounds of the next ply. |
| Search.ExtremeScores | minimax.ts:62-94 | With a cell to spare, the value is `10 - depth` exactly when the searching side has already won. It is `depth - 10` exactly when the opponent has won. |
| Search.MaxFoldAtLeast | minimax.ts:76 | The running maximum of plain minimax never drops below its start. |
| Search.MinFoldAtMost | minimax.ts:89 | The running minimum of plain minimax never rises above its start. |
| Search.AlphaBetaFailSoft | minimax.ts:69-95 | For every window `alpha < beta`, the pruned value is fail-soft with respect to plain minimax. A value at or below alpha gives a result between the value and alpha. A value strictly inside the window is returned exactly. A value at or above beta gives a result between beta and the value. |
| Search.MaxLoopFailSoft | minimax.ts:71-80 | The maximizing loop, from any cell and any running state, is fail-soft with respect to the plain maximizing fold, including when it stops at a cutoff. |
| Search.MinLoopFailSoft | minimax.ts:84-93 | The minimizing loop, from any cell and any running state, is fail-soft with respect to the plain minimizing fold, including when it stops at a cutoff. |
| Search.MaxStepCutoff | minimax.ts:76-78 | A maximizing step that reaches beta fails high against the whole remaining fold. |
| Search.MaxStepContinue | minimax.ts:76-78 | A maximizing step without a cutoff keeps the loop's running-state invariant. |
| Search.MinStepCutoff | minimax.ts:89-91 | A minimizing step that reaches alpha fails low against the whole remaining fold. |
| Search.MinStepContinue | minimax.ts:89-91 | A minimizing step without a cutoff keeps the loop's running-state invariant. |
| Search.FullWindowAgrees | minimax.ts:138 | With the full window `(-Infinity, +Infinity)`, the window `findBestMove` uses, the pruned search returns exactly the plain minimax value. |
| Search.MinimaxBounds | minimax.ts:65-94 | Plain minimax obeys the same `[depth - 10, 10 - depth]` bounds. |
| Policy.MoveScore | minimax.ts:137-139 | A free cell's score: the searching side's symbol placed there, searched at depth 0 with the opponent to move and the full window. It is the definition `ScoreMove` is proved equal to. Its meaning is given by MoveScoreMeaning. |
| Policy.ScanBest | minimax.ts:136-145 | The scan over the available moves from position k: the running best is replaced only on a strictly higher score. It is the definition `SearchBestMove`'s loop invariant is stated in. Its meaning is given by ScanBestIsUpperBound and ScanBestFindsFirstMaximum. |
| Policy.SearchMove | minimax.ts:133-147 | The search branch's result: the scan from -Infinity and the first available move. It is the definition `SearchBestMove` is proved equal to. Its meaning is given by SearchMoveIsFirstBest. |
| Policy.TakeRandom | minimax.ts:123-128 | The random gate: the draw is below 0.7 on Easy (0), or below 0.4 on Medium (1), and the gate is never taken otherwise. It is the definition `FindBestMove`'s branch tests are proved against. |
| Policy.ChooseMove | minimax.ts:112-148 | The whole policy as a function of the board and the two draws: `-1` when no move is available, the random pick when the gate is taken, and otherwise the search branch's result. It is the definition `FindBestMove` is proved equal to. Its meaning is given by ChooseMoveLegal, RandomMoveIsAvailable, DeterministicWhenNotRandom and SearchMoveIsFirstBest. |
| Policy.RandomIndex | minimax.ts:124 | `floor(draw * n)` for a draw in `[0, 1)` is a valid position in a list of length n. |
| Policy.FindBestMove | minimax.ts:112-148 | Returns the policy's choice for the board it was given, and hands the array back unchanged. It returns `-1` exactly when the board is full, and otherwise a free cell in `[0, 8]`. |
| Policy.ScoreMove | minimax.ts:137-139 | One trial: the search score of the free cell m, with the array unchanged afterwards. |
| Policy.SearchBestMove | minimax.ts:133-147 | The search branch returns the scan's choice over the available moves, and the array is unchanged afterwards. |
| Policy.MoveScoreMeaning | minimax.ts:138 | A move's search score is the plain minimax value of the position it leads to, and lies in `[-10, 10]`. It is 10 exactly when the move wins on the spot. |
| Policy.ScanBestIsUpperBound | minimax.ts:136-145 | The scan ends at or above its starting score, and at or above the score of every move it visits. |
| Policy.ScanBestFindsFirstMaximum | minimax.ts:141-144 | The scan either keeps its start, or ends on a visited move. That move scores strictly above the start, and strictly above every visited move with a smaller index. |
| Policy.SearchMoveIsFirstBest | minimax.ts:133-147 | The search branch returns a free cell whose score is maximal among all free cells. Every free cell with a smaller index scores strictly less. |
| Policy.ChooseMoveLegal | minimax.ts:118-147 | The policy returns `-1` exactly when the board is full. Otherwise it returns a free cell, on the random branch and on the search branch alike. |
| Policy.RandomMoveIsAvailable | minimax.ts:123-130 | On the random branch the move is an entry of the available moves. |
| Policy.LastDrawPicksLast | minimax.ts:124 | The draw `(n - 1) / n` lies in `[0, 1)` and picks position `n - 1`. |
| Policy.RandomBranchVaries | minimax.ts:123-129 | On the random branch with two or more free cells, two draws pick different cells. |
| Policy.DeterministicWhenNotRandom | minimax.ts:132-147 | When the random gate is not taken (always on Unbeatable), the move does not depend on the draws and is the search branch's choice. |
| Policy.SearchTakesFirstWin | minimax.ts:133-147 | When some free cell wins on the spot, the search branch returns the first such cell in ascending order. |
| Policy.NoLineAfterBlock | minimax.ts:15-20 | O O X / X X . / . . . has no completed line. |
| Policy.MiddleRowWins | minimax.ts:15-20 | O O . / X X X / . . . is won by X. |
| Policy.TakesImmediateWin | minimax.ts:112-147 | X X . / O O . / . . . with X to move on Unbeatable returns cell 2. |
| Policy.PrefersWinOverBlock | minimax.ts:112-147 | O O . / X X . / . . . with X to move on Unbeatable returns cell 5, the immediate win, rather than the block at 2. |

## Left out

- `Math.random` is not modelled as a random source. Its two draws become the parameters `gateDraw` and `pickDraw`. No probabilities are modelled. The thresholds 0.7 and 0.4 and the `floor(draw * n)` pick are kept as written.
- `-Infinity` and `+Infinity` are the integers -1000 and 1000. For the depths 0 to 9 that `findBestMove` reaches, these lie strictly outside every score the search can return. At depths far outside that range a finite stand-in can differ from the source's infinities. `minimax` is private, and its only caller starts it at depth 0.
- Search.Minimax: its `ensures` ties the score to `AlphaBetaValue`. The terminal scores, the bounds and full-window agreement are lemmas about that function, not further `ensures` on the method.
- The symbol type is `Player`, so the null symbol is excluded. The source's symbol type admits `null`, but no caller passes it.
- The model always has a 9-cell board. The source's `Board` type is an array of any length, but every board the game builds has nine cells.
- The default value `difficulty = 2` of `findBestMove` is not modelled. Callers pass the difficulty explicitly.
- Floating-point arithmetic is not modelled. Scores are small integers, so JavaScript numbers hold them exactly.
- The empty-board reply (the engine answers in a corner or the centre) is not proved. Neither is the claim that two engines playing each other always draw. Both need the value of the whole game tree from the empty board, which is beyond what the verifier can evaluate symbolically.
- Aliasing between the board array and other state is not modelled. Only the engine's own board argument is modelled.
- The React components, timers, toasts, score counters and Web Audio code are not part of this model. They only consume the engine's results.
