# Tic-tac-toe with an exhaustive evaluator, modelled in Dafny

This project models the game logic of a terminal tic-tac-toe program
(`src/main.rs`). It has three parts.

- The **board** (`board.dfy`, module `Board`). This is the 3×3 grid of optional
  marks plus the player to move, as a value. It covers:
  - the line scan `winner`: rows, then columns, then diagonals; a full board
    with no line is a tie, otherwise the game is undecided;
  - the emptiness query `can_move`;
  - the write `force_move`, as `Place`, the update the evaluator applies to
    its private copies.
- The **game-tree evaluator** (`evaluator.dfy`, module `Evaluator`). This is the
  mutual recursion of `win_probability` and `optimal_move`. For a subject
  player and an objective (`AiMode`), it scores a board:
  - a finished board gets a fixed value from a table;
  - on the subject's own turn, the board is worth the best move;
  - on the opponent's turn, it is worth the arithmetic mean over every legal
    reply. This is deliberately not minimax.

  Probabilities are Dafny `real`s. The recursion terminates on the number of
  empty cells.
- The **live game** (`session.dfy`, class `Session.Game`). This holds a 3×3
  array and a turn field, which `force_move`, `try_move` and `step` update
  in place. Each method is proved against `Board.Place`, through
  `Snapshot()`.

The proved properties are:

- `winner` picks the first complete line in scan order. It returns a tie
  exactly when no line is complete and the board is full. It returns
  undecided exactly when no line is complete and a cell is empty.
- A move on an empty cell fills exactly one cell. It keeps X and O
  alternating.
- `try_move` on an occupied cell changes nothing.
- Every score lies in [0, 1]. A terminal score is 0, 0.5 or 1.
- On the subject's turn, the score is the maximum over the moves. On the
  opponent's turn, it is the mean over the replies.
- `optimal_move` returns an empty cell. No empty cell scores higher than it.
  Every empty cell after it in row-major order scores strictly lower.
- Swapping the two players' marks and the turn, and evaluating for the other
  player, gives the same score.
- A line the subject can complete at once is scored 1 under the Win
  objective.

`optimal_move` uses `Iterator::max_by` (`src/main.rs:218`). That call keeps
the last maximal element, so equal scores go to the last empty cell in
row-major order. `LastMaxIndex` models this.

`optimal_move` writes the mark of the player to move, because `force_move`
writes `self.1`. Every caller passes `p == self.1`.

## Model

| member | source | states |
|---|---|---|
| Board.Opposite | src/main.rs:65-70 | the opposite player differs from the given one (so the two players swap) |
| Board.OppositeInvolutive | src/main.rs:44-70 | taking the opposite twice gives the player back, and the result for the opposite player is the swapped result |
| Board.FromPlayer | src/main.rs:44-51 | a player's result is never a tie, and it is X's result exactly for X |
| Board.AllPositionsRowMajor | src/main.rs:11-21 | the nine coordinates are listed once each in row-major order, and every coordinate is among them |
| Board.NewGame | src/main.rs:77-79 | the new game has every cell empty and X to move |
| Board.NewGameAlternates | src/main.rs:77-79 | the new game has nine empty cells, no result yet, and satisfies the alternation invariant |
| Board.CanMove | src/main.rs:152-154 | can_move holds exactly when the coordinate is among the board's empty cells; EmptyCellsAreMoves gives the converse view |
| Board.EmptyCells | src/main.rs:196-198 | the filter of ALL_POSITIONS by can_move holds exactly the empty coordinates, in row-major order |
| Board.Winner | src/main.rs:107-149 | an undecided result means some cell is empty, and a tie means none is; WinnerIsPlayer, WinnerIsNone and WinnerIsTie give the full line characterisation |
| Board.Place | src/main.rs:156-159 | force_move writes the mover's mark at the coordinate, changes no other cell, and hands the turn to the opposite player |
| Board.WinnerByLines | src/main.rs:107-149 | the scan returns the owner of the first complete line in the order rows, columns, diagonals; with no complete line it returns undecided if a cell is empty, else a tie |
| Board.WinnerIsPlayer | src/main.rs:107-144 | winner names player p exactly when some line holds three marks of p and no earlier line in scan order is complete |
| Board.WinnerIsNone | src/main.rs:145-146 | winner is undecided exactly when no line is complete and some cell is empty |
| Board.WinnerIsTie | src/main.rs:145-149 | winner is a tie exactly when no line is complete and all nine cells are filled |
| Board.HasEmptyCellIff | src/main.rs:145 | the scan's test for an empty cell agrees with the count of empty cells being positive |
| Board.FullBoardIsDecided | src/main.rs:145-149 | a full board always has a result, and an undecided board always has a legal move |
| Board.CellsWith | src/main.rs:196-198 | selecting the coordinates with a given content keeps exactly those coordinates of the list that have it |
| Board.CellsWithAscending | src/main.rs:196-198 | the selection keeps row-major order |
| Board.EmptyCellsAreMoves | src/main.rs:196-198 | the filtered positions are exactly the coordinates where can_move holds, in row-major order |
| Board.PlaceCount | src/main.rs:156-159 | a write moves the coordinate from the cells with its old content to the cells with the mover's mark, and no other cell changes content |
| Board.PlaceFillsEmptyCell | src/main.rs:156-159 | a move on an empty cell leaves one empty cell fewer, gives the mover one more mark, and leaves the other player's marks alone |
| Board.PlacePreservesAlternating | src/main.rs:161-168 | a move on an empty cell keeps X's mark count equal to O's, plus one when O is to move |
| Board.WinnerSwap | src/main.rs:107-149 | exchanging the players' marks exchanges the winner and keeps a tie or an open game |
| Board.PlaceSwap | src/main.rs:156-159 | moving on the player-swapped board gives the player-swapped board of the move |
| Board.SwapKeepsEmpty | src/main.rs:152-154 | exchanging the players leaves the same cells empty |
| Evaluator.TerminalValue | src/main.rs:171-192 | the value of a finished game is 0, 0.5 or 1 |
| Evaluator.TerminalValueIsPayoff | src/main.rs:171-192 | the terminal value is the table entry: Win 1/0.5/0, Lose 0/0.5/1, Tie 0/1/0 and NoTie 1/0/1 for a subject win/tie/loss |
| Evaluator.TerminalMatchesTable | src/main.rs:170-192 | on a finished board win_probability is that table entry, with no search |
| Evaluator.TerminalValueSwap | src/main.rs:171-192 | the exchanged result, valued for the opposite player, has the same value |
| Evaluator.SumBetween | src/main.rs:205 | a sum of n values within [lo, hi] lies within [n·lo, n·hi] |
| Evaluator.Mean | src/main.rs:205 | the mean times the number of replies is their sum; MeanBetween bounds it by the elements |
| Evaluator.MeanBetween | src/main.rs:205 | the mean of a non-empty list lies within any bounds on its elements |
| Evaluator.LastMaxIndex | src/main.rs:218 | max_by returns an element no smaller than any other, and every later element is strictly smaller (ties go to the last one) |
| Evaluator.WinProbability | src/main.rs:170-207 | the probability always lies in [0, 1]; the recursion terminates because each ply fills an empty cell |
| Evaluator.OptimalMove | src/main.rs:209-220 | given a board with an empty cell (otherwise the unwrap panics), the chosen coordinate is empty and its score lies in [0, 1] |
| Evaluator.Outcomes | src/main.rs:196-203 | the filter-and-map pairs each empty cell, in row-major order, with a score in [0, 1] |
| Evaluator.OutcomesScore | src/main.rs:199-203 | each pair's score is win_probability of the copy after the move at that cell |
| Evaluator.OptimalMoveBeats | src/main.rs:209-220 | no empty cell scores above the chosen move, and no later empty cell scores as much |
| Evaluator.OptimalMoveIsLastBest | src/main.rs:209-220 | optimal_move returns an empty cell whose score is that of the board after the move, is at least every empty cell's score, and is the last maximum in row-major order |
| Evaluator.SubjectTurnMaximises | src/main.rs:193-194 | on the subject's turn an undecided board is worth at least every move's score and exactly some move's score |
| Evaluator.OpponentTurnAverages | src/main.rs:195-206 | on the opponent's turn an undecided board has a legal reply and is worth the arithmetic mean of the scores of all legal replies |
| Evaluator.WinProbabilitySymmetric | src/main.rs:170-220 | relabelling the players (marks and turn) and evaluating for the other player gives the same probability, for every objective |
| Evaluator.OutcomesSymmetric | src/main.rs:196-217 | the scored moves of the player-swapped board, for the opposite subject, are the same as those of the board |
| Evaluator.ImmediateWinIsTaken | src/main.rs:170-220 | when the subject to move can complete a line, under the Win objective the board and the chosen move both score 1 |
| Session.Game.Snapshot | src/main.rs:73-74 | the value view has the array's cells and the player to move |
| Session.Game.constructor | src/main.rs:77-79 | a new game is the empty board with X to move |
| Session.Game.CanMove | src/main.rs:152-154 | can_move is true exactly when the cell is empty, that is when it is among the board's empty cells |
| Session.Game.ForceMove | src/main.rs:156-159 | the in-place write leaves the board equal to Place applied to the old board |
| Session.Game.TryMove | src/main.rs:161-168 | try_move moves exactly when the cell was empty; a refused move leaves marks and turn unchanged; an accepted move is Place and keeps the players alternating |
| Session.Game.Step | src/main.rs:222-270 | an automated side plays optimal_move's empty cell; a human side's coordinate goes through try_move; a quit request ends the game with no change; otherwise step continues |

## Left out

- Terminal output is not modelled: `render`, `Player::display` and `display2` only draw the board.
- The human-input loop in `step` is not modelled. It blocks on `crossterm::event::read` and decodes keys and mouse clicks. Its result is the `request` parameter of `Session.Game.Step`. The `u16` mouse arithmetic, which can underflow, is outside the model.
- `play` and `main` are not modelled. They drive the game loop, parse `std::env::args` and set up and tear down the terminal.
- Out-of-range coordinates are not modelled. `Pos` is restricted to 0..2, because every coordinate the program indexes with is in range. An out-of-range index would panic.
- Evaluator.WinProbability: probabilities are exact `real`s, not `f32`. Rounding in the sum and the division, and `total_cmp` ordering, are not modelled. Only 0, 0.5, 1 and their maxima and means occur, so no NaN or negative zero arises.
- Evaluator.OptimalMove: the panic of `unwrap` on a board with no empty cell is a precondition (at least one empty cell).
- The numeric scores of particular positions, such as the empty board's opening value, are not computed. The model states only the recursion's specification.
