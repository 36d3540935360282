# LLM tic-tac-toe battle: a verified model of the game engine

`main.py` pits two local language models against each other at
tic-tac-toe. X moves first. On each turn the engine asks the mover's model
for a cell index, up to three times. It accepts the first answer whose first
word is an integer naming a free cell, writes the mover's mark there and
passes the turn. The game ends when either player holds a row, column or
diagonal, when the board is full, or when a model gives no acceptable answer
in three attempts (an abort).

The model has five modules:

- `Wrappers` (`wrappers.dfy`): the `Option` type that stands for the
  source's `None` returns.
- `Board` (`board.dfy`): the 3x3 board as a sequence of nine cells and the
  pure helpers `new_board`, `is_winner`, `is_full`, `available_moves` and
  `board_to_string`.
  - `is_winner`'s pair `(True, pattern)` / `(False, None)` becomes
    `Option<Line>`.
  - The eight patterns are scanned in the source's order: rows, columns,
    diagonals.
  - A geometric reference definition, `HasLine` (a full row, column or
    diagonal), is proved to agree with the scan.
- `Moves` (`moves.dfy`): the validation half of `get_llm_move`.
  - It models `int(response.strip().split()[0])`, with every raised
    exception mapped to `None`.
  - The parsed number must then be a member of
    `available_moves(board)`.
- `Game` (`game.dfy`): `play_game`.
  - The reference is `Run`. It is a recursive function over the board, the
    player on turn and the model oracle. It returns the outcome, the final
    board and the accepted moves in order (the moves the source prints as
    "X plays at position m").
  - `PlayGame` is the imperative loop over an `array` board, updated in
    place. `AcquireMove` is its inner `for _ in range(3)` loop. Both are proved
    equal to the reference.
  - Lemmas about `Run` and `Play` state what a whole game guarantees.
- `Scenarios` (`scenarios.dfy`): concrete games worked out on the model.
  - Silent models abort on the empty board.
  - One turn succeeds on its third attempt.
  - When both models always take the lowest free cell, X wins.

The language model is a parameter: a `Proposer` maps the board, the player
on turn and the attempt number (0, 1 or 2) to the answer text. The attempt
number lets the model answer differently on each retry, as a real model
drawing samples can.

The code checks `is_winner(X)`, `is_winner(O)` and `is_full` on every
iteration, and classifies X before O after the loop. A leaner engine,
`Game.RunMoverFirst`, checks after each move only whether the player who
just moved has won, and then whether the board is full. `PlayAgrees`
proves that a whole game has the same outcome under both engines:
`OnlyMoverWins` and `PlayWinner` show that only the player who moved last
can hold a line, so the other player never has one.

Take two models that always name the lowest free cell. One might expect
them to fill the board and draw. In `main.py` they do not. After the moves
0 to 6, X holds the anti-diagonal 2, 4, 6 and wins
(`Scenarios.LowestFreeGame`).

## Model

| member | source | states |
|---|---|---|
| `Board.WinningLine` | main.py:40-49 | no contract of its own; `WinningLineFirst`, `WinnerIffSomePattern` and `WinnerIffHasLine` state it |
| `Board.IsWinner` | main.py:40-49 | the first half of `is_winner`'s pair; no contract of its own; `WinnerIffHasLine` states it |
| `Board.IsFull` | main.py:51-52 | no contract of its own; `FullIffNoMoves` states it |
| `Board.BoardToString` | main.py:57-58 | no contract of its own; `BoardToStringLayout` and `BoardToStringRoundTrip` state it |
| `Board.NewBoard` | main.py:37-38 | a new board has nine cells, all empty |
| `Board.NewBoardMoves` | main.py:37-38 | on a new board the free cells are exactly 0..8, in order, and the board is not full |
| `Board.NewBoardNoWinner` | main.py:37-49 | nobody has a line on a new board |
| `Board.ScanLinesFirst` | main.py:46-49 | the scan from pattern n returns nothing exactly when no later pattern is complete, and otherwise the first complete one |
| `Board.WinningLineFirst` | main.py:40-49 | `is_winner` returns a pattern iff some pattern is complete for the player, and then the first complete one in scan order |
| `Board.WinnerIffSomePattern` | main.py:41-48 | a winner is reported iff one of the eight listed patterns is complete |
| `Board.WinnerIffHasLine` | main.py:41-48 | `is_winner` agrees with the geometric definition: a full row, column, main diagonal or anti-diagonal of the player's mark |
| `Board.MarkGivesOthersNoLine` | main.py:47 | writing another player's mark into a cell never gives a player without a line a line |
| `Board.AvailableMoves` | main.py:54-55 | the result is strictly ascending and holds exactly the indices of empty cells |
| `Board.MovesFrom` | main.py:55 | the comprehension from index n on: ascending, only empty cells at index n or above, and all of them |
| `Board.FullIffNoMoves` | main.py:51-55 | `is_full` holds iff `available_moves` is empty |
| `Board.MarkRemovesOneMove` | main.py:168 | marking a free cell removes exactly one available move |
| `Board.BoardToStringLayout` | main.py:57-58 | three rows of three symbols, 17 characters; cell i is at position 2i, followed by a space, or by a newline at the end of rows 0 and 1 |
| `Board.BoardToStringRoundTrip` | main.py:57-58 | reading the cells back from `board_to_string` gives the board |
| `Board.Other` | main.py:173 | the next player always differs from the current one |
| `Moves.FirstToken` | main.py:134 | `response.strip().split()[0]`; no contract of its own; `FirstTokenBlank` and `FirstTokenOf` state it |
| `Moves.ParseInt` | main.py:134 | the simplified `int()`; no contract of its own; `ParseDecimal` states it |
| `Moves.ParseMove` | main.py:134 | `int(response.strip().split()[0])`; no contract of its own; `ValidateMoveExact` and `ValidateAcceptsLegal` state it |
| `Moves.FirstTokenBlank` | main.py:134 | `split()[0]` fails, and the move is refused, exactly when the answer is blank |
| `Moves.FirstTokenOf` | main.py:134 | after any leading whitespace, the first word is taken up to the next whitespace |
| `Moves.DecimalValue` | main.py:134 | reading the decimal digits of n gives n |
| `Moves.ParseDecimal` | main.py:134 | `int` of the decimal text of n is n |
| `Moves.ValidateMove` | main.py:133-142 | an accepted move is in range and names an empty cell |
| `Moves.ValidateMoveExact` | main.py:133-142 | a move is accepted iff the first word parses to an index of an empty cell, and then it is that index; every other answer yields `None` |
| `Moves.ValidateAcceptsLegal` | main.py:133-136 | an answer whose first word is the decimal index of a free cell, with any surrounding whitespace and trailing text, is accepted as that move |
| `Game.Attempt` | main.py:159 | one call of `get_llm_move`: `ValidateMove` applied to the oracle's answer; no contract of its own; `ValidateMoveExact` states when it accepts |
| `Game.Terminal` | main.py:153 | the negated loop condition; no contract of its own; `RunEnds` and `PlayEnds` use it |
| `Game.Classify` | main.py:175-186 | no contract of its own; `ClassifyVerdict` states it |
| `Game.Run` | main.py:153-186 | the rest of a game from a given board; no contract of its own; `RunLength`, `RunFreshMoves`, `RunMarks`, `RunEnds`, `OnlyMoverWins` and `RunAgrees` state it |
| `Game.Play` | main.py:145-186 | a whole game; no contract of its own; `PlayMoves`, `PlayEnds`, `PlayWinner` and `PlayAgrees` state it |
| `Game.MoverNext` | main.py:173 | turns alternate: the mover after t+1 moves is the other player of the mover after t moves |
| `Game.Acquire` | main.py:157-161 | the retry loop yields only legal moves |
| `Game.AcquireFails` | main.py:157-166 | a turn fails iff every remaining attempt, at most three, is refused |
| `Game.AcquireFirst` | main.py:157-161 | an accepted move is the answer of the first accepted attempt; all attempts before it were refused |
| `Game.ClassifyVerdict` | main.py:175-186 | after the loop: a winner holds a line and the first pattern found; O is named only if X has no line; a draw iff neither player has a line |
| `Game.RunLength` | main.py:153-173 | a game makes no more moves than there are free cells |
| `Game.FreshMovesCons` | main.py:168 | a move on a free cell followed by moves fresh on the resulting board gives distinct moves on free cells |
| `Game.RunFreshMoves` | main.py:153-173 | each accepted move is on a cell that is empty at the start, and no cell is played twice |
| `Game.MarkedByCons` | main.py:168-173 | marking one cell and then the rest of the moves, with the players alternating, marks every move with its mover |
| `Game.RunMarks` | main.py:168-173 | the final board is the start board with each move's cell set to its mover's mark, the players alternating, and every other cell unchanged |
| `Game.RunEnds` | main.py:153-186 | an abort names the player on turn, at a board still in play, after every attempt was refused; otherwise the loop condition fails and the verdict is `Classify`'s |
| `Game.OnlyMoverWins` | main.py:168-178 | if the player on turn has no line, the player on turn at the end has none, and any winner is the player who moved last |
| `Game.PlayMoves` | main.py:145-173 | a whole game makes at most nine moves, on distinct cells 0..8; X holds the cells of even-numbered moves, O those of odd-numbered moves, and all other cells are empty |
| `Game.PlayEnds` | main.py:145-186 | a game aborts only when the player on turn is refused three times on a board still in play; otherwise it ends on a win or a full board with the X-then-O verdict; a draw leaves a full board with no winner |
| `Game.PlayWinner` | main.py:153-183 | the winner is the player who made the last move, and the other player has no line |
| `Game.FollowsAfterMove` | main.py:168-173 | a proof step for `PlayGame`'s loop invariant, not a model of these lines: moving one move from the rest of the game onto the log leaves the whole game unchanged |
| `Game.RunAgrees` | main.py:153-186 | from a board still in play, checking X, then O, then a full board gives the same outcome as checking only the player who just moved and then a full board |
| `Game.PlayAgrees` | main.py:145-186 | a whole game has the same outcome under `play_game`'s checks and under the leaner engine `RunMoverFirst` |
| `Game.AcquireMove` | main.py:155-162 | the imperative retry loop returns exactly the reference `Acquire`'s result, a legal move or nothing |
| `Game.PlayGame` | main.py:145-186 | the imperative game on an in-place array board returns exactly the outcome, final board and move log of `Play` |
| `Scenarios.SilentAborts` | main.py:153-166 | if every answer is blank, X aborts on the empty board before any move |
| `Scenarios.RamblingTurn` | main.py:133-161 | a word, then the off-board "9", then " 4\n": the first two answers are refused and the turn plays cell 4 |
| `Scenarios.LowBoardWon` | main.py:175-180 | after the moves 0..6 the first complete pattern is X's anti-diagonal, and X wins |
| `Scenarios.LowestFreeGame` | main.py:145-186 | if both models always take the lowest free cell, X wins on 2, 4, 6 after seven moves |

## Left out

- The calls to the language models are replaced by the `Proposer` oracle. That covers the `OllamaLLM` instances (main.py:61-62), the prompt text (main.py:111, 113-131) and `llm.invoke` (main.py:132). The option list of main.py:112 is modelled: it is the `AvailableMoves` membership test in `ValidateMove`.
- Which model object belongs to which player, and the `model_name` label (main.py:148, 154, 158), only select the oracle's inputs, so they are not modelled.
- The matplotlib window, the images and `show_board` (main.py:1-35, 65-107, 151, 170, 180-190) are display only.
- `time.sleep` delays (main.py:162, 171) are not modelled. Timing has no effect on the game.
- The messages printed by `print` are not modelled. The moves printed as "X plays at position m" appear as the returned move log.
- The module-level call `play_game()` and the window setup are not modelled.
- `Moves.ParseInt`, the model of `int()`: it accepts an optional sign and ASCII digits only. Python also accepts `_` between digits and non-ASCII Unicode digits.
- `Moves.IsSpace`, the whitespace set of the `strip().split()` model (`FirstToken`, `TokenPrefix`): it covers ASCII whitespace only. Python also splits on Unicode whitespace and the separator control characters.
- Python's exception mechanism is not modelled. Inside the `try` of main.py:133-142, the bare `except:` becomes a `None` result for an answer with no first word or an unparsable one. An exception raised by `llm.invoke` (main.py:132) is outside the `try` and would end `play_game`. The `Proposer` always answers, so that path is not modelled.
