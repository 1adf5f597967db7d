# Chess engine: evaluation and alpha-beta search

A Dafny model of the search core of a small chess engine (`Chess/main.py`).
It covers:

- the material table `piece_value`;
- the static evaluator `evaluate_board`: ten points per black piece minus
  ten per white piece, plus white's material minus black's material;
- the recursive alpha-beta `minimax`, which pushes and pops moves on one
  shared board;
- the wrapper `find_best_move`. It makes black the maximising side, picks
  the initial window, and replaces the score by an infinite sentinel when
  the side to move is checkmated.

The model is split into modules:

- `Scores`: the extended integers (−∞, whole numbers, +∞) that stand for the
  engine's float scores.
- `Pieces`: colours, piece kinds and the table of piece values.
- `Rules`: the rules engine the search relies on, as a finite game tree
  `Node`. Each node has its 64 squares, the side to move, the game-over and
  checkmate answers, and one branch per legal move, in enumeration order.
  The class `Board` holds a current position plus a stack of saved positions
  and played moves; its `Push` and `Pop` methods update that state in place.
- `Evaluation`: the two loops of `evaluate_board` as a method, proved equal
  to the closed form `BoardValue` (the sum of each square's contribution).
  Properties are proved about that closed form.
- `Search`: the imperative `Minimax` (with its maximising and minimising
  loops), proved equal to the functional description `AlphaBeta` of the same
  code, and proved to restore the board. `MinimaxValue` is the unpruned
  reference value.
- `Pruning`: how `AlphaBeta` relates to `MinimaxValue`. As written, a
  maximising node resets alpha to −∞ and a minimising node resets beta to
  +∞. So a maximising node is exact when its value is below the incoming
  beta, and otherwise returns a score between beta and its value. The
  minimising node is the mirror image. With beta = +∞ the search is exact,
  and the move it returns is the first move that reaches the best value.
- `Selector`: `find_best_move` as a method and as the function
  `SelectMove`. For black it proves the score is the minimax value and the
  move is the first best move. For white it proves the search stops after
  its first move. It also covers the checkmate sentinel.

Two sign conventions of the source are modelled as written. The material
term favours white although black is the maximising side. When white is
mated the sentinel is −∞, which is the best score for white.

## Model

| member | source | states |
|---|---|---|
| Pieces.PieceValue | Chess/main.py:6-13 | every piece is worth at most 9, and a piece is worth nothing exactly when it is a king |
| Evaluation.EvaluateBoard | Chess/main.py:16-33 | the two loops return the closed-form board value, which lies within ten points per occupied square |
| Evaluation.TermsAddUp | Chess/main.py:20-32 | the per-kind count term plus the material term equals the sum of the squares' contributions |
| Evaluation.CountTermSnoc | Chess/main.py:21-22 | adding one square changes the count term by that square's share over the piece kinds |
| Evaluation.CountShareAll | Chess/main.py:21-22 | one square adds +10 to the count term for a black piece, −10 for a white piece and 0 when empty |
| Evaluation.ZeroCounts | Chess/main.py:21-22 | an empty square list gives a count term of zero for every list of kinds |
| Evaluation.ContributionBounds | Chess/main.py:22-30 | an empty square contributes 0, a black piece between 1 and 10, and a white piece between −10 and −1 |
| Evaluation.BoardValueBound | Chess/main.py:20-33 | the evaluation lies between −10 and +10 times the number of occupied squares |
| Evaluation.FullBoardBound | Chess/main.py:20-33 | on a 64-square board the evaluation lies between −640 and 640 |
| Evaluation.SwapNegates | Chess/main.py:20-33 | swapping the colour of every piece negates the evaluation |
| Evaluation.EmptyBoardZero | Chess/main.py:20-33 | a board without pieces evaluates to 0 |
| Evaluation.BoardValueByKind | Chess/main.py:20-33 | the evaluation equals the sum over kinds of (10 − value) times (black count − white count) |
| Evaluation.BalancedMaterialZero | Chess/main.py:20-33 | when both sides have the same number of pieces of every kind, the evaluation is 0 |
| Rules.CountPieces | Chess/main.py:22-22 | the number of pieces of one colour and kind never exceeds the number of squares |
| Rules.Board.Push | Chess/main.py:77-77 | pushing a legal move moves to the position after it, saves the old position and the move, and keeps the stacks replayable |
| Rules.Board.Pop | Chess/main.py:79-79 | popping returns the last move, restores the position saved before it, drops both stack tops and keeps the stacks replayable |
| Scores.Max | Chess/main.py:83-83 | `max` is an upper bound of both arguments and is one of them |
| Scores.Min | Chess/main.py:95-95 | `min` is a lower bound of both arguments and is one of them |
| Search.Minimax | Chess/main.py:36-99 | the search leaves the board, its position stack and its move stack as they were, returns the evaluation and no move at depth 0 or game over, and otherwise returns the functional alpha-beta result |
| Search.MaximizingLoop | Chess/main.py:74-85 | the maximising loop restores the board and computes the maximising loop of the functional search, with alpha reset to −∞ |
| Search.MinimizingLoop | Chess/main.py:86-97 | the minimising loop restores the board and computes the minimising loop of the functional search, with beta reset to +∞ |
| Search.MaxOfUpper | Chess/main.py:74-85 | the unpruned maximum is at least the value of every move considered |
| Search.MaxOfAttained | Chess/main.py:74-85 | an unpruned maximum other than −∞ is the value of one of the moves |
| Search.MinOfLower | Chess/main.py:86-97 | the unpruned minimum is at most the value of every move considered |
| Search.MinOfAttained | Chess/main.py:86-97 | an unpruned minimum other than +∞ is the value of one of the moves |
| Pruning.MaxNodeBound | Chess/main.py:74-85 | a maximising node returns its minimax value when that is below beta, and otherwise a score between beta and its minimax value |
| Pruning.MinNodeBound | Chess/main.py:86-97 | a minimising node returns its minimax value when that is above alpha, and otherwise a score between its minimax value and alpha |
| Pruning.MaxLoopBound | Chess/main.py:76-85 | from any point of the maximising loop, the loop's result relates to the maximum over all moves as the node does |
| Pruning.MinLoopBound | Chess/main.py:88-97 | from any point of the minimising loop, the loop's result relates to the minimum over all moves as the node does |
| Pruning.MaxStep | Chess/main.py:81-85 | one step of the maximising loop: a strict improvement takes the child's exact value, and a cut bounds the node |
| Pruning.MinStep | Chess/main.py:93-97 | one step of the minimising loop: a strict improvement takes the child's exact value, and a cut bounds the node |
| Pruning.MaxNodeExact | Chess/main.py:74-85 | with beta = +∞ a maximising node returns exactly its minimax value, whatever alpha is |
| Pruning.MinNodeExact | Chess/main.py:86-97 | with alpha = −∞ a minimising node returns exactly its minimax value, whatever beta is |
| Pruning.FirstBestIsFirst | Chess/main.py:81-82 | the chosen index is absent exactly when the maximum is −∞; otherwise its move attains the maximum and every earlier move is strictly worse |
| Pruning.FirstBestStable | Chess/main.py:81-85 | once a move reaching +∞ is found, later moves change neither the maximum nor the chosen index |
| Pruning.MaxLoopFirstBest | Chess/main.py:76-85 | with beta = +∞ the maximising loop ends with the first move that reaches the best value |
| Pruning.MaxNodeMove | Chess/main.py:71-99 | with beta = +∞ a maximising node returns the first move that reaches the maximum, or none when every move scores −∞ |
| Pruning.MinLoopAtTop | Chess/main.py:88-97 | with alpha = +∞ the minimising loop stops at the first move whose value is not +∞ |
| Pruning.MinNodeAtTop | Chess/main.py:86-99 | with alpha = +∞ a minimising node returns the first move whose value is not +∞, together with that value |
| Pruning.MaxLoopMoveLegal | Chess/main.py:76-85 | a move returned by the maximising loop is a legal move of the node |
| Pruning.MinLoopMoveLegal | Chess/main.py:88-97 | a move returned by the minimising loop is a legal move of the node |
| Pruning.MoveIsLegal | Chess/main.py:68-99 | a returned move is legal, and a move is returned only below the root of a search with depth left in a live game |
| Pruning.CoherentChild | Chess/main.py:77-77 | a position reached by a legal move from a consistent position is consistent |
| Pruning.CoherentValueBounded | Chess/main.py:36-99 | in a consistent game tree the minimax value is finite and between −640 and 640 |
| Selector.FindBestMove | Chess/main.py:104-148 | the wrapper leaves the board as it was and returns the selected result for the position |
| Selector.BlackSelectsMinimax | Chess/main.py:130-139 | for black (the maximising side) the score is the unpruned minimax value, and the move is the first move reaching it |
| Selector.BlackMoveIsFirstBest | Chess/main.py:130-139 | for black no move is returned exactly when the score is −∞; otherwise the move is legal, reaches the score, and every earlier move is strictly worse |
| Selector.WhiteStopsAtFirstMove | Chess/main.py:134-139 | for white the search stops at the first move whose value is not +∞ and returns that move and value |
| Selector.WhitePlaysFirstMove | Chess/main.py:134-139 | in a consistent tree with white to move in a live position, the result is white's first legal move with its value |
| Selector.CheckmateSentinel | Chess/main.py:141-146 | at a checkmate the score is −∞ when white is mated and +∞ when black is mated, with no move |
| Selector.StalemateScoresEvaluation | Chess/main.py:139-148 | a position without moves that is not checkmate gets its static evaluation and no move |
| Selector.NoMoveOnlyAtLeaf | Chess/main.py:139-148 | in a consistent tree no move is returned exactly at depth 0 or game over, and any returned move is legal |
| Selector.SentinelOnlyAtCheckmate | Chess/main.py:141-148 | the wrapper changes the search result only at checkmate without a move, and a finite score is always the search's own |
| Selector.WhiteIsNotMinimax | Chess/main.py:134-139 | a two-move white position where the wrapper returns 9 with the first move although the minimum is 1 |
| Selector.IntendedSelectsMinimax | Chess/main.py:113-116 | with the window −∞..+∞ for both sides, the score is the unpruned minimax value for the side to move |
| Selector.IntendedAgreesForBlack | Chess/main.py:130-133 | the corrected selector agrees with the written one when black is to move |

## Findings

| source | as written | input that shows it | evidently intended | confidence | as-written member | corrected member |
|---|---|---|---|---|---|---|
| Chess/main.py:134-139 | white's search starts with alpha = +∞ and beta = −∞, so the minimising root cuts off after the first move whose value is not +∞ | white to move with two moves whose replies evaluate to 9 and 1, searched at depth 1: the result is 9 with the first move | the minimum over all moves, as the docstring at lines 113-116 promises, which the window −∞..+∞ gives | high, not executed | Selector.WhiteIsNotMinimax | Selector.IntendedSelectsMinimax |

`FindBestMove` and `SelectMove` model the wrapper as written.
`IntendedSelectMove` is the corrected selector: it differs only in white's
window.

## Left out

- The python-chess library is not part of this model. Move generation, legality, check, checkmate and the draw rules are given by the game tree `Node`: each node lists its legal moves in enumeration order and answers `is_game_over` and `is_checkmate`.
- `Rules.Board.Push` requires a legal move and `Rules.Board.Pop` a non-empty move stack. The search only pushes legal moves and pops what it pushed.
- The `try`/`except` in `minimax` (lines 67 and 100-102) is left out. In this model no operation can raise, so the `(None, None)` result and the error message are never produced.
- Scores are extended integers, not floats. Every score the code produces is an integer or an infinity.
- A negative depth is not modelled: depth is a natural number.
- `piece_map()` is modelled as the list of 64 squares, read in square order. The order does not affect the sum.
- The position after a move is the first branch carrying that move, so a position whose legal moves repeat is not distinguished.
- The interactive game `play_chess` with its console I/O, the batch script, and the `ANSWERS` text are outside the search core and are not modelled.
- Printing is left out.
