# Chess AI search and evaluation

A Dafny model of the engine layer of the python-chess game
(`python-chess/ai_engine.py`). It covers:

- **the material table and the piece value**: `PIECE_VALUES` and
  `get_piece_value`;
- **the board evaluation**: `evaluate_board`, which adds one table value per
  occupied square of the 8x8 board;
- **the alpha-beta minimax search**: `minimax_white` and `minimax_black`.
  They drive a shared, mutable game state: each move is applied, searched one
  ply deeper and undone.

Modules:

- `Chess` (`chess.dfy`): players, colour tags, pieces and the 8x8 board.
- `GameStates` (`game_state.dfy`): the game state the engine drives, reduced
  to the interface the engine calls. It has a terminal status code (0 and 1
  for the two checkmates, 2 for stalemate, 3 for an ongoing game), the board,
  the ordered list of legal moves of a colour, and move application with undo.
  The rules of chess behind these are a parameter (`Rules`). `GameState` is a
  class with the current position and a stack of earlier positions:
  `MovePiece` pushes and `UndoMove` pops.
- `Evaluation` (`evaluation.dfy`): the table, the signed piece value, and
  `EvaluateBoard`, the nested row/column loop. The loop is proved against the
  function `BoardScore`, whose properties are proved as lemmas.
- `MinimaxSpec` (`minimax_spec.dfy`): an unpruned minimax over the same
  abstraction, with the same constants, sentinels, terminal scoring, strict
  comparisons and depth-3 move result. The pruned search is measured against
  it.
- `PlyTrace` (`ply_trace.dfy`): the record of the children a ply has
  searched. It defines the fail-soft alpha-beta bound, the window each child
  is searched with (alpha raised, or beta lowered, by the results before
  it), and the cutoff that ends the loop early.
- `PlyLoop` (`ply_loop.dfy`): the reasoning behind a ply's loop. It defines
  what the loop has established after each move, how one more move or a
  cutoff extends it, and what a finished ply guarantees (`PlyGuarantee`).
- `AiSearch` (`ai_search.dfy`): the search itself, as imperative methods over
  a `GameState`.

The two search routines are mirror images of each other. `AlphaBeta` is that
one routine, with the mirror made a parameter `side`: `Player1` is
`minimax_white` and `Player2` is `minimax_black`. `side` decides three things:

- which checkmate code scores +5000000 on a maximizing ply;
- the perspective of the board evaluation;
- which colour's moves a ply enumerates. The maximizing ply of
  `minimax_white` enumerates black's moves; that of `minimax_black`
  enumerates white's.

`MinimaxWhite` and `MinimaxBlack` are the two entry points.

What is proved:

- **Evaluation**:
  - the piece value depends only on the perspective;
  - the two perspectives give opposite board scores;
  - an empty board scores 0;
  - the score is bounded by 1000 per piece, so its magnitude is at most
    64000.
- **Search, terminal and depth-limit paths**:
  - terminal positions are scored before the depth is looked at;
  - no move is applied on the terminal and depth-limit paths.
- **Search, history**: every move is undone, including after a pruning
  `break`, so the state's position and history on return are those on entry.
- **Search, fail-soft bound**: for every window `alpha < beta`, the returned
  score `r` relates to the unpruned value `V` as follows:
  - if `r < beta` then `V <= r`;
  - if `alpha < r` then `r <= V`;
  - so `r == V` when `r` lies strictly inside the window.
- **Search, any window**: on an ongoing ply, the ghost result `evaluated`
  lists the results of the children searched, in move order. For each of
  them:
  - it lies between the sentinels;
  - it was searched with the window the earlier results left: alpha raised
    to each of them on a maximizing ply, beta lowered to each on a
    minimizing one;
  - while that window was open, it meets the fail-soft bound against that
    child's unpruned value.
- **Search, any window (cutoff)**: the window was still open after every
  shorter prefix of `evaluated`. There are fewer results than legal moves
  only when the window closed after the last of them (`beta <= alpha`).
- **Search, any window (result)**: the result is the running best of
  `evaluated`. At depth 3 it is the move recorded with that running best:
  the first evaluated move whose result reaches it, which is always one of
  the ply's legal moves.
- **Search, wide window**: with a window wider than every reachable score
  (`alpha < -10000000` and `10000000 < beta`), the result is exactly that of
  the unpruned search. At depth 3 this includes the chosen move: the first
  move whose value reaches the extreme, since ties never replace it.

The piece-value sign rule is modelled as the code at
`python-chess/ai_engine.py:155-162` writes it. The comment at lines 159-160
("fix bug - signs exchanged") suggests an owner-relative sign was intended:
positive for the perspective's own pieces, negative for the opponent's. The
code, however, compares the piece's colour with the perspective's colour and
negates the table entry of the piece's own colour. Because the table entries
are already signed by colour (lines 14-21), the result depends only on the
perspective:

- from PLAYER_1's perspective, every piece counts as the negated white-key
  value;
- from PLAYER_2's perspective, every piece counts as the white-key value;
- so the owner of a piece never matters. `Evaluation.PieceValue` and
  `Evaluation.ScoreIsSignedMaterial` state this.

The source can also reach an unbound `best_possible_move` at depth 3. This
happens when no child's value strictly beats the start sentinel, for example
when there are no legal moves. In Python that raises an unbound-local error.
The model returns the result `MoveUnbound` in that case rather than excluding
the input.

## Model

| member | source | states |
|---|---|---|
| Evaluation.PieceValues | python-chess/ai_engine.py:14-21 | the white entry of every piece type lies in 10..1000 and the black entry in -1000..-10 |
| Evaluation.PieceValue | python-chess/ai_engine.py:155-162 | from PLAYER_1's perspective a piece is worth minus its white-key value, from PLAYER_2's its white-key value, whoever owns it |
| Evaluation.EvaluateBoard | python-chess/ai_engine.py:145-152 | the nested 8x8 loop that adds the value of each occupied square computes the board score of the current board |
| Evaluation.BoardScore | python-chess/ai_engine.py:145-152 | the value evaluate_board computes: the sum over the rows and, within each row, over the squares of the piece values; within plus or minus 1000 times the number of occupied squares |
| Evaluation.ScoreIsSignedMaterial | python-chess/ai_engine.py:145-162 | the board score from PLAYER_2's side is the total white-key material on the board, from PLAYER_1's its negation, so the two perspectives are opposite |
| Evaluation.ScoreBound | python-chess/ai_engine.py:146-151 | at most one value of magnitude at most 1000 per occupied square: the score is within plus or minus 1000 times the piece count (at most 64 pieces, so within 64000), and an empty board scores 0 |
| GameStates.GameState.MovePiece | python-chess/ai_engine.py:55 | the position becomes the result of applying the move, and the position it replaced is pushed on the undo stack |
| GameStates.GameState.UndoMove | python-chess/ai_engine.py:57 | with a nonempty stack, the last pushed position is restored and popped; with an empty one, failure is reported and nothing changes |
| MinimaxSpec.TerminalScore | python-chess/ai_engine.py:32-46 | the terminal scores: stalemate scores 100 on either ply; in the white search code 0 scores +5000000 maximizing and -5000000 minimizing and code 1 the reverse (the black search, lines 89-103, swaps 0 and 1); only code 3 goes on |
| MinimaxSpec.MoverColour | python-chess/ai_engine.py:53 | the colour whose moves a ply enumerates is white exactly when the white search minimizes or the black search maximizes: the white search's maximizing ply moves black (53) and its minimizing ply white (71), the black search the reverse (110, 128) |
| MinimaxSpec.MinimaxValue | python-chess/ai_engine.py:31-86 | the unpruned value of a position always lies between the sentinels -10000000 and 10000000 |
| MinimaxSpec.ChildValues | python-chess/ai_engine.py:54-57 | one value per legal move of the ply's colour, each between the sentinels |
| MinimaxSpec.Extreme | python-chess/ai_engine.py:59-61 | the running best of lines 59-61 and 77-79 (strict improvement from the start sentinel); a maximizing fold never falls below -10000000 and a minimizing one never rises above 10000000 |
| MinimaxSpec.Choice | python-chess/ai_engine.py:59-61 | the move recorded with the running best, replaced only on a strict improvement; it is always one of the given moves |
| MinimaxSpec.PlyReturn | python-chess/ai_engine.py:65-68 | what a ply returns after evaluating some children: the recorded move (or the unbound case) at depth 3, otherwise the running best; a returned move is one of the ply's moves |
| MinimaxSpec.Minimax | python-chess/ai_engine.py:31-86 | the unpruned search result: a score within the sentinels except at depth 3, where a returned move is one of the root's legal moves |
| MinimaxSpec.ExtremeBounds | python-chess/ai_engine.py:52-68 | folding values that lie between the sentinels from the start sentinel stays between them |
| MinimaxSpec.ExtremeIsBest | python-chess/ai_engine.py:59-62 | the running best of a maximizing ply is at least every value and at least the start sentinel (mirrored on a minimizing ply), and it is either the sentinel or one of the values |
| MinimaxSpec.ExtremePrefix | python-chess/ai_engine.py:59-64 | the running best after a prefix of the moves is never better than after all of them |
| MinimaxSpec.ChoiceIsFirstBest | python-chess/ai_engine.py:59-66 | no move is recorded exactly when nothing beats the start sentinel; otherwise the recorded move is the first whose value equals the extreme, every earlier move being strictly worse |
| MinimaxSpec.MinimaxIsBestChild | python-chess/ai_engine.py:51-86 | an ongoing ply below the depth limit is worth at least (maximizing) or at most (minimizing) each child, and is either the start sentinel or the value of some child |
| PlyTrace.Narrowed | python-chess/ai_engine.py:62 | the bound a ply narrows after the results so far: alpha raised to each of them on a maximizing ply (line 62), beta lowered to each on a minimizing one (line 80); it never falls below alpha, or never rises above beta |
| PlyTrace.SearchedStep | python-chess/ai_engine.py:54-64 | a child searched with the window the earlier results left, whose result lies between the sentinels and meets the fail-soft bound while that window is open, extends the results searched in order |
| PlyTrace.TraceStep | python-chess/ai_engine.py:54-64 | after one more child, the bound is narrowed to its result; on `beta <= alpha` the results are complete (searched in order, stopped by the cutoff), otherwise the record holds for the next child with the window still open |
| PlyTrace.TraceDone | python-chess/ai_engine.py:54-64 | results recorded for every child are complete: searched in order, with no cutoff before the last |
| PlyLoop.MaxPlyStep | python-chess/ai_engine.py:59-64 | one maximizing iteration keeps the fail-soft bound of the running maximum against the unpruned maximum, and keeps it exact under a wide window |
| PlyLoop.MinPlyStep | python-chess/ai_engine.py:77-82 | one minimizing iteration keeps the fail-soft bound of the running minimum against the unpruned minimum, and keeps it exact under a wide window |
| PlyLoop.PlyStep | python-chess/ai_engine.py:54-64 | after one more move, the running best and its move are the fold of the child results so far, and the loop either goes on with its invariant for the next move, or stops on `beta <= alpha` with the guarantees for the whole move list |
| PlyLoop.PlyDone | python-chess/ai_engine.py:54-68 | a loop that ran through every move has the guarantees for the whole move list |
| PlyLoop.PlyResult | python-chess/ai_engine.py:51-68 | the ply's guarantee: the evaluated child results were searched in order with the windows the earlier ones left and stop short of the last move only on a cutoff; the value or move returned after the loop is the ply's return for them; it satisfies the fail-soft bound against the unpruned value and, under a wide window, equals the unpruned result |
| AiSearch.AlphaBeta | python-chess/ai_engine.py:31-86 | position and undo stack restored; a score except at depth 3, within the sentinels; terminal scores, with no move applied; an ongoing position at depth 0 or below scores its board from the search's perspective, with no move applied; on an ongoing ply the evaluated child results lie between the sentinels, each was searched with the window the earlier ones left and meets the fail-soft bound against its child's value while that window is open, and they stop short of the last move only when the window closed after the last of them; the result is the running best, or at depth 3 the recorded move, of those results, and a returned move is legal; fail-soft bound against the unpruned value; under a wide window, the unpruned result |
| AiSearch.MaximizingPly | python-chess/ai_engine.py:51-68 | the maximizing loop restores position and history; each evaluated child result lies between the sentinels and, while the window the earlier results left is open, meets the fail-soft bound against its child's value under that window; fewer results than moves only when the window closed after the last one; it returns the running maximum, or at depth 3 the first evaluated move reaching it, of those results; within the sentinels; fail-soft bound; the unpruned result under a wide window |
| AiSearch.MinimizingPly | python-chess/ai_engine.py:69-86 | the minimizing loop restores position and history; each evaluated child result lies between the sentinels and, while the window the earlier results left is open, meets the fail-soft bound against its child's value under that window; fewer results than moves only when the window closed after the last one; it returns the running minimum, or at depth 3 the first evaluated move reaching it, of those results; within the sentinels; fail-soft bound; the unpruned result under a wide window |
| AiSearch.SearchChild | python-chess/ai_engine.py:55-57 | applying the k-th move, searching one ply deeper with the roles swapped and undoing leaves position and history as they were, and the result satisfies the fail-soft bound against that child's unpruned value |
| AiSearch.MinimaxWhite | python-chess/ai_engine.py:31-86 | all of AlphaBeta's guarantees for the white search: codes 0/1/2 score +5000000/-5000000/100 maximizing (code 0 and 1 swapped minimizing) with no move applied, the depth-limit score from PLAYER_1's perspective with no move applied, history restored, the evaluated child results searched in order with the windows the earlier ones left and cut short only by a closed window, the running best or recorded legal move of them, fail-soft bound, exact under a wide window |
| AiSearch.MinimaxBlack | python-chess/ai_engine.py:88-143 | all of AlphaBeta's guarantees for the black search: codes 1/0/2 score +5000000/-5000000/100 maximizing (swapped minimizing) with no move applied, the depth-limit score from PLAYER_2's perspective with no move applied, history restored, the evaluated child results searched in order with the windows the earlier ones left and cut short only by a closed window, the running best or recorded legal move of them, fail-soft bound, exact under a wide window |

## Left out

- The game-state internals are only an abstract interface (`Rules`). This
  covers move generation, king-safety filtering, `checkmate_stalemate_checker`,
  the piece classes and the real `move_piece`/`undo_move`. The chess engine
  module is not part of this model, and no claim is made about the rules of
  chess.
- `GameStates.GameState.MovePiece` and `UndoMove` keep a stack of whole
  positions. The real move log keeps moves; only the apply-then-undo
  behaviour the search relies on is modelled.
- The `speculative` flag of `move_piece` is left out: it has no effect the
  search can observe through this interface.
- The `player_color` argument of both search routines is left out, because it
  is never read.
- Callers, the GUI and `tests.py` are left out. The tests mock the very
  methods they call. The one real assertion concerns knight moves, whose
  source is not part of this model.
- `AiSearch.AlphaBeta` requires a depth of at most 3. A deeper start would
  return a move at depth 3 into an integer comparison one ply up, which fails
  in Python.
- Alpha and beta are integers. A caller's infinite float window behaves like
  any window wider than the sentinels.
- `GameStates.GameState.GetPiece` requires an occupied square on the board.
  The evaluation only calls it after `IsValidPiece`, so the error raised for
  other squares is not modelled.
