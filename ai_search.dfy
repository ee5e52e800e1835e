/** The engine's search: minimax with alpha-beta pruning over the shared,
    mutable game state.  `minimax_white` and `minimax_black` are mirror
    images of one routine; `AlphaBeta` is that routine with the mirror made a
    parameter (`side`), and the two entry points fix it. */
module AiSearch {
  import opened Chess
  import opened GameStates
  import opened Evaluation
  import opened MinimaxSpec
  import opened PlyTrace
  import opened PlyLoop

  /** minimax_white (side Player1) and minimax_black (side Player2).
      A terminal status is scored first; an ongoing position at depth 0 or
      below is scored by the board evaluation; otherwise every legal move of
      the colour the ply kind selects is applied, searched one ply deeper
      with the roles swapped, and undone, until the window closes.  At depth
      3 the best move is returned instead of its score.  On an ongoing ply
      the ghost `evaluated` holds the results of the children searched
      before the loop ended, in move order. */
  method AlphaBeta<P, M>(g: GameState<P, M>, side: Player, depth: int, alpha: int, beta: int, maximizing: bool)
    returns (r: SearchResult<M>, ghost evaluated: seq<int>)
    requires depth <= RootDepth
    modifies g
    decreases if depth > 0 then depth else 0, 3
    ensures g.current == old(g.current) && g.undoStack == old(g.undoStack)
    ensures depth != RootDepth ==> r.Score?
    ensures r.Score? ==> MaxStart <= r.value <= MinStart
    ensures TerminalScore(side, old(g.CheckmateStalemate()), maximizing).Some? ==>
      && r == Score(TerminalScore(side, old(g.CheckmateStalemate()), maximizing).value)
      && g.applied == old(g.applied)
    ensures old(g.CheckmateStalemate()) == 3 && depth <= 0 ==>
      r == Score(BoardScore(old(g.CurrentBoard()), side)) && g.applied == old(g.applied)
    ensures old(g.CheckmateStalemate()) == 3 && 0 < depth ==>
      && |evaluated| <= |old(g.LegalMoves(MoverColour(side, maximizing)))|
      && PrunedResults(ChildValues(g.rules, side, old(g.current), depth, maximizing), evaluated, maximizing, alpha, beta)
      && r == PlyReturn(old(g.LegalMoves(MoverColour(side, maximizing))), evaluated, depth, maximizing)
    ensures r.BestMove? ==> r.move in old(g.LegalMoves(MoverColour(side, maximizing)))
    ensures r.Score? && alpha < beta ==>
      AlphaBetaBound(r.value, alpha, beta, MinimaxValue(g.rules, side, old(g.current), depth, maximizing))
    ensures Wide(alpha, beta) ==> r == Minimax(g.rules, side, old(g.current), depth, maximizing)
  {
    var csc := g.CheckmateStalemate();
    if maximizing {
      if csc == FavouredCode(side) {
        return Score(Mate), [];
      } else if csc == DisfavouredCode(side) {
        return Score(-Mate), [];
      } else if csc == 2 {
        return Score(StalemateScore), [];
      }
    } else {
      if csc == DisfavouredCode(side) {
        return Score(Mate), [];
      } else if csc == FavouredCode(side) {
        return Score(-Mate), [];
      } else if csc == 2 {
        return Score(StalemateScore), [];
      }
    }

    if depth <= 0 || csc != 3 {
      var evaluation := EvaluateBoard(g, side);
      ScoreBound(g.CurrentBoard(), side);
      return Score(evaluation), [];
    }

    if maximizing {
      r, evaluated := MaximizingPly(g, side, depth, alpha, beta);
    } else {
      r, evaluated := MinimizingPly(g, side, depth, alpha, beta);
    }
  }

  /** The loop of a maximizing ply: raises alpha, stops once beta <= alpha. */
  method MaximizingPly<P, M>(g: GameState<P, M>, side: Player, depth: int, alpha: int, beta: int)
    returns (r: SearchResult<M>, ghost evaluated: seq<int>)
    requires 0 < depth <= RootDepth && g.CheckmateStalemate() == 3
    modifies g
    decreases depth, 2
    ensures g.current == old(g.current) && g.undoStack == old(g.undoStack)
    ensures PlyGuarantee(g.rules, side, old(g.current), depth, true, alpha, beta, evaluated, r)
  {
    ghost var pos := g.current;
    ghost var undo0 := g.undoStack;
    ghost var vals := ChildValues(g.rules, side, pos, depth, true);
    var maxEvaluation := MaxStart;
    var bestPossibleMove: Option<M> := None;
    var a := alpha;
    var allPossibleMoves := g.LegalMoves(MoverColour(side, true));
    var k := 0;
    evaluated := [];
    ghost var cutoff := false;
    while k < |allPossibleMoves|
      invariant g.current == pos && g.undoStack == undo0
      invariant PlyInvariant(vals, allPossibleMoves, evaluated, k, true, maxEvaluation, bestPossibleMove, alpha, beta, a)
    {
      var movePair := allPossibleMoves[k];
      var evaluation := SearchChild(g, side, depth, true, a, beta, allPossibleMoves, k);
      ghost var evaluated0, best0, move0, window0 := evaluated, maxEvaluation, bestPossibleMove, a;
      evaluated := evaluated + [evaluation];
      if maxEvaluation < evaluation {
        maxEvaluation := evaluation;
        bestPossibleMove := Some(movePair);
      }
      a := Max(a, evaluation);
      PlyStep(vals, allPossibleMoves, evaluated0, k, true, best0, move0, alpha, beta, window0, evaluation,
              evaluated, maxEvaluation, bestPossibleMove, a);
      k := k + 1;
      if beta <= a {
        cutoff := true;
        break;
      }
    }
    if !cutoff {
      PlyDone(vals, allPossibleMoves, evaluated, true, maxEvaluation, bestPossibleMove, alpha, beta, a);
    }
    if depth == RootDepth {
      r := if bestPossibleMove.Some? then BestMove(bestPossibleMove.value) else MoveUnbound;
    } else {
      r := Score(maxEvaluation);
    }
    PlyResult(g.rules, side, pos, depth, true, evaluated, maxEvaluation, bestPossibleMove, alpha, beta, r);
  }

  /** The loop of a minimizing ply: lowers beta, stops once beta <= alpha. */
  method MinimizingPly<P, M>(g: GameState<P, M>, side: Player, depth: int, alpha: int, beta: int)
    returns (r: SearchResult<M>, ghost evaluated: seq<int>)
    requires 0 < depth <= RootDepth && g.CheckmateStalemate() == 3
    modifies g
    decreases depth, 2
    ensures g.current == old(g.current) && g.undoStack == old(g.undoStack)
    ensures PlyGuarantee(g.rules, side, old(g.current), depth, false, alpha, beta, evaluated, r)
  {
    ghost var pos := g.current;
    ghost var undo0 := g.undoStack;
    ghost var vals := ChildValues(g.rules, side, pos, depth, false);
    var minEvaluation := MinStart;
    var bestPossibleMove: Option<M> := None;
    var b := beta;
    var allPossibleMoves := g.LegalMoves(MoverColour(side, false));
    var k := 0;
    evaluated := [];
    ghost var cutoff := false;
    while k < |allPossibleMoves|
      invariant g.current == pos && g.undoStack == undo0
      invariant PlyInvariant(vals, allPossibleMoves, evaluated, k, false, minEvaluation, bestPossibleMove, alpha, beta, b)
    {
      var movePair := allPossibleMoves[k];
      var evaluation := SearchChild(g, side, depth, false, alpha, b, allPossibleMoves, k);
      ghost var evaluated0, best0, move0, window0 := evaluated, minEvaluation, bestPossibleMove, b;
      evaluated := evaluated + [evaluation];
      if minEvaluation > evaluation {
        minEvaluation := evaluation;
        bestPossibleMove := Some(movePair);
      }
      b := Min(b, evaluation);
      PlyStep(vals, allPossibleMoves, evaluated0, k, false, best0, move0, alpha, beta, window0, evaluation,
              evaluated, minEvaluation, bestPossibleMove, b);
      k := k + 1;
      if b <= alpha {
        cutoff := true;
        break;
      }
    }
    if !cutoff {
      PlyDone(vals, allPossibleMoves, evaluated, false, minEvaluation, bestPossibleMove, alpha, beta, b);
    }
    if depth == RootDepth {
      r := if bestPossibleMove.Some? then BestMove(bestPossibleMove.value) else MoveUnbound;
    } else {
      r := Score(minEvaluation);
    }
    PlyResult(g.rules, side, pos, depth, false, evaluated, minEvaluation, bestPossibleMove, alpha, beta, r);
  }

  /** The body of a ply's loop for its k-th move: apply the move, search the
      position it leads to one ply deeper with the roles swapped, undo the
      move.  `alpha` and `beta` are the window the child is searched with. */
  method SearchChild<P, M>(g: GameState<P, M>, side: Player, depth: int, maximizing: bool,
                           alpha: int, beta: int, moves: seq<M>, k: int)
    returns (evaluation: int)
    requires 0 < depth <= RootDepth && moves == g.LegalMoves(MoverColour(side, maximizing))
    requires 0 <= k < |moves|
    modifies g
    decreases depth, 0
    ensures g.current == old(g.current) && g.undoStack == old(g.undoStack)
    ensures MaxStart <= evaluation <= MinStart
    ensures alpha < beta ==>
      AlphaBetaBound(evaluation, alpha, beta, ChildValues(g.rules, side, old(g.current), depth, maximizing)[k])
  {
    ChildValueAt(g.rules, side, g.current, depth, maximizing, k);
    g.MovePiece(moves[k]);
    var result, childEvaluated := AlphaBeta(g, side, depth - 1, alpha, beta, !maximizing);
    var undone := g.UndoMove();
    evaluation := result.value;
  }

  /** minimax_white: maximizing plies move black, minimizing plies move
      white, boards are scored from PLAYER_1's perspective. */
  method MinimaxWhite<P, M>(g: GameState<P, M>, depth: int, alpha: int, beta: int, maximizing: bool)
    returns (r: SearchResult<M>, ghost evaluated: seq<int>)
    requires depth <= RootDepth
    modifies g
    ensures g.current == old(g.current) && g.undoStack == old(g.undoStack)
    ensures depth != RootDepth ==> r.Score?
    ensures r.Score? ==> MaxStart <= r.value <= MinStart
    ensures TerminalScore(Player1, old(g.CheckmateStalemate()), maximizing).Some? ==>
      && r == Score(TerminalScore(Player1, old(g.CheckmateStalemate()), maximizing).value)
      && g.applied == old(g.applied)
    ensures old(g.CheckmateStalemate()) == 3 && depth <= 0 ==>
      r == Score(BoardScore(old(g.CurrentBoard()), Player1)) && g.applied == old(g.applied)
    ensures old(g.CheckmateStalemate()) == 3 && 0 < depth ==>
      && |evaluated| <= |old(g.LegalMoves(MoverColour(Player1, maximizing)))|
      && PrunedResults(ChildValues(g.rules, Player1, old(g.current), depth, maximizing), evaluated, maximizing, alpha, beta)
      && r == PlyReturn(old(g.LegalMoves(MoverColour(Player1, maximizing))), evaluated, depth, maximizing)
    ensures r.BestMove? ==> r.move in old(g.LegalMoves(MoverColour(Player1, maximizing)))
    ensures r.Score? && alpha < beta ==>
      AlphaBetaBound(r.value, alpha, beta, MinimaxValue(g.rules, Player1, old(g.current), depth, maximizing))
    ensures Wide(alpha, beta) ==> r == Minimax(g.rules, Player1, old(g.current), depth, maximizing)
  {
    r, evaluated := AlphaBeta(g, Player1, depth, alpha, beta, maximizing);
  }

  /** minimax_black: maximizing plies move white, minimizing plies move
      black, boards are scored from PLAYER_2's perspective. */
  method MinimaxBlack<P, M>(g: GameState<P, M>, depth: int, alpha: int, beta: int, maximizing: bool)
    returns (r: SearchResult<M>, ghost evaluated: seq<int>)
    requires depth <= RootDepth
    modifies g
    ensures g.current == old(g.current) && g.undoStack == old(g.undoStack)
    ensures depth != RootDepth ==> r.Score?
    ensures r.Score? ==> MaxStart <= r.value <= MinStart
    ensures TerminalScore(Player2, old(g.CheckmateStalemate()), maximizing).Some? ==>
      && r == Score(TerminalScore(Player2, old(g.CheckmateStalemate()), maximizing).value)
      && g.applied == old(g.applied)
    ensures old(g.CheckmateStalemate()) == 3 && depth <= 0 ==>
      r == Score(BoardScore(old(g.CurrentBoard()), Player2)) && g.applied == old(g.applied)
    ensures old(g.CheckmateStalemate()) == 3 && 0 < depth ==>
      && |evaluated| <= |old(g.LegalMoves(MoverColour(Player2, maximizing)))|
      && PrunedResults(ChildValues(g.rules, Player2, old(g.current), depth, maximizing), evaluated, maximizing, alpha, beta)
      && r == PlyReturn(old(g.LegalMoves(MoverColour(Player2, maximizing))), evaluated, depth, maximizing)
    ensures r.BestMove? ==> r.move in old(g.LegalMoves(MoverColour(Player2, maximizing)))
    ensures r.Score? && alpha < beta ==>
      AlphaBetaBound(r.value, alpha, beta, MinimaxValue(g.rules, Player2, old(g.current), depth, maximizing))
    ensures Wide(alpha, beta) ==> r == Minimax(g.rules, Player2, old(g.current), depth, maximizing)
  {
    r, evaluated := AlphaBeta(g, Player2, depth, alpha, beta, maximizing);
  }
}
