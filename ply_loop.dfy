/** The reasoning behind the loops of the alpha-beta search, kept apart
    from the search itself: the fail-soft bound, what a ply's loop has
    established after each move, and how one more move extends it. */
module PlyLoop {
  import opened Chess
  import opened GameStates
  import opened MinimaxSpec
  import opened PlyTrace

  /** A window strictly wider than every score a search can return. */
  predicate Wide(alpha: int, beta: int)
  {
    alpha < MaxStart && MinStart < beta
  }

  /** One iteration of a maximizing ply keeps the loop's guarantees: `best`
      is the running maximum, `a` the running alpha, `e` the child's pruned
      result and `v` its unpruned value. */
  lemma MaxPlyStep(prefix: seq<int>, v: int, best: int, e: int, alpha: int, a: int, beta: int)
    requires MaxStart <= best <= MinStart && MaxStart <= e <= MinStart
    requires alpha <= a && (a == alpha || a <= best)
    requires alpha < beta ==> a < beta
    requires alpha < beta ==> AlphaBetaBound(best, alpha, beta, Extreme(prefix, true))
    requires a < beta ==> AlphaBetaBound(e, a, beta, v)
    requires Wide(alpha, beta) ==> best == Extreme(prefix, true)
    ensures alpha < beta ==>
      AlphaBetaBound(if best < e then e else best, alpha, beta, Extreme(prefix + [v], true))
    ensures Wide(alpha, beta) ==> (best < e <==> Improves(v, Extreme(prefix, true), true))
    ensures Wide(alpha, beta) ==> (if best < e then e else best) == Extreme(prefix + [v], true)
  {
  }

  /** One iteration of a minimizing ply, with `b` the running beta. */
  lemma MinPlyStep(prefix: seq<int>, v: int, best: int, e: int, alpha: int, b: int, beta: int)
    requires MaxStart <= best <= MinStart && MaxStart <= e <= MinStart
    requires b <= beta && (b == beta || best <= b)
    requires alpha < beta ==> alpha < b
    requires alpha < beta ==> AlphaBetaBound(best, alpha, beta, Extreme(prefix, false))
    requires alpha < b ==> AlphaBetaBound(e, alpha, b, v)
    requires Wide(alpha, beta) ==> best == Extreme(prefix, false)
    ensures alpha < beta ==>
      AlphaBetaBound(if e < best then e else best, alpha, beta, Extreme(prefix + [v], false))
    ensures Wide(alpha, beta) ==> (e < best <==> Improves(v, Extreme(prefix, false), false))
    ensures Wide(alpha, beta) ==> (if e < best then e else best) == Extreme(prefix + [v], false)
  {
  }

  /** Appending one more pruned result to those already folded. */
  lemma RecordStep<M>(moves: seq<M>, es: seq<int>, e: int, maximizing: bool)
    requires |es| < |moves|
    ensures Extreme(es + [e], maximizing) ==
      if Improves(e, Extreme(es, maximizing), maximizing) then e else Extreme(es, maximizing)
    ensures Choice(moves[..|es| + 1], es + [e], maximizing) ==
      if Improves(e, Extreme(es, maximizing), maximizing) then Some(moves[|es|])
      else Choice(moves[..|es|], es, maximizing)
  {
    assert (es + [e])[..|es|] == es;
    assert moves[..|es| + 1][..|es|] == moves[..|es|];
  }

  /** What a ply's loop has established after its first k moves, against
      the pruned results `es` of those k children and the unpruned values
      `vals` of all its children: `best` and `bestMove` are the running best
      and its move, `window` the bound the ply narrows (alpha on a maximizing
      ply, beta on a minimizing one). */
  ghost predicate PlyInvariant<M>(vals: seq<int>, moves: seq<M>, es: seq<int>, k: int, maximizing: bool,
                                  best: int, bestMove: Option<M>, alpha: int, beta: int, window: int)
  {
    && 0 <= k <= |vals| == |moves|
    && |es| == k
    && best == Extreme(es, maximizing)
    && bestMove == Choice(moves[..k], es, maximizing)
    && LoopTrace(vals, es, k, maximizing, alpha, beta, window)
    && MaxStart <= best <= MinStart
    && (if maximizing then
          alpha <= window && (window == alpha || window <= best) && (alpha < beta ==> window < beta)
        else
          window <= beta && (window == beta || best <= window) && (alpha < beta ==> alpha < window))
    && (alpha < beta ==> AlphaBetaBound(best, alpha, beta, Extreme(vals[..k], maximizing)))
    && (Wide(alpha, beta) ==> best == Extreme(vals[..k], maximizing))
    && (Wide(alpha, beta) ==> bestMove == Choice(moves[..k], vals[..k], maximizing))
  }

  /** What a ply's loop has established when it ends, by exhausting the
      moves or by a cutoff. */
  ghost predicate PlyOutcome<M>(vals: seq<int>, moves: seq<M>, es: seq<int>, maximizing: bool,
                                best: int, bestMove: Option<M>, alpha: int, beta: int)
    requires |vals| == |moves|
  {
    && |es| <= |moves|
    && best == Extreme(es, maximizing)
    && bestMove == Choice(moves[..|es|], es, maximizing)
    && PrunedResults(vals, es, maximizing, alpha, beta)
    && MaxStart <= best <= MinStart
    && (alpha < beta ==> AlphaBetaBound(best, alpha, beta, Extreme(vals, maximizing)))
    && (Wide(alpha, beta) ==> best == Extreme(vals, maximizing))
    && (Wide(alpha, beta) ==> bestMove == Choice(moves, vals, maximizing))
  }

  /** One iteration of a ply's loop: the child's pruned result `e` replaces
      the running best on a strict improvement, the window is narrowed to it,
      and the loop either goes on or stops on a cutoff. */
  lemma PlyStep<M>(vals: seq<int>, moves: seq<M>, es: seq<int>, k: int, maximizing: bool,
                   best: int, bestMove: Option<M>, alpha: int, beta: int, window: int, e: int,
                   es': seq<int>, best': int, bestMove': Option<M>, window': int)
    requires PlyInvariant(vals, moves, es, k, maximizing, best, bestMove, alpha, beta, window) && k < |vals|
    requires MaxStart <= e <= MinStart
    requires maximizing && window < beta ==> AlphaBetaBound(e, window, beta, vals[k])
    requires !maximizing && alpha < window ==> AlphaBetaBound(e, alpha, window, vals[k])
    requires best' == if Improves(e, best, maximizing) then e else best
    requires bestMove' == if Improves(e, best, maximizing) then Some(moves[k]) else bestMove
    requires window' == if maximizing then Max(window, e) else Min(window, e)
    requires es' == es + [e]
    ensures Cutoff(maximizing, alpha, beta, window') ==>
      PlyOutcome(vals, moves, es', maximizing, best', bestMove', alpha, beta)
    ensures !Cutoff(maximizing, alpha, beta, window') ==>
      PlyInvariant(vals, moves, es', k + 1, maximizing, best', bestMove', alpha, beta, window')
  {
    assert vals[..k + 1] == vals[..k] + [vals[k]];
    RecordStep(moves, vals[..k], vals[k], maximizing);
    RecordStep(moves, es, e, maximizing);
    TraceStep(vals, es, k, maximizing, alpha, beta, window, e, es', window');
    if maximizing {
      MaxPlyStep(vals[..k], vals[k], best, e, alpha, window, beta);
    } else {
      MinPlyStep(vals[..k], vals[k], best, e, alpha, window, beta);
    }
    ExtremePrefix(vals, k + 1, maximizing);
  }

  /** A loop that ran through every move ends with its outcome. */
  lemma PlyDone<M>(vals: seq<int>, moves: seq<M>, es: seq<int>, maximizing: bool,
                   best: int, bestMove: Option<M>, alpha: int, beta: int, window: int)
    requires PlyInvariant(vals, moves, es, |vals|, maximizing, best, bestMove, alpha, beta, window)
    ensures PlyOutcome(vals, moves, es, maximizing, best, bestMove, alpha, beta)
  {
    assert vals[..|vals|] == vals && moves[..|moves|] == moves;
    TraceDone(vals, es, maximizing, alpha, beta, window);
  }

  /** What the search of an ongoing ply at `pos` guarantees, with `es` the
      pruned results of the children it searched, in move order, and `r` its
      result: no more results than legal moves; the results were searched in
      order with the windows the earlier ones left, and stop short of the
      last move only on a cutoff; `r` is the running best of the results (at
      depth 3 its recorded move); and `r` meets the fail-soft bound against
      the unpruned value and, under a wide window, is the unpruned result. */
  ghost predicate PlyGuarantee<P, M>(rules: Rules<P, M>, side: Player, pos: P, depth: int, maximizing: bool,
                                     alpha: int, beta: int, es: seq<int>, r: SearchResult<M>)
    requires 0 < depth
  {
    var moves := rules.legalMoves(pos, MoverColour(side, maximizing));
    && |es| <= |moves|
    && PrunedResults(ChildValues(rules, side, pos, depth, maximizing), es, maximizing, alpha, beta)
    && r == PlyReturn(moves, es, depth, maximizing)
    && (r.Score? ==> MaxStart <= r.value <= MinStart)
    && (r.Score? && alpha < beta ==>
          AlphaBetaBound(r.value, alpha, beta, MinimaxValue(rules, side, pos, depth, maximizing)))
    && (Wide(alpha, beta) ==> r == Minimax(rules, side, pos, depth, maximizing))
  }

  /** What a ply's loop has established about the whole move list, read back
      as the guarantees of the search call. */
  lemma PlyResult<P, M>(rules: Rules<P, M>, side: Player, pos: P, depth: int, maximizing: bool, es: seq<int>,
                        best: int, bestMove: Option<M>, alpha: int, beta: int, r: SearchResult<M>)
    requires 0 < depth <= RootDepth && rules.status(pos) == 3
    requires PlyOutcome(ChildValues(rules, side, pos, depth, maximizing),
                        rules.legalMoves(pos, MoverColour(side, maximizing)), es, maximizing, best, bestMove, alpha, beta)
    requires r == if depth == RootDepth then
      (if bestMove.Some? then BestMove(bestMove.value) else MoveUnbound) else Score(best)
    ensures PlyGuarantee(rules, side, pos, depth, maximizing, alpha, beta, es, r)
  {
  }
}
