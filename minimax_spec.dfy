/** The unpruned minimax search that the engine's alpha-beta search is
    measured against, over the same game abstraction and with the same
    constants, sentinels, terminal scoring and result type. */
module MinimaxSpec {
  import opened Chess
  import opened GameStates
  import opened Evaluation

  /** Score of a won or lost game. */
  const Mate: int := 5000000
  /** Score of a stalemate, on either kind of ply. */
  const StalemateScore: int := 100
  /** Starting value of a maximizing ply's running best. */
  const MaxStart: int := -10000000
  /** Starting value of a minimizing ply's running best. */
  const MinStart: int := 10000000
  /** The depth at which the search returns a move instead of a score. */
  const RootDepth: int := 3

  /** What a search call returns: a score, the chosen move (at depth 3), or
      the case where no move was ever recorded as best, in which the source
      fails on an unbound variable. */
  datatype SearchResult<M> = Score(value: int) | BestMove(move: M) | MoveUnbound

  /** The status code scored +Mate on a maximizing ply: 0 for the white
      search, 1 for the black search. */
  function FavouredCode(side: Player): StatusCode
  {
    if side == Player1 then 0 else 1
  }

  function DisfavouredCode(side: Player): StatusCode
  {
    if side == Player1 then 1 else 0
  }

  /** The score of a terminal position, checked before the depth; None while
      the game goes on. */
  function TerminalScore(side: Player, code: StatusCode, maximizing: bool): (r: Option<int>)
    ensures code == 3 <==> r.None?
    ensures code == 2 ==> r == Some(StalemateScore)
    ensures side == Player1 && code == 0 ==> r == Some(if maximizing then Mate else -Mate)
    ensures side == Player1 && code == 1 ==> r == Some(if maximizing then -Mate else Mate)
    ensures side == Player2 && code == 1 ==> r == Some(if maximizing then Mate else -Mate)
    ensures side == Player2 && code == 0 ==> r == Some(if maximizing then -Mate else Mate)
  {
    if maximizing then
      if code == FavouredCode(side) then Some(Mate)
      else if code == DisfavouredCode(side) then Some(-Mate)
      else if code == 2 then Some(StalemateScore)
      else None
    else
      if code == DisfavouredCode(side) then Some(Mate)
      else if code == FavouredCode(side) then Some(-Mate)
      else if code == 2 then Some(StalemateScore)
      else None
  }

  /** The colour whose legal moves a ply enumerates: decided by the search
      and the ply kind, never by the position. */
  function MoverColour(side: Player, maximizing: bool): (c: Colour)
    ensures c == White <==> (side == Player1) != maximizing
  {
    if maximizing then Opposite(ColourOf(side)) else ColourOf(side)
  }

  function Start(maximizing: bool): int
  {
    if maximizing then MaxStart else MinStart
  }

  /** The strict comparison that replaces the running best. */
  predicate Improves(v: int, best: int, maximizing: bool)
  {
    if maximizing then best < v else v < best
  }

  /** The running best after folding `vals` left to right from the start
      sentinel. */
  function Extreme(vals: seq<int>, maximizing: bool): (r: int)
    ensures maximizing ==> MaxStart <= r
    ensures !maximizing ==> r <= MinStart
    decreases |vals|
  {
    if vals == [] then Start(maximizing)
    else
      var best := Extreme(vals[..|vals| - 1], maximizing);
      if Improves(vals[|vals| - 1], best, maximizing) then vals[|vals| - 1] else best
  }

  /** The move recorded with the running best: the last one that strictly
      improved it. */
  function Choice<M>(moves: seq<M>, vals: seq<int>, maximizing: bool): (c: Option<M>)
    requires |moves| == |vals|
    ensures c.Some? ==> c.value in moves
    decreases |vals|
  {
    if vals == [] then None
    else
      var k := |vals| - 1;
      if Improves(vals[k], Extreme(vals[..k], maximizing), maximizing) then Some(moves[k])
      else
        var c := Choice(moves[..k], vals[..k], maximizing);
        assert c.Some? ==> c.value in moves[..k];
        c
  }

  /** What a ply returns once its loop has evaluated the children `vals` of
      the first |vals| moves: the recorded move (or the unbound case) at the
      root depth, the running best elsewhere. */
  function PlyReturn<M>(moves: seq<M>, vals: seq<int>, depth: int, maximizing: bool): (r: SearchResult<M>)
    requires |vals| <= |moves|
    ensures depth != RootDepth ==> r.Score?
    ensures r.BestMove? ==> r.move in moves
  {
    if depth == RootDepth then
      match Choice(moves[..|vals|], vals, maximizing)
      case Some(m) => BestMove(m)
      case None => MoveUnbound
    else Score(Extreme(vals, maximizing))
  }

  /** Unpruned minimax value of a position. */
  function MinimaxValue<P, M>(rules: Rules<P, M>, side: Player, pos: P, depth: int, maximizing: bool): (v: int)
    ensures MaxStart <= v <= MinStart
    decreases if depth > 0 then depth else 0, 1
  {
    var code := rules.status(pos);
    match TerminalScore(side, code, maximizing)
    case Some(s) => s
    case None =>
      if depth <= 0 || code != 3 then
        ScoreBound(rules.board(pos), side);
        BoardScore(rules.board(pos), side)
      else
        var vals := ChildValues(rules, side, pos, depth, maximizing);
        ExtremeBounds(vals, maximizing);
        Extreme(vals, maximizing)
  }

  /** The values of the positions reached by each legal move, in move order. */
  function ChildValues<P, M>(rules: Rules<P, M>, side: Player, pos: P, depth: int, maximizing: bool): (vals: seq<int>)
    requires depth > 0
    ensures |vals| == |rules.legalMoves(pos, MoverColour(side, maximizing))|
    ensures forall i | 0 <= i < |vals| :: MaxStart <= vals[i] <= MinStart
    decreases depth, 0
  {
    var moves := rules.legalMoves(pos, MoverColour(side, maximizing));
    var vals := seq(|moves|, i requires 0 <= i < |moves| =>
      MinimaxValue(rules, side, rules.apply(pos, moves[i]), depth - 1, !maximizing));
    assert forall i | 0 <= i < |moves| ::
      vals[i] == MinimaxValue(rules, side, rules.apply(pos, moves[i]), depth - 1, !maximizing);
    vals
  }

  /** What the search returns for a call at `depth`, computed without
      pruning. */
  function Minimax<P, M>(rules: Rules<P, M>, side: Player, pos: P, depth: int, maximizing: bool): (r: SearchResult<M>)
    ensures depth != RootDepth ==> r.Score?
    ensures r.Score? ==> MaxStart <= r.value <= MinStart
    ensures r.BestMove? ==> r.move in rules.legalMoves(pos, MoverColour(side, maximizing))
  {
    if depth != RootDepth || TerminalScore(side, rules.status(pos), maximizing).Some? then
      Score(MinimaxValue(rules, side, pos, depth, maximizing))
    else
      var moves := rules.legalMoves(pos, MoverColour(side, maximizing));
      match Choice(moves, ChildValues(rules, side, pos, depth, maximizing), maximizing)
      case Some(m) => BestMove(m)
      case None => MoveUnbound
  }

  /** Helper: the value of the i-th child. */
  lemma ChildValueAt<P, M>(rules: Rules<P, M>, side: Player, pos: P, depth: int, maximizing: bool, i: int)
    requires depth > 0 && 0 <= i < |rules.legalMoves(pos, MoverColour(side, maximizing))|
    ensures var move := rules.legalMoves(pos, MoverColour(side, maximizing))[i];
      ChildValues(rules, side, pos, depth, maximizing)[i] ==
      MinimaxValue(rules, side, rules.apply(pos, move), depth - 1, !maximizing)
  {
  }

  /** Helper: the fold stays within the sentinels when every value does. */
  lemma {:induction false} ExtremeBounds(vals: seq<int>, maximizing: bool)
    requires forall i | 0 <= i < |vals| :: MaxStart <= vals[i] <= MinStart
    ensures MaxStart <= Extreme(vals, maximizing) <= MinStart
    decreases |vals|
  {
    if vals != [] {
      var init := vals[..|vals| - 1];
      assert forall i | 0 <= i < |init| :: init[i] == vals[i];
      ExtremeBounds(init, maximizing);
    }
  }

  /** On a maximizing ply the fold gives the largest value, or the start
      sentinel if none exceeds it; on a minimizing ply the smallest. */
  lemma {:induction false} ExtremeIsBest(vals: seq<int>, maximizing: bool)
    ensures maximizing ==> Extreme(vals, maximizing) >= MaxStart
    ensures maximizing ==> forall i | 0 <= i < |vals| :: vals[i] <= Extreme(vals, maximizing)
    ensures !maximizing ==> Extreme(vals, maximizing) <= MinStart
    ensures !maximizing ==> forall i | 0 <= i < |vals| :: Extreme(vals, maximizing) <= vals[i]
    ensures Extreme(vals, maximizing) == Start(maximizing) || Extreme(vals, maximizing) in vals
    decreases |vals|
  {
    if vals != [] {
      var init := vals[..|vals| - 1];
      assert forall i | 0 <= i < |init| :: init[i] == vals[i];
      ExtremeIsBest(init, maximizing);
      assert vals == init + [vals[|vals| - 1]];
    }
  }

  /** The fold over a prefix never beats the fold over the whole sequence. */
  lemma {:induction false} ExtremePrefix(vals: seq<int>, k: nat, maximizing: bool)
    requires k <= |vals|
    ensures maximizing ==> Extreme(vals[..k], maximizing) <= Extreme(vals, maximizing)
    ensures !maximizing ==> Extreme(vals, maximizing) <= Extreme(vals[..k], maximizing)
    decreases |vals|
  {
    if k < |vals| {
      var init := vals[..|vals| - 1];
      assert init[..k] == vals[..k];
      ExtremePrefix(init, k, maximizing);
    } else {
      assert vals[..k] == vals;
    }
  }

  /** The recorded move is the first one whose value reaches the extreme
      (every earlier move is strictly worse); there is none exactly when the
      extreme is still the start sentinel. */
  lemma {:induction false} ChoiceIsFirstBest<M>(moves: seq<M>, vals: seq<int>, maximizing: bool)
    requires |moves| == |vals|
    ensures Choice(moves, vals, maximizing).None? <==> Extreme(vals, maximizing) == Start(maximizing)
    ensures Choice(moves, vals, maximizing).Some? ==>
      exists j | 0 <= j < |vals| ::
        && Choice(moves, vals, maximizing) == Some(moves[j])
        && vals[j] == Extreme(vals, maximizing)
        && forall i | 0 <= i < j :: Improves(vals[j], vals[i], maximizing)
    decreases |vals|
  {
    if vals != [] {
      var k := |vals| - 1;
      var initM, initV := moves[..k], vals[..k];
      assert forall i | 0 <= i < k :: initV[i] == vals[i] && initM[i] == moves[i];
      ChoiceIsFirstBest(initM, initV, maximizing);
      ExtremeIsBest(initV, maximizing);
      if Improves(vals[k], Extreme(initV, maximizing), maximizing) {
        assert forall i | 0 <= i < k :: Improves(vals[k], vals[i], maximizing);
      } else if Choice(moves, vals, maximizing).Some? {
        var j :| 0 <= j < k && Choice(initM, initV, maximizing) == Some(initM[j])
          && initV[j] == Extreme(initV, maximizing)
          && forall i | 0 <= i < j :: Improves(initV[j], initV[i], maximizing);
        assert vals[j] == Extreme(vals, maximizing);
      }
    }
  }

  /** A ply that goes on below the depth limit takes the largest (maximizing)
      or smallest (minimizing) of its children's values, or its start
      sentinel when no child goes beyond it. */
  lemma MinimaxIsBestChild<P, M>(rules: Rules<P, M>, side: Player, pos: P, depth: int, maximizing: bool)
    requires depth > 0 && rules.status(pos) == 3
    ensures var moves := rules.legalMoves(pos, MoverColour(side, maximizing));
      var v := MinimaxValue(rules, side, pos, depth, maximizing);
      && (forall i | 0 <= i < |moves| ::
            var child := MinimaxValue(rules, side, rules.apply(pos, moves[i]), depth - 1, !maximizing);
            if maximizing then child <= v else v <= child)
      && (v == Start(maximizing) ||
          exists i | 0 <= i < |moves| ::
            v == MinimaxValue(rules, side, rules.apply(pos, moves[i]), depth - 1, !maximizing))
  {
    var moves := rules.legalMoves(pos, MoverColour(side, maximizing));
    var vals := ChildValues(rules, side, pos, depth, maximizing);
    assert forall i | 0 <= i < |moves| ::
      vals[i] == MinimaxValue(rules, side, rules.apply(pos, moves[i]), depth - 1, !maximizing);
    ExtremeIsBest(vals, maximizing);
    var v := MinimaxValue(rules, side, pos, depth, maximizing);
    if v != Start(maximizing) {
      var i :| 0 <= i < |vals| && vals[i] == v;
    }
  }
}
