/** The record a ply's loop keeps of the children it has searched: the
    fail-soft bound, the window each child is searched with, and the cutoff
    that ends the loop early. */
module PlyTrace {
  import opened MinimaxSpec

  /** The fail-soft alpha-beta guarantee of a result `r` computed with window
      (alpha, beta) for a position whose unpruned value is `v`: below beta it
      is an upper bound of `v`, above alpha a lower bound, and strictly inside
      the window it is `v` itself. */
  predicate AlphaBetaBound(r: int, alpha: int, beta: int, v: int)
  {
    (r < beta ==> v <= r) && (alpha < r ==> r <= v)
  }

  function Max(x: int, y: int): int
  {
    if x < y then y else x
  }

  function Min(x: int, y: int): int
  {
    if x < y then x else y
  }

  /** The test that ends a ply early: the narrowed window has closed. */
  predicate Cutoff(maximizing: bool, alpha: int, beta: int, window: int)
  {
    if maximizing then beta <= window else window <= alpha
  }

  /** The bound a ply narrows, after the results `es` of its earlier
      children: alpha raised to each of them on a maximizing ply, beta
      lowered to each of them on a minimizing one. */
  function Narrowed(bound: int, es: seq<int>, maximizing: bool): (w: int)
    ensures maximizing ==> bound <= w
    ensures !maximizing ==> w <= bound
    decreases |es|
  {
    if es == [] then bound
    else
      var w := Narrowed(bound, es[..|es| - 1], maximizing);
      if maximizing then Max(w, es[|es| - 1]) else Min(w, es[|es| - 1])
  }

  lemma NarrowStep(bound: int, es: seq<int>, e: int, maximizing: bool)
    ensures Narrowed(bound, es + [e], maximizing) ==
      if maximizing then Max(Narrowed(bound, es, maximizing), e) else Min(Narrowed(bound, es, maximizing), e)
  {
    assert (es + [e])[..|es|] == es;
  }

  /** The alpha the next child of a ply is searched with, once the results
      `es` of the earlier children are known. */
  function ChildAlpha(alpha: int, es: seq<int>, maximizing: bool): int
  {
    if maximizing then Narrowed(alpha, es, true) else alpha
  }

  /** The beta the next child of a ply is searched with. */
  function ChildBeta(beta: int, es: seq<int>, maximizing: bool): int
  {
    if maximizing then beta else Narrowed(beta, es, false)
  }

  /** The window is still open after the results `es`: no cutoff yet. */
  predicate Open(alpha: int, beta: int, es: seq<int>, maximizing: bool)
  {
    ChildAlpha(alpha, es, maximizing) < ChildBeta(beta, es, maximizing)
  }

  /** What is known of the pruned results `es` of the first children of a
      ply whose unpruned child values are `vals`, one child at a time: the
      window was still open after every earlier nonempty prefix (no earlier
      cutoff), and the last result lies between the sentinels and, when the
      window its predecessors left was open, meets the fail-soft bound
      against its child's value. */
  ghost predicate SearchedInOrder(vals: seq<int>, es: seq<int>, maximizing: bool, alpha: int, beta: int)
    decreases |es|
  {
    |es| <= |vals| &&
    (es == [] ||
      var k := |es| - 1;
      var prior := es[..k];
      && SearchedInOrder(vals, prior, maximizing, alpha, beta)
      && (0 < k ==> Open(alpha, beta, prior, maximizing))
      && MaxStart <= es[k] <= MinStart
      && (Open(alpha, beta, prior, maximizing) ==>
            AlphaBetaBound(es[k], ChildAlpha(alpha, prior, maximizing), ChildBeta(beta, prior, maximizing), vals[k])))
  }

  /** The pruned results of a ply whose loop has ended: searched in order as
      above, and fewer than all children only when the window closed after
      the last of them. */
  ghost predicate PrunedResults(vals: seq<int>, es: seq<int>, maximizing: bool, alpha: int, beta: int)
  {
    && SearchedInOrder(vals, es, maximizing, alpha, beta)
    && (|es| < |vals| ==> 0 < |es| && !Open(alpha, beta, es, maximizing))
  }

  /** One more child, searched with the window the earlier results left,
      extends the results searched in order. */
  lemma SearchedStep(vals: seq<int>, es: seq<int>, e: int, maximizing: bool, alpha: int, beta: int)
    requires SearchedInOrder(vals, es, maximizing, alpha, beta) && |es| < |vals|
    requires 0 < |es| ==> Open(alpha, beta, es, maximizing)
    requires MaxStart <= e <= MinStart
    requires Open(alpha, beta, es, maximizing) ==>
      AlphaBetaBound(e, ChildAlpha(alpha, es, maximizing), ChildBeta(beta, es, maximizing), vals[|es|])
    ensures SearchedInOrder(vals, es + [e], maximizing, alpha, beta)
  {
    assert (es + [e])[..|es|] == es;
  }

  /** The record a ply's loop keeps of its first k children: their
      pruned results `es`, searched in order, the narrowed bound `window`
      they left, and an open window if at least one was searched. */
  ghost predicate LoopTrace(vals: seq<int>, es: seq<int>, k: int, maximizing: bool,
                            alpha: int, beta: int, window: int)
  {
    && |es| == k
    && window == (if maximizing then ChildAlpha(alpha, es, true) else ChildBeta(beta, es, false))
    && SearchedInOrder(vals, es, maximizing, alpha, beta)
    && (0 < k ==> Open(alpha, beta, es, maximizing))
  }

  /** One more child: its result is recorded, the bound is narrowed to it,
      and the loop either goes on or has ended on a cutoff. */
  lemma TraceStep(vals: seq<int>, es: seq<int>, k: int, maximizing: bool, alpha: int, beta: int,
                  window: int, e: int, es': seq<int>, window': int)
    requires LoopTrace(vals, es, k, maximizing, alpha, beta, window) && k < |vals|
    requires MaxStart <= e <= MinStart
    requires maximizing && window < beta ==> AlphaBetaBound(e, window, beta, vals[k])
    requires !maximizing && alpha < window ==> AlphaBetaBound(e, alpha, window, vals[k])
    requires window' == if maximizing then Max(window, e) else Min(window, e)
    requires es' == es + [e]
    ensures Cutoff(maximizing, alpha, beta, window') ==> PrunedResults(vals, es', maximizing, alpha, beta)
    ensures !Cutoff(maximizing, alpha, beta, window') ==>
      LoopTrace(vals, es', k + 1, maximizing, alpha, beta, window')
  {
    NarrowStep(if maximizing then alpha else beta, es, e, maximizing);
    SearchedStep(vals, es, e, maximizing, alpha, beta);
  }

  /** A loop that ran through every child has its pruned results. */
  lemma TraceDone(vals: seq<int>, es: seq<int>, maximizing: bool, alpha: int, beta: int, window: int)
    requires LoopTrace(vals, es, |vals|, maximizing, alpha, beta, window)
    ensures PrunedResults(vals, es, maximizing, alpha, beta)
  {
  }
}
