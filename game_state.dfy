/** The game state the search drives, reduced to the interface the engine
    uses: a terminal classification, a board to evaluate, an ordered list of
    legal moves per colour, and move application with undo.  The rules of
    chess behind these operations are parameters (`Rules`), not modelled. */
module GameStates {
  import opened Chess

  /** Result of checkmate_stalemate_checker: 0, 1 (the two checkmates),
      2 (stalemate) or 3 (the game goes on). */
  type StatusCode = c: int | 0 <= c <= 3

  /** The position-level behaviour of the game, over an abstract position
      type `P` and move type `M`. */
  datatype Rules<!P, !M> = Rules(
    status: P -> StatusCode,
    board: P -> Board,
    legalMoves: (P, Colour) -> seq<M>,
    apply: (P, M) -> P)

  /** A game in progress: the current position and a stack of the positions
      that earlier moves left behind, so that each move can be undone. */
  class GameState<P, M> {
    const rules: Rules<P, M>
    var current: P
    var undoStack: seq<P>
    /** Number of moves applied so far (instrumentation only). */
    ghost var applied: nat

    constructor (rules: Rules<P, M>, start: P)
      ensures this.rules == rules && current == start
      ensures undoStack == [] && applied == 0
    {
      this.rules := rules;
      current := start;
      undoStack := [];
      applied := 0;
    }

    function CheckmateStalemate(): StatusCode
      reads this
    {
      rules.status(current)
    }

    function CurrentBoard(): Board
      reads this
    {
      rules.board(current)
    }

    function LegalMoves(colour: Colour): seq<M>
      reads this
    {
      rules.legalMoves(current, colour)
    }

    /** True iff (row, col) is on the board and occupied. */
    predicate IsValidPiece(row: int, col: int)
      reads this
    {
      0 <= row < 8 && 0 <= col < 8 && CurrentBoard()[row][col].Some?
    }

    function GetPiece(row: int, col: int): Piece
      reads this
      requires IsValidPiece(row, col)
    {
      CurrentBoard()[row][col].value
    }

    /** Applies `m` and remembers the position it replaced. */
    method MovePiece(m: M)
      modifies this
      ensures current == rules.apply(old(current), m)
      ensures undoStack == old(undoStack) + [old(current)]
      ensures applied == old(applied) + 1
    {
      undoStack := undoStack + [current];
      current := rules.apply(current, m);
      applied := applied + 1;
    }

    /** Restores the position before the most recent move; with nothing to
        undo it reports failure and changes nothing. */
    method UndoMove() returns (undone: bool)
      modifies this
      ensures undone <==> old(undoStack) != []
      ensures undone ==> current == old(undoStack)[|old(undoStack)| - 1]
      ensures undone ==> undoStack == old(undoStack)[..|old(undoStack)| - 1]
      ensures !undone ==> current == old(current) && undoStack == old(undoStack)
      ensures applied == old(applied)
    {
      undone := undoStack != [];
      if undone {
        current := undoStack[|undoStack| - 1];
        undoStack := undoStack[..|undoStack| - 1];
      }
    }
  }
}
