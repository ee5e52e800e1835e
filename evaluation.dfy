/** Static evaluation: the material table, the signed value of one piece, and
    the board score that sums it over the 64 squares. */
module Evaluation {
  import opened Chess
  import opened GameStates

  /** PIECE_VALUES: the value of a piece type under each colour key. */
  function PieceValues(name: PieceName, colour: Colour): (v: int)
    ensures colour == White ==> 10 <= v <= 1000
    ensures colour == Black ==> -1000 <= v <= -10
  {
    match name
    case King => if colour == White then 1000 else -1000
    case Queen => if colour == White then 100 else -100
    case Rook => if colour == White then 50 else -50
    case Bishop => if colour == White then 30 else -30
    case Knight => if colour == White then 30 else -30
    case Pawn => if colour == White then 10 else -10
  }

  /** get_piece_value.  The sign rule compares the piece's colour with the
      perspective's colour and negates the entry for that colour on a match;
      the net effect is that the owner never matters. */
  function PieceValue(piece: Piece, player: Player): (v: int)
    ensures v == if player == Player1 then -PieceValues(piece.name, White)
                 else PieceValues(piece.name, White)
  {
    var playerColour := ColourOf(player);
    var pieceColour := ColourOf(piece.owner);
    if pieceColour == playerColour then -PieceValues(piece.name, pieceColour)
    else PieceValues(piece.name, pieceColour)
  }

  function SquareScore(sq: Square, player: Player): int
  {
    match sq
    case None => 0
    case Some(piece) => PieceValue(piece, player)
  }

  /** Score of the squares of one row, accumulated left to right. */
  function RowScore(row: seq<Square>, player: Player): int
    decreases |row|
  {
    if row == [] then 0
    else RowScore(row[..|row| - 1], player) + SquareScore(row[|row| - 1], player)
  }

  /** Score of a sequence of rows, accumulated top to bottom. */
  function GridScore(rows: seq<seq<Square>>, player: Player): int
    decreases |rows|
  {
    if rows == [] then 0
    else GridScore(rows[..|rows| - 1], player) + RowScore(rows[|rows| - 1], player)
  }

  /** The value evaluate_board computes for a board. */
  function BoardScore(b: Board, player: Player): (r: int)
    ensures -1000 * PieceCount(b) <= r <= 1000 * PieceCount(b)
  {
    GridScoreBound(b, player);
    GridScore(b, player)
  }

  /** Independent reference: the white-key table value of every piece on the
      board, whoever owns it. */
  function SquareMaterial(sq: Square): int
  {
    match sq
    case None => 0
    case Some(piece) => PieceValues(piece.name, White)
  }

  function RowMaterial(row: seq<Square>): int
    decreases |row|
  {
    if row == [] then 0 else RowMaterial(row[..|row| - 1]) + SquareMaterial(row[|row| - 1])
  }

  function GridMaterial(rows: seq<seq<Square>>): int
    decreases |rows|
  {
    if rows == [] then 0 else GridMaterial(rows[..|rows| - 1]) + RowMaterial(rows[|rows| - 1])
  }

  function RowCount(row: seq<Square>): nat
    decreases |row|
  {
    if row == [] then 0
    else RowCount(row[..|row| - 1]) + (if row[|row| - 1].Some? then 1 else 0)
  }

  function GridCount(rows: seq<seq<Square>>): nat
    decreases |rows|
  {
    if rows == [] then 0 else GridCount(rows[..|rows| - 1]) + RowCount(rows[|rows| - 1])
  }

  /** Number of occupied squares. */
  function PieceCount(b: Board): nat
  {
    GridCount(b)
  }

  /** evaluate_board: visits the 64 squares row by row and adds the value of
      every piece found. */
  method EvaluateBoard<P, M>(g: GameState<P, M>, player: Player) returns (score: int)
    ensures score == BoardScore(g.CurrentBoard(), player)
  {
    ghost var b := g.CurrentBoard();
    score := 0;
    for row := 0 to 8
      invariant score == GridScore(b[..row], player)
    {
      for col := 0 to 8
        invariant score == GridScore(b[..row], player) + RowScore(b[row][..col], player)
      {
        if g.IsValidPiece(row, col) {
          var piece := g.GetPiece(row, col);
          score := score + PieceValue(piece, player);
        }
        assert b[row][..col + 1][..col] == b[row][..col];
      }
      assert b[..row + 1][..row] == b[..row];
      assert b[row][..8] == b[row];
    }
    assert b[..8] == b;
  }

  lemma {:induction false} RowScoreIsSignedMaterial(row: seq<Square>)
    ensures RowScore(row, Player1) == -RowMaterial(row)
    ensures RowScore(row, Player2) == RowMaterial(row)
    decreases |row|
  {
    if row != [] {
      RowScoreIsSignedMaterial(row[..|row| - 1]);
    }
  }

  lemma {:induction false} GridScoreIsSignedMaterial(rows: seq<seq<Square>>)
    ensures GridScore(rows, Player1) == -GridMaterial(rows)
    ensures GridScore(rows, Player2) == GridMaterial(rows)
    decreases |rows|
  {
    if rows != [] {
      GridScoreIsSignedMaterial(rows[..|rows| - 1]);
      RowScoreIsSignedMaterial(rows[|rows| - 1]);
    }
  }

  /** The score depends on the perspective only: from PLAYER_2's side it is
      the material of every piece on the board, from PLAYER_1's side its
      negation, so the two perspectives are always opposite. */
  lemma ScoreIsSignedMaterial(b: Board)
    ensures BoardScore(b, Player2) == GridMaterial(b)
    ensures BoardScore(b, Player1) == -GridMaterial(b)
    ensures BoardScore(b, Player1) == -BoardScore(b, Player2)
  {
    GridScoreIsSignedMaterial(b);
  }

  lemma {:induction false} RowScoreBound(row: seq<Square>, player: Player)
    ensures -1000 * RowCount(row) <= RowScore(row, player) <= 1000 * RowCount(row)
    ensures RowCount(row) <= |row|
    ensures (forall c | 0 <= c < |row| :: row[c].None?) ==> RowScore(row, player) == 0
    decreases |row|
  {
    if row != [] {
      var init := row[..|row| - 1];
      assert forall c | 0 <= c < |init| :: init[c] == row[c];
      RowScoreBound(init, player);
    }
  }

  lemma {:induction false} GridScoreBound(rows: seq<seq<Square>>, player: Player)
    requires forall r | 0 <= r < |rows| :: |rows[r]| == 8
    ensures -1000 * GridCount(rows) <= GridScore(rows, player) <= 1000 * GridCount(rows)
    ensures GridCount(rows) <= 8 * |rows|
    ensures (forall r, c | 0 <= r < |rows| && 0 <= c < 8 :: rows[r][c].None?) ==> GridScore(rows, player) == 0
    decreases |rows|
  {
    if rows != [] {
      var init := rows[..|rows| - 1];
      assert forall r | 0 <= r < |init| :: init[r] == rows[r];
      GridScoreBound(init, player);
      RowScoreBound(rows[|rows| - 1], player);
    }
  }

  /** One value per occupied square, none above the king's 1000: the score is
      bounded by 1000 times the number of pieces, at most 64000, an empty
      board scores 0, and no board reaches the checkmate score 5000000. */
  lemma ScoreBound(b: Board, player: Player)
    ensures -1000 * PieceCount(b) <= BoardScore(b, player) <= 1000 * PieceCount(b)
    ensures PieceCount(b) <= 64
    ensures -64000 <= BoardScore(b, player) <= 64000
    ensures (forall r, c | 0 <= r < 8 && 0 <= c < 8 :: b[r][c].None?) ==> BoardScore(b, player) == 0
  {
    GridScoreBound(b, player);
  }
}
