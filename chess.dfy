/** Vocabulary shared by the game state and the engine: the two players, the
    colour tags the engine passes around, pieces and the 8x8 board. */
module Chess {

  datatype Option<T> = None | Some(value: T)

  /** The two players; PLAYER_1 owns the white pieces. */
  datatype Player = Player1 | Player2

  /** The colour tags "white" and "black" used as keys of the value table and
      as the argument of the legal-move query. */
  datatype Colour = White | Black

  function ColourOf(p: Player): Colour
  {
    if p == Player1 then White else Black
  }

  function Opposite(c: Colour): Colour
  {
    if c == White then Black else White
  }

  /** Piece types, by their one-letter codes k, q, r, b, n, p. */
  datatype PieceName = King | Queen | Rook | Bishop | Knight | Pawn

  datatype Piece = Piece(name: PieceName, owner: Player)

  /** A square is empty or holds exactly one piece. */
  type Square = Option<Piece>

  predicate IsGrid(g: seq<seq<Square>>)
  {
    |g| == 8 && forall r | 0 <= r < 8 :: |g[r]| == 8
  }

  /** An 8x8 grid of squares, indexed [row][col]. */
  type Board = g: seq<seq<Square>> | IsGrid(g) witness seq(8, _ => seq(8, _ => None))
}
