// The interface the engine uses from the chess rules library. The library
// itself is not modelled: a position is an opaque value of type P, a move an
// opaque value of type M, and every query the engine makes of the library is
// a total function carried by a `Rules` record that the caller supplies.

module Chess {

  datatype Option<+T> = None | Some(value: T)

  /** The two sides. The engine's `color` is one of them. */
  datatype Color = White | Black {
    function Opponent(): (c: Color)
      ensures c != this
    {
      if this == White then Black else White
    }
  }

  /** Piece types are small integers, numbered as the rules library numbers them. */
  type PieceType = int

  const PAWN: PieceType := 1
  const KNIGHT: PieceType := 2
  const BISHOP: PieceType := 3
  const ROOK: PieceType := 4
  const QUEEN: PieceType := 5
  const KING: PieceType := 6

  /** The library's list of piece types, in its order. */
  const PieceTypes: seq<PieceType> := [PAWN, KNIGHT, BISHOP, ROOK, QUEEN, KING]

  /** Squares are numbered 0..63 file-first from a1. */
  type Square = int

  const D4: Square := 27
  const E4: Square := 28
  const D5: Square := 35
  const E5: Square := 36

  datatype Piece = Piece(pieceType: PieceType, color: Color)

  /** What the engine asks of the rules library about positions P and moves M. */
  datatype Rules<!P, !M> = Rules(
    legalMoves: P -> seq<M>,           // legal moves, in the library's enumeration order
    after: (P, M) -> P,                // the position after a push of the move (undone by pop)
    turn: P -> Color,                  // side to move
    isGameOver: P -> bool,             // mate, stalemate or any draw rule
    fullmoveNumber: P -> int,
    hash: P -> int,                    // Zobrist hash of the position
    pieceCount: (P, PieceType, Color) -> nat,
    pieceAt: (P, Square) -> Option<Piece>,
    isCapture: (P, M) -> bool,
    isCheck: P -> bool                 // the side to move is in check
  )
}
