/**
 The interface the engine consumes from the `chess` crate.

 Positions are an uninterpreted type parameter `B`; the crate's operations
 (move generation, move application, status, piece placement, king squares,
 single-move legality, check detection and the null move) are gathered in a
 `Rules<B>` record of total functions. Nothing about how the crate computes
 them is assumed beyond their shapes.
 */
module Chess {

  datatype Option<T> = None | Some(value: T)

  datatype Color = White | Black

  datatype Piece = Pawn | Knight | Bishop | Rook | Queen | King

  /** `BoardStatus` of the crate. */
  datatype Status = Ongoing | Stalemate | Checkmate

  /** A file or rank index, 0 for file a / rank 1 up to 7 for file h / rank 8. */
  type Coord = x: int | 0 <= x < 8

  datatype Square = Square(file: Coord, rank: Coord)

  /** `ChessMove::new(source, dest, promotion)`. */
  datatype Move = Move(source: Square, dest: Square, promotion: Option<Piece>)

  /** The square one rank towards Black's side, if the board has one. */
  function Up(s: Square): Option<Square> {
    if s.rank < 7 then Some(Square(s.file, s.rank + 1)) else None
  }

  /** The square one rank towards White's side, if the board has one. */
  function Down(s: Square): Option<Square> {
    if s.rank > 0 then Some(Square(s.file, s.rank - 1)) else None
  }

  /** The square one file towards the a-file, if the board has one. */
  function Left(s: Square): Option<Square> {
    if s.file > 0 then Some(Square(s.file - 1, s.rank)) else None
  }

  /** The square one file towards the h-file, if the board has one. */
  function Right(s: Square): Option<Square> {
    if s.file < 7 then Some(Square(s.file + 1, s.rank)) else None
  }

  /**
   The rules engine, as the functions the search calls on a board.
   - legalMoves: `MoveGen::new_legal(&board)`, in generation order
   - makeMove: `board.make_move_new(mv)`
   - status: `board.status()`
   - sideToMove: `board.side_to_move()`
   - pieces: the kind of the piece on each square of `board.color_combined(c)`
   - kingSquare: `board.king_square(c)`
   - legal: `board.legal(mv)`
   - inCheck: `board.checkers()` is a non-empty bitboard
   - nullMove: `board.null_move().unwrap()`; the engine asks for it only when
     the side to move is not in check, where the crate always supplies it
   */
  datatype Rules<!B> = Rules(
    legalMoves: B -> seq<Move>,
    makeMove: (B, Move) -> B,
    status: B -> Status,
    sideToMove: B -> Color,
    pieces: (B, Color) -> seq<Piece>,
    kingSquare: (B, Color) -> Square,
    legal: (B, Move) -> bool,
    inCheck: B -> bool,
    nullMove: B -> B)
}
