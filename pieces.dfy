/** The chess pieces and the material table of the engine. */
module Pieces {

  datatype Color = White | Black

  datatype PieceType = Pawn | Knight | Bishop | Rook | Queen | King

  datatype Piece = Piece(color: Color, kind: PieceType)

  /** What stands on one square of the board. */
  datatype Square = Empty | Occupied(piece: Piece)

  /** The board has 64 squares. */
  const BoardSize: nat := 64

  /** The order in which the engine enumerates the piece types. */
  const PieceTypes: seq<PieceType> := [Pawn, Knight, Bishop, Rook, Queen, King]

  /** The material value of a piece type; a king is worth nothing. */
  function PieceValue(kind: PieceType): (v: nat)
    ensures v <= 9
    ensures v == 0 <==> kind == King
  {
    match kind
    case Pawn => 1
    case Knight => 3
    case Bishop => 3
    case Rook => 5
    case Queen => 9
    case King => 0
  }

  function Opponent(c: Color): (r: Color)
    ensures r != c
  {
    if c == White then Black else White
  }

  /** The same square with the colours of its piece exchanged. */
  function SwapSquare(sq: Square): (r: Square)
    ensures r.Empty? <==> sq.Empty?
    ensures sq.Occupied? ==> r.piece.kind == sq.piece.kind && r.piece.color == Opponent(sq.piece.color)
  {
    match sq
    case Empty => Empty
    case Occupied(p) => Occupied(Piece(Opponent(p.color), p.kind))
  }

  /** A board with every piece given to the opponent. */
  function SwapColors(squares: seq<Square>): (r: seq<Square>)
    ensures |r| == |squares|
    ensures forall i :: 0 <= i < |squares| ==> r[i] == SwapSquare(squares[i])
  {
    seq(|squares|, i requires 0 <= i < |squares| => SwapSquare(squares[i]))
  }
}
