/**
 * The static evaluator `evaluate_board`. Positive scores favour black, the
 * side the search maximises. It adds two terms:
 *   - per piece type, ten times (black count - white count);
 *   - the material sum, +value per white piece and -value per black piece.
 * Together every black piece is worth `10 - value` and every white piece
 * `-(10 - value)`, which is the closed form `BoardValue` below.
 */
module Evaluation {
  import opened Pieces
  import opened Rules

  /** The black-minus-white count of one piece type. */
  function Diff(squares: seq<Square>, kind: PieceType): int
  {
    CountPieces(squares, Black, kind) - CountPieces(squares, White, kind)
  }

  /** The first loop after the first `|kinds|` piece types: the count differential. */
  function CountTerm(squares: seq<Square>, kinds: seq<PieceType>): int
  {
    if kinds == [] then 0
    else
      var kind := kinds[|kinds| - 1];
      CountTerm(squares, kinds[..|kinds| - 1]) + Diff(squares, kind) * 10
  }

  /** One square's share of `material_value`. */
  function MaterialOf(sq: Square): int
  {
    match sq
    case Empty => 0
    case Occupied(p) => if p.color == White then PieceValue(p.kind) else -(PieceValue(p.kind) as int)
  }

  /** The second loop: the material value of the squares. */
  function Material(squares: seq<Square>): int
  {
    if squares == [] then 0
    else Material(squares[..|squares| - 1]) + MaterialOf(squares[|squares| - 1])
  }

  /** What one square contributes to the evaluation, both terms together. */
  function Contribution(sq: Square): int
  {
    match sq
    case Empty => 0
    case Occupied(p) => if p.color == Black then 10 - PieceValue(p.kind) else -(10 - PieceValue(p.kind))
  }

  /** The evaluation in closed form: the sum of the squares' contributions. */
  function BoardValue(squares: seq<Square>): int
  {
    if squares == [] then 0
    else BoardValue(squares[..|squares| - 1]) + Contribution(squares[|squares| - 1])
  }

  /** The number of occupied squares. */
  function Occupancy(squares: seq<Square>): (k: nat)
    ensures k <= |squares|
  {
    if squares == [] then 0
    else Occupancy(squares[..|squares| - 1]) + (if squares[|squares| - 1].Occupied? then 1 else 0)
  }

  /** How one square changes the black-minus-white count of one piece type. */
  function KindShare(sq: Square, kind: PieceType): int
  {
    if sq == Occupied(Piece(Black, kind)) then 1
    else if sq == Occupied(Piece(White, kind)) then -1
    else 0
  }

  /** The count differential over `kinds` contributed by one square. */
  function CountShare(sq: Square, kinds: seq<PieceType>): int
  {
    if kinds == [] then 0
    else CountShare(sq, kinds[..|kinds| - 1]) + KindShare(sq, kinds[|kinds| - 1]) * 10
  }

  lemma DiffSnoc(squares: seq<Square>, sq: Square, kind: PieceType)
    ensures Diff(squares + [sq], kind) == Diff(squares, kind) + KindShare(sq, kind)
  {
    assert (squares + [sq])[..|squares + [sq]| - 1] == squares;
  }

  lemma {:induction false} CountTermSnoc(squares: seq<Square>, sq: Square, kinds: seq<PieceType>)
    ensures CountTerm(squares + [sq], kinds) == CountTerm(squares, kinds) + CountShare(sq, kinds)
  {
    if kinds != [] {
      CountTermSnoc(squares, sq, kinds[..|kinds| - 1]);
      DiffSnoc(squares, sq, kinds[|kinds| - 1]);
    }
  }

  /** Over all six piece types, a piece adds ten for black and subtracts ten for white. */
  lemma CountShareAll(sq: Square)
    ensures CountShare(sq, PieceTypes) == match sq
      case Empty => 0
      case Occupied(p) => if p.color == Black then 10 else -10
  {
    var k := PieceTypes;
    assert [Pawn][..0] == [];
    assert [Pawn, Knight][..1] == [Pawn];
    assert [Pawn, Knight, Bishop][..2] == [Pawn, Knight];
    assert [Pawn, Knight, Bishop, Rook][..3] == [Pawn, Knight, Bishop];
    assert [Pawn, Knight, Bishop, Rook, Queen][..4] == [Pawn, Knight, Bishop, Rook];
    assert k[..5] == [Pawn, Knight, Bishop, Rook, Queen];
    var s1 := CountShare(sq, [Pawn]);
    var s2 := CountShare(sq, [Pawn, Knight]);
    var s3 := CountShare(sq, [Pawn, Knight, Bishop]);
    var s4 := CountShare(sq, [Pawn, Knight, Bishop, Rook]);
    var s5 := CountShare(sq, [Pawn, Knight, Bishop, Rook, Queen]);
    assert CountShare(sq, k) == s5 + KindShare(sq, King) * 10;
    assert s5 == s4 + KindShare(sq, Queen) * 10;
    assert s4 == s3 + KindShare(sq, Rook) * 10;
    assert s3 == s2 + KindShare(sq, Bishop) * 10;
    assert s2 == s1 + KindShare(sq, Knight) * 10;
    assert CountShare(sq, []) == 0;
    assert s1 == KindShare(sq, Pawn) * 10;
    match sq {
      case Empty =>
      case Occupied(p) =>
        match p.kind {
          case Pawn => case Knight => case Bishop => case Rook => case Queen => case King =>
        }
    }
  }

  /** The two loops of `evaluate_board` add up to the closed form. */
  lemma {:induction false} TermsAddUp(squares: seq<Square>)
    ensures CountTerm(squares, PieceTypes) + Material(squares) == BoardValue(squares)
  {
    if squares == [] {
      ZeroCounts(PieceTypes);
    } else {
      var rest, sq := squares[..|squares| - 1], squares[|squares| - 1];
      assert squares == rest + [sq];
      TermsAddUp(rest);
      CountTermSnoc(rest, sq, PieceTypes);
      CountShareAll(sq);
    }
  }

  lemma {:induction false} ZeroCounts(kinds: seq<PieceType>)
    ensures CountTerm([], kinds) == 0
  {
    if kinds != [] {
      ZeroCounts(kinds[..|kinds| - 1]);
    }
  }

  /** Every piece contributes between 1 and 10 in magnitude, an empty square nothing. */
  lemma ContributionBounds(sq: Square)
    ensures sq.Empty? ==> Contribution(sq) == 0
    ensures sq.Occupied? && sq.piece.color == Black ==> 1 <= Contribution(sq) <= 10
    ensures sq.Occupied? && sq.piece.color == White ==> -10 <= Contribution(sq) <= -1
  {
  }

  /** The evaluation is at most ten per piece in magnitude. */
  lemma {:induction false} BoardValueBound(squares: seq<Square>)
    ensures -10 * Occupancy(squares) <= BoardValue(squares) <= 10 * Occupancy(squares)
  {
    if squares != [] {
      BoardValueBound(squares[..|squares| - 1]);
      ContributionBounds(squares[|squares| - 1]);
    }
  }

  /** On a board of 64 squares the evaluation lies in [-640, 640]. */
  lemma FullBoardBound(squares: seq<Square>)
    requires |squares| == BoardSize
    ensures -640 <= BoardValue(squares) <= 640
  {
    BoardValueBound(squares);
  }

  /** Exchanging the colours of all pieces negates the evaluation. */
  lemma {:induction false} SwapNegates(squares: seq<Square>)
    ensures BoardValue(SwapColors(squares)) == -BoardValue(squares)
  {
    if squares != [] {
      var rest := squares[..|squares| - 1];
      SwapNegates(rest);
      assert SwapColors(squares)[..|squares| - 1] == SwapColors(rest);
    }
  }

  /** A board without pieces scores 0. */
  lemma {:induction false} EmptyBoardZero(squares: seq<Square>)
    requires forall i :: 0 <= i < |squares| ==> squares[i] == Empty
    ensures BoardValue(squares) == 0
  {
    if squares != [] {
      EmptyBoardZero(squares[..|squares| - 1]);
    }
  }

  /** The evaluation grouped by piece type: (10 - value) * (black count - white count). */
  function ByKind(squares: seq<Square>, kinds: seq<PieceType>): int
  {
    if kinds == [] then 0
    else
      var kind := kinds[|kinds| - 1];
      ByKind(squares, kinds[..|kinds| - 1]) + (10 - PieceValue(kind)) * Diff(squares, kind)
  }

  /** The share of one square in `ByKind` over all six piece types is its contribution. */
  lemma {:induction false} ByKindSnoc(squares: seq<Square>, sq: Square, kinds: seq<PieceType>)
    ensures ByKind(squares + [sq], kinds) == ByKind(squares, kinds) + ByKindShare(sq, kinds)
  {
    if kinds != [] {
      var kind := kinds[|kinds| - 1];
      ByKindSnoc(squares, sq, kinds[..|kinds| - 1]);
      DiffSnoc(squares, sq, kind);
      Distribute(10 - PieceValue(kind), Diff(squares, kind), KindShare(sq, kind));
    }
  }

  lemma Distribute(w: int, d: int, e: int)
    ensures w * (d + e) == w * d + e * w
  {
  }

  function ByKindShare(sq: Square, kinds: seq<PieceType>): int
  {
    if kinds == [] then 0
    else
      var kind := kinds[|kinds| - 1];
      ByKindShare(sq, kinds[..|kinds| - 1]) + KindShare(sq, kind) * (10 - PieceValue(kind))
  }

  lemma ByKindShareAll(sq: Square)
    ensures ByKindShare(sq, PieceTypes) == Contribution(sq)
  {
    var k := PieceTypes;
    assert [Pawn][..0] == [];
    assert [Pawn, Knight][..1] == [Pawn];
    assert [Pawn, Knight, Bishop][..2] == [Pawn, Knight];
    assert [Pawn, Knight, Bishop, Rook][..3] == [Pawn, Knight, Bishop];
    assert [Pawn, Knight, Bishop, Rook, Queen][..4] == [Pawn, Knight, Bishop, Rook];
    assert k[..5] == [Pawn, Knight, Bishop, Rook, Queen];
    var s1 := ByKindShare(sq, [Pawn]);
    var s2 := ByKindShare(sq, [Pawn, Knight]);
    var s3 := ByKindShare(sq, [Pawn, Knight, Bishop]);
    var s4 := ByKindShare(sq, [Pawn, Knight, Bishop, Rook]);
    var s5 := ByKindShare(sq, [Pawn, Knight, Bishop, Rook, Queen]);
    assert ByKindShare(sq, k) == s5 + KindShare(sq, King) * 10;
    assert s5 == s4 + KindShare(sq, Queen) * 1;
    assert s4 == s3 + KindShare(sq, Rook) * 5;
    assert s3 == s2 + KindShare(sq, Bishop) * 7;
    assert s2 == s1 + KindShare(sq, Knight) * 7;
    assert ByKindShare(sq, []) == 0;
    assert s1 == KindShare(sq, Pawn) * 9;
    match sq {
      case Empty =>
      case Occupied(p) =>
    }
  }

  lemma {:induction false} ByKindEmpty(kinds: seq<PieceType>)
    ensures ByKind([], kinds) == 0
  {
    if kinds != [] {
      ByKindEmpty(kinds[..|kinds| - 1]);
    }
  }

  /** The evaluation is the per-type sum of (10 - value) times the count differential. */
  lemma {:induction false} BoardValueByKind(squares: seq<Square>)
    ensures BoardValue(squares) == ByKind(squares, PieceTypes)
  {
    if squares == [] {
      ByKindEmpty(PieceTypes);
    } else {
      var rest, sq := squares[..|squares| - 1], squares[|squares| - 1];
      assert squares == rest + [sq];
      BoardValueByKind(rest);
      ByKindSnoc(rest, sq, PieceTypes);
      ByKindShareAll(sq);
    }
  }

  lemma {:induction false} ByKindBalanced(squares: seq<Square>, kinds: seq<PieceType>)
    requires forall k :: CountPieces(squares, Black, k) == CountPieces(squares, White, k)
    ensures ByKind(squares, kinds) == 0
  {
    if kinds != [] {
      ByKindBalanced(squares, kinds[..|kinds| - 1]);
      assert Diff(squares, kinds[|kinds| - 1]) == 0;
    }
  }

  /** When both sides have the same number of pieces of each type, the score is 0. */
  lemma BalancedMaterialZero(squares: seq<Square>)
    requires forall k :: CountPieces(squares, Black, k) == CountPieces(squares, White, k)
    ensures BoardValue(squares) == 0
  {
    BoardValueByKind(squares);
    ByKindBalanced(squares, PieceTypes);
  }

  /**
   * `evaluate_board`: the count loop over the six piece types, then the
   * material loop over the squares.
   */
  method EvaluateBoard(board: Board) returns (score: int)
    ensures score == BoardValue(board.PieceMap())
    ensures -10 * Occupancy(board.PieceMap()) <= score <= 10 * Occupancy(board.PieceMap())
  {
    var squares := board.PieceMap();
    score := 0;
    var k := 0;
    while k < |PieceTypes|
      invariant 0 <= k <= |PieceTypes|
      invariant score == CountTerm(squares, PieceTypes[..k])
    {
      var kind := PieceTypes[k];
      assert PieceTypes[..k + 1][..k] == PieceTypes[..k];
      score := score + (board.Pieces(kind, Black) - board.Pieces(kind, White)) * 10;
      k := k + 1;
    }
    assert PieceTypes[..k] == PieceTypes;

    var materialValue := 0;
    var i := 0;
    while i < |squares|
      invariant 0 <= i <= |squares|
      invariant materialValue == Material(squares[..i])
    {
      assert squares[..i + 1][..i] == squares[..i];
      match squares[i] {
        case Empty =>
        case Occupied(piece) =>
          if piece.color == White {
            materialValue := materialValue + PieceValue(piece.kind);
          } else if piece.color == Black {
            materialValue := materialValue - PieceValue(piece.kind);
          }
      }
      i := i + 1;
    }
    assert squares[..i] == squares;

    score := score + materialValue;
    TermsAddUp(squares);
    BoardValueBound(squares);
  }
}
