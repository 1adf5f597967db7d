/**
 * `find_best_move`: black is always the maximising side. Black's search
 * starts with (alpha, beta) = (-infinity, +infinity), white's with
 * (+infinity, -infinity). When the search returns no move and the position is
 * checkmate, the score becomes -infinity if white is to move and +infinity if
 * black is to move.
 */
module Selector {
  import opened Wrappers
  import opened Scores
  import opened Pieces
  import opened Rules
  import opened Evaluation
  import opened Search
  import opened Pruning

  /** The `minimax` call of `find_best_move`, with the side and window fixed by the turn. */
  function RootSearch(n: Node, depth: nat): SearchResult
  {
    if n.turn == Black then AlphaBeta(n, depth, NegInf, PosInf, true)
    else AlphaBeta(n, depth, PosInf, NegInf, false)
  }

  /** `find_best_move` on the position `n`. */
  function SelectMove(n: Node, depth: nat): SearchResult
  {
    var r := RootSearch(n, depth);
    if r.move == None && n.checkmate then SearchResult(if n.turn == White then NegInf else PosInf, None)
    else r
  }

  /** `find_best_move` on the shared board, which it leaves as it found it. */
  method FindBestMove(board: Board, depth: nat) returns (score: Score, bestMove: Option<Move>)
    requires board.Valid()
    modifies board
    ensures board.Valid()
    ensures board.current == old(board.current) && board.stack == old(board.stack)
    ensures board.moveStack == old(board.moveStack)
    ensures SearchResult(score, bestMove) == SelectMove(old(board.current), depth)
  {
    var maximizingPlayer, alpha, beta;
    if board.Turn() == Black {
      maximizingPlayer, alpha, beta := true, NegInf, PosInf;
    } else {
      maximizingPlayer, alpha, beta := false, PosInf, NegInf;
    }
    score, bestMove := Minimax(board, depth, alpha, beta, maximizingPlayer);
    if bestMove == None && board.IsCheckmate() {
      if board.Turn() == White {
        score := NegInf;
      } else {
        score := PosInf;
      }
      return score, None;
    }
  }

  /**
   * Black to move: unless the position is checkmate, the score is the
   * unpruned minimax value, and the move is the first legal move attaining
   * it (none when the value is -infinity).
   */
  lemma BlackSelectsMinimax(n: Node, depth: nat)
    requires n.turn == Black && !n.checkmate
    ensures SelectMove(n, depth).score == MinimaxValue(n, depth, true)
    ensures 0 < depth && !n.gameOver ==>
              SelectMove(n, depth).move == MoveAt(n, FirstBest(n, depth, |n.branches|))
  {
    MaxNodeExact(n, depth, NegInf);
    if 0 < depth && !n.gameOver {
      MaxNodeMove(n, depth, NegInf);
    }
  }

  /**
   * Black to move in a position that is searched further: the move returned
   * is a legal move whose value is the score, and every earlier legal move is
   * strictly worse.
   */
  lemma BlackMoveIsFirstBest(n: Node, depth: nat)
    requires n.turn == Black && !n.checkmate && 0 < depth && !n.gameOver
    ensures var r := SelectMove(n, depth);
            r.move.None? <==> r.score == NegInf
    ensures var r := SelectMove(n, depth);
            r.move.Some? ==>
              exists j :: 0 <= j < |n.branches| && r.move == Some(Moves(n)[j])
                && MinimaxValue(Child(n, j), depth - 1, false) == r.score
                && forall i :: 0 <= i < j ==> Less(MinimaxValue(Child(n, i), depth - 1, false), r.score)
  {
    BlackSelectsMinimax(n, depth);
    FirstBestIsFirst(n, depth, |n.branches|);
  }

  /**
   * White to move: the search stops after the first legal move whose value
   * is below +infinity, and returns that move with its value; the later
   * moves are never looked at.
   */
  lemma WhiteStopsAtFirstMove(n: Node, depth: nat, j: nat)
    requires n.turn == White && 0 < depth && !n.gameOver && j < |n.branches|
    requires MinimaxValue(Child(n, j), depth - 1, true) != PosInf
    requires forall k :: 0 <= k < j ==> MinimaxValue(Child(n, k), depth - 1, true) == PosInf
    ensures SelectMove(n, depth) == SearchResult(MinimaxValue(Child(n, j), depth - 1, true), Some(Moves(n)[j]))
  {
    MinNodeAtTop(n, depth, NegInf, j);
  }

  /** In a coherent game, white always plays its first legal move, scored by black's best reply. */
  lemma WhitePlaysFirstMove(n: Node, depth: nat)
    requires Coherent(n) && n.turn == White && 0 < depth && !n.gameOver
    ensures |n.branches| > 0
    ensures SelectMove(n, depth) == SearchResult(MinimaxValue(Child(n, 0), depth - 1, true), Some(Moves(n)[0]))
  {
    CoherentChild(n, 0);
    CoherentValueBounded(Child(n, 0), depth - 1, true);
    WhiteStopsAtFirstMove(n, depth, 0);
  }

  /** Checkmate: the sentinel score for the side to move, and no move. */
  lemma CheckmateSentinel(n: Node, depth: nat)
    requires Coherent(n) && n.checkmate
    ensures SelectMove(n, depth) == SearchResult(if n.turn == White then NegInf else PosInf, None)
  {
  }

  /** A position without legal moves that is not checkmate scores its evaluation, with no move. */
  lemma StalemateScoresEvaluation(n: Node, depth: nat)
    requires Coherent(n) && n.branches == [] && !n.checkmate
    ensures SelectMove(n, depth) == SearchResult(Fin(BoardValue(n.squares)), None)
  {
  }

  /**
   * In a coherent game the selector returns no move exactly when the depth
   * is 0 or the game is over, and a returned move is legal.
   */
  lemma NoMoveOnlyAtLeaf(n: Node, depth: nat)
    requires Coherent(n)
    ensures SelectMove(n, depth).move.None? <==> depth == 0 || n.gameOver
    ensures SelectMove(n, depth).move.Some? ==> SelectMove(n, depth).move.value in Moves(n)
  {
    if 0 < depth && !n.gameOver {
      if n.turn == Black {
        CoherentValueBounded(n, depth, true);
        BlackSelectsMinimax(n, depth);
        BlackMoveIsFirstBest(n, depth);
        MoveIsLegal(n, depth, NegInf, PosInf, true);
      } else {
        WhitePlaysFirstMove(n, depth);
      }
    }
  }

  /** Away from checkmate, the selector returns the search result unchanged. */
  lemma SentinelOnlyAtCheckmate(n: Node, depth: nat)
    ensures SelectMove(n, depth) != RootSearch(n, depth) ==>
              n.checkmate && RootSearch(n, depth).move == None && SelectMove(n, depth).move == None
    ensures SelectMove(n, depth).score.Fin? ==> SelectMove(n, depth) == RootSearch(n, depth)
  {
  }

  // ---------------------------------------------------------------------
  // White's window

  /** A white position with two moves whose replies score 9 and 1. */
  function WhiteExample(): Node
  {
    var pawnLeft := Node([Occupied(Piece(Black, Pawn))], Black, true, false, []);
    var queenLeft := Node([Occupied(Piece(Black, Queen))], Black, true, false, []);
    Node([], White, false, false, [Branch(Move(0, 1, None), pawnLeft), Branch(Move(0, 2, None), queenLeft)])
  }

  /**
   * As written, white's search does not find the minimum: here it returns
   * the first move with score 9, although the second move scores 1.
   */
  lemma WhiteIsNotMinimax()
    ensures SelectMove(WhiteExample(), 1) == SearchResult(Fin(9), Some(Move(0, 1, None)))
    ensures MinimaxValue(WhiteExample(), 1, false) == Fin(1)
  {
    var n := WhiteExample();
    assert Moves(n) == [Move(0, 1, None), Move(0, 2, None)];
    assert Child(n, 0) == n.branches[0].next;
    assert Child(n, 1) == n.branches[1].next;
    assert BoardValue(Child(n, 0).squares) == 9;
    assert BoardValue(Child(n, 1).squares) == 1;
    WhiteStopsAtFirstMove(n, 1, 0);
  }

  /** The selector with the window -infinity..+infinity for both sides. */
  function IntendedSelectMove(n: Node, depth: nat): SearchResult
  {
    var r := AlphaBeta(n, depth, NegInf, PosInf, n.turn == Black);
    if r.move == None && n.checkmate then SearchResult(if n.turn == White then NegInf else PosInf, None)
    else r
  }

  /** With the usual window, the score is the unpruned minimax value for either side. */
  lemma IntendedSelectsMinimax(n: Node, depth: nat)
    requires !n.checkmate
    ensures IntendedSelectMove(n, depth).score == MinimaxValue(n, depth, n.turn == Black)
  {
    if n.turn == Black {
      MaxNodeExact(n, depth, NegInf);
    } else {
      MinNodeExact(n, depth, PosInf);
    }
  }

  /** The two selectors agree for black and differ only in white's window. */
  lemma IntendedAgreesForBlack(n: Node, depth: nat)
    requires n.turn == Black
    ensures IntendedSelectMove(n, depth) == SelectMove(n, depth)
  {
  }
}
