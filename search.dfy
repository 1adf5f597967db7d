/**
 * `minimax`: depth-limited minimax with alpha-beta cutoffs, as the engine
 * writes it. Two details differ from textbook alpha-beta: a maximising node
 * forgets the alpha it is given (it restarts from -infinity) and a minimising
 * node forgets the beta it is given (it restarts from +infinity). So a node
 * only prunes against its parent's best score so far.
 *
 * `MinimaxValue` is plain minimax without pruning; `AlphaBeta`, `MaxLoop`
 * and `MinLoop` describe the code as written; the method `Minimax` runs it
 * on the shared board. The lemmas say how the two searches agree.
 */
module Search {
  import opened Wrappers
  import opened Scores
  import opened Rules
  import opened Evaluation

  /** What a search returns: a score and the move that achieves it, if any. */
  datatype SearchResult = SearchResult(score: Score, move: Option<Move>)

  /** The static score of a position. */
  function Leaf(n: Node): Score
  {
    Fin(BoardValue(n.squares))
  }

  /** The position after the `i`-th legal move. */
  function Child(n: Node, i: nat): Node
    requires i < |n.branches|
  {
    After(n, Moves(n)[i])
  }

  // ---------------------------------------------------------------------
  // Minimax without pruning

  /** The minimax value of a position searched to `depth`. */
  function MinimaxValue(n: Node, depth: nat, maximizing: bool): Score
    decreases depth, 1
  {
    if depth == 0 || n.gameOver then Leaf(n)
    else if maximizing then MaxOf(n, depth, |n.branches|)
    else MinOf(n, depth, |n.branches|)
  }

  /** The largest value among the first `k` children, -infinity if there are none. */
  function MaxOf(n: Node, depth: nat, k: nat): Score
    requires 0 < depth && k <= |n.branches|
    decreases depth, 0, k
  {
    if k == 0 then NegInf
    else Max(MaxOf(n, depth, k - 1), MinimaxValue(Child(n, k - 1), depth - 1, false))
  }

  /** The smallest value among the first `k` children, +infinity if there are none. */
  function MinOf(n: Node, depth: nat, k: nat): Score
    requires 0 < depth && k <= |n.branches|
    decreases depth, 0, k
  {
    if k == 0 then PosInf
    else Min(MinOf(n, depth, k - 1), MinimaxValue(Child(n, k - 1), depth - 1, true))
  }

  /** `MaxOf` bounds every child seen from above. */
  lemma {:induction false} MaxOfUpper(n: Node, depth: nat, k: nat, i: nat)
    requires 0 < depth && i < k <= |n.branches|
    ensures Le(MinimaxValue(Child(n, i), depth - 1, false), MaxOf(n, depth, k))
  {
    if i < k - 1 {
      MaxOfUpper(n, depth, k - 1, i);
    }
  }

  /** `MaxOf` is the value of one of the children seen, or -infinity. */
  lemma {:induction false} MaxOfAttained(n: Node, depth: nat, k: nat) returns (i: nat)
    requires 0 < depth && k <= |n.branches|
    requires MaxOf(n, depth, k) != NegInf
    ensures i < k && MaxOf(n, depth, k) == MinimaxValue(Child(n, i), depth - 1, false)
  {
    if Less(MaxOf(n, depth, k - 1), MinimaxValue(Child(n, k - 1), depth - 1, false)) {
      i := k - 1;
    } else {
      i := MaxOfAttained(n, depth, k - 1);
    }
  }

  /** `MinOf` bounds every child seen from below. */
  lemma {:induction false} MinOfLower(n: Node, depth: nat, k: nat, i: nat)
    requires 0 < depth && i < k <= |n.branches|
    ensures Le(MinOf(n, depth, k), MinimaxValue(Child(n, i), depth - 1, true))
  {
    if i < k - 1 {
      MinOfLower(n, depth, k - 1, i);
    }
  }

  /** `MinOf` is the value of one of the children seen, or +infinity. */
  lemma {:induction false} MinOfAttained(n: Node, depth: nat, k: nat) returns (i: nat)
    requires 0 < depth && k <= |n.branches|
    requires MinOf(n, depth, k) != PosInf
    ensures i < k && MinOf(n, depth, k) == MinimaxValue(Child(n, i), depth - 1, true)
  {
    if Less(MinimaxValue(Child(n, k - 1), depth - 1, true), MinOf(n, depth, k - 1)) {
      i := k - 1;
    } else {
      i := MinOfAttained(n, depth, k - 1);
    }
  }

  // ---------------------------------------------------------------------
  // The search as written

  /** `minimax(board, depth, alpha, beta, maximizing_player)` on the position `n`. */
  function AlphaBeta(n: Node, depth: nat, alpha: Score, beta: Score, maximizing: bool): SearchResult
    decreases depth, 1
  {
    if depth == 0 || n.gameOver then SearchResult(Leaf(n), None)
    else if maximizing then MaxLoop(n, depth, 0, NegInf, beta, NegInf, None)
    else MinLoop(n, depth, 0, alpha, PosInf, PosInf, None)
  }

  /** The maximising loop from the `i`-th legal move on. */
  function MaxLoop(n: Node, depth: nat, i: nat, alpha: Score, beta: Score, best: Score, bestMove: Option<Move>): SearchResult
    requires 0 < depth && i <= |n.branches|
    decreases depth, 0, |n.branches| - i
  {
    if i == |n.branches| then SearchResult(best, bestMove)
    else
      var move := Moves(n)[i];
      var score := AlphaBeta(After(n, move), depth - 1, alpha, beta, false).score;
      if Less(best, score) then
        var alpha' := Max(alpha, score);
        if !Less(alpha', beta) then SearchResult(score, Some(move))
        else MaxLoop(n, depth, i + 1, alpha', beta, score, Some(move))
      else MaxLoop(n, depth, i + 1, alpha, beta, best, bestMove)
  }

  /** The minimising loop from the `i`-th legal move on. */
  function MinLoop(n: Node, depth: nat, i: nat, alpha: Score, beta: Score, best: Score, bestMove: Option<Move>): SearchResult
    requires 0 < depth && i <= |n.branches|
    decreases depth, 0, |n.branches| - i
  {
    if i == |n.branches| then SearchResult(best, bestMove)
    else
      var move := Moves(n)[i];
      var score := AlphaBeta(After(n, move), depth - 1, alpha, beta, true).score;
      if Less(score, best) then
        var beta' := Min(beta, score);
        if !Less(alpha, beta') then SearchResult(score, Some(move))
        else MinLoop(n, depth, i + 1, alpha, beta', score, Some(move))
      else MinLoop(n, depth, i + 1, alpha, beta, best, bestMove)
  }

  /**
   * `minimax` on the shared board: at a leaf the evaluation, otherwise the
   * maximising or the minimising loop over the legal moves.
   */
  method Minimax(board: Board, depth: nat, alpha: Score, beta: Score, maximizingPlayer: bool)
    returns (score: Score, bestMove: Option<Move>)
    requires board.Valid()
    modifies board
    decreases depth, 1
    ensures board.Valid()
    ensures board.current == old(board.current) && board.stack == old(board.stack)
    ensures board.moveStack == old(board.moveStack)
    ensures depth == 0 || old(board.current).gameOver ==>
              score == Fin(BoardValue(old(board.current).squares)) && bestMove == None
    ensures SearchResult(score, bestMove) == AlphaBeta(old(board.current), depth, alpha, beta, maximizingPlayer)
  {
    if depth == 0 || board.IsGameOver() {
      var value := EvaluateBoard(board);
      return Fin(value), None;
    }
    if maximizingPlayer {
      score, bestMove := MaximizingLoop(board, depth, beta);
    } else {
      score, bestMove := MinimizingLoop(board, depth, alpha);
    }
  }

  /**
   * The maximising branch of `minimax`: alpha restarts from -infinity; each
   * move is pushed, searched one ply shallower and popped; only a strictly
   * better score replaces the best one, and raises alpha; the loop stops as
   * soon as alpha reaches beta.
   */
  method MaximizingLoop(board: Board, depth: nat, beta: Score)
    returns (score: Score, bestMove: Option<Move>)
    requires board.Valid() && 0 < depth
    modifies board
    decreases depth, 0
    ensures board.Valid()
    ensures board.current == old(board.current) && board.stack == old(board.stack)
    ensures board.moveStack == old(board.moveStack)
    ensures SearchResult(score, bestMove) == MaxLoop(old(board.current), depth, 0, NegInf, beta, NegInf, None)
  {
    ghost var n := board.current;
    var moves := board.LegalMoves();
    var alpha := NegInf;
    score, bestMove := NegInf, None;
    var i := 0;
    while i < |moves|
      invariant 0 <= i <= |moves| == |n.branches| && moves == Moves(n)
      invariant board.Valid() && board.current == n
      invariant board.stack == old(board.stack) && board.moveStack == old(board.moveStack)
      invariant MaxLoop(n, depth, i, alpha, beta, score, bestMove) == MaxLoop(n, depth, 0, NegInf, beta, NegInf, None)
    {
      var move := moves[i];
      board.Push(move);
      var s, _ := Minimax(board, depth - 1, alpha, beta, false);
      var _ := board.Pop();
      if Less(score, s) {
        score, bestMove := s, Some(move);
        alpha := Max(alpha, s);
        if !Less(alpha, beta) {
          break;
        }
      }
      i := i + 1;
    }
  }

  /**
   * The minimising branch of `minimax`, the mirror image: beta restarts from
   * +infinity and only a strictly smaller score replaces the best one.
   */
  method MinimizingLoop(board: Board, depth: nat, alpha: Score)
    returns (score: Score, bestMove: Option<Move>)
    requires board.Valid() && 0 < depth
    modifies board
    decreases depth, 0
    ensures board.Valid()
    ensures board.current == old(board.current) && board.stack == old(board.stack)
    ensures board.moveStack == old(board.moveStack)
    ensures SearchResult(score, bestMove) == MinLoop(old(board.current), depth, 0, alpha, PosInf, PosInf, None)
  {
    ghost var n := board.current;
    var moves := board.LegalMoves();
    var beta := PosInf;
    score, bestMove := PosInf, None;
    var i := 0;
    while i < |moves|
      invariant 0 <= i <= |moves| == |n.branches| && moves == Moves(n)
      invariant board.Valid() && board.current == n
      invariant board.stack == old(board.stack) && board.moveStack == old(board.moveStack)
      invariant MinLoop(n, depth, i, alpha, beta, score, bestMove) == MinLoop(n, depth, 0, alpha, PosInf, PosInf, None)
    {
      var move := moves[i];
      board.Push(move);
      var s, _ := Minimax(board, depth - 1, alpha, beta, true);
      var _ := board.Pop();
      if Less(s, score) {
        score, bestMove := s, Some(move);
        beta := Min(beta, s);
        if !Less(alpha, beta) {
          break;
        }
      }
      i := i + 1;
    }
  }
}
