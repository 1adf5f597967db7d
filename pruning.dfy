/**
 * What the cutoffs of the search preserve. Because a maximising node
 * restarts alpha and a minimising node restarts beta, each node only prunes
 * against one bound, the best score its parent has so far:
 *   - a maximising node searched against `beta` returns the exact minimax
 *     value when that value is below `beta`, and otherwise a score between
 *     `beta` and the value;
 *   - a minimising node searched against `alpha` returns the exact value when
 *     it is above `alpha`, and otherwise a score between the value and `alpha`.
 * The incoming alpha of a maximising node and the incoming beta of a
 * minimising node play no part.
 */
module Pruning {
  import opened Wrappers
  import opened Scores
  import opened Rules
  import opened Search
  import opened Evaluation

  /** The relation between a maximising node's result and its value. */
  predicate MaxCut(r: Score, v: Score, beta: Score)
  {
    (Less(v, beta) ==> r == v) && (!Less(v, beta) ==> Le(beta, r) && Le(r, v))
  }

  /** The relation between a minimising node's result and its value. */
  predicate MinCut(r: Score, v: Score, alpha: Score)
  {
    (Less(alpha, v) ==> r == v) && (!Less(alpha, v) ==> Le(v, r) && Le(r, alpha))
  }

  lemma {:induction false} MaxNodeBound(n: Node, depth: nat, alpha: Score, beta: Score)
    ensures MaxCut(AlphaBeta(n, depth, alpha, beta, true).score, MinimaxValue(n, depth, true), beta)
    decreases depth, 1
  {
    if depth > 0 && !n.gameOver {
      MaxLoopBound(n, depth, 0, beta, None);
    }
  }

  lemma {:induction false} MinNodeBound(n: Node, depth: nat, alpha: Score, beta: Score)
    ensures MinCut(AlphaBeta(n, depth, alpha, beta, false).score, MinimaxValue(n, depth, false), alpha)
    decreases depth, 1
  {
    if depth > 0 && !n.gameOver {
      MinLoopBound(n, depth, 0, alpha, None);
    }
  }

  /** One step of the maximising loop, as far as the scores go. */
  lemma MaxStep(best: Score, s: Score, v: Score, beta: Score, all: Score)
    requires MinCut(s, v, best) && Le(v, all)
    ensures Less(best, s) ==> s == v && Max(best, v) == s && Max(best, s) == s
    ensures Less(best, s) && !Less(s, beta) ==> MaxCut(s, all, beta)
    ensures !Less(best, s) ==> Max(best, v) == best
  {
  }

  /** One step of the minimising loop, as far as the scores go. */
  lemma MinStep(best: Score, s: Score, v: Score, alpha: Score, all: Score)
    requires MaxCut(s, v, best) && Le(all, v)
    ensures Less(s, best) ==> s == v && Min(best, v) == s && Min(best, s) == s
    ensures Less(s, best) && !Less(alpha, s) ==> MinCut(s, all, alpha)
    ensures !Less(s, best) ==> Min(best, v) == best
  {
  }

  /**
   * The maximising loop, entered with the best score so far equal to the
   * maximum of the children seen: each child is searched against it.
   */
  lemma {:induction false} MaxLoopBound(n: Node, depth: nat, i: nat, beta: Score, bestMove: Option<Move>)
    requires 0 < depth && i <= |n.branches|
    ensures MaxCut(MaxLoop(n, depth, i, MaxOf(n, depth, i), beta, MaxOf(n, depth, i), bestMove).score,
                   MaxOf(n, depth, |n.branches|), beta)
    decreases depth, 0, |n.branches| - i
  {
    if i < |n.branches| {
      var best := MaxOf(n, depth, i);
      var c := Child(n, i);
      var s := AlphaBeta(c, depth - 1, best, beta, false).score;
      MinNodeBound(c, depth - 1, best, beta);
      MaxOfUpper(n, depth, |n.branches|, i);
      var v := MinimaxValue(c, depth - 1, false);
      var m := Moves(n)[i];
      MaxStep(best, s, v, beta, MaxOf(n, depth, |n.branches|));
      assert MaxOf(n, depth, i + 1) == Max(best, v);
      if Less(best, s) {
        if Less(s, beta) {
          assert MaxLoop(n, depth, i, best, beta, best, bestMove)
              == MaxLoop(n, depth, i + 1, s, beta, s, Some(m));
          MaxLoopBound(n, depth, i + 1, beta, Some(m));
        } else {
          assert MaxLoop(n, depth, i, best, beta, best, bestMove) == SearchResult(s, Some(m));
        }
      } else {
        assert MaxLoop(n, depth, i, best, beta, best, bestMove)
            == MaxLoop(n, depth, i + 1, best, beta, best, bestMove);
        MaxLoopBound(n, depth, i + 1, beta, bestMove);
      }
    }
  }

  /**
   * The minimising loop, entered with the best score so far equal to the
   * minimum of the children seen: each child is searched against it.
   */
  lemma {:induction false} MinLoopBound(n: Node, depth: nat, i: nat, alpha: Score, bestMove: Option<Move>)
    requires 0 < depth && i <= |n.branches|
    ensures MinCut(MinLoop(n, depth, i, alpha, MinOf(n, depth, i), MinOf(n, depth, i), bestMove).score,
                   MinOf(n, depth, |n.branches|), alpha)
    decreases depth, 0, |n.branches| - i
  {
    if i < |n.branches| {
      var best := MinOf(n, depth, i);
      var c := Child(n, i);
      var s := AlphaBeta(c, depth - 1, alpha, best, true).score;
      MaxNodeBound(c, depth - 1, alpha, best);
      MinOfLower(n, depth, |n.branches|, i);
      var v := MinimaxValue(c, depth - 1, true);
      var m := Moves(n)[i];
      MinStep(best, s, v, alpha, MinOf(n, depth, |n.branches|));
      assert MinOf(n, depth, i + 1) == Min(best, v);
      if Less(s, best) {
        if Less(alpha, s) {
          assert MinLoop(n, depth, i, alpha, best, best, bestMove)
              == MinLoop(n, depth, i + 1, alpha, s, s, Some(m));
          MinLoopBound(n, depth, i + 1, alpha, Some(m));
        } else {
          assert MinLoop(n, depth, i, alpha, best, best, bestMove) == SearchResult(s, Some(m));
        }
      } else {
        assert MinLoop(n, depth, i, alpha, best, best, bestMove)
            == MinLoop(n, depth, i + 1, alpha, best, best, bestMove);
        MinLoopBound(n, depth, i + 1, alpha, bestMove);
      }
    }
  }

  // ---------------------------------------------------------------------
  // Exact values

  /** Searched with beta = +infinity, a maximising node returns its exact minimax value. */
  lemma MaxNodeExact(n: Node, depth: nat, alpha: Score)
    ensures AlphaBeta(n, depth, alpha, PosInf, true).score == MinimaxValue(n, depth, true)
  {
    MaxNodeBound(n, depth, alpha, PosInf);
  }

  /** Searched with alpha = -infinity, a minimising node returns its exact minimax value. */
  lemma MinNodeExact(n: Node, depth: nat, beta: Score)
    ensures AlphaBeta(n, depth, NegInf, beta, false).score == MinimaxValue(n, depth, false)
  {
    MinNodeBound(n, depth, NegInf, beta);
  }

  // ---------------------------------------------------------------------
  // Which move a maximising node returns

  /**
   * The first of the first `k` children whose value is the largest among
   * them; none when that largest value is -infinity.
   */
  function FirstBest(n: Node, depth: nat, k: nat): (r: Option<nat>)
    requires 0 < depth && k <= |n.branches|
    ensures r.Some? ==> r.value < k
  {
    if k == 0 then None
    else if Less(MaxOf(n, depth, k - 1), MinimaxValue(Child(n, k - 1), depth - 1, false)) then Some(k - 1)
    else FirstBest(n, depth, k - 1)
  }

  /** The move at an optional index. */
  function MoveAt(n: Node, index: Option<nat>): Option<Move>
    requires index.Some? ==> index.value < |n.branches|
  {
    match index
    case None => None
    case Some(j) => Some(Moves(n)[j])
  }

  /**
   * `FirstBest` is the first index attaining the maximum: every earlier
   * child is strictly worse. It is absent exactly when the maximum is -infinity.
   */
  lemma {:induction false} FirstBestIsFirst(n: Node, depth: nat, k: nat)
    requires 0 < depth && k <= |n.branches|
    ensures FirstBest(n, depth, k).None? <==> MaxOf(n, depth, k) == NegInf
    ensures FirstBest(n, depth, k).Some? ==>
              var j := FirstBest(n, depth, k).value;
              && j < k
              && MinimaxValue(Child(n, j), depth - 1, false) == MaxOf(n, depth, k)
              && forall i :: 0 <= i < j ==> Less(MinimaxValue(Child(n, i), depth - 1, false), MaxOf(n, depth, k))
  {
    if k > 0 {
      FirstBestIsFirst(n, depth, k - 1);
      var v := MinimaxValue(Child(n, k - 1), depth - 1, false);
      if Less(MaxOf(n, depth, k - 1), v) {
        forall i | 0 <= i < k - 1
          ensures Less(MinimaxValue(Child(n, i), depth - 1, false), v)
        {
          MaxOfUpper(n, depth, k - 1, i);
        }
      }
    }
  }

  /** Once the maximum reaches +infinity, neither it nor the first index attaining it changes. */
  lemma {:induction false} FirstBestStable(n: Node, depth: nat, j: nat, k: nat)
    requires 0 < depth && j <= k <= |n.branches|
    requires MaxOf(n, depth, j) == PosInf
    ensures MaxOf(n, depth, k) == PosInf && FirstBest(n, depth, k) == FirstBest(n, depth, j)
  {
    if j < k {
      FirstBestStable(n, depth, j, k - 1);
    }
  }

  lemma {:induction false} MaxLoopFirstBest(n: Node, depth: nat, i: nat, bestMove: Option<Move>)
    requires 0 < depth && i <= |n.branches|
    requires Less(MaxOf(n, depth, i), PosInf) && bestMove == MoveAt(n, FirstBest(n, depth, i))
    ensures MaxLoop(n, depth, i, MaxOf(n, depth, i), PosInf, MaxOf(n, depth, i), bestMove).move
            == MoveAt(n, FirstBest(n, depth, |n.branches|))
    decreases |n.branches| - i
  {
    if i < |n.branches| {
      var best := MaxOf(n, depth, i);
      var c := Child(n, i);
      var v := MinimaxValue(c, depth - 1, false);
      var s := AlphaBeta(c, depth - 1, best, PosInf, false).score;
      var m := Moves(n)[i];
      MinNodeBound(c, depth - 1, best, PosInf);
      MaxOfUpper(n, depth, |n.branches|, i);
      MaxStep(best, s, v, PosInf, MaxOf(n, depth, |n.branches|));
      assert MaxOf(n, depth, i + 1) == Max(best, v);
      if Less(best, s) {
        assert FirstBest(n, depth, i + 1) == Some(i);
        if Less(s, PosInf) {
          assert MaxLoop(n, depth, i, best, PosInf, best, bestMove)
              == MaxLoop(n, depth, i + 1, s, PosInf, s, Some(m));
          MaxLoopFirstBest(n, depth, i + 1, Some(m));
        } else {
          assert MaxLoop(n, depth, i, best, PosInf, best, bestMove) == SearchResult(s, Some(m));
          FirstBestStable(n, depth, i + 1, |n.branches|);
        }
      } else {
        assert FirstBest(n, depth, i + 1) == FirstBest(n, depth, i);
        assert MaxLoop(n, depth, i, best, PosInf, best, bestMove)
            == MaxLoop(n, depth, i + 1, best, PosInf, best, bestMove);
        MaxLoopFirstBest(n, depth, i + 1, bestMove);
      }
    }
  }

  /**
   * Searched with beta = +infinity, a maximising node returns the first legal
   * move whose value is the node's value, and no move when that value is
   * -infinity: only a strictly better score replaces the move kept.
   */
  lemma MaxNodeMove(n: Node, depth: nat, alpha: Score)
    requires 0 < depth && !n.gameOver
    ensures AlphaBeta(n, depth, alpha, PosInf, true).move == MoveAt(n, FirstBest(n, depth, |n.branches|))
  {
    MaxLoopFirstBest(n, depth, 0, None);
  }

  // ---------------------------------------------------------------------
  // A minimising node searched with alpha = +infinity

  lemma {:induction false} MinLoopAtTop(n: Node, depth: nat, i: nat, j: nat)
    requires 0 < depth && i <= j < |n.branches|
    requires MinimaxValue(Child(n, j), depth - 1, true) != PosInf
    requires forall k :: i <= k < j ==> MinimaxValue(Child(n, k), depth - 1, true) == PosInf
    ensures MinLoop(n, depth, i, PosInf, PosInf, PosInf, None)
            == SearchResult(MinimaxValue(Child(n, j), depth - 1, true), Some(Moves(n)[j]))
    decreases j - i
  {
    MaxNodeExact(Child(n, i), depth - 1, PosInf);
    if i < j {
      MinLoopAtTop(n, depth, i + 1, j);
    }
  }

  /**
   * With alpha = +infinity, a minimising node stops after the first child
   * whose value is below +infinity and returns that child's value and move.
   */
  lemma MinNodeAtTop(n: Node, depth: nat, beta: Score, j: nat)
    requires 0 < depth && !n.gameOver && j < |n.branches|
    requires MinimaxValue(Child(n, j), depth - 1, true) != PosInf
    requires forall k :: 0 <= k < j ==> MinimaxValue(Child(n, k), depth - 1, true) == PosInf
    ensures AlphaBeta(n, depth, PosInf, beta, false)
            == SearchResult(MinimaxValue(Child(n, j), depth - 1, true), Some(Moves(n)[j]))
  {
    MinLoopAtTop(n, depth, 0, j);
  }

  // ---------------------------------------------------------------------
  // Returned moves are legal

  lemma {:induction false} MaxLoopMoveLegal(n: Node, depth: nat, i: nat, alpha: Score, beta: Score, best: Score, bestMove: Option<Move>)
    requires 0 < depth && i <= |n.branches|
    requires bestMove.Some? ==> bestMove.value in Moves(n)
    ensures var m := MaxLoop(n, depth, i, alpha, beta, best, bestMove).move; m.Some? ==> m.value in Moves(n)
    decreases |n.branches| - i
  {
    if i < |n.branches| {
      var s := AlphaBeta(Child(n, i), depth - 1, alpha, beta, false).score;
      MaxLoopMoveLegal(n, depth, i + 1, Max(alpha, s), beta, s, Some(Moves(n)[i]));
      MaxLoopMoveLegal(n, depth, i + 1, alpha, beta, best, bestMove);
    }
  }

  lemma {:induction false} MinLoopMoveLegal(n: Node, depth: nat, i: nat, alpha: Score, beta: Score, best: Score, bestMove: Option<Move>)
    requires 0 < depth && i <= |n.branches|
    requires bestMove.Some? ==> bestMove.value in Moves(n)
    ensures var m := MinLoop(n, depth, i, alpha, beta, best, bestMove).move; m.Some? ==> m.value in Moves(n)
    decreases |n.branches| - i
  {
    if i < |n.branches| {
      var s := AlphaBeta(Child(n, i), depth - 1, alpha, beta, true).score;
      MinLoopMoveLegal(n, depth, i + 1, alpha, Min(beta, s), s, Some(Moves(n)[i]));
      MinLoopMoveLegal(n, depth, i + 1, alpha, beta, best, bestMove);
    }
  }

  /** A move returned by the search is a legal move of a position that is searched further. */
  lemma MoveIsLegal(n: Node, depth: nat, alpha: Score, beta: Score, maximizing: bool)
    ensures var m := AlphaBeta(n, depth, alpha, beta, maximizing).move;
            m.Some? ==> 0 < depth && !n.gameOver && m.value in Moves(n)
  {
    if 0 < depth && !n.gameOver {
      MaxLoopMoveLegal(n, depth, 0, NegInf, beta, NegInf, None);
      MinLoopMoveLegal(n, depth, 0, alpha, PosInf, PosInf, None);
    }
  }

  // ---------------------------------------------------------------------
  // Values of coherent positions are finite

  lemma CoherentChild(n: Node, i: nat)
    requires Coherent(n) && i < |n.branches|
    ensures Coherent(Child(n, i))
  {
    var k := IndexOf(Moves(n), Moves(n)[i]);
    assert Child(n, i) == n.branches[k].next;
  }

  /**
   * In a coherent game tree every minimax value is finite and within the
   * evaluation's bound: the infinities only appear at positions without moves
   * that are not over, and those do not exist.
   */
  lemma {:induction false} CoherentValueBounded(n: Node, depth: nat, maximizing: bool)
    requires Coherent(n)
    ensures MinimaxValue(n, depth, maximizing).Fin?
    ensures -640 <= MinimaxValue(n, depth, maximizing).n <= 640
  {
    if depth == 0 || n.gameOver {
      FullBoardBound(n.squares);
    } else {
      var k := |n.branches|;
      CoherentChild(n, 0);
      CoherentValueBounded(Child(n, 0), depth - 1, !maximizing);
      if maximizing {
        MaxOfUpper(n, depth, k, 0);
        var j := MaxOfAttained(n, depth, k);
        CoherentChild(n, j);
        CoherentValueBounded(Child(n, j), depth - 1, false);
      } else {
        MinOfLower(n, depth, k, 0);
        var j := MinOfAttained(n, depth, k);
        CoherentChild(n, j);
        CoherentValueBounded(Child(n, j), depth - 1, true);
      }
    }
  }
}
