/**
 * The rules engine the search relies on (python-chess in the original),
 * reduced to what the engine asks of it: the piece placement, the side to
 * move, the legal moves in their enumeration order, the game-over and
 * checkmate tests, and `push`/`pop` on one shared board.
 *
 * The positions reachable from a starting position form a finite tree
 * (python-chess ends every game through the 75-move and fivefold-repetition
 * rules), so a position is modelled as a `Node` holding its own subtree.
 */
module Rules {
  import opened Wrappers
  import opened Pieces

  /** A move: origin, destination and an optional promotion. */
  datatype Move = Move(origin: nat, target: nat, promotion: Option<PieceType>)

  /**
   * A position: the 64 squares, the side to move, the answers of
   * `is_game_over` and `is_checkmate`, and one branch per legal move, in the
   * order `legal_moves` enumerates them.
   */
  datatype Node = Node(squares: seq<Square>, turn: Color, gameOver: bool, checkmate: bool, branches: seq<Branch>)

  datatype Branch = Branch(move: Move, next: Node)

  /** The legal moves of a position, in enumeration order. */
  function Moves(n: Node): seq<Move>
  {
    seq(|n.branches|, i requires 0 <= i < |n.branches| => n.branches[i].move)
  }

  /** The first position of a move in a move list. */
  function IndexOf(ms: seq<Move>, m: Move): (i: nat)
    requires m in ms
    ensures i < |ms| && ms[i] == m
    ensures forall j :: 0 <= j < i ==> ms[j] != m
  {
    if ms[0] == m then 0 else 1 + IndexOf(ms[1..], m)
  }

  /** The position reached by playing a legal move. */
  function After(n: Node, m: Move): Node
    requires m in Moves(n)
  {
    n.branches[IndexOf(Moves(n), m)].next
  }

  /** python-chess's `len(board.pieces(kind, color))` over a list of squares. */
  function CountPieces(squares: seq<Square>, color: Color, kind: PieceType): (k: nat)
    ensures k <= |squares|
  {
    if squares == [] then 0
    else
      CountPieces(squares[..|squares| - 1], color, kind)
      + (if squares[|squares| - 1] == Occupied(Piece(color, kind)) then 1 else 0)
  }

  /**
   * The consistency python-chess guarantees of every position: 64 squares;
   * a checkmate is a game over without legal moves; a position without legal
   * moves is over. (A game can also be over with moves left, by a draw rule.)
   */
  predicate Coherent(n: Node)
  {
    && |n.squares| == BoardSize
    && (n.checkmate ==> n.gameOver && n.branches == [])
    && (n.branches == [] ==> n.gameOver)
    && forall i :: 0 <= i < |n.branches| ==> Coherent(n.branches[i].next)
  }

  /**
   * Replaying `moves` from the saved positions `saved` steps from each saved
   * position to the next one, and from the last saved position to `cur`.
   */
  ghost predicate Replays(saved: seq<Node>, moves: seq<Move>, cur: Node)
  {
    && |saved| == |moves|
    && forall k :: 0 <= k < |saved| ==>
         && moves[k] in Moves(saved[k])
         && After(saved[k], moves[k]) == if k + 1 < |saved| then saved[k + 1] else cur
  }

  lemma ReplaysPush(saved: seq<Node>, moves: seq<Move>, cur: Node, m: Move)
    requires Replays(saved, moves, cur) && m in Moves(cur)
    ensures Replays(saved + [cur], moves + [m], After(cur, m))
  {
    var saved', moves' := saved + [cur], moves + [m];
    forall k | 0 <= k < |saved'|
      ensures moves'[k] in Moves(saved'[k])
      ensures After(saved'[k], moves'[k]) == if k + 1 < |saved'| then saved'[k + 1] else After(cur, m)
    {
      if k < |saved| {
        assert saved'[k] == saved[k] && moves'[k] == moves[k];
        assert saved'[k + 1] == if k + 1 < |saved| then saved[k + 1] else cur;
        assert After(saved[k], moves[k]) == if k + 1 < |saved| then saved[k + 1] else cur;
      } else {
        assert saved'[k] == cur && moves'[k] == m;
      }
    }
  }

  /**
   * The shared, mutable board: the current position, the positions before
   * each pushed move (what `pop` restores) and the move stack.
   */
  class Board {
    var current: Node
    var stack: seq<Node>
    var moveStack: seq<Move>

    /** Replaying the move stack from the oldest saved position reaches `current`. */
    ghost predicate Valid()
      reads this
    {
      Replays(stack, moveStack, current)
    }

    constructor (root: Node)
      ensures Valid()
      ensures current == root && stack == [] && moveStack == []
    {
      current, stack, moveStack := root, [], [];
    }

    function Turn(): Color
      reads this
    {
      current.turn
    }

    function LegalMoves(): seq<Move>
      reads this
    {
      Moves(current)
    }

    function IsGameOver(): bool
      reads this
    {
      current.gameOver
    }

    function IsCheckmate(): bool
      reads this
    {
      current.checkmate
    }

    function PieceMap(): seq<Square>
      reads this
    {
      current.squares
    }

    function Pieces(kind: PieceType, color: Color): nat
      reads this
    {
      CountPieces(current.squares, color, kind)
    }

    /** Plays a legal move, saving the position it leaves. */
    method Push(m: Move)
      requires Valid() && m in LegalMoves()
      modifies this
      ensures Valid()
      ensures current == After(old(current), m)
      ensures stack == old(stack) + [old(current)] && moveStack == old(moveStack) + [m]
    {
      ReplaysPush(stack, moveStack, current, m);
      stack, moveStack, current := stack + [current], moveStack + [m], After(current, m);
    }

    /** Takes back the last move, restoring the position before it. */
    method Pop() returns (m: Move)
      requires Valid() && |moveStack| > 0
      modifies this
      ensures Valid()
      ensures m == old(moveStack)[|old(moveStack)| - 1]
      ensures current == old(stack)[|old(stack)| - 1]
      ensures stack == old(stack)[..|old(stack)| - 1]
      ensures moveStack == old(moveStack)[..|old(moveStack)| - 1]
    {
      var last := |stack| - 1;
      m := moveStack[last];
      current := stack[last];
      stack, moveStack := stack[..last], moveStack[..last];
    }
  }
}
