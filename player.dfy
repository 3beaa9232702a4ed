/**
 * The machine player: it keeps its own board, records the moves of both
 * players on it, and chooses its own moves by the alpha-beta search that
 * module Search defines on values. Each method is proved against that
 * definition and against the move rules of module Rules.
 */
module Players {
  import opened Common
  import opened Pieces
  import opened PieceSets
  import opened Rules
  import opened Boards
  import opened Search

  class MachinePlayer {
    /** The colour this player plays, BLACK or WHITE. */
    const color: int
    /** The player's own record of the game. */
    const board: Board
    /** How many plies the search looks ahead. */
    var searchDepth: int

    ghost predicate Valid()
      reads this, board, board.grid, board.black, board.white
    {
      IsColor(color) && board.Valid() && Inv(board.State())
    }

    /** A player of the given colour on an empty board, searching three plies. */
    constructor (color: int)
      requires IsColor(color)
      ensures Valid() && fresh(board) && this.color == color && searchDepth == 3
      ensures board.State() == Initial()
    {
      this.color := color;
      var b := new PieceSet(BLACK);
      var w := new PieceSet(WHITE);
      board := new Board(b, w);
      searchDepth := 3;
    }

    /** A player of the given colour on an empty board, searching the given number of plies. */
    constructor WithDepth(color: int, searchDepth: int)
      requires IsColor(color)
      ensures Valid() && fresh(board) && this.color == color && this.searchDepth == searchDepth
      ensures board.State() == Initial()
    {
      this.color := color;
      var b := new PieceSet(BLACK);
      var w := new PieceSet(WHITE);
      board := new Board(b, w);
      this.searchDepth := searchDepth;
    }

    /**
     * chooseMove(): searches from the player's board with the widest window
     * and records the chosen move on the board as its own.
     */
    method ChooseMove() returns (pick: Pick)
      requires Valid()
      modifies board, board.grid, board.black, board.white
      ensures Valid()
      ensures var d := Search.Minimax(color, searchDepth, old(board.State()), color, 0, INT_MIN, INT_MAX);
        && pick == d.pick
        && (pick.Chosen? ==>
              MoveInBounds(pick.move) && LegalMove(old(board.State()), pick.move, color) &&
              board.State() == Child(old(board.State()), pick.move, color))
        && (!pick.Chosen? ==> board.State() == old(board.State()))
    {
      ghost var s := board.State();
      var best := Minimax(color, board, 0, INT_MIN, INT_MAX);
      MinimaxPicksLegal(color, searchDepth, s, color, 0, INT_MIN, INT_MAX);
      RecordPick(best.pick);
      return best.pick;
    }

    /**
     * board.makeMove(best.move, color) in chooseMove, for a decision's pick:
     * a chosen move is made; a blank or missing one leaves the board alone.
     */
    method RecordPick(pick: Pick)
      requires Valid() && (pick.Chosen? ==> MoveInBounds(pick.move) && LegalMove(board.State(), pick.move, color))
      modifies board, board.grid, board.black, board.white
      ensures Valid()
      ensures pick.Chosen? ==> board.State() == Child(old(board.State()), pick.move, color)
      ensures !pick.Chosen? ==> board.State() == old(board.State())
    {
      if pick.Chosen? {
        LegalMoveApplies(board.State(), pick.move, color);
        var _ := board.MakeMove(pick.move, color);
      }
    }

    /**
     * opponentMove(m): records m as the opponent's move when it is legal for
     * the opponent's colour; an illegal move leaves the board as it was.
     */
    method OpponentMove(m: Move) returns (ok: bool)
      requires Valid() && MoveInBounds(m)
      modifies board, board.grid, board.black, board.white
      ensures Valid()
      ensures ok == LegalMove(old(board.State()), m, Other(color))
      ensures board.State() == if ok then ApplyMove(old(board.State()), m, Other(color)).1 else old(board.State())
    {
      var oppColor := BLACK;
      if color == BLACK {
        oppColor := WHITE;
      }
      ok := Record(m, oppColor);
    }

    /**
     * forceMove(m): records m as this player's own move when it is legal for
     * its colour; an illegal move leaves the board as it was.
     */
    method ForceMove(m: Move) returns (ok: bool)
      requires Valid() && MoveInBounds(m)
      modifies board, board.grid, board.black, board.white
      ensures Valid()
      ensures ok == LegalMove(old(board.State()), m, color)
      ensures board.State() == if ok then ApplyMove(old(board.State()), m, color).1 else old(board.State())
    {
      ok := Record(m, color);
    }

    /** The shared body of opponentMove and forceMove: make m for c if it is legal for c. */
    method Record(m: Move, c: int) returns (ok: bool)
      requires Valid() && MoveInBounds(m) && IsColor(c)
      modifies board, board.grid, board.black, board.white
      ensures Valid()
      ensures ok == LegalMove(old(board.State()), m, c)
      ensures board.State() == if ok then ApplyMove(old(board.State()), m, c).1 else old(board.State())
    {
      var legal := board.IsLegalMove(m, c);
      if legal {
        LegalMoveApplies(board.State(), m, c);
        ok := board.MakeMove(m, c);
        return;
      }
      return false;
    }

    /**
     * minimax(color, b, depth, alpha, beta): the decision of the node where
     * color is to move on b, computed on copies of b, under the window
     * [alpha, beta]; b itself is left as it was.
     */
    method Minimax(color: int, b: Board, depth: int, alpha: int, beta: int) returns (d: Decision)
      requires IsColor(color) && b.Valid() && Inv(b.State())
      ensures d == Search.Minimax(this.color, searchDepth, b.State(), color, depth, alpha, beta)
      decreases searchDepth - depth, 2
    {
      ghost var s := b.State();
      ghost var me, sd := this.color, searchDepth;
      var myBest := Decision(Blank, 0);
      var won := b.black.Victory(b.grid, b.cells);
      if !won {
        won := b.white.Victory(b.grid, b.cells);
      }
      if won {
        var score := b.Evaluate();
        NodeLeaf(me, sd, s, color, depth, alpha, beta);
        return Decision(Blank, score);
      }
      if depth >= searchDepth {
        var score := b.Evaluate();
        NodeLeaf(me, sd, s, color, depth, alpha, beta);
        return Decision(NoMove, score);
      }
      if color == this.color {
        myBest := myBest.(score := INT_MIN);
      } else {
        myBest := myBest.(score := INT_MAX);
      }
      var moves := b.GenerateAllMoves(color);
      NodeLoop(me, sd, s, color, depth, alpha, beta);
      d := ExamineMoves(color, b, depth, moves, myBest, alpha, beta);
    }

    /**
     * minimax's loop over the generated moves, from the given best decision
     * and window: it stops at the first move after which alpha >= beta.
     */
    method ExamineMoves(color: int, b: Board, depth: int, moves: seq<Move>, best: Decision, alpha: int, beta: int)
      returns (d: Decision)
      requires IsColor(color) && b.Valid() && Inv(b.State()) && depth < searchDepth
      requires AllLegal(b.State(), color, moves) && Sound(best, moves)
      ensures d == Scan(this.color, searchDepth, b.State(), color, depth, moves, 0, Frame(best, alpha, beta))
      decreases searchDepth - depth, 1
    {
      ghost var s := b.State();
      ghost var me, sd := this.color, searchDepth;
      ghost var target := Scan(me, sd, s, color, depth, moves, 0, Frame(best, alpha, beta));
      var myBest, a, z := best, alpha, beta;
      for i := 0 to |moves|
        invariant b.State() == s
        invariant Sound(myBest, moves)
        invariant Scan(me, sd, s, color, depth, moves, i, Frame(myBest, a, z)) == target
      {
        var m := moves[i];
        ScanStep(me, sd, s, color, depth, moves, i, Frame(myBest, a, z));
        myBest, a, z := TryMove(color, b, depth, m, myBest, a, z);
        if a >= z {
          return myBest;
        }
      }
      return myBest;
    }

    /**
     * One turn of minimax's loop: search the reply to m, and keep m when
     * its reply is at least as good for color as the best so far, narrowing
     * the window.
     */
    method TryMove(color: int, b: Board, depth: int, m: Move, best: Decision, alpha: int, beta: int)
      returns (best': Decision, alpha': int, beta': int)
      requires IsColor(color) && b.Valid() && Inv(b.State()) && depth < searchDepth
      requires MoveInBounds(m) && LegalMove(b.State(), m, color)
      ensures Frame(best', alpha', beta') == Update(color == this.color, Frame(best, alpha, beta), m,
        Reply(this.color, searchDepth, b.State(), color, depth, m, alpha, beta))
      decreases searchDepth - depth, 0, 1
    {
      var reply := SearchReply(color, b, depth, m, alpha, beta);
      best', alpha', beta' := best, alpha, beta;
      if color == this.color && reply >= best.score {
        best' := Decision(Chosen(m), reply);
        alpha' := reply;
      } else if color != this.color && reply <= best.score {
        best' := Decision(Chosen(m), reply);
        beta' := reply;
      }
    }

    /**
     * The reply to m in minimax's loop: make m on a copy of b and search
     * the copy with the other colour one ply deeper; b is left as it was.
     */
    method SearchReply(color: int, b: Board, depth: int, m: Move, alpha: int, beta: int) returns (score: int)
      requires IsColor(color) && b.Valid() && Inv(b.State()) && depth < searchDepth
      requires MoveInBounds(m) && LegalMove(b.State(), m, color)
      ensures score == Reply(this.color, searchDepth, b.State(), color, depth, m, alpha, beta)
      decreases searchDepth - depth, 0, 0
    {
      LegalMoveApplies(b.State(), m, color);
      var test := ChildBoard(color, b, m);
      ReplyOf(this.color, searchDepth, b.State(), color, depth, m, alpha, beta, test.State());
      var reply := Minimax((color + 1) % 2, test, depth + 1, alpha, beta);
      return reply.score;
    }

    /** A fresh copy of b with m made on it, for a move whose STEP source is one of the colour's pieces. */
    static method ChildBoard(color: int, b: Board, m: Move) returns (test: Board)
      requires IsColor(color) && b.Valid() && MoveInBounds(m)
      requires m.Step? ==> Pos(m.x2, m.y2) in PiecesOf(b.State(), color)
      ensures fresh(test) && fresh(test.grid) && fresh(test.black) && fresh(test.white)
      ensures test.Valid() && test.State() == ApplyMove(b.State(), m, color).1
    {
      ghost var s := b.State();
      test := b.Duplicate();
      var _ := test.MakeMove(m, color);
      assert b.State() == s;
    }
  }
}
