/**
 * The game-tree search of a machine player, on board values: minimax with
 * alpha-beta pruning exactly as written, including its quirks (the depth
 * cut-off at searchDepth plies, the window bounds reset to the reply score,
 * ties going to the later move).
 */
module Search {
  import opened Common
  import opened Pieces
  import opened PieceSets
  import opened Rules

  /** What a decision's move holds: null, the blank `new Move()`, or a generated move. */
  datatype Pick = NoMove | Blank | Chosen(move: Move)

  /** A move paired with its score. */
  datatype Decision = Decision(pick: Pick, score: int)

  /** The locals minimax's loop updates: the best decision so far and the alpha-beta window. */
  datatype Frame = Frame(best: Decision, alpha: int, beta: int)

  /** One examined child: its move, its reply score and the loop's locals after it. */
  datatype Turn = Turn(move: Move, reply: int, after: Frame)

  /** Either colour already has a network. */
  predicate Won(s: State)
    requires Inv(s)
  {
    Wins(s.cells, BLACK, s.black) || Wins(s.cells, WHITE, s.white)
  }

  /** Every move of the list is in bounds and legal for the colour. */
  ghost predicate AllLegal(s: State, color: int, moves: seq<Move>)
    requires IsGrid(s.cells)
  {
    forall m :: m in moves ==> MoveInBounds(m) && LegalMove(s, m, color)
  }

  /** The board after a legal move, on which the invariant still holds. */
  function Child(s: State, m: Move, color: int): (t: State)
    requires Inv(s) && IsColor(color) && MoveInBounds(m) && LegalMove(s, m, color)
    ensures Inv(t)
    ensures PiecesOf(t, Other(color)) == PiecesOf(s, Other(color))
  {
    LegalMoveApplies(s, m, color);
    ApplyMove(s, m, color).1
  }

  /**
   * The body of minimax's loop after a reply: a maximising node takes a
   * reply at least as good as its best and sets alpha to it; a minimising
   * node takes a reply at most its best and sets beta to it. Alpha (beta) is
   * set, not raised (lowered): a reply inside the window lowers alpha
   * (raises beta).
   */
  function Update(maximizing: bool, f: Frame, m: Move, reply: int): (g: Frame)
    ensures maximizing ==> g.best.score == (if reply >= f.best.score then reply else f.best.score)
    ensures !maximizing ==> g.best.score == (if reply <= f.best.score then reply else f.best.score)
    ensures g.best.score == reply ==> g.best == Decision(Chosen(m), reply)
    ensures g.best.score != reply ==> g == f
    ensures maximizing && reply >= f.best.score ==> g.alpha == reply
    ensures !maximizing && reply <= f.best.score ==> g.beta == reply
    ensures maximizing ==> g.beta == f.beta
    ensures !maximizing ==> g.alpha == f.alpha
  {
    if maximizing && reply >= f.best.score then Frame(Decision(Chosen(m), reply), reply, f.beta)
    else if !maximizing && reply <= f.best.score then Frame(Decision(Chosen(m), reply), f.alpha, reply)
    else f
  }

  /** The score and move a search may start a node with. */
  predicate Sound(d: Decision, moves: seq<Move>) {
    INT_MIN <= d.score <= INT_MAX && !d.pick.NoMove? && (d.pick.Chosen? ==> d.pick.move in moves)
  }

  /**
   * minimax(color, b, depth, alpha, beta) of the player of colour `me` whose
   * search depth is sd. A position where either colour has a network is
   * scored at once with the blank move; at the depth limit with the null
   * move; otherwise every generated move is tried on a copy of the board.
   */
  function Minimax(me: int, sd: int, s: State, color: int, depth: int, alpha: int, beta: int): (r: Decision)
    requires Inv(s) && IsColor(color)
    ensures INT_MIN <= r.score <= INT_MAX
    ensures r.pick.NoMove? <==> !Won(s) && depth >= sd
    ensures Won(s) ==> r.pick == Blank && (r.score == INT_MAX || r.score == INT_MIN)
    decreases sd - depth, 1, 0
  {
    if Won(s) then EvaluateRange(s); Decision(Blank, Evaluate(s))
    else if depth >= sd then EvaluateRange(s); Decision(NoMove, Evaluate(s))
    else
      var moves := GenerateAllMoves(s, color);
      GeneratedMovesLegal(s, color);
      Scan(me, sd, s, color, depth, moves, 0, Start(me, color, alpha, beta))
  }

  /** The score of minimax's recursive call for the opponent on the board after m. */
  function Reply(me: int, sd: int, s: State, color: int, depth: int, m: Move, alpha: int, beta: int): (score: int)
    requires Inv(s) && IsColor(color) && depth < sd && MoveInBounds(m) && LegalMove(s, m, color)
    ensures INT_MIN <= score <= INT_MAX
    decreases sd - depth, 0, 0
  {
    Minimax(me, sd, Child(s, m, color), (color + 1) % 2, depth + 1, alpha, beta).score
  }

  /** The reply to m is the decision of the position m leads to, searched with the other colour one ply deeper. */
  lemma ReplyOf(me: int, sd: int, s: State, color: int, depth: int, m: Move, alpha: int, beta: int, t: State)
    requires Inv(s) && IsColor(color) && depth < sd && MoveInBounds(m) && LegalMove(s, m, color)
    requires t == Child(s, m, color)
    ensures Inv(t) && Reply(me, sd, s, color, depth, m, alpha, beta) == Minimax(me, sd, t, (color + 1) % 2, depth + 1, alpha, beta).score
  {
  }

  /** minimax's loop from the i-th generated move on, with the locals f. */
  function Scan(me: int, sd: int, s: State, color: int, depth: int, moves: seq<Move>, i: nat, f: Frame): (r: Decision)
    requires Inv(s) && IsColor(color) && depth < sd
    requires AllLegal(s, color, moves) && i <= |moves| && Sound(f.best, moves)
    ensures Sound(r, moves)
    decreases sd - depth, 0, |moves| - i
  {
    if i == |moves| then f.best
    else
      var reply := Reply(me, sd, s, color, depth, moves[i], f.alpha, f.beta);
      var g := Update(color == me, f, moves[i], reply);
      if g.alpha >= g.beta then g.best
      else Scan(me, sd, s, color, depth, moves, i + 1, g)
  }

  /** The loop goes on only while alpha < beta. */
  predicate Open(f: Frame) {
    f.alpha < f.beta
  }

  /** The locals after the last examined child, or the initial f when none was examined. */
  function Final(f: Frame, tr: seq<Turn>): Frame {
    if |tr| == 0 then f else tr[|tr| - 1].after
  }

  /** tr is what the loop body does from f over moves[i..]: each turn folds its reply into the locals before it. */
  ghost predicate Chain(maximizing: bool, f: Frame, moves: seq<Move>, i: nat, tr: seq<Turn>)
    decreases |tr|
  {
    |tr| == 0 ||
    (i < |moves| && tr[0].move == moves[i] && tr[0].after == Update(maximizing, f, tr[0].move, tr[0].reply) &&
     Chain(maximizing, tr[0].after, moves, i + 1, tr[1..]))
  }

  /** The loop stops after the first child that closes the window, and only there or when the n moves run out. */
  predicate Prunes(tr: seq<Turn>, n: int) {
    && (forall k :: 0 <= k < |tr| - 1 ==> Open(tr[k].after))
    && (|tr| < n ==> |tr| > 0 && !Open(tr[|tr| - 1].after))
  }

  /** Putting one more turn in front keeps a chain and its stopping rule. */
  lemma TrailCons(maximizing: bool, f: Frame, moves: seq<Move>, i: nat, reply: int, rest: seq<Turn>)
    requires i < |moves|
    requires var g := Update(maximizing, f, moves[i], reply);
      Open(g) && Chain(maximizing, g, moves, i + 1, rest) && Prunes(rest, |moves| - i - 1)
    ensures var g := Update(maximizing, f, moves[i], reply);
      var tr := [Turn(moves[i], reply, g)] + rest;
      && Chain(maximizing, f, moves, i, tr) && Prunes(tr, |moves| - i)
      && Final(f, tr) == Final(g, rest)
      && (forall k :: 0 < k < |tr| ==> tr[k] == rest[k - 1])
  {
    var g := Update(maximizing, f, moves[i], reply);
    var tr := [Turn(moves[i], reply, g)] + rest;
    assert tr[1..] == rest;
  }

  /** The children minimax's loop examines from the i-th move on, in order, and the locals after each. */
  ghost function Trail(me: int, sd: int, s: State, color: int, depth: int, moves: seq<Move>, i: nat, f: Frame): (tr: seq<Turn>)
    requires Inv(s) && IsColor(color) && depth < sd
    requires AllLegal(s, color, moves) && i <= |moves| && Sound(f.best, moves)
    ensures Chain(color == me, f, moves, i, tr) && Prunes(tr, |moves| - i)
    ensures Scan(me, sd, s, color, depth, moves, i, f) == Final(f, tr).best
    ensures forall k :: 0 <= k < |tr| ==> INT_MIN <= tr[k].reply <= INT_MAX
    decreases |moves| - i
  {
    if i == |moves| then []
    else
      var reply := Reply(me, sd, s, color, depth, moves[i], f.alpha, f.beta);
      var g := Update(color == me, f, moves[i], reply);
      if !Open(g) then [Turn(moves[i], reply, g)]
      else
        var rest := Trail(me, sd, s, color, depth, moves, i + 1, g);
        TrailCons(color == me, f, moves, i, reply, rest);
        [Turn(moves[i], reply, g)] + rest
  }

  /** The locals before the k-th turn of a trail started from f. */
  function Before(f: Frame, tr: seq<Turn>, k: int): Frame
    requires 0 <= k <= |tr|
  {
    if k == 0 then f else tr[k - 1].after
  }

  lemma BeforeCons(f: Frame, t: Turn, rest: seq<Turn>, tr: seq<Turn>, k: nat)
    requires tr == [t] + rest && 0 < k <= |tr|
    ensures Before(f, tr, k) == Before(t.after, rest, k - 1)
    ensures k < |tr| ==> tr[k] == rest[k - 1]
  {
  }

  /** The k-th turn of tr examines moves[i + k], scored by the recursive call in the window held before it. */
  ghost predicate RepliedAt(me: int, sd: int, s: State, color: int, depth: int, moves: seq<Move>, i: nat, f: Frame, tr: seq<Turn>, k: nat)
    requires Inv(s) && IsColor(color) && depth < sd && AllLegal(s, color, moves) && k < |tr|
  {
    && i + k < |moves| && tr[k].move == moves[i + k]
    && tr[k].reply == Reply(me, sd, s, color, depth, moves[i + k], Before(f, tr, k).alpha, Before(f, tr, k).beta)
  }

  /** Every turn of tr is scored as RepliedAt says. */
  ghost predicate Replied(me: int, sd: int, s: State, color: int, depth: int, moves: seq<Move>, i: nat, f: Frame, tr: seq<Turn>)
    requires Inv(s) && IsColor(color) && depth < sd && AllLegal(s, color, moves)
  {
    forall k: nat :: k < |tr| ==> RepliedAt(me, sd, s, color, depth, moves, i, f, tr, k)
  }

  /** A first turn scored in the window of f, in front of turns scored from the locals after it. */
  lemma {:induction false} RepliedCons(me: int, sd: int, s: State, color: int, depth: int, moves: seq<Move>, i: nat, f: Frame, reply: int, g: Frame, rest: seq<Turn>)
    requires Inv(s) && IsColor(color) && depth < sd && AllLegal(s, color, moves) && i < |moves|
    requires reply == Reply(me, sd, s, color, depth, moves[i], f.alpha, f.beta)
    requires Replied(me, sd, s, color, depth, moves, i + 1, g, rest)
    ensures Replied(me, sd, s, color, depth, moves, i, f, [Turn(moves[i], reply, g)] + rest)
  {
    var tr := [Turn(moves[i], reply, g)] + rest;
    forall k: nat | k < |tr| ensures RepliedAt(me, sd, s, color, depth, moves, i, f, tr, k) {
      if k > 0 {
        assert RepliedAt(me, sd, s, color, depth, moves, i + 1, g, rest, k - 1);
        BeforeCons(f, Turn(moves[i], reply, g), rest, tr, k);
      }
    }
  }

  /**
   * Each examined child is scored by the recursive call on its own board,
   * with the alpha-beta window the loop holds when it reaches that child.
   */
  lemma {:induction false} TrailReplies(me: int, sd: int, s: State, color: int, depth: int, moves: seq<Move>, i: nat, f: Frame)
    requires Inv(s) && IsColor(color) && depth < sd
    requires AllLegal(s, color, moves) && i <= |moves| && Sound(f.best, moves)
    ensures Replied(me, sd, s, color, depth, moves, i, f, Trail(me, sd, s, color, depth, moves, i, f))
    decreases |moves| - i
  {
    if i < |moves| {
      var reply := Reply(me, sd, s, color, depth, moves[i], f.alpha, f.beta);
      var g := Update(color == me, f, moves[i], reply);
      if Open(g) {
        ScanStep(me, sd, s, color, depth, moves, i, f);
        TrailReplies(me, sd, s, color, depth, moves, i + 1, g);
        RepliedCons(me, sd, s, color, depth, moves, i, f, reply, g, Trail(me, sd, s, color, depth, moves, i + 1, g));
      } else {
        RepliedCons(me, sd, s, color, depth, moves, i, f, reply, g, []);
        assert [Turn(moves[i], reply, g)] + [] == [Turn(moves[i], reply, g)];
      }
    }
  }

  /**
   * At a node below the depth limit in an undecided game, the k-th examined
   * child is the k-th generated move, and its reply is the recursive call
   * (ReplyOf: minimax of the board after it, for the other colour, one ply
   * deeper) in the window the loop holds when it reaches that child.
   */
  lemma SearchReplies(me: int, sd: int, s: State, color: int, depth: int, alpha: int, beta: int)
    requires Inv(s) && IsColor(color) && !Won(s) && depth < sd
    ensures AllLegal(s, color, GenerateAllMoves(s, color))
    ensures Replied(me, sd, s, color, depth, GenerateAllMoves(s, color), 0, Start(me, color, alpha, beta),
      Examined(me, sd, s, color, depth, alpha, beta))
  {
    NodeLoop(me, sd, s, color, depth, alpha, beta);
    TrailReplies(me, sd, s, color, depth, GenerateAllMoves(s, color), 0, Start(me, color, alpha, beta));
  }

  /** The reply scores of a trail. */
  function Replies(tr: seq<Turn>): (xs: seq<int>)
    ensures |xs| == |tr| && forall k :: 0 <= k < |tr| ==> xs[k] == tr[k].reply
    decreases |tr|
  {
    if |tr| == 0 then [] else [tr[0].reply] + Replies(tr[1..])
  }

  /** The index of the last occurrence of v in xs, or -1 when v does not occur. */
  function LastAt(xs: seq<int>, v: int): (j: int)
    ensures -1 <= j < |xs|
    ensures j >= 0 ==> xs[j] == v && forall k :: j < k < |xs| ==> xs[k] != v
    ensures j < 0 ==> v !in xs
    decreases |xs|
  {
    if |xs| == 0 then -1
    else
      var j := LastAt(xs[1..], v);
      if j >= 0 then j + 1 else if xs[0] == v then 0 else -1
  }

  /**
   * Folding replies as minimax's loop does: at a maximising node the final
   * score is the largest of the starting score and the replies, at a
   * minimising node the smallest.
   */
  lemma {:induction false} ChainBound(maximizing: bool, f: Frame, moves: seq<Move>, i: nat, tr: seq<Turn>)
    requires Chain(maximizing, f, moves, i, tr)
    ensures var r := Final(f, tr).best;
      var xs := Replies(tr);
      && (maximizing ==> r.score >= f.best.score && forall k :: 0 <= k < |xs| ==> xs[k] <= r.score)
      && (!maximizing ==> r.score <= f.best.score && forall k :: 0 <= k < |xs| ==> xs[k] >= r.score)
    decreases |tr|
  {
    if |tr| > 0 {
      var g, rest := tr[0].after, tr[1..];
      ChainBound(maximizing, g, moves, i + 1, rest);
      ChainCons(maximizing, f, moves, i, tr);
    }
  }

  /**
   * Ties go to the later move: the final move is that of the last reply
   * equal to the final score, or the starting move when no reply equals it.
   */
  lemma {:induction false} ChainLast(maximizing: bool, f: Frame, moves: seq<Move>, i: nat, tr: seq<Turn>)
    requires Chain(maximizing, f, moves, i, tr)
    ensures var r := Final(f, tr).best;
      var j := LastAt(Replies(tr), r.score);
      && (j >= 0 ==> r.pick == Chosen(tr[j].move))
      && (j < 0 ==> r == f.best)
    decreases |tr|
  {
    if |tr| > 0 {
      var g, rest := tr[0].after, tr[1..];
      ChainLast(maximizing, g, moves, i + 1, rest);
      ChainCons(maximizing, f, moves, i, tr);
      LastAtCons(Replies(tr), Final(f, tr).best.score);
    }
  }

  /** A non-empty chain is its first turn followed by a chain from the locals after it. */
  lemma ChainCons(maximizing: bool, f: Frame, moves: seq<Move>, i: nat, tr: seq<Turn>)
    requires Chain(maximizing, f, moves, i, tr) && |tr| > 0
    ensures i < |moves| && tr[0].move == moves[i] && tr[0].after == Update(maximizing, f, moves[i], tr[0].reply)
    ensures Chain(maximizing, tr[0].after, moves, i + 1, tr[1..])
    ensures Final(f, tr) == Final(tr[0].after, tr[1..])
    ensures Replies(tr) == [tr[0].reply] + Replies(tr[1..])
  {
  }

  /** The first turn of a non-empty chain examines moves[i], and the rest is a chain from i + 1. */
  lemma ChainTail(maximizing: bool, f: Frame, moves: seq<Move>, i: nat, tr: seq<Turn>)
    requires Chain(maximizing, f, moves, i, tr) && |tr| > 0
    ensures i < |moves| && tr[0].move == moves[i] && Chain(maximizing, tr[0].after, moves, i + 1, tr[1..])
  {
  }

  /** The last occurrence in a non-empty list, from that in its tail. */
  lemma LastAtCons(xs: seq<int>, v: int)
    requires |xs| > 0
    ensures LastAt(xs, v) == var j := LastAt(xs[1..], v); if j >= 0 then j + 1 else if xs[0] == v then 0 else -1
  {
  }

  /** A chain's moves are the moves from the i-th on, in order. */
  lemma {:induction false} ChainMoves(maximizing: bool, f: Frame, moves: seq<Move>, i: nat, tr: seq<Turn>)
    requires Chain(maximizing, f, moves, i, tr) && i <= |moves|
    ensures i + |tr| <= |moves| && forall k :: 0 <= k < |tr| ==> tr[k].move == moves[i + k]
    decreases |tr|
  {
    if |tr| > 0 {
      ChainTail(maximizing, f, moves, i, tr);
      ChainMoves(maximizing, tr[0].after, moves, i + 1, tr[1..]);
      forall k | 0 < k < |tr|
        ensures tr[k].move == moves[i + k]
      {
        var j := k - 1;
        assert tr[k] == tr[1..][j];
        assert tr[1..][j].move == moves[(i + 1) + j];
      }
    }
  }

  /** The children a node of the search examines, in order: none at a won position or the depth limit. */
  ghost function Examined(me: int, sd: int, s: State, color: int, depth: int, alpha: int, beta: int): (tr: seq<Turn>)
    requires Inv(s) && IsColor(color)
  {
    if Won(s) || depth >= sd then []
    else
      var moves := GenerateAllMoves(s, color);
      GeneratedMovesLegal(s, color);
      Trail(me, sd, s, color, depth, moves, 0, Start(me, color, alpha, beta))
  }

  /** The locals minimax starts its loop with. */
  function Start(me: int, color: int, alpha: int, beta: int): Frame {
    Frame(Decision(Blank, if color == me then INT_MIN else INT_MAX), alpha, beta)
  }

  /** Below the depth limit in an undecided game, minimax is its loop over the generated moves. */
  lemma NodeLoop(me: int, sd: int, s: State, color: int, depth: int, alpha: int, beta: int)
    requires Inv(s) && IsColor(color) && !Won(s) && depth < sd
    ensures AllLegal(s, color, GenerateAllMoves(s, color))
    ensures Minimax(me, sd, s, color, depth, alpha, beta) ==
      Scan(me, sd, s, color, depth, GenerateAllMoves(s, color), 0, Start(me, color, alpha, beta))
    ensures Examined(me, sd, s, color, depth, alpha, beta) ==
      Trail(me, sd, s, color, depth, GenerateAllMoves(s, color), 0, Start(me, color, alpha, beta))
  {
    GeneratedMovesLegal(s, color);
  }

  /** At a won position or the depth limit, minimax scores the position without a move. */
  lemma NodeLeaf(me: int, sd: int, s: State, color: int, depth: int, alpha: int, beta: int)
    requires Inv(s) && IsColor(color) && (Won(s) || depth >= sd)
    ensures Minimax(me, sd, s, color, depth, alpha, beta) ==
      Decision(if Won(s) then Blank else NoMove, Evaluate(s))
  {
  }

  /** One turn of the loop: the reply to moves[i] updates the locals, and the loop stops once alpha >= beta. */
  lemma ScanStep(me: int, sd: int, s: State, color: int, depth: int, moves: seq<Move>, i: nat, f: Frame)
    requires Inv(s) && IsColor(color) && depth < sd && AllLegal(s, color, moves)
    requires i < |moves| && Sound(f.best, moves)
    ensures var g := Update(color == me, f, moves[i], Reply(me, sd, s, color, depth, moves[i], f.alpha, f.beta));
      && Sound(g.best, moves)
      && Scan(me, sd, s, color, depth, moves, i, f) ==
         if g.alpha >= g.beta then g.best else Scan(me, sd, s, color, depth, moves, i + 1, g)
  {
  }

  /** A move minimax picks is one of the generated moves, hence in bounds and legal. */
  lemma MinimaxPicksLegal(me: int, sd: int, s: State, color: int, depth: int, alpha: int, beta: int)
    requires Inv(s) && IsColor(color)
    ensures var r := Minimax(me, sd, s, color, depth, alpha, beta);
      r.pick.Chosen? ==> r.pick.move in GenerateAllMoves(s, color) && MoveInBounds(r.pick.move) && LegalMove(s, r.pick.move, color)
  {
    if !Won(s) && depth < sd {
      NodeLoop(me, sd, s, color, depth, alpha, beta);
    }
  }

  /**
   * What minimax promises of a node's decision r given the children tr it
   * examined and its starting score: a maximising node scores the largest
   * reply and a minimising node the smallest, with the last examined move
   * reaching that score; with no examined move it keeps the blank move and
   * the starting score.
   */
  predicate Extremum(maximizing: bool, start: int, r: Decision, tr: seq<Turn>) {
    var xs := Replies(tr);
    && (|xs| == 0 ==> r == Decision(Blank, start))
    && (|xs| > 0 ==> r.score in xs && r.pick == Chosen(tr[LastAt(xs, r.score)].move))
    && (maximizing ==> forall k :: 0 <= k < |xs| ==> xs[k] <= r.score)
    && (!maximizing ==> forall k :: 0 <= k < |xs| ==> xs[k] >= r.score)
  }

  /** Folding replies in the Java int range from INT_MIN (maximising) or INT_MAX (minimising) gives an extremum. */
  lemma FoldExtremum(maximizing: bool, f: Frame, moves: seq<Move>, tr: seq<Turn>)
    requires Chain(maximizing, f, moves, 0, tr)
    requires f.best == Decision(Blank, if maximizing then INT_MIN else INT_MAX)
    requires forall k :: 0 <= k < |tr| ==> INT_MIN <= tr[k].reply <= INT_MAX
    ensures Extremum(maximizing, f.best.score, Final(f, tr).best, tr)
  {
    ChainBound(maximizing, f, moves, 0, tr);
    ChainLast(maximizing, f, moves, 0, tr);
  }

  /** The children are examined in the order of the moves, stopping early only after one that closes the window. */
  predicate Examines(tr: seq<Turn>, moves: seq<Move>) {
    && |tr| <= |moves| && (|tr| == 0 <==> |moves| == 0)
    && (forall k :: 0 <= k < |tr| ==> tr[k].move == moves[k])
    && Prunes(tr, |moves|)
  }

  /** A chain from the first move that keeps the stopping rule examines the moves in order. */
  lemma ChainExamines(maximizing: bool, f: Frame, moves: seq<Move>, tr: seq<Turn>)
    requires Chain(maximizing, f, moves, 0, tr) && Prunes(tr, |moves|)
    ensures Examines(tr, moves)
  {
    ChainMoves(maximizing, f, moves, 0, tr);
  }

  /** Below the depth limit in an undecided game, a node's decision is the extremum of its examined replies. */
  lemma SearchExtremum(me: int, sd: int, s: State, color: int, depth: int, alpha: int, beta: int)
    requires Inv(s) && IsColor(color) && !Won(s) && depth < sd
    ensures Extremum(color == me, if color == me then INT_MIN else INT_MAX,
      Minimax(me, sd, s, color, depth, alpha, beta), Examined(me, sd, s, color, depth, alpha, beta))
  {
    NodeLoop(me, sd, s, color, depth, alpha, beta);
    var moves, f := GenerateAllMoves(s, color), Start(me, color, alpha, beta);
    FoldExtremum(color == me, f, moves, Trail(me, sd, s, color, depth, moves, 0, f));
  }

  /**
   * Below the depth limit in an undecided game the search examines the
   * generated moves in order, each on its own copy of the board, and stops
   * early exactly after the first child that leaves alpha >= beta.
   */
  lemma SearchPrunes(me: int, sd: int, s: State, color: int, depth: int, alpha: int, beta: int)
    requires Inv(s) && IsColor(color) && !Won(s) && depth < sd
    ensures Examines(Examined(me, sd, s, color, depth, alpha, beta), GenerateAllMoves(s, color))
  {
    NodeLoop(me, sd, s, color, depth, alpha, beta);
    var moves, f := GenerateAllMoves(s, color), Start(me, color, alpha, beta);
    ChainExamines(color == me, f, moves, Trail(me, sd, s, color, depth, moves, 0, f));
  }
}
