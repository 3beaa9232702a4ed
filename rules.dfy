/**
 * The rules of Network as functions over a board value: neighbour lookup,
 * the rule-4 cluster test, valid locations, legality and effect of a move,
 * move generation and the static evaluator. The Board class is proved
 * against these.
 */
module Rules {
  import opened Common
  import opened Pieces
  import opened PieceSets
  import opened Networks

  /** A board: the occupant code of every cell and the piece lists of black and white. */
  datatype State = State(cells: seq<int>, black: seq<Pos>, white: seq<Pos>)

  /** The piece list of `color`. */
  function PiecesOf(s: State, color: int): seq<Pos> {
    if color == BLACK then s.black else s.white
  }

  /** The board with the piece list of `color` replaced. */
  function WithPieces(s: State, color: int, ps: seq<Pos>): (r: State)
    ensures PiecesOf(r, color) == ps && r.cells == s.cells
    ensures IsColor(color) ==> PiecesOf(r, Other(color)) == PiecesOf(s, Other(color))
  {
    if color == BLACK then s.(black := ps) else s.(white := ps)
  }

  // ---------------------------------------------------------------------
  // Neighbours

  /** The compass offsets in getNeighborSpaces' order: N, NE, E, SE, S, SW, W, NW. */
  const COMPASS: seq<(int, int)> := [(0, -1), (1, -1), (1, 0), (1, 1), (0, 1), (-1, 1), (-1, 0), (-1, -1)]

  /** The cell at (x, y), or None (null) off the board. */
  function OnBoard(x: int, y: int): Option<Pos> {
    if InBounds(x, y) then Some(Pos(x, y)) else None
  }

  /**
   * getNeighborSpaces(x, y): inside the board the eight neighbours; on an
   * edge the catch block's table for that wall, with null for the missing
   * directions. At a non-corner edge cell exactly one of the four wall blocks
   * applies; at a corner the catch block itself indexes off the board, so a
   * corner is excluded.
   */
  function NeighborSpaces(x: int, y: int): (r: seq<Option<Pos>>)
    requires InBounds(x, y) && !IsCorner(x, y)
    ensures |r| == |COMPASS|
  {
    if 0 < x < SIZE - 1 && 0 < y < SIZE - 1 then
      [Some(Pos(x, y - 1)), Some(Pos(x + 1, y - 1)), Some(Pos(x + 1, y)), Some(Pos(x + 1, y + 1)),
       Some(Pos(x, y + 1)), Some(Pos(x - 1, y + 1)), Some(Pos(x - 1, y)), Some(Pos(x - 1, y - 1))]
    else if x == 0 then
      [Some(Pos(x, y - 1)), Some(Pos(x + 1, y - 1)), Some(Pos(x + 1, y)), Some(Pos(x + 1, y + 1)),
       Some(Pos(x, y + 1)), None, None, None]
    else if y == 0 then
      [None, None, Some(Pos(x + 1, y)), Some(Pos(x + 1, y + 1)),
       Some(Pos(x, y + 1)), Some(Pos(x - 1, y + 1)), Some(Pos(x - 1, y)), None]
    else if y == SIZE - 1 then
      [Some(Pos(x, y - 1)), Some(Pos(x + 1, y - 1)), Some(Pos(x + 1, y)), None,
       None, None, Some(Pos(x - 1, y)), Some(Pos(x - 1, y - 1))]
    else
      [Some(Pos(x, y - 1)), None, None, None,
       Some(Pos(x, y + 1)), Some(Pos(x - 1, y + 1)), Some(Pos(x - 1, y)), Some(Pos(x - 1, y - 1))]
  }

  /** Neighbour d of (x, y): one step along compass direction d, None off the board. */
  function Neighbor(x: int, y: int, d: int): Option<Pos>
    requires 0 <= d < |COMPASS|
  {
    OnBoard(x + COMPASS[d].0, y + COMPASS[d].1)
  }

  /** getNeighborSpaces' table entry d is the cell one step along direction d, null exactly when that step leaves the board. */
  lemma NeighborsClipped(x: int, y: int)
    requires InBounds(x, y) && !IsCorner(x, y)
    ensures forall d :: 0 <= d < |COMPASS| ==> NeighborSpaces(x, y)[d] == Neighbor(x, y, d)
  {
  }

  // ---------------------------------------------------------------------
  // Rule 4 and valid locations

  /**
   * No corner holds `color`. getNeighborSpaces throws at a corner, so
   * isRule4Violation needs the cells of the colour off the corners; legal
   * play keeps the corners empty.
   */
  predicate CornersFree(cells: seq<int>, color: int)
    requires IsGrid(cells)
  {
    && cells[Idx(0, 0)] != color && cells[Idx(0, SIZE - 1)] != color
    && cells[Idx(SIZE - 1, 0)] != color && cells[Idx(SIZE - 1, SIZE - 1)] != color
  }

  /** A neighbour entry that is an in-bounds cell whose occupant is `color`. */
  predicate Holds(cells: seq<int>, n: Option<Pos>, color: int)
    requires IsGrid(cells)
  {
    n.Some? && InBounds(n.value.x, n.value.y) && cells[Idx(n.value.x, n.value.y)] == color
  }

  /** A cell holding `color` is no corner when corners are free of it. */
  lemma HoldsNoCorner(cells: seq<int>, n: Option<Pos>, color: int)
    requires IsGrid(cells) && CornersFree(cells, color) && Holds(cells, n, color)
    ensures !IsCorner(n.value.x, n.value.y)
  {
  }

  /** How many of the first k neighbours of (x, y) hold `color`. */
  function SameCount(cells: seq<int>, x: int, y: int, color: int, k: int): (r: nat)
    requires IsGrid(cells) && 0 <= k <= |COMPASS|
    ensures r <= k
    decreases k
  {
    if k == 0 then 0
    else SameCount(cells, x, y, color, k - 1) + (if Holds(cells, Neighbor(x, y, k - 1), color) then 1 else 0)
  }

  lemma {:induction false} SameCountMonotone(cells: seq<int>, x: int, y: int, color: int, j: int, k: int)
    requires IsGrid(cells) && 0 <= j <= k <= |COMPASS|
    ensures SameCount(cells, x, y, color, j) <= SameCount(cells, x, y, color, k)
    decreases k
  {
    if j < k {
      SameCountMonotone(cells, x, y, color, j, k - 1);
    }
  }

  /** The cell s has a neighbour holding `color` other than (x, y). */
  predicate Crowded(cells: seq<int>, s: Pos, color: int, x: int, y: int)
    requires IsGrid(cells)
  {
    exists e :: 0 <= e < |COMPASS| && Holds(cells, Neighbor(s.x, s.y, e), color)
      && Neighbor(s.x, s.y, e) != Some(Pos(x, y))
  }

  /**
   * isRule4Violation's loop from neighbour d on, with `count` neighbours of
   * the colour met so far: a neighbour of the colour that itself has a
   * neighbour of the colour other than (x, y) is a violation at once, and so
   * is the second neighbour of the colour.
   */
  function Rule4From(cells: seq<int>, x: int, y: int, color: int, d: int, count: int): bool
    requires IsGrid(cells) && 0 <= d <= |COMPASS|
    decreases |COMPASS| - d
  {
    if d == |COMPASS| then false
    else
      var n := Neighbor(x, y, d);
      var held := Holds(cells, n, color);
      var count' := if held then count + 1 else count;
      if held && Crowded(cells, n.value, color, x, y) then true
      else if count' >= 2 then true
      else Rule4From(cells, x, y, color, d + 1, count')
  }

  /** isRule4Violation(x, y, color): the loop over all eight neighbours. */
  predicate Rule4Violation(cells: seq<int>, x: int, y: int, color: int)
    requires IsGrid(cells)
  {
    Rule4From(cells, x, y, color, 0, 0)
  }

  /**
   * Placing `color` at (x, y) would make a cluster: two neighbours hold the
   * colour, or one that does has a neighbour of the colour other than (x, y).
   */
  ghost predicate Clustered(cells: seq<int>, x: int, y: int, color: int)
    requires IsGrid(cells)
  {
    SameCount(cells, x, y, color, |COMPASS|) >= 2 ||
    exists d :: 0 <= d < |COMPASS| && Holds(cells, Neighbor(x, y, d), color) &&
      Crowded(cells, Neighbor(x, y, d).value, color, x, y)
  }

  /** One turn of isRule4Violation's loop, at neighbour d with `count` holders met so far. */
  lemma Rule4Step(cells: seq<int>, x: int, y: int, color: int, d: int, count: int)
    requires IsGrid(cells) && 0 <= d < |COMPASS|
    ensures var n := Neighbor(x, y, d);
      var count' := if Holds(cells, n, color) then count + 1 else count;
      Rule4From(cells, x, y, color, d, count) ==
        ((Holds(cells, n, color) && Crowded(cells, Pos(n.value.x, n.value.y), color, x, y)) ||
         count' >= 2 || Rule4From(cells, x, y, color, d + 1, count'))
  {
  }

  lemma {:induction false} Rule4FromClustered(cells: seq<int>, x: int, y: int, color: int, d: int)
    requires IsGrid(cells) && 0 <= d <= |COMPASS|
    requires SameCount(cells, x, y, color, d) < 2
    requires forall e :: 0 <= e < d && Holds(cells, Neighbor(x, y, e), color) ==>
      !Crowded(cells, Neighbor(x, y, e).value, color, x, y)
    ensures Rule4From(cells, x, y, color, d, SameCount(cells, x, y, color, d)) <==> Clustered(cells, x, y, color)
    decreases |COMPASS| - d
  {
    if d < |COMPASS| {
      var n := Neighbor(x, y, d);
      var count := SameCount(cells, x, y, color, d);
      Rule4Step(cells, x, y, color, d, count);
      assert SameCount(cells, x, y, color, d + 1) == if Holds(cells, n, color) then count + 1 else count;
      if Holds(cells, n, color) && Crowded(cells, n.value, color, x, y) {
        assert Clustered(cells, x, y, color);
      } else if SameCount(cells, x, y, color, d + 1) >= 2 {
        SameCountMonotone(cells, x, y, color, d + 1, |COMPASS|);
      } else {
        assert forall e :: 0 <= e < d + 1 && Holds(cells, Neighbor(x, y, e), color) ==>
          !Crowded(cells, Neighbor(x, y, e).value, color, x, y);
        Rule4FromClustered(cells, x, y, color, d + 1);
      }
    }
  }

  /** The loop finds a violation exactly when placing the colour would make a cluster. */
  lemma Rule4Exactly(cells: seq<int>, x: int, y: int, color: int)
    requires IsGrid(cells)
    ensures Rule4Violation(cells, x, y, color) <==> Clustered(cells, x, y, color)
  {
    Rule4FromClustered(cells, x, y, color, 0);
  }

  /** The goal lines of the other colour are closed to `color` (rules 1 and 2). */
  predicate OnForbiddenLine(x: int, y: int, color: int) {
    (color == BLACK && (x == 0 || x == SIZE - 1)) || (color == WHITE && (y == 0 || y == SIZE - 1))
  }

  /**
   * isValidLocation(x, y, color): not on the other colour's goal lines,
   * the cell empty, and no rule-4 violation.
   */
  predicate ValidLocation(cells: seq<int>, x: int, y: int, color: int)
    requires IsGrid(cells) && InBounds(x, y)
  {
    if OnForbiddenLine(x, y, color) then false
    else if cells[Idx(x, y)] != EMPTY then false
    else !Rule4Violation(cells, x, y, color)
  }

  // ---------------------------------------------------------------------
  // The board invariant of legal play

  /** Every cell holds EMPTY, BLACK or WHITE. */
  predicate Codes(cells: seq<int>) {
    forall k :: 0 <= k < |cells| ==> cells[k] == EMPTY || cells[k] == BLACK || cells[k] == WHITE
  }

  /** No piece stands on a goal line of the other colour. */
  ghost predicate OffForbiddenLines(cells: seq<int>)
    requires IsGrid(cells)
  {
    forall x, y :: InBounds(x, y) ==> !OnForbiddenLine(x, y, cells[Idx(x, y)])
  }

  /**
   * The piece list of `color` matches the grid: at most ten pieces, each on
   * a distinct cell holding the colour, and every such cell has its piece.
   */
  ghost predicate Placed(cells: seq<int>, color: int, pieces: seq<Pos>)
    requires IsGrid(cells)
  {
    && |pieces| <= MAX_PIECES
    && Covered(cells, color, pieces)
    && (forall i :: 0 <= i < |pieces| ==>
          InBounds(pieces[i].x, pieces[i].y) && cells[Idx(pieces[i].x, pieces[i].y)] == color)
    && (forall i, j :: 0 <= i < j < |pieces| ==> pieces[i] != pieces[j])
  }

  /** What legal play keeps true of a board. */
  ghost predicate Inv(s: State) {
    && IsGrid(s.cells)
    && Codes(s.cells)
    && OffForbiddenLines(s.cells)
    && CornersFree(s.cells, BLACK) && CornersFree(s.cells, WHITE)
    && Placed(s.cells, BLACK, s.black)
    && Placed(s.cells, WHITE, s.white)
  }

  /** The board of a new game: every cell empty, no pieces. */
  function Initial(): (s: State)
    ensures Inv(s)
  {
    State(seq(CELLS, k => EMPTY), [], [])
  }

  // ---------------------------------------------------------------------
  // Legality and effect of a move

  /**
   * isLegalMove(m, player): QUIT always; ADD while fewer than ten pieces are
   * placed, onto a valid location; STEP once ten are placed, from a cell of
   * the player's colour to a location valid once that cell is emptied.
   */
  predicate LegalMove(s: State, m: Move, color: int)
    requires IsGrid(s.cells) && MoveInBounds(m)
  {
    match m
    case Quit => true
    case Step(x1, y1, x2, y2) =>
      if |PiecesOf(s, color)| < MAX_PIECES then false
      else if s.cells[Idx(x2, y2)] != color then false
      else ValidLocation(s.cells[Idx(x2, y2) := EMPTY], x1, y1, color)
    case Add(x1, y1) =>
      if |PiecesOf(s, color)| >= MAX_PIECES then false
      else ValidLocation(s.cells, x1, y1, color)
  }

  /**
   * makeMove(m, color), as (result, new board). ADD appends the piece
   * before placing it, so the piece is counted even when its cell is taken.
   * STEP, when the source holds the colour, moves the first piece standing
   * there, empties the source and then places the colour on the destination.
   */
  function ApplyMove(s: State, m: Move, color: int): (bool, State)
    requires IsGrid(s.cells) && IsColor(color) && MoveInBounds(m)
    requires m.Step? && s.cells[Idx(m.x2, m.y2)] == color ==> Pos(m.x2, m.y2) in PiecesOf(s, color)
  {
    match m
    case Quit => (true, s)
    case Add(x1, y1) =>
      var added := WithPieces(s, color, PiecesOf(s, color) + [Pos(x1, y1)]);
      if s.cells[Idx(x1, y1)] == EMPTY then (true, added.(cells := s.cells[Idx(x1, y1) := color]))
      else (false, added)
    case Step(x1, y1, x2, y2) =>
      if s.cells[Idx(x2, y2)] == color then
        var i := FirstAt(PiecesOf(s, color), Pos(x2, y2)).value;
        var moved := WithPieces(s, color, PiecesOf(s, color)[i := Pos(x1, y1)]);
        var removed := s.cells[Idx(x2, y2) := EMPTY];
        if removed[Idx(x1, y1)] == EMPTY then (true, moved.(cells := removed[Idx(x1, y1) := color]))
        else (false, moved.(cells := removed))
      else (false, s)
  }

  // ---------------------------------------------------------------------
  // Legal moves keep the invariant

  /** A piece list stays placed when a cell not of its colour is set to another colour. */
  lemma PlacedUnaffected(cells: seq<int>, color: int, ps: seq<Pos>, k: int, c: int)
    requires IsGrid(cells) && Placed(cells, color, ps)
    requires 0 <= k < CELLS && cells[k] != color && c != color
    ensures Placed(cells[k := c], color, ps)
  {
    var cells' := cells[k := c];
    forall x, y | InBounds(x, y) && cells'[Idx(x, y)] == color
      ensures Pos(x, y) in ps
    {
      assert cells[Idx(x, y)] == color;
    }
  }

  /** Adding a piece onto an empty cell keeps the list placed. */
  lemma PlacedAfterAdd(cells: seq<int>, color: int, ps: seq<Pos>, x: int, y: int)
    requires IsGrid(cells) && Placed(cells, color, ps) && color != EMPTY
    requires |ps| < MAX_PIECES && InBounds(x, y) && cells[Idx(x, y)] == EMPTY
    ensures Placed(cells[Idx(x, y) := color], color, ps + [Pos(x, y)])
  {
    var cells' := cells[Idx(x, y) := color];
    var ps' := ps + [Pos(x, y)];
    forall u, v | InBounds(u, v) && cells'[Idx(u, v)] == color
      ensures Pos(u, v) in ps'
    {
      if Idx(u, v) == Idx(x, y) {
        IdxInjective(u, v, x, y);
        assert ps'[|ps|] == Pos(u, v);
      } else {
        assert cells[Idx(u, v)] == color;
        var i :| 0 <= i < |ps| && ps[i] == Pos(u, v);
        assert ps'[i] == Pos(u, v);
      }
    }
    forall i | 0 <= i < |ps'|
      ensures InBounds(ps'[i].x, ps'[i].y) && cells'[Idx(ps'[i].x, ps'[i].y)] == color
    {
      if i < |ps| {
        assert ps'[i] == ps[i];
        assert Idx(ps[i].x, ps[i].y) != Idx(x, y);
      }
    }
    forall i, j | 0 <= i < j < |ps'|
      ensures ps'[i] != ps'[j]
    {
      if j == |ps| {
        assert cells[Idx(ps[i].x, ps[i].y)] == color;
      }
    }
  }

  /**
   * Stepping the first piece on (x2, y2) to (x1, y1), empty once the source
   * is, keeps the list placed.
   */
  lemma PlacedAfterStep(cells: seq<int>, color: int, ps: seq<Pos>, x1: int, y1: int, x2: int, y2: int)
    requires IsGrid(cells) && Placed(cells, color, ps) && color != EMPTY
    requires InBounds(x1, y1) && InBounds(x2, y2) && cells[Idx(x2, y2)] == color
    requires cells[Idx(x2, y2) := EMPTY][Idx(x1, y1)] == EMPTY
    ensures Pos(x2, y2) in ps
    ensures Placed(cells[Idx(x2, y2) := EMPTY][Idx(x1, y1) := color], color,
                   ps[FirstAt(ps, Pos(x2, y2)).value := Pos(x1, y1)])
  {
    var i := FirstAt(ps, Pos(x2, y2)).value;
    var cells' := cells[Idx(x2, y2) := EMPTY][Idx(x1, y1) := color];
    var ps' := ps[i := Pos(x1, y1)];
    // every other piece is off both the source and the destination
    forall l | 0 <= l < |ps| && l != i
      ensures Idx(ps[l].x, ps[l].y) != Idx(x2, y2) && Idx(ps[l].x, ps[l].y) != Idx(x1, y1)
      ensures cells'[Idx(ps[l].x, ps[l].y)] == color
    {
      IdxInjective(ps[l].x, ps[l].y, x2, y2);
    }
    forall u, v | InBounds(u, v) && cells'[Idx(u, v)] == color
      ensures Pos(u, v) in ps'
    {
      if Idx(u, v) == Idx(x1, y1) {
        IdxInjective(u, v, x1, y1);
        assert ps'[i] == Pos(u, v);
      } else {
        assert Idx(u, v) != Idx(x2, y2) && cells[Idx(u, v)] == color;
        var l :| 0 <= l < |ps| && ps[l] == Pos(u, v);
        if l == i {
          IdxInjective(u, v, x2, y2);
          assert false;
        }
        assert ps'[l] == Pos(u, v);
      }
    }
    forall a, b | 0 <= a < b < |ps'|
      ensures ps'[a] != ps'[b]
    {
      if a == i {
        assert Idx(ps[b].x, ps[b].y) != Idx(x1, y1);
      } else if b == i {
        assert Idx(ps[a].x, ps[a].y) != Idx(x1, y1);
      }
    }
  }

  /** Emptying a cell keeps the board's shared facts. */
  lemma CellsAfterRemove(cells: seq<int>, k: int)
    requires IsGrid(cells) && Codes(cells) && OffForbiddenLines(cells) && 0 <= k < CELLS
    ensures Codes(cells[k := EMPTY]) && OffForbiddenLines(cells[k := EMPTY])
  {
  }

  /** Placing `color` off its forbidden lines keeps the board's shared facts. */
  lemma CellsAfterPlace(cells: seq<int>, x: int, y: int, color: int)
    requires IsGrid(cells) && Codes(cells) && OffForbiddenLines(cells) && IsColor(color)
    requires InBounds(x, y) && !OnForbiddenLine(x, y, color)
    ensures var cells' := cells[Idx(x, y) := color];
      Codes(cells') && OffForbiddenLines(cells') && CornersFree(cells', BLACK) && CornersFree(cells', WHITE)
  {
    var cells' := cells[Idx(x, y) := color];
    forall u, v | InBounds(u, v)
      ensures !OnForbiddenLine(u, v, cells'[Idx(u, v)])
    {
      if Idx(u, v) == Idx(x, y) {
        IdxInjective(u, v, x, y);
      }
    }
    assert !OnForbiddenLine(0, 0, cells'[Idx(0, 0)]);
    assert !OnForbiddenLine(0, SIZE - 1, cells'[Idx(0, SIZE - 1)]);
    assert !OnForbiddenLine(SIZE - 1, 0, cells'[Idx(SIZE - 1, 0)]);
    assert !OnForbiddenLine(SIZE - 1, SIZE - 1, cells'[Idx(SIZE - 1, SIZE - 1)]);
  }

  /** A legal ADD: see LegalMoveApplies. */
  lemma AddApplies(s: State, x: int, y: int, color: int)
    requires Inv(s) && IsColor(color) && InBounds(x, y) && LegalMove(s, Add(x, y), color)
    ensures var (ok, t) := ApplyMove(s, Add(x, y), color);
      && ok && Inv(t)
      && PiecesOf(t, Other(color)) == PiecesOf(s, Other(color))
      && PiecesOf(t, color) == PiecesOf(s, color) + [Pos(x, y)]
      && s.cells[Idx(x, y)] == EMPTY && t.cells == s.cells[Idx(x, y) := color]
  {
    var t := ApplyMove(s, Add(x, y), color).1;
    var ps := PiecesOf(s, color);
    var cells' := s.cells[Idx(x, y) := color];
    assert t.cells == cells';
    PlacedAfterAdd(s.cells, color, ps, x, y);
    PlacedUnaffected(s.cells, Other(color), PiecesOf(s, Other(color)), Idx(x, y), color);
    CellsAfterPlace(s.cells, x, y, color);
    assert Placed(t.cells, color, PiecesOf(t, color));
  }

  /** A legal STEP: see LegalMoveApplies. */
  lemma StepApplies(s: State, x1: int, y1: int, x2: int, y2: int, color: int)
    requires Inv(s) && IsColor(color) && InBounds(x1, y1) && InBounds(x2, y2)
    requires LegalMove(s, Step(x1, y1, x2, y2), color)
    ensures Pos(x2, y2) in PiecesOf(s, color)
    ensures var (ok, t) := ApplyMove(s, Step(x1, y1, x2, y2), color);
      && ok && Inv(t)
      && PiecesOf(t, Other(color)) == PiecesOf(s, Other(color))
      && |PiecesOf(t, color)| == |PiecesOf(s, color)|
      && t.cells == s.cells[Idx(x2, y2) := EMPTY][Idx(x1, y1) := color]
  {
    var ps := PiecesOf(s, color);
    PlacedAfterStep(s.cells, color, ps, x1, y1, x2, y2);
    var t := ApplyMove(s, Step(x1, y1, x2, y2), color).1;
    var cells' := s.cells[Idx(x2, y2) := EMPTY][Idx(x1, y1) := color];
    assert t.cells == cells';
    var removed := s.cells[Idx(x2, y2) := EMPTY];
    PlacedUnaffected(s.cells, Other(color), PiecesOf(s, Other(color)), Idx(x2, y2), EMPTY);
    PlacedUnaffected(removed, Other(color), PiecesOf(s, Other(color)), Idx(x1, y1), color);
    CellsAfterRemove(s.cells, Idx(x2, y2));
    CellsAfterPlace(removed, x1, y1, color);
    assert Placed(t.cells, color, PiecesOf(t, color));
  }

  /**
   * A legal move applied by makeMove succeeds and keeps the invariant; an
   * ADD adds one piece of the colour at its empty target, a STEP keeps the
   * count and leaves the colour on the destination and the source empty
   * (unless they coincide); the other colour's pieces are untouched.
   */
  lemma LegalMoveApplies(s: State, m: Move, color: int)
    requires Inv(s) && IsColor(color) && MoveInBounds(m) && LegalMove(s, m, color)
    ensures m.Step? ==> Pos(m.x2, m.y2) in PiecesOf(s, color)
    ensures ApplyMove(s, m, color).0 && Inv(ApplyMove(s, m, color).1)
    ensures var t := ApplyMove(s, m, color).1;
      && PiecesOf(t, Other(color)) == PiecesOf(s, Other(color))
      && |PiecesOf(t, color)| == |PiecesOf(s, color)| + (if m.Add? then 1 else 0)
      && (m.Add? ==> t.cells == s.cells[Idx(m.x1, m.y1) := color] && s.cells[Idx(m.x1, m.y1)] == EMPTY)
      && (m.Step? ==> t.cells == s.cells[Idx(m.x2, m.y2) := EMPTY][Idx(m.x1, m.y1) := color])
      && (m.Quit? ==> t == s)
  {
    match m
    case Quit =>
    case Add(x1, y1) => AddApplies(s, x1, y1, color);
    case Step(x1, y1, x2, y2) => StepApplies(s, x1, y1, x2, y2, color);
  }

  // ---------------------------------------------------------------------
  // Emptying a cell never makes a location invalid

  lemma {:induction false} SameCountAfterRemove(cells: seq<int>, k: int, x: int, y: int, color: int, n: int)
    requires IsGrid(cells) && 0 <= k < CELLS && color != EMPTY && 0 <= n <= |COMPASS|
    ensures SameCount(cells[k := EMPTY], x, y, color, n) <= SameCount(cells, x, y, color, n)
    decreases n
  {
    if n > 0 {
      SameCountAfterRemove(cells, k, x, y, color, n - 1);
    }
  }

  /** A neighbour entry holding `color` once a cell is emptied held it before. */
  lemma HoldsAfterRemove(cells: seq<int>, k: int, n: Option<Pos>, color: int)
    requires IsGrid(cells) && 0 <= k < CELLS && color != EMPTY && Holds(cells[k := EMPTY], n, color)
    ensures Holds(cells, n, color)
  {
  }

  /** Emptying a cell cannot create a cluster. */
  lemma ClusteredAfterRemove(cells: seq<int>, k: int, x: int, y: int, color: int)
    requires IsGrid(cells) && 0 <= k < CELLS && color != EMPTY
    requires Clustered(cells[k := EMPTY], x, y, color)
    ensures Clustered(cells, x, y, color)
  {
    var cells' := cells[k := EMPTY];
    SameCountAfterRemove(cells, k, x, y, color, |COMPASS|);
    if SameCount(cells', x, y, color, |COMPASS|) < 2 {
      var d :| 0 <= d < |COMPASS| && Holds(cells', Neighbor(x, y, d), color) &&
         Crowded(cells', Neighbor(x, y, d).value, color, x, y);
      var c := Neighbor(x, y, d).value;
      var e :| 0 <= e < |COMPASS| && Holds(cells', Neighbor(c.x, c.y, e), color)
        && Neighbor(c.x, c.y, e) != Some(Pos(x, y));
      HoldsAfterRemove(cells, k, Neighbor(x, y, d), color);
      HoldsAfterRemove(cells, k, Neighbor(c.x, c.y, e), color);
      assert Crowded(cells, c, color, x, y);
    }
  }

  /**
   * A location valid for `color` stays valid when some cell is emptied, as
   * when isLegalMove removes the piece a STEP moves.
   */
  lemma ValidAfterRemove(cells: seq<int>, k: int, x: int, y: int, color: int)
    requires IsGrid(cells) && 0 <= k < CELLS && InBounds(x, y) && color != EMPTY
    requires ValidLocation(cells, x, y, color)
    ensures ValidLocation(cells[k := EMPTY], x, y, color)
  {
    Rule4Exactly(cells, x, y, color);
    Rule4Exactly(cells[k := EMPTY], x, y, color);
    if Clustered(cells[k := EMPTY], x, y, color) {
      ClusteredAfterRemove(cells, k, x, y, color);
    }
  }

  // ---------------------------------------------------------------------
  // Move generation

  /** The cell with flattened index k. */
  function CellPos(k: int): (p: Pos)
    requires 0 <= k < CELLS
    ensures InBounds(p.x, p.y) && Idx(p.x, p.y) == k
  {
    Pos(k / SIZE, k % SIZE)
  }

  lemma CellPosIdx(x: int, y: int)
    requires InBounds(x, y)
    ensures CellPos(Idx(x, y)) == Pos(x, y)
  {
    IdxInjective(x, y, CellPos(Idx(x, y)).x, CellPos(Idx(x, y)).y);
  }

  /** isValidLocation(x, y, color) for every cell, by flattened index. */
  function ValidMap(cells: seq<int>, color: int): (r: seq<bool>)
    requires IsGrid(cells)
    ensures |r| == CELLS
  {
    seq(CELLS, k requires 0 <= k < CELLS => ValidLocation(cells, CellPos(k).x, CellPos(k).y, color))
  }

  /** The cells among the first n whose flag is set, in index order. */
  function Select(flags: seq<bool>, n: int): seq<Pos>
    requires 0 <= n <= |flags| <= CELLS
    decreases n
  {
    if n == 0 then []
    else Select(flags, n - 1) + (if flags[n - 1] then [CellPos(n - 1)] else [])
  }

  /** p is a cell below index n whose flag is set. */
  predicate Flagged(flags: seq<bool>, n: int, p: Pos) {
    InBounds(p.x, p.y) && Idx(p.x, p.y) < n && Idx(p.x, p.y) < |flags| && flags[Idx(p.x, p.y)]
  }

  /** Select lists only flagged cells below n. */
  lemma {:induction false} SelectFlagged(flags: seq<bool>, n: int)
    requires 0 <= n <= |flags| <= CELLS
    ensures forall i :: 0 <= i < |Select(flags, n)| ==> Flagged(flags, n, Select(flags, n)[i])
    decreases n
  {
    if n > 0 {
      SelectFlagged(flags, n - 1);
      var prev := Select(flags, n - 1);
      var ts := Select(flags, n);
      forall i | 0 <= i < |ts|
        ensures Flagged(flags, n, ts[i])
      {
        if i < |prev| {
          assert ts[i] == prev[i] && Flagged(flags, n - 1, prev[i]);
        } else {
          assert flags[n - 1] && ts[i] == CellPos(n - 1);
        }
      }
    }
  }

  /** Select lists its cells in increasing index. */
  lemma {:induction false} SelectIncreasing(flags: seq<bool>, n: int)
    requires 0 <= n <= |flags| <= CELLS
    ensures forall i :: 0 <= i < |Select(flags, n)| ==> InBounds(Select(flags, n)[i].x, Select(flags, n)[i].y)
    ensures forall i, j :: 0 <= i < j < |Select(flags, n)| ==>
      Idx(Select(flags, n)[i].x, Select(flags, n)[i].y) < Idx(Select(flags, n)[j].x, Select(flags, n)[j].y)
    decreases n
  {
    SelectFlagged(flags, n);
    if n > 0 {
      SelectIncreasing(flags, n - 1);
      SelectFlagged(flags, n - 1);
      var prev := Select(flags, n - 1);
      var ts := Select(flags, n);
      forall i, j | 0 <= i < j < |ts|
        ensures Idx(ts[i].x, ts[i].y) < Idx(ts[j].x, ts[j].y)
      {
        assert ts[i] == prev[i] && Flagged(flags, n - 1, prev[i]);
        if j < |prev| {
          assert ts[j] == prev[j];
        } else {
          assert ts[j] == CellPos(n - 1);
        }
      }
    }
  }

  /** Select lists every flagged cell below n. */
  lemma {:induction false} SelectComplete(flags: seq<bool>, n: int, k: int)
    requires 0 <= k < n <= |flags| <= CELLS && flags[k]
    ensures CellPos(k) in Select(flags, n)
    decreases n
  {
    var prev := Select(flags, n - 1);
    var ts := Select(flags, n);
    if k < n - 1 {
      SelectComplete(flags, n - 1, k);
      var i :| 0 <= i < |prev| && prev[i] == CellPos(k);
      assert ts[i] == CellPos(k);
    } else {
      assert ts[|prev|] == CellPos(k);
    }
  }

  /** emptySpaces(color): every valid location for the colour, column by column. */
  function EmptySpaces(cells: seq<int>, color: int): seq<Pos>
    requires IsGrid(cells)
  {
    var flags := ValidMap(cells, color); Select(flags, |flags|)
  }

  /** A cell is selected exactly when its flag is set. */
  lemma SelectMember(flags: seq<bool>, x: int, y: int)
    requires |flags| == CELLS && InBounds(x, y)
    ensures Pos(x, y) in Select(flags, |flags|) <==> flags[Idx(x, y)]
  {
    var ts := Select(flags, |flags|);
    CellPosIdx(x, y);
    if Pos(x, y) in ts {
      SelectFlagged(flags, |flags|);
      var i :| 0 <= i < |ts| && ts[i] == Pos(x, y);
      assert Flagged(flags, |flags|, ts[i]);
    }
    if flags[Idx(x, y)] {
      SelectComplete(flags, |flags|, Idx(x, y));
    }
  }

  /** emptySpaces lists exactly the valid locations for the colour. */
  lemma EmptySpacesExactly(cells: seq<int>, color: int, x: int, y: int)
    requires IsGrid(cells) && InBounds(x, y)
    ensures Pos(x, y) in EmptySpaces(cells, color) <==> ValidLocation(cells, x, y, color)
  {
    SelectMember(ValidMap(cells, color), x, y);
    CellPosIdx(x, y);
  }

  /** The selected cells are on the board, each once, in increasing index. */
  lemma SelectOrdered(flags: seq<bool>)
    requires |flags| == CELLS
    ensures var ts := Select(flags, |flags|);
      && (forall i :: 0 <= i < |ts| ==> InBounds(ts[i].x, ts[i].y))
      && (forall i, j :: 0 <= i < j < |ts| ==> Idx(ts[i].x, ts[i].y) < Idx(ts[j].x, ts[j].y))
  {
    var ts := Select(flags, |flags|);
    SelectFlagged(flags, |flags|);
    SelectIncreasing(flags, |flags|);
    forall i | 0 <= i < |ts|
      ensures InBounds(ts[i].x, ts[i].y)
    {
      assert Flagged(flags, |flags|, ts[i]);
    }
  }

  /** emptySpaces lists cells of the board, each once, in increasing index (x outer, y inner). */
  lemma EmptySpacesOrdered(cells: seq<int>, color: int)
    requires IsGrid(cells)
    ensures var ts := EmptySpaces(cells, color);
      && (forall i :: 0 <= i < |ts| ==> InBounds(ts[i].x, ts[i].y))
      && (forall i, j :: 0 <= i < j < |ts| ==> Idx(ts[i].x, ts[i].y) < Idx(ts[j].x, ts[j].y))
  {
    var flags := ValidMap(cells, color);
    SelectOrdered(flags);
    assert EmptySpaces(cells, color) == Select(flags, |flags|);
  }

  /** An ADD move to each target, in order. */
  function AddMoves(ts: seq<Pos>): (r: seq<Move>)
    ensures |r| == |ts|
    ensures forall i :: 0 <= i < |r| ==> r[i] == Add(ts[i].x, ts[i].y)
  {
    if |ts| == 0 then [] else AddMoves(ts[..|ts| - 1]) + [Add(ts[|ts| - 1].x, ts[|ts| - 1].y)]
  }

  /** STEP moves of the piece at p to each target, in order. */
  function StepsFrom(p: Pos, ts: seq<Pos>): (r: seq<Move>)
    ensures |r| == |ts|
    ensures forall i :: 0 <= i < |r| ==> r[i] == Step(ts[i].x, ts[i].y, p.x, p.y)
  {
    if |ts| == 0 then [] else StepsFrom(p, ts[..|ts| - 1]) + [Step(ts[|ts| - 1].x, ts[|ts| - 1].y, p.x, p.y)]
  }

  /** For each piece in list order, its STEP to every target. */
  function StepMoves(ps: seq<Pos>, ts: seq<Pos>): seq<Move> {
    if |ps| == 0 then [] else StepMoves(ps[..|ps| - 1], ts) + StepsFrom(ps[|ps| - 1], ts)
  }

  lemma MulSucc(a: int, b: int)
    ensures (a + 1) * b == a * b + b
  {
  }

  lemma StepsFromExactly(p: Pos, ts: seq<Pos>, m: Move)
    ensures m in StepsFrom(p, ts) <==> m.Step? && Pos(m.x1, m.y1) in ts && Pos(m.x2, m.y2) == p
  {
    if m in StepsFrom(p, ts) {
      var i :| 0 <= i < |ts| && StepsFrom(p, ts)[i] == m;
      assert ts[i] == Pos(m.x1, m.y1);
    }
    if m.Step? && Pos(m.x1, m.y1) in ts && Pos(m.x2, m.y2) == p {
      var i :| 0 <= i < |ts| && ts[i] == Pos(m.x1, m.y1);
      assert StepsFrom(p, ts)[i] == m;
    }
  }

  /** The step moves are exactly every piece to every target, |ps| * |ts| of them. */
  lemma {:induction false} StepMovesExactly(ps: seq<Pos>, ts: seq<Pos>, m: Move)
    ensures |StepMoves(ps, ts)| == |ps| * |ts|
    ensures m in StepMoves(ps, ts) <==> m.Step? && Pos(m.x1, m.y1) in ts && Pos(m.x2, m.y2) in ps
  {
    if |ps| > 0 {
      var init := ps[..|ps| - 1];
      var p := ps[|ps| - 1];
      StepMovesExactly(init, ts, m);
      StepsFromExactly(p, ts, m);
      assert ps == init + [p];
      MulSucc(|init|, |ts|);
    }
  }

  /**
   * generateAllMoves(color): with ten pieces placed, every piece's STEP to
   * every empty space; otherwise an ADD to every empty space.
   */
  function GenerateAllMoves(s: State, color: int): seq<Move>
    requires IsGrid(s.cells) && IsColor(color)
  {
    var ts := EmptySpaces(s.cells, color);
    if |PiecesOf(s, color)| == MAX_PIECES then StepMoves(PiecesOf(s, color), ts) else AddMoves(ts)
  }

  /** An ADD to a listed empty space is legal while fewer than ten pieces are placed. */
  lemma AddMovesLegal(s: State, color: int, m: Move)
    requires IsGrid(s.cells)
    requires |PiecesOf(s, color)| < MAX_PIECES && m in AddMoves(EmptySpaces(s.cells, color))
    ensures MoveInBounds(m) && LegalMove(s, m, color)
  {
    var ts := EmptySpaces(s.cells, color);
    EmptySpacesOrdered(s.cells, color);
    var i :| 0 <= i < |ts| && AddMoves(ts)[i] == m;
    assert Pos(m.x1, m.y1) == ts[i];
    EmptySpacesExactly(s.cells, color, m.x1, m.y1);
  }

  /** A STEP of a piece on its own cell to a listed empty space is legal with ten pieces placed. */
  lemma StepMovesLegal(s: State, color: int, m: Move)
    requires IsGrid(s.cells) && color != EMPTY
    requires |PiecesOf(s, color)| == MAX_PIECES
    requires forall i :: 0 <= i < |PiecesOf(s, color)| ==>
      var p := PiecesOf(s, color)[i]; InBounds(p.x, p.y) && s.cells[Idx(p.x, p.y)] == color
    requires m in StepMoves(PiecesOf(s, color), EmptySpaces(s.cells, color))
    ensures MoveInBounds(m) && LegalMove(s, m, color)
  {
    var ps := PiecesOf(s, color);
    var ts := EmptySpaces(s.cells, color);
    EmptySpacesOrdered(s.cells, color);
    StepMovesExactly(ps, ts, m);
    var i :| 0 <= i < |ps| && ps[i] == Pos(m.x2, m.y2);
    var j :| 0 <= j < |ts| && ts[j] == Pos(m.x1, m.y1);
    EmptySpacesExactly(s.cells, color, m.x1, m.y1);
    ValidAfterRemove(s.cells, Idx(m.x2, m.y2), m.x1, m.y1, color);
  }

  /** Every generated move is in bounds and legal for the player. */
  lemma GeneratedMovesLegal(s: State, color: int)
    requires Inv(s) && IsColor(color)
    ensures forall m :: m in GenerateAllMoves(s, color) ==> MoveInBounds(m) && LegalMove(s, m, color)
  {
    forall m | m in GenerateAllMoves(s, color)
      ensures MoveInBounds(m) && LegalMove(s, m, color)
    {
      if |PiecesOf(s, color)| == MAX_PIECES {
        StepMovesLegal(s, color, m);
      } else {
        AddMovesLegal(s, color, m);
      }
    }
  }

  /** Before ten pieces are placed, every legal ADD is generated. */
  lemma LegalAddsGenerated(s: State, m: Move, color: int)
    requires IsGrid(s.cells) && IsColor(color) && MoveInBounds(m) && LegalMove(s, m, color) && m.Add?
    ensures m in GenerateAllMoves(s, color)
  {
    var ts := EmptySpaces(s.cells, color);
    EmptySpacesExactly(s.cells, color, m.x1, m.y1);
    var i :| 0 <= i < |ts| && ts[i] == Pos(m.x1, m.y1);
    assert AddMoves(ts)[i] == m;
  }

  // ---------------------------------------------------------------------
  // The static evaluator

  /**
   * evaluate(): a white network scores INT_MAX, else a black network
   * INT_MIN; otherwise ten points per connection of white less ten per
   * connection of black, plus 100 when white has pieces in both its goals
   * and less 10 when black does.
   */
  function Evaluate(s: State): int
    requires IsGrid(s.cells) && Covered(s.cells, WHITE, s.white) && Covered(s.cells, BLACK, s.black)
  {
    if Wins(s.cells, WHITE, s.white) then INT_MAX
    else if Wins(s.cells, BLACK, s.black) then INT_MIN
    else
      var whiteConnections := TotalConnections(s.cells, WHITE, s.white);
      var blackConnections := TotalConnections(s.cells, BLACK, s.black);
      var whiteEnds := HasStart(WHITE, s.white) * HasEnd(WHITE, s.white) * 100;
      var blackEnds := HasStart(BLACK, s.black) * HasEnd(BLACK, s.black) * 10;
      10 * (whiteConnections - blackConnections) + (whiteEnds - blackEnds)
  }

  /**
   * The score is INT_MAX exactly when white has won, INT_MIN exactly when
   * black has and white has not, and otherwise lies in -810..900, so it is a
   * 32-bit value and never collides with the sentinels.
   */
  lemma EvaluateRange(s: State)
    requires IsGrid(s.cells) && Covered(s.cells, WHITE, s.white) && Covered(s.cells, BLACK, s.black)
    requires |s.white| <= MAX_PIECES && |s.black| <= MAX_PIECES
    ensures Evaluate(s) == INT_MAX <==> Wins(s.cells, WHITE, s.white)
    ensures Evaluate(s) == INT_MIN <==> !Wins(s.cells, WHITE, s.white) && Wins(s.cells, BLACK, s.black)
    ensures !Wins(s.cells, WHITE, s.white) && !Wins(s.cells, BLACK, s.black) ==> -810 <= Evaluate(s) <= 900
    ensures INT_MIN <= Evaluate(s) <= INT_MAX
  {
    TotalConnectionsBound(s.cells, WHITE, s.white);
    TotalConnectionsBound(s.cells, BLACK, s.black);
  }

  /** The sentinel scores mean networks: INT_MAX exactly when white has one, INT_MIN when black has one and white none. */
  lemma EvaluateNetworks(s: State)
    requires IsGrid(s.cells) && Covered(s.cells, WHITE, s.white) && Covered(s.cells, BLACK, s.black)
    requires |s.white| <= MAX_PIECES && |s.black| <= MAX_PIECES
    ensures Evaluate(s) == INT_MAX <==> exists w :: IsNetwork(s.cells, WHITE, s.white, w)
    ensures Evaluate(s) == INT_MIN <==>
      (!exists w :: IsNetwork(s.cells, WHITE, s.white, w)) && exists w :: IsNetwork(s.cells, BLACK, s.black, w)
  {
    EvaluateRange(s);
    VictoryIffNetwork(s.cells, WHITE, s.white);
    VictoryIffNetwork(s.cells, BLACK, s.black);
  }
}
