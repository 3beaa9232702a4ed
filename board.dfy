/**
 * The Board object: an 8x8 grid of Space objects and the piece sets of both
 * colours. Each method is proved against the rules of module Rules on the
 * board value State().
 */
module Boards {
  import opened Common
  import opened Pieces
  import opened Spaces
  import opened PieceSets
  import opened Rules

  /** The positions of a list of spaces. */
  function PositionsOf(ss: seq<Space>): (r: seq<Pos>)
    ensures |r| == |ss| && forall i :: 0 <= i < |ss| ==> r[i] == Pos(ss[i].x, ss[i].y)
  {
    seq(|ss|, i requires 0 <= i < |ss| => Pos(ss[i].x, ss[i].y))
  }

  /** Every space of ss is the grid's own space at its coordinates. */
  predicate OnGrid(grid: seq<Space>, ss: seq<Space>) {
    |grid| == CELLS &&
    forall k :: 0 <= k < |ss| ==> InBounds(ss[k].x, ss[k].y) && ss[k] == grid[Idx(ss[k].x, ss[k].y)]
  }

  /** Appending the grid's space at (x, y) extends the positions by that cell and stays on the grid. */
  lemma AppendCell(grid: seq<Space>, ss: seq<Space>, x: int, y: int)
    requires Laid(grid) && OnGrid(grid, ss) && InBounds(x, y)
    ensures PositionsOf(ss + [grid[Idx(x, y)]]) == PositionsOf(ss) + [Pos(x, y)]
    ensures OnGrid(grid, ss + [grid[Idx(x, y)]])
  {
    var ts := ss + [grid[Idx(x, y)]];
    assert PositionsOf(ts)[|ss|] == Pos(x, y);
  }

  /** One cell of emptySpaces' scan: the cell at (x, y) is selected exactly when it is a valid location. */
  lemma SelectCell(cells: seq<int>, color: int, x: int, y: int)
    requires IsGrid(cells) && InBounds(x, y)
    ensures var flags := ValidMap(cells, color);
      Select(flags, Idx(x, y) + 1) ==
      Select(flags, Idx(x, y)) + if ValidLocation(cells, x, y, color) then [Pos(x, y)] else []
  {
    CellPosIdx(x, y);
  }

  /** generateAllMoves' inner loop: a STEP from curr to each space, in order. */
  method StepsTo(curr: Pos, spaces: seq<Space>) returns (moves: seq<Move>)
    ensures moves == StepsFrom(curr, PositionsOf(spaces))
  {
    ghost var ts := PositionsOf(spaces);
    moves := [];
    for q := 0 to |spaces|
      invariant moves == StepsFrom(curr, ts[..q])
    {
      assert ts[..q + 1][..q] == ts[..q];
      moves := moves + [Step(spaces[q].x, spaces[q].y, curr.x, curr.y)];
    }
    assert ts[..|spaces|] == ts;
  }

  /** generateAllMoves' STEP loop: for each piece in list order, a STEP from it to each space. */
  method StepsOf(pieces: seq<Pos>, spaces: seq<Space>) returns (out: seq<Move>)
    ensures out == StepMoves(pieces, PositionsOf(spaces))
  {
    out := [];
    for p := 0 to |pieces|
      invariant out == StepMoves(pieces[..p], PositionsOf(spaces))
    {
      assert pieces[..p + 1][..p] == pieces[..p];
      var steps := StepsTo(pieces[p], spaces);
      out := out + steps;
    }
    assert pieces[..|pieces|] == pieces;
  }

  /** generateAllMoves' ADD loop: an ADD to each space, in order. */
  method AddsTo(spaces: seq<Space>) returns (moves: seq<Move>)
    ensures moves == AddMoves(PositionsOf(spaces))
  {
    ghost var ts := PositionsOf(spaces);
    moves := [];
    for q := 0 to |spaces|
      invariant moves == AddMoves(ts[..q])
    {
      assert ts[..q + 1][..q] == ts[..q];
      moves := moves + [Add(spaces[q].x, spaces[q].y)];
    }
    assert ts[..|spaces|] == ts;
  }

  /** s is the space of neighbour entry n: null for None, else the grid's space at that cell. */
  predicate Names(grid: seq<Space>, s: Space?, n: Option<Pos>) {
    if n.None? then s == null else InBounds(n.value.x, n.value.y) && |grid| == CELLS && s == grid[Idx(n.value.x, n.value.y)]
  }

  /** The try block's table names all eight neighbours of an inner cell. */
  lemma InteriorNamed(g: seq<Space>, x: int, y: int, ns: seq<Space?>)
    requires |g| == CELLS && 0 < x < SIZE - 1 && 0 < y < SIZE - 1
    requires ns == [g[Idx(x, y - 1)], g[Idx(x + 1, y - 1)], g[Idx(x + 1, y)], g[Idx(x + 1, y + 1)],
                    g[Idx(x, y + 1)], g[Idx(x - 1, y + 1)], g[Idx(x - 1, y)], g[Idx(x - 1, y - 1)]]
    ensures forall d :: 0 <= d < |COMPASS| ==> Names(g, ns[d], Neighbor(x, y, d))
  {
    forall d | 0 <= d < |COMPASS| ensures Names(g, ns[d], Neighbor(x, y, d)) {
      if d == 0 {} else if d == 1 {} else if d == 2 {} else if d == 3 {}
      else if d == 4 {} else if d == 5 {} else if d == 6 {} else {}
    }
  }

  /** The west wall's table, with null to the south-west, west and north-west. */
  lemma WestNamed(g: seq<Space>, x: int, y: int, ns: seq<Space?>)
    requires |g| == CELLS && x == 0 && 0 < y < SIZE - 1
    requires ns == [g[Idx(x, y - 1)], g[Idx(x + 1, y - 1)], g[Idx(x + 1, y)], g[Idx(x + 1, y + 1)],
                    g[Idx(x, y + 1)], null, null, null]
    ensures forall d :: 0 <= d < |COMPASS| ==> Names(g, ns[d], Neighbor(x, y, d))
  {
    forall d | 0 <= d < |COMPASS| ensures Names(g, ns[d], Neighbor(x, y, d)) {
      if d == 0 {} else if d == 1 {} else if d == 2 {} else if d == 3 {}
      else if d == 4 {} else if d == 5 {} else if d == 6 {} else {}
    }
  }

  /** The north wall's table, with null to the north, north-east and north-west. */
  lemma NorthNamed(g: seq<Space>, x: int, y: int, ns: seq<Space?>)
    requires |g| == CELLS && 0 < x < SIZE - 1 && y == 0
    requires ns == [null, null, g[Idx(x + 1, y)], g[Idx(x + 1, y + 1)],
                    g[Idx(x, y + 1)], g[Idx(x - 1, y + 1)], g[Idx(x - 1, y)], null]
    ensures forall d :: 0 <= d < |COMPASS| ==> Names(g, ns[d], Neighbor(x, y, d))
  {
    forall d | 0 <= d < |COMPASS| ensures Names(g, ns[d], Neighbor(x, y, d)) {
      if d == 0 {} else if d == 1 {} else if d == 2 {} else if d == 3 {}
      else if d == 4 {} else if d == 5 {} else if d == 6 {} else {}
    }
  }

  /** The south wall's table, with null to the south-east, south and south-west. */
  lemma SouthNamed(g: seq<Space>, x: int, y: int, ns: seq<Space?>)
    requires |g| == CELLS && 0 < x < SIZE - 1 && y == SIZE - 1
    requires ns == [g[Idx(x, y - 1)], g[Idx(x + 1, y - 1)], g[Idx(x + 1, y)], null,
                    null, null, g[Idx(x - 1, y)], g[Idx(x - 1, y - 1)]]
    ensures forall d :: 0 <= d < |COMPASS| ==> Names(g, ns[d], Neighbor(x, y, d))
  {
    forall d | 0 <= d < |COMPASS| ensures Names(g, ns[d], Neighbor(x, y, d)) {
      if d == 0 {} else if d == 1 {} else if d == 2 {} else if d == 3 {}
      else if d == 4 {} else if d == 5 {} else if d == 6 {} else {}
    }
  }

  /** The east wall's table, with null to the north-east, east and south-east. */
  lemma EastNamed(g: seq<Space>, x: int, y: int, ns: seq<Space?>)
    requires |g| == CELLS && x == SIZE - 1 && 0 < y < SIZE - 1
    requires ns == [g[Idx(x, y - 1)], null, null, null,
                    g[Idx(x, y + 1)], g[Idx(x - 1, y + 1)], g[Idx(x - 1, y)], g[Idx(x - 1, y - 1)]]
    ensures forall d :: 0 <= d < |COMPASS| ==> Names(g, ns[d], Neighbor(x, y, d))
  {
    forall d | 0 <= d < |COMPASS| ensures Names(g, ns[d], Neighbor(x, y, d)) {
      if d == 0 {} else if d == 1 {} else if d == 2 {} else if d == 3 {}
      else if d == 4 {} else if d == 5 {} else if d == 6 {} else {}
    }
  }

  /** One space per cell, the space at (x, y) being grid[Idx(x, y)]. */
  ghost predicate Laid(grid: seq<Space>) {
    && |grid| == CELLS
    && (forall x, y :: InBounds(x, y) ==> grid[Idx(x, y)].x == x && grid[Idx(x, y)].y == y)
  }

  /** The spaces of different cells are different objects. */
  lemma LaidDistinct(grid: seq<Space>, k: int, l: int)
    requires Laid(grid) && 0 <= k < CELLS && 0 <= l < CELLS && k != l
    ensures grid[k] != grid[l]
  {
    var p, q := CellPos(k), CellPos(l);
    assert grid[Idx(p.x, p.y)].x == p.x && grid[Idx(p.x, p.y)].y == p.y;
    assert grid[Idx(q.x, q.y)].x == q.x && grid[Idx(q.x, q.y)].y == q.y;
  }

  /** A neighbour entry's space holds the colour exactly when the entry's cell does. */
  lemma HoldsNamed(grid: seq<Space>, cells: seq<int>, s: Space?, n: Option<Pos>, color: int)
    requires Laid(grid) && IsGrid(cells) && Shows(grid, cells) && Names(grid, s, n)
    ensures s != null ==> n == Some(Pos(s.x, s.y))
    ensures (s != null && s.kind == color) == Holds(cells, n, color)
  {
  }

  class Board {
    /** board[x][y], flattened: the space at (x, y) is grid[Idx(x, y)]. */
    const grid: seq<Space>
    var black: PieceSet
    var white: PieceSet
    /** The occupant code of every space. */
    ghost var cells: seq<int>

    ghost predicate Valid()
      reads this, grid, black, white
    {
      && Laid(grid) && IsGrid(cells) && Shows(grid, cells)
      && black != white && black.color == BLACK && white.color == WHITE
      && black.Valid() && white.Valid()
    }

    /** The board as a value. */
    ghost function State(): Rules.State
      reads this, black, white
    {
      Rules.State(cells, black.pieces, white.pieces)
    }

    /** A board of empty spaces with the given piece sets. */
    constructor (b: PieceSet, w: PieceSet)
      requires b != w && b.color == BLACK && w.color == WHITE && b.Valid() && w.Valid()
      ensures Valid() && fresh(grid) && black == b && white == w
      ensures cells == Initial().cells
    {
      var g: seq<Space> := [];
      for i := 0 to SIZE
        invariant |g| == i * SIZE
        invariant forall x, y :: InBounds(x, y) && Idx(x, y) < |g| ==> g[Idx(x, y)].x == x && g[Idx(x, y)].y == y
        invariant forall k, l :: 0 <= k < l < |g| ==> g[k] != g[l]
        invariant forall k :: 0 <= k < |g| ==> fresh(g[k]) && g[k].kind == EMPTY
      {
        for j := 0 to SIZE
          invariant |g| == i * SIZE + j
          invariant forall x, y :: InBounds(x, y) && Idx(x, y) < |g| ==> g[Idx(x, y)].x == x && g[Idx(x, y)].y == y
          invariant forall k, l :: 0 <= k < l < |g| ==> g[k] != g[l]
          invariant forall k :: 0 <= k < |g| ==> fresh(g[k]) && g[k].kind == EMPTY
        {
          var s := new Space(i, j);
          g := g + [s];
        }
      }
      grid := g;
      black := b;
      white := w;
      cells := Initial().cells;
    }

    /**
     * getNeighborSpaces(x, y): the eight neighbours N, NE, E, SE, S, SW, W,
     * NW inside the board; on an edge the wall's table from the catch block,
     * with null for the directions off the board.
     */
    method GetNeighborSpaces(x: int, y: int) returns (neighbors: seq<Space?>)
      requires |grid| == CELLS && InBounds(x, y) && !IsCorner(x, y)
      ensures |neighbors| == |COMPASS|
      ensures forall d :: 0 <= d < |COMPASS| ==> Names(grid, neighbors[d], Neighbor(x, y, d))
    {
      var b := grid;
      if 0 < x < SIZE - 1 && 0 < y < SIZE - 1 {
        neighbors := [b[Idx(x, y - 1)], b[Idx(x + 1, y - 1)], b[Idx(x + 1, y)], b[Idx(x + 1, y + 1)],
                      b[Idx(x, y + 1)], b[Idx(x - 1, y + 1)], b[Idx(x - 1, y)], b[Idx(x - 1, y - 1)]];
        InteriorNamed(b, x, y, neighbors);
      } else {
        // Away from the corners exactly one of the catch block's four wall tables applies.
        if x == 0 {
          neighbors := [b[Idx(x, y - 1)], b[Idx(x + 1, y - 1)], b[Idx(x + 1, y)], b[Idx(x + 1, y + 1)],
                        b[Idx(x, y + 1)], null, null, null];
        WestNamed(b, x, y, neighbors);
        } else if y == 0 {
          neighbors := [null, null, b[Idx(x + 1, y)], b[Idx(x + 1, y + 1)],
                        b[Idx(x, y + 1)], b[Idx(x - 1, y + 1)], b[Idx(x - 1, y)], null];
        NorthNamed(b, x, y, neighbors);
        } else if y == SIZE - 1 {
          neighbors := [b[Idx(x, y - 1)], b[Idx(x + 1, y - 1)], b[Idx(x + 1, y)], null,
                        null, null, b[Idx(x - 1, y)], b[Idx(x - 1, y - 1)]];
        SouthNamed(b, x, y, neighbors);
        } else {
          neighbors := [b[Idx(x, y - 1)], null, null, null,
                        b[Idx(x, y + 1)], b[Idx(x - 1, y + 1)], b[Idx(x - 1, y)], b[Idx(x - 1, y - 1)]];
        EastNamed(b, x, y, neighbors);
        }
      }
    }

    /**
     * isRule4Violation(x, y, color): for each neighbour of the colour, a
     * neighbour of its own of the colour other than (x, y) is a violation;
     * so is a second neighbour of the colour.
     */
    method IsRule4Violation(x: int, y: int, color: int) returns (r: bool)
      requires Laid(grid) && IsGrid(cells) && Shows(grid, cells) && InBounds(x, y) && !IsCorner(x, y) && CornersFree(cells, color)
      ensures r == Rule4Violation(cells, x, y, color)
    {
      ghost var c := cells;
      var immediateNeighbors := GetNeighborSpaces(x, y);
      var count := 0;
      for d := 0 to |immediateNeighbors|
        invariant cells == c
        invariant Rule4From(c, x, y, color, d, count) == Rule4Violation(c, x, y, color)
      {
        Rule4Step(c, x, y, color, d, count);
        var violation;
        violation, count := NeighborTurn(immediateNeighbors[d], x, y, color, d, count);
        if violation {
          return true;
        }
      }
      return false;
    }

    /**
     * The body of isRule4Violation's loop for the neighbour s in direction d:
     * a neighbour of the colour is counted, and it is a violation when it is
     * crowded or is the second one.
     */
    method NeighborTurn(s: Space?, x: int, y: int, color: int, ghost d: int, count: int) returns (violation: bool, count': int)
      requires Laid(grid) && IsGrid(cells) && Shows(grid, cells) && CornersFree(cells, color)
      requires 0 <= d < |COMPASS| && Names(grid, s, Neighbor(x, y, d))
      ensures count' == if Holds(cells, Neighbor(x, y, d), color) then count + 1 else count
      ensures violation == ((Holds(cells, Neighbor(x, y, d), color) &&
        Crowded(cells, Pos(Neighbor(x, y, d).value.x, Neighbor(x, y, d).value.y), color, x, y)) || count' >= 2)
    {
      HoldsNamed(grid, cells, s, Neighbor(x, y, d), color);
      count' := count;
      if s != null && s.kind == color {
        count' := count' + 1;
        HoldsNoCorner(cells, Neighbor(x, y, d), color);
        var crowded := HasOtherNeighbor(s, x, y, color);
        if crowded {
          return true, count';
        }
      }
      violation := count' >= 2;
    }

    /**
     * The inner loop of isRule4Violation: whether the space s has a
     * neighbour holding the colour other than (x, y).
     */
    method HasOtherNeighbor(s: Space, x: int, y: int, color: int) returns (r: bool)
      requires Laid(grid) && IsGrid(cells) && Shows(grid, cells) && InBounds(s.x, s.y) && !IsCorner(s.x, s.y)
      ensures r == Crowded(cells, Pos(s.x, s.y), color, x, y)
    {
      var neighbors := GetNeighborSpaces(s.x, s.y);
      for e := 0 to |neighbors|
        invariant forall f :: 0 <= f < e ==>
          !(Holds(cells, Neighbor(s.x, s.y, f), color) && Neighbor(s.x, s.y, f) != Some(Pos(x, y)))
      {
        var n := neighbors[e];
        HoldsNamed(grid, cells, n, Neighbor(s.x, s.y, e), color);
        if n != null && n.kind == color && !(x == n.x && y == n.y) {
          return true;
        }
      }
      return false;
    }

    /**
     * makeMove(m, color): QUIT does nothing; ADD adds a piece to the
     * colour's set and then places the colour on its space; STEP, when the
     * source holds the colour, moves the piece found there, empties the
     * source and places what it held on the destination.
     */
    method MakeMove(m: Move, color: int) returns (ok: bool)
      requires Valid() && IsColor(color) && MoveInBounds(m)
      requires m.Step? && cells[Idx(m.x2, m.y2)] == color ==> Pos(m.x2, m.y2) in PiecesOf(State(), color)
      modifies this, grid, black, white
      ensures Valid() && black == old(black) && white == old(white)
      ensures (ok, State()) == ApplyMove(old(State()), m, color)
    {
      var player := if color == BLACK then black else white;
      match m
      case Quit =>
        return true;
      case Add(x1, y1) =>
        player.AddPiece(Pos(x1, y1));
        ok := PlaceAt(x1, y1, color);
      case Step(x1, y1, x2, y2) =>
        if grid[Idx(x2, y2)].kind == color {
          var i := player.GetPiece(Pos(x2, y2));
          player.MovePiece(i.value, Pos(x1, y1));
          var removed := RemoveAt(x2, y2);
          ok := PlaceAt(x1, y1, removed);
        } else {
          return false;
        }
    }

    /**
     * isValidLocation(x, y, color): off the other colour's goal lines, on an
     * empty space, and no rule-4 violation.
     */
    method IsValidLocation(x: int, y: int, color: int) returns (r: bool)
      requires Valid() && InBounds(x, y) && IsColor(color) && CornersFree(cells, color)
      ensures r == ValidLocation(cells, x, y, color)
    {
      if (color == BLACK && (x == 0 || x == SIZE - 1)) || (color == WHITE && (y == 0 || y == SIZE - 1)) {
        return false;
      } else if !grid[Idx(x, y)].IsEmpty() {
        return false;
      } else {
        var violation := IsRule4Violation(x, y, color);
        return !violation;
      }
    }

    /**
     * isLegalMove(m, player): QUIT always; STEP with ten pieces placed, from a
     * space of the player's colour, to a location valid on a copy of the
     * board with that space emptied; ADD with fewer than ten, to a valid
     * location.
     */
    method IsLegalMove(m: Move, player: int) returns (r: bool)
      requires Valid() && IsColor(player) && MoveInBounds(m) && CornersFree(cells, player)
      ensures r == LegalMove(State(), m, player)
    {
      match m
      case Quit =>
        return true;
      case Step(x1, y1, x2, y2) =>
        if (player == BLACK && black.numPieces < MAX_PIECES) || (player == WHITE && white.numPieces < MAX_PIECES) {
          return false;
        }
        if grid[Idx(x2, y2)].kind != player {
          return false;
        } else {
          var test := Duplicate();
          var _ := test.RemoveAt(x2, y2);
          r := test.IsValidLocation(x1, y1, player);
        }
      case Add(x1, y1) =>
        if (player == BLACK && black.numPieces >= MAX_PIECES) || (player == WHITE && white.numPieces >= MAX_PIECES) {
          return false;
        }
        r := IsValidLocation(x1, y1, player);
    }

    /** board[x][y].remove(): empties an occupied space and returns what it held; no other space changes. */
    method RemoveAt(x: int, y: int) returns (t: int)
      requires Valid() && InBounds(x, y)
      modifies this, grid[Idx(x, y)]
      ensures Valid() && black == old(black) && white == old(white)
      ensures t == if old(cells)[Idx(x, y)] > EMPTY then old(cells)[Idx(x, y)] else EMPTY
      ensures State() == if old(cells)[Idx(x, y)] > EMPTY then old(State()).(cells := old(cells)[Idx(x, y) := EMPTY]) else old(State())
    {
      var k := Idx(x, y);
      forall l | 0 <= l < CELLS && l != k
        ensures grid[l] != grid[k]
      {
        LaidDistinct(grid, l, k);
      }
      t := grid[k].Remove();
      if t > EMPTY {
        cells := cells[k := EMPTY];
      }
    }

    /**
     * emptySpaces(color): the spaces that are valid locations for the
     * colour, scanning x outer and y inner.
     */
    method EmptySpaces(color: int) returns (spaces: seq<Space>)
      requires Valid() && IsColor(color) && CornersFree(cells, color)
      ensures PositionsOf(spaces) == Rules.EmptySpaces(cells, color)
      ensures OnGrid(grid, spaces)
    {
      ghost var c := cells;
      ghost var flags := ValidMap(c, color);
      spaces := [];
      for i := 0 to SIZE
        invariant cells == c
        invariant PositionsOf(spaces) == Select(flags, i * SIZE) && OnGrid(grid, spaces)
      {
        for j := 0 to SIZE
          invariant cells == c
          invariant PositionsOf(spaces) == Select(flags, i * SIZE + j) && OnGrid(grid, spaces)
        {
          spaces := CollectCell(i, j, color, spaces);
        }
      }
    }

    /** One turn of emptySpaces' inner loop: append the space at (x, y) when it is a valid location. */
    method CollectCell(x: int, y: int, color: int, spaces: seq<Space>) returns (spaces': seq<Space>)
      requires Valid() && InBounds(x, y) && IsColor(color) && CornersFree(cells, color)
      requires PositionsOf(spaces) == Select(ValidMap(cells, color), Idx(x, y)) && OnGrid(grid, spaces)
      ensures PositionsOf(spaces') == Select(ValidMap(cells, color), Idx(x, y) + 1) && OnGrid(grid, spaces')
    {
      var valid := IsValidLocation(x, y, color);
      SelectCell(cells, color, x, y);
      spaces' := spaces;
      if valid {
        AppendCell(grid, spaces, x, y);
        spaces' := spaces + [grid[Idx(x, y)]];
      }
    }

    /**
     * generateAllMoves(color): with ten pieces placed, for each piece in
     * list order a STEP from it to every empty space; otherwise an ADD to
     * every empty space.
     */
    method GenerateAllMoves(color: int) returns (out: seq<Move>)
      requires Valid() && IsColor(color) && CornersFree(cells, color)
      ensures out == Rules.GenerateAllMoves(State(), color)
    {
      var spaces := EmptySpaces(color);
      var player := if color == BLACK then black else white;
      if player.numPieces == MAX_PIECES {
        out := StepsOf(player.pieces, spaces);
      } else {
        out := AddsTo(spaces);
      }
    }

    /**
     * evaluate(): INT_MAX when white has a network, else INT_MIN when black
     * has one, else the connection and goal-line score.
     */
    method Evaluate() returns (score: int)
      requires Valid() && Covered(cells, WHITE, white.pieces) && Covered(cells, BLACK, black.pieces)
      ensures score == Rules.Evaluate(State())
    {
      var whiteWins := white.Victory(grid, cells);
      if whiteWins {
        return INT_MAX;
      }
      var blackWins := black.Victory(grid, cells);
      if blackWins {
        return INT_MIN;
      }
      var whiteConnections := white.CountConnections(grid, cells);
      var blackConnections := black.CountConnections(grid, cells);
      var whiteStart := white.HasStartPiece();
      var whiteEnd := white.HasEndPiece();
      var blackStart := black.HasStartPiece();
      var blackEnd := black.HasEndPiece();
      var whiteEnds := whiteStart * whiteEnd * 100;
      var blackEnds := blackStart * blackEnd * 10;
      return 10 * (whiteConnections - blackConnections) + (whiteEnds - blackEnds);
    }

    /**
     * duplicate(): a new board with new spaces and new piece sets built from
     * toArray, each space given this board's occupant.
     */
    method Duplicate() returns (out: Board)
      requires Valid()
      ensures fresh(out) && fresh(out.grid) && fresh(out.black) && fresh(out.white)
      ensures out.Valid() && out.State() == State()
    {
      var b := CopyPieceSet(black);
      var w := CopyPieceSet(white);
      out := new Board(b, w);
      ghost var c, bs, ws := cells, black.pieces, white.pieces;
      for i := 0 to SIZE
        invariant out.Valid() && out.black == b && out.white == w && b.pieces == bs && w.pieces == ws
        invariant forall k :: 0 <= k < CELLS ==> out.cells[k] == if k < i * SIZE then c[k] else EMPTY
      {
        for j := 0 to SIZE
          invariant out.Valid() && out.black == b && out.white == w && b.pieces == bs && w.pieces == ws
          invariant forall k :: 0 <= k < CELLS ==> out.cells[k] == if k < i * SIZE + j then c[k] else EMPTY
        {
          var t := GetPiece(i, j);
          var _ := out.PlaceAt(i, j, t);
        }
      }
      assert out.cells == c;
    }

    /** new PieceSet(color, ps.toArray(), out): a new set of the same colour and the same pieces in the same order. */
    static method CopyPieceSet(ps: PieceSet) returns (r: PieceSet)
      requires ps.Valid()
      ensures fresh(r) && r.Valid() && r.color == ps.color && r.pieces == ps.pieces
    {
      var positions := ps.ToArray();
      r := new PieceSet.FromArray(ps.color, positions);
      ListsUnique(positions, ps.pieces, r.pieces);
    }

    /** board[x][y].place(t): puts t on an empty space and reports whether it did; no other space changes. */
    method PlaceAt(x: int, y: int, t: int) returns (ok: bool)
      requires Valid() && InBounds(x, y)
      modifies this, grid[Idx(x, y)]
      ensures Valid() && black == old(black) && white == old(white)
      ensures ok == (old(cells)[Idx(x, y)] == EMPTY)
      ensures State() == if ok then old(State()).(cells := old(cells)[Idx(x, y) := t]) else old(State())
    {
      var k := Idx(x, y);
      forall l | 0 <= l < CELLS && l != k
        ensures grid[l] != grid[k]
      {
        LaidDistinct(grid, l, k);
      }
      ok := grid[k].Place(t);
      if ok {
        cells := cells[k := t];
      }
    }

    /** getPiece(x, y): the occupant at (x, y), the coordinates taken modulo the board size. */
    method GetPiece(x: int, y: int) returns (r: int)
      requires Valid() && 0 <= x && 0 <= y
      ensures r == cells[Idx(x % SIZE, y % SIZE)]
      ensures InBounds(x, y) ==> r == cells[Idx(x, y)]
    {
      r := grid[Idx(x % SIZE, y % SIZE)].kind;
    }
  }
}
