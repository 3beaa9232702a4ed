/**
 * One colour's placed pieces: goal-line tests, connection counting and the
 * network (victory) search. The pieces are the colour's list of positions;
 * a piece is its index in that list, so two pieces are the same piece
 * exactly when their indices are equal.
 */
module PieceSets {
  import opened Common
  import opened Pieces
  import opened Spaces

  /** The piece lies on the colour's start goal: top row for black, left column for white. */
  predicate IsStartPiece(color: int, p: Pos) {
    (color == BLACK && p.y == 0) || (color == WHITE && p.x == 0)
  }

  /** The piece lies on the colour's end goal: bottom row for black, right column for white. */
  predicate IsEndPiece(color: int, p: Pos) {
    (color == BLACK && p.y == SIZE - 1) || (color == WHITE && p.x == SIZE - 1)
  }

  /** hasStartPiece: 1 when some piece is on the start goal, else 0. */
  function HasStart(color: int, pieces: seq<Pos>): int {
    if exists i :: 0 <= i < |pieces| && IsStartPiece(color, pieces[i]) then 1 else 0
  }

  /** hasEndPiece: 1 when some piece is on the end goal, else 0. */
  function HasEnd(color: int, pieces: seq<Pos>): int {
    if exists i :: 0 <= i < |pieces| && IsEndPiece(color, pieces[i]) then 1 else 0
  }

  /** getStartPieces restricted to the first n pieces: the start-goal pieces, in list order. */
  function StartPiecesUpTo(color: int, pieces: seq<Pos>, n: int): (r: seq<nat>)
    requires 0 <= n <= |pieces|
    ensures forall k :: 0 <= k < |r| ==> r[k] < n
    decreases n
  {
    if n == 0 then []
    else StartPiecesUpTo(color, pieces, n - 1) + (if IsStartPiece(color, pieces[n - 1]) then [n - 1] else [])
  }

  function StartPieces(color: int, pieces: seq<Pos>): seq<nat> {
    StartPiecesUpTo(color, pieces, |pieces|)
  }

  /** The start-goal pieces, each once, in increasing list order. */
  lemma {:induction false} StartPiecesExactly(color: int, pieces: seq<Pos>, n: int)
    requires 0 <= n <= |pieces|
    ensures forall i :: 0 <= i < n ==> (IsStartPiece(color, pieces[i]) <==> i in StartPiecesUpTo(color, pieces, n))
    ensures forall k, l :: 0 <= k < l < |StartPiecesUpTo(color, pieces, n)| ==>
      StartPiecesUpTo(color, pieces, n)[k] < StartPiecesUpTo(color, pieces, n)[l]
    decreases n
  {
    if n > 0 {
      StartPiecesExactly(color, pieces, n - 1);
    }
  }

  /** Sum of getConnections(null).size() over the first n pieces. */
  function ConnectionsUpTo(cells: seq<int>, color: int, pieces: seq<Pos>, n: int): int
    requires IsGrid(cells) && 0 <= n <= |pieces|
    decreases n
  {
    if n == 0 then 0
    else ConnectionsUpTo(cells, color, pieces, n - 1) + |Connections(cells, color, pieces, n - 1, None)|
  }

  /** countConnections: the connections of every piece, all 8 directions scanned. */
  function TotalConnections(cells: seq<int>, color: int, pieces: seq<Pos>): int
    requires IsGrid(cells)
  {
    ConnectionsUpTo(cells, color, pieces, |pieces|)
  }

  /** Every piece contributes between 0 and 8 connections. */
  lemma {:induction false} ConnectionsUpToBound(cells: seq<int>, color: int, pieces: seq<Pos>, n: int)
    requires IsGrid(cells) && 0 <= n <= |pieces|
    ensures 0 <= ConnectionsUpTo(cells, color, pieces, n) <= 8 * n
    decreases n
  {
    if n > 0 {
      ConnectionsUpToBound(cells, color, pieces, n - 1);
      SightingsBound(cells, color, pieces[n - 1], PrevShift(pieces, n - 1, None));
    }
  }

  lemma TotalConnectionsBound(cells: seq<int>, color: int, pieces: seq<Pos>)
    requires IsGrid(cells)
    ensures 0 <= TotalConnections(cells, color, pieces) <= 8 * |pieces|
  {
    ConnectionsUpToBound(cells, color, pieces, |pieces|);
  }

  /** Every index in the list is below n. */
  predicate AllBelow(w: seq<nat>, n: int) {
    forall j :: 0 <= j < |w| ==> w[j] < n
  }

  /** The arguments of a network search: a grid, every own cell covered by a piece, a short seen list of pieces. */
  ghost predicate SearchArgs(cells: seq<int>, color: int, pieces: seq<Pos>, seen: seq<nat>) {
    && IsGrid(cells)
    && Covered(cells, color, pieces)
    && |seen| <= MAX_PIECES
    && AllBelow(seen, |pieces|)
  }

  /**
   * hasNetwork(curr, seen): seen holds the pieces of the chain so far, most
   * recent first; the connections of curr are taken with seen[0] as prev.
   */
  function NetworkFrom(cells: seq<int>, color: int, pieces: seq<Pos>, curr: nat, seen: seq<nat>): bool
    requires SearchArgs(cells, color, pieces, seen) && curr < |pieces|
    decreases MAX_PIECES - |seen|, 1, 0
  {
    var prev := if |seen| == 0 then None else Some(seen[0]);
    var conns := Connections(cells, color, pieces, curr, prev);
    if curr in seen then false
    else if |seen| >= 1 && IsStartPiece(color, pieces[curr]) then false
    else if IsEndPiece(color, pieces[curr]) then |seen| + 1 >= 6
    else if |seen| == MAX_PIECES || |conns| == 0 then false
    else NetworkVia(cells, color, pieces, conns, [curr] + seen)
  }

  /** The loop over the connections: some connection, searched with the extended seen list, succeeds. */
  function NetworkVia(cells: seq<int>, color: int, pieces: seq<Pos>, conns: seq<Option<nat>>, seen: seq<nat>): bool
    requires SearchArgs(cells, color, pieces, seen)
    requires forall k :: 0 <= k < |conns| ==> conns[k].Some? && conns[k].value < |pieces|
    decreases MAX_PIECES + 1 - |seen|, 0, |conns|
  {
    |conns| > 0 &&
    (NetworkFrom(cells, color, pieces, conns[0].value, seen) || NetworkVia(cells, color, pieces, conns[1..], seen))
  }

  /** NetworkVia succeeds exactly when one of the connections does. */
  lemma {:induction false} NetworkViaExists(cells: seq<int>, color: int, pieces: seq<Pos>, conns: seq<Option<nat>>, seen: seq<nat>)
    requires SearchArgs(cells, color, pieces, seen)
    requires forall k :: 0 <= k < |conns| ==> conns[k].Some? && conns[k].value < |pieces|
    ensures NetworkVia(cells, color, pieces, conns, seen) <==>
      exists k :: 0 <= k < |conns| && NetworkFrom(cells, color, pieces, conns[k].value, seen)
    decreases |conns|
  {
    if |conns| > 0 {
      NetworkViaExists(cells, color, pieces, conns[1..], seen);
      if exists k :: 0 <= k < |conns| && NetworkFrom(cells, color, pieces, conns[k].value, seen) {
        var k :| 0 <= k < |conns| && NetworkFrom(cells, color, pieces, conns[k].value, seen);
        if k > 0 {
          assert conns[1..][k - 1] == conns[k];
        }
      }
      if NetworkVia(cells, color, pieces, conns[1..], seen) {
        var k :| 0 <= k < |conns| - 1 && NetworkFrom(cells, color, pieces, conns[1..][k].value, seen);
        assert conns[1..][k] == conns[k + 1];
      }
    }
  }

  /** The loop of victory over the given start pieces, in order. */
  function AnyStart(cells: seq<int>, color: int, pieces: seq<Pos>, starts: seq<nat>): bool
    requires IsGrid(cells) && Covered(cells, color, pieces)
    requires forall k :: 0 <= k < |starts| ==> starts[k] < |pieces|
  {
    |starts| > 0 &&
    (NetworkFrom(cells, color, pieces, starts[0], []) || AnyStart(cells, color, pieces, starts[1..]))
  }

  /** victory: some start-goal piece begins a network. */
  function Wins(cells: seq<int>, color: int, pieces: seq<Pos>): bool
    requires IsGrid(cells) && Covered(cells, color, pieces)
  {
    AnyStart(cells, color, pieces, StartPieces(color, pieces))
  }

  lemma {:induction false} AnyStartExists(cells: seq<int>, color: int, pieces: seq<Pos>, starts: seq<nat>)
    requires IsGrid(cells) && Covered(cells, color, pieces)
    requires forall k :: 0 <= k < |starts| ==> starts[k] < |pieces|
    ensures AnyStart(cells, color, pieces, starts) <==>
      exists k :: 0 <= k < |starts| && NetworkFrom(cells, color, pieces, starts[k], [])
    decreases |starts|
  {
    if |starts| > 0 {
      AnyStartExists(cells, color, pieces, starts[1..]);
      if exists k :: 0 <= k < |starts| && NetworkFrom(cells, color, pieces, starts[k], []) {
        var k :| 0 <= k < |starts| && NetworkFrom(cells, color, pieces, starts[k], []);
        if k > 0 {
          assert starts[1..][k - 1] == starts[k];
        }
      }
      if AnyStart(cells, color, pieces, starts[1..]) {
        var k :| 0 <= k < |starts| - 1 && NetworkFrom(cells, color, pieces, starts[1..][k], []);
        assert starts[1..][k] == starts[k + 1];
      }
    }
  }

  /** victory holds exactly when the search succeeds from some start-goal piece with nothing seen. */
  lemma WinsFromSomeStart(cells: seq<int>, color: int, pieces: seq<Pos>)
    requires IsGrid(cells) && Covered(cells, color, pieces)
    ensures Wins(cells, color, pieces) <==>
      exists i :: 0 <= i < |pieces| && IsStartPiece(color, pieces[i]) && NetworkFrom(cells, color, pieces, i, [])
  {
    var starts := StartPieces(color, pieces);
    AnyStartExists(cells, color, pieces, starts);
    StartPiecesExactly(color, pieces, |pieces|);
    if exists i :: 0 <= i < |pieces| && IsStartPiece(color, pieces[i]) && NetworkFrom(cells, color, pieces, i, []) {
      var i :| 0 <= i < |pieces| && IsStartPiece(color, pieces[i]) && NetworkFrom(cells, color, pieces, i, []);
      assert i in starts;
      var k :| 0 <= k < |starts| && starts[k] == i;
    }
  }

  /** The rows of a toArray result: one (x, y) row per piece, in list order. */
  ghost predicate Lists(a: array2<int>, ps: seq<Pos>)
    reads a
  {
    a.Length0 == |ps| && a.Length1 == 2 &&
    forall i :: 0 <= i < |ps| ==> a[i, 0] == ps[i].x && a[i, 1] == ps[i].y
  }

  /** toList(toArray()) gives back the positions: an array lists exactly one sequence. */
  lemma ListsUnique(a: array2<int>, ps: seq<Pos>, qs: seq<Pos>)
    requires Lists(a, ps) && Lists(a, qs)
    ensures ps == qs
  {
    assert forall i :: 0 <= i < |ps| ==> ps[i] == Pos(a[i, 0], a[i, 1]) == qs[i];
  }

  /** The placed pieces of one colour. A piece is named by its index in `pieces`. */
  class PieceSet {
    const color: int
    var pieces: seq<Pos>
    var numPieces: int

    ghost predicate Valid()
      reads this
    {
      numPieces == |pieces|
    }

    /** A set with no pieces. */
    constructor (color: int)
      ensures Valid() && this.color == color && pieces == []
    {
      this.color := color;
      pieces := [];
      numPieces := 0;
    }

    /** A set whose pieces stand at the rows of `positions`, in order. */
    constructor FromArray(color: int, positions: array2<int>)
      requires positions.Length1 == 2
      ensures Valid() && this.color == color && Lists(positions, pieces)
    {
      this.color := color;
      var list := ToList(positions);
      pieces := list;
      numPieces := |list|;
    }

    /** toList: one piece per row of `positions`, at that row's (x, y). */
    static method ToList(positions: array2<int>) returns (r: seq<Pos>)
      requires positions.Length1 == 2
      ensures Lists(positions, r)
    {
      r := [];
      for i := 0 to positions.Length0
        invariant |r| == i
        invariant forall j :: 0 <= j < i ==> r[j] == Pos(positions[j, 0], positions[j, 1])
      {
        r := r + [Pos(positions[i, 0], positions[i, 1])];
      }
    }

    /** toArray: the positions of the pieces, one row [x, y] per piece. */
    method ToArray() returns (a: array2<int>)
      requires Valid()
      ensures fresh(a) && Lists(a, pieces)
    {
      a := new int[numPieces, 2];
      for i := 0 to |pieces|
        invariant forall j :: 0 <= j < i ==> a[j, 0] == pieces[j].x && a[j, 1] == pieces[j].y
      {
        a[i, 0] := pieces[i].x;
        a[i, 1] := pieces[i].y;
      }
    }

    /** addPiece: the piece goes at the end of the list and is counted. */
    method AddPiece(p: Pos)
      requires Valid()
      modifies this
      ensures Valid() && pieces == old(pieces) + [p] && numPieces == old(numPieces) + 1
    {
      pieces := pieces + [p];
      numPieces := numPieces + 1;
    }

    /** Piece.move: piece i now stands at `to`; no other piece moves. */
    method MovePiece(i: nat, to: Pos)
      requires Valid() && i < |pieces|
      modifies this
      ensures Valid() && pieces == old(pieces)[i := to] && numPieces == old(numPieces)
    {
      pieces := pieces[i := to];
    }

    /** getPiece: the first piece standing at `s`, None (null) when no piece does. */
    method GetPiece(s: Pos) returns (r: Option<nat>)
      ensures r == FirstAt(pieces, s)
    {
      var i := 0;
      while i < |pieces|
        invariant 0 <= i <= |pieces|
        invariant forall j :: 0 <= j < i ==> pieces[j] != s
      {
        if pieces[i] == s {
          return Some(i);
        }
        i := i + 1;
      }
      return None;
    }

    /**
     * Piece.getConnections for piece i: the two nested loops over the (run,
     * rise) directions, each pass appending what ScanDirection finds.
     * `grid` is the board the piece stands on.
     */
    method GetConnections(grid: seq<Space>, ghost cells: seq<int>, i: nat, prev: Option<nat>)
      returns (connections: seq<Option<nat>>)
      requires IsGrid(cells) && Shows(grid, cells)
      requires i < |pieces| && (prev.Some? ==> prev.value < |pieces|)
      ensures connections == Connections(cells, color, pieces, i, prev)
    {
      var me := pieces[i];
      var shifts := XYShifts(me, if prev.None? then None else Some(pieces[prev.value]));
      assert shifts == PrevShift(pieces, i, prev);
      connections := [];
      ghost var k := 0;
      for run := -1 to 2
        invariant k == 3 * (run + 1)
        invariant connections == LookUp(pieces, SightingsUpTo(cells, color, me, shifts, k))
      {
        for rise := -1 to 2
          invariant k == 3 * (run + 1) + (rise + 1)
          invariant connections == LookUp(pieces, SightingsUpTo(cells, color, me, shifts, k))
        {
          PassStep(cells, color, pieces, me, shifts, run, rise, k);
          ghost var ps := pieces;
          var found := ScanDirection(grid, cells, me, shifts, run, rise);
          assert pieces == ps;
          assert found == if Scanned(run, rise, shifts) then Found(ps, Ray(cells, color, me.x + run, me.y + rise, run, rise)) else [];
          connections := connections + found;
          k := k + 1;
        }
      }
    }

    /**
     * One pass of getConnections' loops: unless (run, rise) is no direction,
     * points at the previous piece or away from it, walk from the next cell
     * along (run, rise) over empty cells; at a cell of the set's colour the
     * piece there (getPiece) is the connection found, any other occupant or
     * the board's edge ends the walk with none.
     */
    method ScanDirection(grid: seq<Space>, ghost cells: seq<int>, me: Pos, shifts: (int, int), run: int, rise: int)
      returns (found: seq<Option<nat>>)
      requires IsGrid(cells) && Shows(grid, cells) && -1 <= run <= 1 && -1 <= rise <= 1
      ensures found == if Scanned(run, rise, shifts) then Found(pieces, Ray(cells, color, me.x + run, me.y + rise, run, rise)) else []
    {
      var previousXShift, previousYShift := shifts.0, shifts.1;
      var nextXShift, nextYShift := -previousXShift, -previousYShift;
      found := [];
      if (rise != 0 || run != 0)
        && !(run == previousXShift && rise == previousYShift)
        && !(run == nextXShift && rise == nextYShift)
      {
        var checkX, checkY := me.x + run, me.y + rise;
        ghost var ray := Ray(cells, color, checkX, checkY, run, rise);
        while InBounds(checkX, checkY)
          invariant found == []
          invariant Ray(cells, color, checkX, checkY, run, rise) == ray
          decreases RayRoom(checkX, checkY, run, rise)
        {
          // read the occupant of the checked cell from the grid
          var checkType := grid[Idx(checkX, checkY)].kind;
          if checkType == color {
            ghost var ps := pieces;
            var piece := GetPiece(Pos(checkX, checkY));
            assert pieces == ps;
            found := [piece];
            break;
          } else if checkType != EMPTY {
            break;
          } else {
            RayStep(cells, color, checkX, checkY, run, rise);
            checkX, checkY := checkX + run, checkY + rise;
          }
        }
      }
    }

    /** countConnections: the connections of every piece, each taken with no previous piece. */
    method CountConnections(grid: seq<Space>, ghost cells: seq<int>) returns (total: int)
      requires IsGrid(cells) && Shows(grid, cells)
      ensures total == TotalConnections(cells, color, pieces)
    {
      total := 0;
      for i := 0 to |pieces|
        invariant total == ConnectionsUpTo(cells, color, pieces, i)
      {
        ghost var ps := pieces;
        var connections := GetConnections(grid, cells, i, None);
        assert pieces == ps;
        total := total + |connections|;
      }
    }

    /** hasStartPiece: 1 when some piece lies on the start goal, else 0. */
    method HasStartPiece() returns (r: int)
      ensures r == HasStart(color, pieces)
    {
      for i := 0 to |pieces|
        invariant forall j :: 0 <= j < i ==> !IsStartPiece(color, pieces[j])
      {
        if IsStartPiece(color, pieces[i]) {
          return 1;
        }
      }
      return 0;
    }

    /** hasEndPiece: 1 when some piece lies on the end goal, else 0. */
    method HasEndPiece() returns (r: int)
      ensures r == HasEnd(color, pieces)
    {
      for i := 0 to |pieces|
        invariant forall j :: 0 <= j < i ==> !IsEndPiece(color, pieces[j])
      {
        if IsEndPiece(color, pieces[i]) {
          return 1;
        }
      }
      return 0;
    }

    /** getStartPieces: the start-goal pieces, in list order. */
    method GetStartPieces() returns (out: seq<nat>)
      ensures out == StartPieces(color, pieces)
    {
      out := [];
      for i := 0 to |pieces|
        invariant out == StartPiecesUpTo(color, pieces, i)
      {
        if IsStartPiece(color, pieces[i]) {
          out := out + [i];
        }
      }
    }

    /**
     * hasNetwork(curr, seen): the tests in the source's order, then the
     * connections of curr tried one by one with curr put in front of seen.
     */
    method HasNetwork(grid: seq<Space>, ghost cells: seq<int>, curr: nat, seen: seq<nat>) returns (r: bool)
      requires Shows(grid, cells) && SearchArgs(cells, color, pieces, seen) && curr < |pieces|
      ensures r == NetworkFrom(cells, color, pieces, curr, seen)
      decreases MAX_PIECES - |seen|
    {
      var prev := if |seen| == 0 then None else Some(seen[0]);
      ghost var ps := pieces;
      var connections := GetConnections(grid, cells, curr, prev);
      assert pieces == ps;
      if curr in seen {
        return false;
      } else if |seen| >= 1 && IsStartPiece(color, pieces[curr]) {
        return false;
      } else if IsEndPiece(color, pieces[curr]) {
        return |seen| + 1 >= 6;
      } else if |seen| == MAX_PIECES || |connections| == 0 {
        return false;
      }
      var newSeen := [curr] + seen;
      assert SearchArgs(cells, color, pieces, newSeen);
      for j := 0 to |connections|
        invariant NetworkVia(cells, color, pieces, connections[j..], newSeen) == NetworkVia(cells, color, pieces, connections, newSeen)
      {
        assert connections[j..][1..] == connections[j + 1..];
        var next := connections[j];
        var found := HasNetwork(grid, cells, next.value, newSeen);
        assert pieces == ps;
        if found {
          return true;
        }
      }
      return false;
    }

    /** victory: the network search from each start-goal piece in turn, with nothing seen. */
    method Victory(grid: seq<Space>, ghost cells: seq<int>) returns (r: bool)
      requires IsGrid(cells) && Shows(grid, cells) && Covered(cells, color, pieces)
      ensures r == Wins(cells, color, pieces)
    {
      var starts := GetStartPieces();
      for j := 0 to |starts|
        invariant AnyStart(cells, color, pieces, starts[j..]) == AnyStart(cells, color, pieces, starts)
      {
        assert starts[j..][1..] == starts[j + 1..];
        var seen: seq<nat> := [];
        ghost var ps := pieces;
        var found := HasNetwork(grid, cells, starts[j], seen);
        assert pieces == ps;
        if found {
          return true;
        }
      }
      return false;
    }
  }
}
