/**
 * The geometry of one piece: the direction towards another piece, and the
 * connections found by casting rays from a piece's cell over the grid.
 * A grid is the flattened sequence of 64 occupant codes; a piece is named by
 * its index in its colour's list of positions.
 */
module Pieces {
  import opened Common

  function Sign(d: int): (r: int)
    ensures -1 <= r <= 1
    ensures r > 0 <==> d > 0
    ensures r < 0 <==> d < 0
  {
    if d > 0 then 1 else if d < 0 then -1 else 0
  }

  function Abs(d: int): nat {
    if d < 0 then -d else d
  }

  /** getXYShifts: the unit direction from `me` towards `other`, (0, 0) for no other piece. */
  function XYShifts(me: Pos, other: Option<Pos>): (r: (int, int))
    ensures other.None? ==> r == (0, 0)
    ensures other.Some? ==> r == (Sign(other.value.x - me.x), Sign(other.value.y - me.y))
  {
    if other.None? then (0, 0)
    else
      var xDiff := other.value.x - me.x;
      var yDiff := other.value.y - me.y;
      (if xDiff != 0 then xDiff / Abs(xDiff) else 0,
       if yDiff != 0 then yDiff / Abs(yDiff) else 0)
  }

  /** A grid is a well-formed board content. */
  predicate IsGrid(cells: seq<int>) {
    |cells| == CELLS
  }

  function Cell(cells: seq<int>, x: int, y: int): int
    requires IsGrid(cells) && InBounds(x, y)
  {
    cells[Idx(x, y)]
  }

  /** The number of cells left before a ray from (x, y) along (dx, dy) leaves the board. */
  function RayRoom(x: int, y: int, dx: int, dy: int): nat {
    if !InBounds(x, y) then 0
    else if dx > 0 then SIZE - x
    else if dx < 0 then x + 1
    else if dy > 0 then SIZE - y
    else y + 1
  }

  predicate IsDirection(dx: int, dy: int) {
    -1 <= dx <= 1 && -1 <= dy <= 1 && (dx != 0 || dy != 0)
  }

  /**
   * The inner while loop of getConnections: walk from (x, y) along (dx, dy)
   * while on the board; the first non-empty cell ends the walk, and it is a
   * connection exactly when it holds `color`.
   */
  function Ray(cells: seq<int>, color: int, x: int, y: int, dx: int, dy: int): (r: Option<Pos>)
    requires IsGrid(cells) && IsDirection(dx, dy)
    ensures r.Some? ==> InBounds(r.value.x, r.value.y) && Cell(cells, r.value.x, r.value.y) == color
    decreases RayRoom(x, y, dx, dy)
  {
    if !InBounds(x, y) then None
    else if Cell(cells, x, y) == color then Some(Pos(x, y))
    else if Cell(cells, x, y) != EMPTY then None
    else Ray(cells, color, x + dx, y + dy, dx, dy)
  }

  /** One step of the walk: over an empty cell the ray goes on unchanged, with less room left. */
  lemma RayStep(cells: seq<int>, color: int, x: int, y: int, dx: int, dy: int)
    requires IsGrid(cells) && IsDirection(dx, dy) && InBounds(x, y) && Cell(cells, x, y) == EMPTY && color != EMPTY
    ensures Ray(cells, color, x, y, dx, dy) == Ray(cells, color, x + dx, y + dy, dx, dy)
    ensures RayRoom(x + dx, y + dy, dx, dy) < RayRoom(x, y, dx, dy)
  {
  }

  /** The t-th cell along a ray: the start moved t times by (dx, dy). */
  function Along(x: int, y: int, dx: int, dy: int, t: nat): (p: Pos)
    ensures p == Pos(x + t * dx, y + t * dy)
    decreases t
  {
    if t == 0 then Pos(x, y) else Along(x + dx, y + dy, dx, dy, t - 1)
  }

  /** The first t cells along the ray are on the board and empty. */
  predicate ClearFor(cells: seq<int>, x: int, y: int, dx: int, dy: int, t: nat)
    requires IsGrid(cells)
    decreases t
  {
    t == 0 || (InBounds(x, y) && Cell(cells, x, y) == EMPTY && ClearFor(cells, x + dx, y + dy, dx, dy, t - 1))
  }

  /** The t-th cell along the ray is on the board and holds c. */
  predicate HoldsAt(cells: seq<int>, x: int, y: int, dx: int, dy: int, t: nat, c: int)
    requires IsGrid(cells)
  {
    var p := Along(x, y, dx, dy, t);
    InBounds(p.x, p.y) && Cell(cells, p.x, p.y) == c
  }

  /** Whatever a ray finds is on the ray, holds the colour, and only empty cells lie before it. */
  lemma {:induction false} RaySound(cells: seq<int>, color: int, x: int, y: int, dx: int, dy: int) returns (t: nat)
    requires IsGrid(cells) && IsDirection(dx, dy)
    requires Ray(cells, color, x, y, dx, dy).Some?
    ensures Ray(cells, color, x, y, dx, dy).value == Along(x, y, dx, dy, t)
    ensures ClearFor(cells, x, y, dx, dy, t) && HoldsAt(cells, x, y, dx, dy, t, color)
    decreases RayRoom(x, y, dx, dy)
  {
    if Cell(cells, x, y) == color {
      t := 0;
    } else {
      var t' := RaySound(cells, color, x + dx, y + dy, dx, dy);
      t := t' + 1;
    }
  }

  /**
   * The first occupied cell along the ray decides it: a cell of the colour
   * after only empty cells is found, any other occupant blocks the direction.
   */
  lemma {:induction false} RayStopsAtFirstPiece(cells: seq<int>, color: int, x: int, y: int, dx: int, dy: int, t: nat, c: int)
    requires IsGrid(cells) && IsDirection(dx, dy) && color != EMPTY && c != EMPTY
    requires ClearFor(cells, x, y, dx, dy, t) && HoldsAt(cells, x, y, dx, dy, t, c)
    ensures Ray(cells, color, x, y, dx, dy) == if c == color then Some(Along(x, y, dx, dy, t)) else None
    decreases t
  {
    if t > 0 {
      RayStopsAtFirstPiece(cells, color, x + dx, y + dy, dx, dy, t - 1, c);
    }
  }

  /** A ray that leaves the board after only empty cells finds nothing. */
  lemma {:induction false} RayMissesOffBoard(cells: seq<int>, color: int, x: int, y: int, dx: int, dy: int, t: nat)
    requires IsGrid(cells) && IsDirection(dx, dy) && color != EMPTY
    requires ClearFor(cells, x, y, dx, dy, t)
    requires !InBounds(Along(x, y, dx, dy, t).x, Along(x, y, dx, dy, t).y)
    ensures Ray(cells, color, x, y, dx, dy) == None
    decreases t
  {
    if t > 0 {
      RayMissesOffBoard(cells, color, x + dx, y + dy, dx, dy, t - 1);
    }
  }

  /** The (run, rise) direction of each pass of getConnections' loops: run (dx) outer, rise (dy) inner, each -1..1. */
  const PASSES: seq<(int, int)> := [(-1, -1), (-1, 0), (-1, 1), (0, -1), (0, 0), (0, 1), (1, -1), (1, 0), (1, 1)]

  /** Pass number 3 * (run + 1) + (rise + 1) of the two loops is direction (run, rise). */
  lemma PassOf(run: int, rise: int)
    requires -1 <= run <= 1 && -1 <= rise <= 1
    ensures 0 <= 3 * (run + 1) + (rise + 1) < |PASSES|
    ensures PASSES[3 * (run + 1) + (rise + 1)] == (run, rise)
  {
  }

  /** Whether getConnections casts a ray along (run, rise) when the previous piece lies in direction shift. */
  predicate Scanned(run: int, rise: int, shift: (int, int)) {
    (rise != 0 || run != 0)
    && !(run == shift.0 && rise == shift.1)
    && !(run == -shift.0 && rise == -shift.1)
  }

  /** What the k-th pass adds: the ray's hit, if the direction is scanned and the ray finds one. */
  function Hit(cells: seq<int>, color: int, me: Pos, shift: (int, int), k: int): seq<Pos>
    requires IsGrid(cells) && 0 <= k < |PASSES|
  {
    var (run, rise) := PASSES[k];
    if Scanned(run, rise, shift) then
      match Ray(cells, color, me.x + run, me.y + rise, run, rise)
      case Some(p) => [p]
      case None => []
    else []
  }

  /** The hits of the first k passes, in loop order. */
  function SightingsUpTo(cells: seq<int>, color: int, me: Pos, shift: (int, int), k: int): seq<Pos>
    requires IsGrid(cells) && 0 <= k <= |PASSES|
    decreases k
  {
    if k == 0 then [] else SightingsUpTo(cells, color, me, shift, k - 1) + Hit(cells, color, me, shift, k - 1)
  }

  /** Pass (run, rise) finds the ray's hit when its direction is scanned, nothing otherwise. */
  lemma HitOfPass(cells: seq<int>, color: int, me: Pos, shift: (int, int), run: int, rise: int)
    requires IsGrid(cells) && -1 <= run <= 1 && -1 <= rise <= 1
    ensures 0 <= 3 * (run + 1) + (rise + 1) < |PASSES|
    ensures Hit(cells, color, me, shift, 3 * (run + 1) + (rise + 1)) ==
      if Scanned(run, rise, shift) && Ray(cells, color, me.x + run, me.y + rise, run, rise).Some?
      then [Ray(cells, color, me.x + run, me.y + rise, run, rise).value]
      else []
  {
    PassOf(run, rise);
  }

  /** Looking up at most one more cell appends getPiece of that cell. */
  lemma LookUpExtend(pieces: seq<Pos>, a: seq<Pos>, h: seq<Pos>)
    requires |h| <= 1
    ensures LookUp(pieces, a + h) == LookUp(pieces, a) + if h == [] then [] else [FirstAt(pieces, h[0])]
  {
    LookUpAppend(pieces, a, h);
    if h != [] {
      assert LookUp(pieces, h) == [FirstAt(pieces, h[0])] + LookUp(pieces, h[1..]);
    }
  }

  /** What a ray contributes to getConnections: getPiece of its hit, if any. */
  function Found(pieces: seq<Pos>, hit: Option<Pos>): seq<Option<nat>> {
    match hit
    case Some(p) => [FirstAt(pieces, p)]
    case None => []
  }

  /** What pass k = (run, rise) contributes to the lookups: getPiece of the ray's hit, when the direction is scanned. */
  lemma PassStep(cells: seq<int>, color: int, pieces: seq<Pos>, me: Pos, shift: (int, int), run: int, rise: int, k: int)
    requires IsGrid(cells) && -1 <= run <= 1 && -1 <= rise <= 1 && k == 3 * (run + 1) + (rise + 1)
    ensures 0 <= k < |PASSES|
    ensures
      LookUp(pieces, SightingsUpTo(cells, color, me, shift, k + 1)) ==
        LookUp(pieces, SightingsUpTo(cells, color, me, shift, k)) +
        (if Scanned(run, rise, shift) then Found(pieces, Ray(cells, color, me.x + run, me.y + rise, run, rise)) else [])
  {
    HitOfPass(cells, color, me, shift, run, rise);
    var a := SightingsUpTo(cells, color, me, shift, k);
    var h := Hit(cells, color, me, shift, k);
    assert SightingsUpTo(cells, color, me, shift, k + 1) == a + h;
    LookUpExtend(pieces, a, h);
  }

  /** The cells in which getConnections finds a piece of `color`, in loop order. */
  function Sightings(cells: seq<int>, color: int, me: Pos, shift: (int, int)): seq<Pos>
    requires IsGrid(cells)
  {
    SightingsUpTo(cells, color, me, shift, |PASSES|)
  }

  /** getPiece of PieceSet: the index of the first piece at p, None (null) when there is none. */
  function FirstAt(ps: seq<Pos>, p: Pos): (r: Option<nat>)
    ensures r.Some? <==> p in ps
    ensures r.Some? ==> r.value < |ps| && ps[r.value] == p && forall j :: 0 <= j < r.value ==> ps[j] != p
  {
    if |ps| == 0 then None
    else if ps[0] == p then Some(0)
    else match FirstAt(ps[1..], p)
      case None => None
      case Some(j) => Some(j + 1)
  }

  /** Every cell holding `color` has a piece of that colour's list on it. */
  ghost predicate Covered(cells: seq<int>, color: int, pieces: seq<Pos>)
    requires IsGrid(cells)
  {
    forall x, y :: InBounds(x, y) && cells[Idx(x, y)] == color ==> Pos(x, y) in pieces
  }

  /** The direction from piece i towards piece prev (none when prev is null). */
  function PrevShift(pieces: seq<Pos>, i: nat, prev: Option<nat>): (int, int)
    requires i < |pieces| && (prev.Some? ==> prev.value < |pieces|)
  {
    XYShifts(pieces[i], if prev.None? then None else Some(pieces[prev.value]))
  }

  /**
   * getConnections(prev) of piece i of the `color` list: for each sighting,
   * the piece the set's getPiece returns for that cell (None for null).
   */
  function Connections(cells: seq<int>, color: int, pieces: seq<Pos>, i: nat, prev: Option<nat>): (r: seq<Option<nat>>)
    requires IsGrid(cells) && i < |pieces| && (prev.Some? ==> prev.value < |pieces|)
    ensures |r| == |Sightings(cells, color, pieces[i], PrevShift(pieces, i, prev))|
    ensures Covered(cells, color, pieces) ==>
      forall k :: 0 <= k < |r| ==>
        && r[k].Some? && r[k].value < |pieces|
        && pieces[r[k].value] == Sightings(cells, color, pieces[i], PrevShift(pieces, i, prev))[k]
  {
    SightingsAreOwnCells(cells, color, pieces[i], PrevShift(pieces, i, prev), |PASSES|);
    LookUpAll(pieces, Sightings(cells, color, pieces[i], PrevShift(pieces, i, prev)));
    LookUp(pieces, Sightings(cells, color, pieces[i], PrevShift(pieces, i, prev)))
  }

  /** The piece getPiece returns for each cell of s. */
  function LookUp(pieces: seq<Pos>, s: seq<Pos>): (r: seq<Option<nat>>)
    ensures |r| == |s|
  {
    if s == [] then [] else [FirstAt(pieces, s[0])] + LookUp(pieces, s[1..])
  }

  /** Element k of the lookup is getPiece of cell k. */
  lemma {:induction false} LookUpAll(pieces: seq<Pos>, s: seq<Pos>)
    ensures forall k :: 0 <= k < |s| ==> LookUp(pieces, s)[k] == FirstAt(pieces, s[k])
  {
    if s != [] {
      LookUpAll(pieces, s[1..]);
    }
  }

  lemma {:induction false} LookUpAppend(pieces: seq<Pos>, a: seq<Pos>, b: seq<Pos>)
    ensures LookUp(pieces, a + b) == LookUp(pieces, a) + LookUp(pieces, b)
  {
    if a == [] {
      assert a + b == b;
    } else {
      assert (a + b)[0] == a[0] && (a + b)[1..] == a[1..] + b;
      LookUpAppend(pieces, a[1..], b);
    }
  }

  /** Sightings lie on the board and hold the colour. */
  lemma {:induction false} SightingsAreOwnCells(cells: seq<int>, color: int, me: Pos, shift: (int, int), k: int)
    requires IsGrid(cells) && 0 <= k <= |PASSES|
    ensures forall j :: 0 <= j < |SightingsUpTo(cells, color, me, shift, k)| ==>
      InBounds(SightingsUpTo(cells, color, me, shift, k)[j].x, SightingsUpTo(cells, color, me, shift, k)[j].y) &&
      cells[Idx(SightingsUpTo(cells, color, me, shift, k)[j].x, SightingsUpTo(cells, color, me, shift, k)[j].y)] == color
    decreases k
  {
    if k > 0 {
      SightingsAreOwnCells(cells, color, me, shift, k - 1);
    }
  }

  /** The number of directions among the first k passes that are scanned. */
  function ScannedUpTo(shift: (int, int), k: int): nat
    requires 0 <= k <= |PASSES|
    decreases k
  {
    if k == 0 then 0 else ScannedUpTo(shift, k - 1) + (if Scanned(PASSES[k - 1].0, PASSES[k - 1].1, shift) then 1 else 0)
  }

  lemma {:induction false} SightingsPerDirection(cells: seq<int>, color: int, me: Pos, shift: (int, int), k: int)
    requires IsGrid(cells) && 0 <= k <= |PASSES|
    ensures |SightingsUpTo(cells, color, me, shift, k)| <= ScannedUpTo(shift, k)
    decreases k
  {
    if k > 0 {
      SightingsPerDirection(cells, color, me, shift, k - 1);
    }
  }

  /**
   * With no previous piece all 8 directions are scanned; with a previous
   * piece in another cell two directions are skipped, so a piece sees at most
   * 8, respectively 6, others.
   */
  lemma SightingsBound(cells: seq<int>, color: int, me: Pos, shift: (int, int))
    requires IsGrid(cells) && -1 <= shift.0 <= 1 && -1 <= shift.1 <= 1
    ensures |Sightings(cells, color, me, shift)| <= 8
    ensures shift != (0, 0) ==> |Sightings(cells, color, me, shift)| <= 6
  {
    SightingsPerDirection(cells, color, me, shift, |PASSES|);
    var n := ScannedUpTo(shift, |PASSES|);
    assert n == ScannedUpTo(shift, 8) + (if Scanned(1, 1, shift) then 1 else 0);
  }
}
