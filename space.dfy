/** A single cell of the board: its position and its occupant code. */
module Spaces {
  import opened Common

  class Space {
    const x: int
    const y: int
    /** EMPTY, BLACK or WHITE. */
    var kind: int

    /** A new space is empty. */
    constructor (x: int, y: int)
      ensures this.x == x && this.y == y && kind == EMPTY
    {
      this.x := x;
      this.y := y;
      kind := EMPTY;
    }

    predicate IsEmpty()
      reads this
    {
      kind == EMPTY
    }

    /** Puts t on the space if it is empty; reports whether it did. */
    method Place(t: int) returns (ok: bool)
      modifies this
      ensures ok <==> old(kind) == EMPTY
      ensures kind == if ok then t else old(kind)
    {
      if kind == EMPTY {
        kind := t;
        return true;
      }
      return false;
    }

    /** Empties an occupied space and returns what was on it; EMPTY when nothing was. */
    method Remove() returns (t: int)
      modifies this
      ensures old(kind) > EMPTY ==> t == old(kind) && kind == EMPTY
      ensures old(kind) <= EMPTY ==> t == EMPTY && kind == old(kind)
    {
      if kind > EMPTY {
        t := kind;
        kind := EMPTY;
      } else {
        t := EMPTY;
      }
    }

    /** Two spaces are equal when their coordinates are; null equals nothing. */
    predicate Equals(s: Space?)
      reads this
    {
      s != null && s.x == x && s.y == y
    }
  }

  /** The spaces of a board show the occupant codes `cells`, one space per cell. */
  ghost predicate Shows(grid: seq<Space>, cells: seq<int>)
    reads grid
  {
    |grid| == |cells| && forall k :: 0 <= k < |grid| ==> grid[k].kind == cells[k]
  }
}
