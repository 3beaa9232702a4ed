/**
 * A concrete board showing that generateAllMoves does not offer every legal STEP.
 */
module StepGap {
  import opened Common
  import opened Pieces
  import opened PieceSets
  import opened Rules

  /**
   * A board on which some legal STEP is not generated: ten black pieces, one
   * at (3, 3) diagonally next to one at (2, 2), the other eight apart from
   * each other and from (4, 4). Stepping (3, 3) to (4, 4) is legal, since
   * with (3, 3) emptied no neighbour of (4, 4) is black; but while (3, 3) is
   * still occupied it has the black neighbour (2, 2), so (4, 4) is a rule-4
   * violation and is not among the targets generateAllMoves offers.
   */
  const STEP_GAP_PIECES: seq<Pos> :=
    [Pos(3, 3), Pos(2, 2), Pos(2, 0), Pos(5, 0), Pos(6, 2), Pos(1, 4), Pos(1, 6), Pos(3, 6), Pos(6, 6), Pos(6, 4)]

  function StepGapBoard(): (s: State)
    ensures IsGrid(s.cells) && s.black == STEP_GAP_PIECES && s.white == []
  {
    State(seq(CELLS, StepGapCode), STEP_GAP_PIECES, [])
  }

  /** What cell k of StepGapBoard holds. */
  function StepGapCode(k: int): int
    requires 0 <= k < CELLS
  {
    if CellPos(k) in STEP_GAP_PIECES then BLACK else EMPTY
  }

  /** A cell of StepGapBoard is black exactly when one of its pieces stands there, and empty otherwise. */
  lemma StepGapCell(x: int, y: int)
    requires InBounds(x, y)
    ensures StepGapBoard().cells[Idx(x, y)] == if Pos(x, y) in STEP_GAP_PIECES then BLACK else EMPTY
  {
    CellPosIdx(x, y);
  }

  /** The pieces of StepGapBoard stand on distinct black cells off the corners and off black's forbidden lines. */
  lemma StepGapPieces()
    ensures forall i :: 0 <= i < |STEP_GAP_PIECES| ==>
      var p := STEP_GAP_PIECES[i]; InBounds(p.x, p.y) && !IsCorner(p.x, p.y) && !OnForbiddenLine(p.x, p.y, BLACK)
    ensures forall i, j :: 0 <= i < j < |STEP_GAP_PIECES| ==> STEP_GAP_PIECES[i] != STEP_GAP_PIECES[j]
  {
  }

  /** A cell of StepGapBoard holds BLACK or EMPTY, a black one being a piece's cell off the corners and off black's forbidden lines. */
  lemma StepGapCellFacts(x: int, y: int)
    requires InBounds(x, y)
    ensures var c := StepGapBoard().cells[Idx(x, y)];
      && (c == BLACK || c == EMPTY)
      && (c == BLACK ==> Pos(x, y) in STEP_GAP_PIECES && !IsCorner(x, y) && !OnForbiddenLine(x, y, BLACK))
  {
    StepGapCell(x, y);
    if Pos(x, y) in STEP_GAP_PIECES {
      StepGapPieces();
      var i :| 0 <= i < |STEP_GAP_PIECES| && STEP_GAP_PIECES[i] == Pos(x, y);
    }
  }

  /** StepGapBoard satisfies the board invariant of legal play. */
  lemma StepGapValid()
    ensures Inv(StepGapBoard())
  {
    var s := StepGapBoard();
    StepGapPieces();
    forall x, y | InBounds(x, y)
      ensures var c := s.cells[Idx(x, y)];
        && (c == BLACK || c == EMPTY)
        && (c == BLACK ==> Pos(x, y) in s.black && !IsCorner(x, y) && !OnForbiddenLine(x, y, BLACK))
    {
      StepGapCellFacts(x, y);
    }
    forall k | 0 <= k < |s.cells| ensures s.cells[k] == BLACK || s.cells[k] == EMPTY {
      var p := CellPos(k);
      assert Idx(p.x, p.y) == k;
    }
    assert OffForbiddenLines(s.cells);
    assert CornersFree(s.cells, BLACK) && CornersFree(s.cells, WHITE);
    forall i | 0 <= i < |s.black| ensures s.cells[Idx(s.black[i].x, s.black[i].y)] == BLACK {
      StepGapCell(s.black[i].x, s.black[i].y);
    }
    assert Placed(s.cells, BLACK, s.black);
    assert Placed(s.cells, WHITE, s.white);
  }

  /** No neighbour among the first k holds the colour, so none is counted. */
  lemma {:induction false} SameCountNone(cells: seq<int>, x: int, y: int, color: int, k: int)
    requires IsGrid(cells) && 0 <= k <= |COMPASS|
    requires forall d :: 0 <= d < k ==> !Holds(cells, Neighbor(x, y, d), color)
    ensures SameCount(cells, x, y, color, k) == 0
    decreases k
  {
    if k > 0 {
      SameCountNone(cells, x, y, color, k - 1);
    }
  }

  /** generateAllMoves misses a legal STEP: the move (4, 4) <- (3, 3) on StepGapBoard. */
  lemma LegalStepNotGenerated()
    ensures var s, m := StepGapBoard(), Step(4, 4, 3, 3);
      && Inv(s) && MoveInBounds(m)
      && LegalMove(s, m, BLACK) && m !in GenerateAllMoves(s, BLACK)
  {
    StepGapValid();
    StepGapLegal();
    StepGapNotGenerated();
  }

  /** With (3, 3) emptied, no neighbour of (4, 4) is black. */
  lemma StepGapLonely()
    ensures var removed := StepGapBoard().cells[Idx(3, 3) := EMPTY];
      forall d :: 0 <= d < |COMPASS| ==> !Holds(removed, Neighbor(4, 4, d), BLACK)
  {
    var removed := StepGapBoard().cells[Idx(3, 3) := EMPTY];
    forall d | 0 <= d < |COMPASS| ensures !Holds(removed, Neighbor(4, 4, d), BLACK) {
      var p := Neighbor(4, 4, d).value;
      StepGapCell(p.x, p.y);
    }
  }

  /** With (3, 3) emptied, (4, 4) is valid for black, so the STEP (4, 4) <- (3, 3) is legal. */
  lemma StepGapLegal()
    ensures LegalMove(StepGapBoard(), Step(4, 4, 3, 3), BLACK)
  {
    var s := StepGapBoard();
    var removed := s.cells[Idx(3, 3) := EMPTY];
    StepGapLonely();
    SameCountNone(removed, 4, 4, BLACK, |COMPASS|);
    Rule4Exactly(removed, 4, 4, BLACK);
    assert !Rule4Violation(removed, 4, 4, BLACK);
    StepGapCell(4, 4);
    StepGapCell(3, 3);
    assert ValidLocation(removed, 4, 4, BLACK);
  }

  /** (3, 3) is black and crowded by (2, 2), so (4, 4) is clustered and not among the generated targets. */
  lemma StepGapNotGenerated()
    ensures Step(4, 4, 3, 3) !in GenerateAllMoves(StepGapBoard(), BLACK)
  {
    var s := StepGapBoard();
    var cells := s.cells;
    var m := Step(4, 4, 3, 3);
    StepGapCell(3, 3);
    StepGapCell(2, 2);
    assert Holds(cells, Neighbor(3, 3, 7), BLACK) && Neighbor(3, 3, 7) != Some(Pos(4, 4));
    assert Holds(cells, Neighbor(4, 4, 7), BLACK) && Crowded(cells, Neighbor(4, 4, 7).value, BLACK, 4, 4);
    Rule4Exactly(cells, 4, 4, BLACK);
    EmptySpacesExactly(cells, BLACK, 4, 4);
    StepMovesExactly(s.black, EmptySpaces(cells, BLACK), m);
  }
}
