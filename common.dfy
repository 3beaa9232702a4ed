/** Shared vocabulary of the Network player: board constants, positions, moves. */
module Common {

  /** Side length of the square board. */
  const SIZE: int := 8
  /** Number of cells on the board. */
  const CELLS: int := 64

  /** Occupant codes of a cell. */
  const EMPTY: int := -1
  const BLACK: int := 0
  const WHITE: int := 1

  /** The largest and smallest 32-bit integers, used as sentinel scores. */
  const INT_MAX: int := 0x7fff_ffff
  const INT_MIN: int := -0x8000_0000

  /** Most pieces one colour may place. */
  const MAX_PIECES: int := 10

  datatype Option<T> = None | Some(value: T)

  /** A cell position on the board. */
  datatype Pos = Pos(x: int, y: int)

  /** A move: quit, add a piece at (x1, y1), or step the piece at (x2, y2) to (x1, y1). */
  datatype Move =
    | Quit
    | Add(x1: int, y1: int)
    | Step(x1: int, y1: int, x2: int, y2: int)

  predicate IsColor(c: int) {
    c == BLACK || c == WHITE
  }

  /** The colour of the other player. */
  function Other(c: int): (r: int)
    requires IsColor(c)
    ensures IsColor(r) && r != c
  {
    (c + 1) % 2
  }

  /** Whether (x, y) lies on the board (the static two-argument isValidLocation). */
  predicate InBounds(x: int, y: int) {
    x >= 0 && y >= 0 && x < SIZE && y < SIZE
  }

  predicate IsCorner(x: int, y: int) {
    (x == 0 || x == SIZE - 1) && (y == 0 || y == SIZE - 1)
  }

  /** Index of cell (x, y) in the flattened grid: column-major like board[x][y]. */
  function Idx(x: int, y: int): (k: int)
    requires InBounds(x, y)
    ensures 0 <= k < CELLS
  {
    x * SIZE + y
  }

  lemma IdxInjective(x: int, y: int, x': int, y': int)
    requires InBounds(x, y) && InBounds(x', y')
    ensures Idx(x, y) == Idx(x', y') <==> x == x' && y == y'
  {
  }

  /** The cell coordinates are in bounds for every cell a move touches. */
  predicate MoveInBounds(m: Move) {
    match m
    case Quit => true
    case Add(x1, y1) => InBounds(x1, y1)
    case Step(x1, y1, x2, y2) => InBounds(x1, y1) && InBounds(x2, y2)
  }
}
