/** Vocabulary shared by the agent model: tiles, cells, moves and the
    failure-compatible wrappers used where the Python code raises. */
module Tiles {

  /** The tiles the red agent reads or writes. `ASCII_TILES` is configuration;
      every symbol the code compares against becomes one constructor, and
      every other symbol (the red agent without a flag, bullets, ...) is `Other`. */
  datatype Tile =
    | Unknown
    | Empty
    | Wall
    | RedFlag
    | BlueFlag
    | RedAgentF   // a red agent carrying the blue flag
    | BlueAgent
    | BlueAgentF  // a blue agent carrying the red flag
    | Other

  /** A (row, col) pair in belief-grid coordinates; rows grow downwards. */
  datatype Cell = Cell(row: int, col: int)

  /** A grid of tiles as a list of rows (the belief grid or a visibility window). */
  type Grid = seq<seq<Tile>>

  datatype Direction = Up | Down | Left | Right

  datatype Action = Move | Shoot

  /** What `make_decision` returns: an action and a direction, which is
      `None` when `get_direction` falls through all its branches. */
  datatype Decision = Decision(action: Action, direction: Option<Direction>)

  datatype Option<T> = None | Some(value: T)

  /** The result of a call that can raise: in `astar` an exception is raised
      at the popped cell whose step cost is undefined (a `None` cost or an
      index out of range of the cost grid). */
  datatype Outcome<T> = Normal(value: T) | Raised(at: Cell)

  /** Half the side of the observation window, hard-coded in the source. */
  const HalfWindow: int := 4

  predicate IsGrid(g: Grid, rows: int, cols: int) {
    |g| == rows && forall r :: 0 <= r < |g| ==> |g[r]| == cols
  }

  predicate IsSquare(w: Grid) {
    forall r :: 0 <= r < |w| ==> |w[r]| == |w|
  }

  predicate InBounds(p: Cell, rows: int, cols: int) {
    0 <= p.row < rows && 0 <= p.col < cols
  }

  function Abs(x: int): nat { if x < 0 then -x else x }

  /** Orthogonally adjacent: Manhattan distance one. */
  predicate Adjacent(a: Cell, b: Cell) {
    Abs(a.row - b.row) + Abs(a.col - b.col) == 1
  }

  /** The cell one move in direction `d` away. */
  function Step(p: Cell, d: Direction): (q: Cell)
    ensures Adjacent(p, q)
  {
    match d
    case Up => Cell(p.row - 1, p.col)
    case Down => Cell(p.row + 1, p.col)
    case Left => Cell(p.row, p.col - 1)
    case Right => Cell(p.row, p.col + 1)
  }

  /** Every cell adjacent to `p` is one move away in some direction. */
  lemma AdjacentIsStep(p: Cell, q: Cell)
    requires Adjacent(p, q)
    ensures exists d :: Step(p, d) == q
  {
    if q.row < p.row { assert Step(p, Up) == q; }
    else if q.row > p.row { assert Step(p, Down) == q; }
    else if q.col < p.col { assert Step(p, Left) == q; }
    else { assert Step(p, Right) == q; }
  }

  /** `update` receives its position as (x, y) in world coordinates, which
      include a one-cell border; it turns it into (row, col) of the grid. */
  function GridCell(position: (int, int)): (c: Cell)
  {
    Cell(position.1 - 1, position.0 - 1)
  }

  /** The inverse of `GridCell`. */
  function WorldPosition(c: Cell): (int, int)
  {
    (c.col + 1, c.row + 1)
  }

  lemma GridCellRoundTrip(position: (int, int), c: Cell)
    ensures WorldPosition(GridCell(position)) == position
    ensures GridCell(WorldPosition(c)) == c
  {
  }
}
