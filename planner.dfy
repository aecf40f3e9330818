/** The pure parts of the planner: the helpers nested inside `astar`, the
    direction of the next step, path reversal, and the measures that show
    `astar` terminates. */
module Planner {
  import opened Tiles

  // ---------------------------------------------------------------------
  // Helpers of astar
  // ---------------------------------------------------------------------

  /** The step cost table of `cost_from_const`.  It is partial: for any tile
      other than these four the Python function falls through to `None`. */
  function TileCost(t: Tile): (cost: Option<nat>)
    ensures cost.Some? <==> t in {Unknown, Empty, Wall, RedFlag}
    ensures cost.Some? ==> 1 <= cost.value <= 10000
  {
    match t
    case Unknown => Some(1)
    case Empty => Some(2)
    case Wall => Some(10000)
    case RedFlag => Some(3)
    case _ => None
  }

  /** Python's `s[i]`: negative indices count from the end; `None` stands for
      an `IndexError`. */
  function PyIndex<T>(s: seq<T>, i: int): (x: Option<T>)
    ensures x.Some? <==> -|s| <= i < |s|
    ensures 0 <= i < |s| ==> x == Some(s[i])
    ensures -|s| <= i < 0 ==> x == Some(s[|s| + i])
  {
    if 0 <= i < |s| then Some(s[i])
    else if -|s| <= i < 0 then Some(s[|s| + i])
    else None
  }

  /** `cost_from_const(pos, visible_world, ...)`: the cost of leaving `pos`,
      read from the tile the cost grid holds at `pos`.  `None` when the
      lookup raises or the tile has no cost. */
  function CostFromConst(pos: Cell, costGrid: Grid): (cost: Option<nat>)
    ensures 0 <= pos.row < |costGrid| && 0 <= pos.col < |costGrid[pos.row]| ==>
              cost == TileCost(costGrid[pos.row][pos.col])
    ensures pos.row >= |costGrid| || pos.row < -|costGrid| ==> cost.None?
    ensures cost.Some? ==> 1 <= cost.value <= 10000
  {
    match PyIndex(costGrid, pos.row)
    case None => None
    case Some(line) =>
      match PyIndex(line, pos.col)
      case None => None
      case Some(t) => TileCost(t)
  }

  /** The part of `generate_neighbors` that filters with `is_valid`. */
  function KeepValid(cs: seq<Cell>, rows: int, cols: int): (kept: seq<Cell>)
    ensures forall n :: n in kept <==> n in cs && InBounds(n, rows, cols)
    ensures |kept| <= |cs|
  {
    if cs == [] then []
    else (if InBounds(cs[0], rows, cols) then [cs[0]] else []) + KeepValid(cs[1..], rows, cols)
  }

  /** The four cells `generate_neighbors` lists before filtering. */
  function Candidates(pos: Cell): seq<Cell> {
    var row, col := pos.row, pos.col;
    [Cell(row + 1, col), Cell(row - 1, col), Cell(row, col + 1), Cell(row, col - 1)]
  }

  lemma CandidatesAreAdjacent(pos: Cell)
    ensures forall n :: n in Candidates(pos) <==> Adjacent(pos, n)
  {
    forall n | Adjacent(pos, n) ensures n in Candidates(pos) {
      AdjacentIsStep(pos, n);
      var d :| Step(pos, d) == n;
      match d
      case Up => assert n == Candidates(pos)[1];
      case Down => assert n == Candidates(pos)[0];
      case Left => assert n == Candidates(pos)[3];
      case Right => assert n == Candidates(pos)[2];
    }
  }

  /** `generate_neighbors`: the orthogonal neighbours of `pos` that lie in the
      grid (no diagonals, no wrap-around). */
  function Neighbors(pos: Cell, rows: int, cols: int): (ns: seq<Cell>)
    ensures forall n :: n in ns <==> InBounds(n, rows, cols) && Adjacent(pos, n)
    ensures |ns| <= 4
  {
    CandidatesAreAdjacent(pos);
    KeepValid(Candidates(pos), rows, cols)
  }

  /** The cells `astar` can ever put into its cost table: the start and the
      cells of the grid. */
  function Universe(start: Cell, rows: int, cols: int): set<Cell> {
    {start} + set r, c | 0 <= r < rows && 0 <= c < cols :: Cell(r, c)
  }

  lemma InUniverse(start: Cell, rows: int, cols: int, n: Cell)
    requires InBounds(n, rows, cols)
    ensures n in Universe(start, rows, cols)
  {
    assert n == Cell(n.row, n.col);
  }

  lemma UniverseMember(start: Cell, rows: int, cols: int, n: Cell)
    requires n in Universe(start, rows, cols)
    ensures n == start || InBounds(n, rows, cols)
  {
  }

  /** Every cell `astar` might pop has a defined step cost. */
  predicate CostsDefined(start: Cell, costGrid: Grid, rows: int, cols: int) {
    && CostFromConst(start, costGrid).Some?
    && forall r, c :: 0 <= r < rows && 0 <= c < cols ==> CostFromConst(Cell(r, c), costGrid).Some?
  }

  /** A cell of the universe without a step cost refutes `CostsDefined`. */
  lemma UndefinedCost(start: Cell, costGrid: Grid, rows: int, cols: int, p: Cell)
    requires p in Universe(start, rows, cols) && CostFromConst(p, costGrid).None?
    ensures !CostsDefined(start, costGrid, rows, cols)
  {
    if p != start {
      assert p == Cell(p.row, p.col);
    }
  }

  /** Cell `p` has been expanded by `astar`: each of its neighbours has a cost
      entry, and its own step cost was read without raising if it has a
      neighbour (the loop over the neighbours reads it once per neighbour). */
  predicate Expanded(p: Cell, g: map<Cell, nat>, costGrid: Grid, rows: int, cols: int) {
    && (forall n :: n in Neighbors(p, rows, cols) ==> n in g)
    && (Neighbors(p, rows, cols) != [] ==> CostFromConst(p, costGrid).Some?)
  }

  /** Every cell of the cost table that is neither waiting in the open set
      nor in `busy` (the cell being expanded) has been expanded. */
  predicate ExpandedOutside(g: map<Cell, nat>, open: multiset<Cell>, busy: set<Cell>,
                            costGrid: Grid, rows: int, cols: int) {
    forall p {:trigger Expanded(p, g, costGrid, rows, cols)} ::
      p in g && p !in open && p !in busy ==> Expanded(p, g, costGrid, rows, cols)
  }

  /** Popping a cell makes it the one being expanded. */
  lemma ExpandedAfterPop(g: map<Cell, nat>, open: multiset<Cell>, c: Cell, costGrid: Grid, rows: int, cols: int)
    requires ExpandedOutside(g, open, {}, costGrid, rows, cols)
    ensures ExpandedOutside(g, open - multiset{c}, {c}, costGrid, rows, cols)
  {
    forall p | p in g && p !in open - multiset{c} && p !in {c}
      ensures Expanded(p, g, costGrid, rows, cols)
    {
      assert p !in open;
    }
  }

  /** A relaxation only adds cost entries, and the cell it changes is pushed. */
  lemma ExpandedAfterRelax(g: map<Cell, nat>, open: multiset<Cell>, c: Cell, n: Cell, v: nat,
                           costGrid: Grid, rows: int, cols: int)
    requires ExpandedOutside(g, open, {c}, costGrid, rows, cols)
    ensures ExpandedOutside(g[n := v], open + multiset{n}, {c}, costGrid, rows, cols)
  {
    var g' := g[n := v];
    forall p | p in g' && p !in open + multiset{n} && p !in {c}
      ensures Expanded(p, g', costGrid, rows, cols)
    {
      assert p in g && p !in open;
      assert Expanded(p, g, costGrid, rows, cols);
    }
  }

  /** The neighbours visited so far keep their cost entries as the table grows. */
  lemma PrefixCovered(ns: seq<Cell>, k: nat, g: map<Cell, nat>, g': map<Cell, nat>)
    requires k < |ns| && g.Keys <= g'.Keys && ns[k] in g'
    requires forall x :: x in ns[..k] ==> x in g
    ensures forall x :: x in ns[..k + 1] ==> x in g'
  {
    assert ns[..k + 1] == ns[..k] + [ns[k]];
  }

  /** Once the cell being expanded is expanded, it joins the rest. */
  lemma ExpandedAfterNeighbors(g: map<Cell, nat>, open: multiset<Cell>, c: Cell, costGrid: Grid, rows: int, cols: int)
    requires ExpandedOutside(g, open, {c}, costGrid, rows, cols) && Expanded(c, g, costGrid, rows, cols)
    ensures ExpandedOutside(g, open, {}, costGrid, rows, cols)
  {
  }

  /** A cost table that holds an in-grid start and is closed under taking
      neighbours holds every cell of the grid. */
  lemma {:induction false} ClosedReaches(start: Cell, g: map<Cell, nat>, rows: int, cols: int, t: Cell)
    requires InBounds(start, rows, cols) && InBounds(t, rows, cols) && start in g
    requires forall p :: p in g ==> forall n :: n in Neighbors(p, rows, cols) ==> n in g
    ensures t in g
    decreases Abs(t.row - start.row) + Abs(t.col - start.col)
  {
    if t != start {
      var q :=
        if t.row < start.row then Cell(t.row + 1, t.col)
        else if t.row > start.row then Cell(t.row - 1, t.col)
        else if t.col < start.col then Cell(t.row, t.col + 1)
        else Cell(t.row, t.col - 1);
      ClosedReaches(start, g, rows, cols, q);
      assert Adjacent(q, t);
    }
  }

  /** In a grid with two or more cells, every cell has a neighbour. */
  lemma EveryCellHasNeighbor(start: Cell, rows: int, cols: int, t: Cell)
    requires InBounds(start, rows, cols) && Neighbors(start, rows, cols) != [] && InBounds(t, rows, cols)
    ensures Neighbors(t, rows, cols) != []
  {
    var n := Neighbors(start, rows, cols)[0];
    assert InBounds(n, rows, cols) && Adjacent(start, n);
    var q :=
      if n.row != start.row then (if t.row + 1 < rows then Cell(t.row + 1, t.col) else Cell(t.row - 1, t.col))
      else (if t.col + 1 < cols then Cell(t.row, t.col + 1) else Cell(t.row, t.col - 1));
    assert InBounds(q, rows, cols) && Adjacent(t, q);
  }

  /** When `astar` ends with every cost-table entry expanded, having started
      inside a grid of two or more cells, every step cost was defined. */
  lemma AllExpandedCostsDefined(start: Cell, g: map<Cell, nat>, costGrid: Grid, rows: int, cols: int)
    requires InBounds(start, rows, cols) && Neighbors(start, rows, cols) != [] && start in g
    requires ExpandedOutside(g, multiset{}, {}, costGrid, rows, cols)
    ensures CostsDefined(start, costGrid, rows, cols)
  {
    forall p | p in g ensures forall n :: n in Neighbors(p, rows, cols) ==> n in g {
      assert Expanded(p, g, costGrid, rows, cols);
    }
    forall r, c | 0 <= r < rows && 0 <= c < cols
      ensures CostFromConst(Cell(r, c), costGrid).Some?
    {
      ClosedReaches(start, g, rows, cols, Cell(r, c));
      EveryCellHasNeighbor(start, rows, cols, Cell(r, c));
      assert Expanded(Cell(r, c), g, costGrid, rows, cols);
    }
    assert start == Cell(start.row, start.col);
  }

  /** The observation window is 9 x 9; on a map whose grid has more rows,
      the lookup of a cell below the window's last row falls off the window,
      so some step cost is undefined. */
  lemma WindowAsCostGrid(start: Cell, w: Grid, rows: int, cols: int)
    requires |w| == 2 * HalfWindow + 1 && rows > |w| && cols > 0
    ensures !CostsDefined(start, w, rows, cols)
  {
    assert CostFromConst(Cell(|w|, 0), w).None?;
  }

  /** The cells of the universe that have no cost yet. */
  function Unseen(start: Cell, rows: int, cols: int, g: map<Cell, nat>): nat {
    |Universe(start, rows, cols) - g.Keys|
  }

  /** The total of the costs in `g`, as a set of unit steps. */
  function CostUnits(g: map<Cell, nat>): set<(Cell, int)> {
    set p, v | p in g.Keys && 0 <= v < g[p] :: (p, v)
  }

  lemma SubsetCard<T>(a: set<T>, b: set<T>)
    requires a <= b
    ensures |a| <= |b|
  {
    if a != {} {
      var x :| x in a;
      SubsetCard(a - {x}, b - {x});
    }
  }

  /** Giving a cell its first cost removes it from the unseen cells. */
  lemma UnseenShrinks(start: Cell, rows: int, cols: int, g: map<Cell, nat>, n: Cell, v: nat)
    requires n !in g && n in Universe(start, rows, cols)
    ensures Unseen(start, rows, cols, g[n := v]) == Unseen(start, rows, cols, g) - 1
  {
    var u := Universe(start, rows, cols);
    assert u - g[n := v].Keys == (u - g.Keys) - {n};
  }

  /** Lowering a cell's cost strictly lowers the total. */
  lemma CostUnitsShrink(g: map<Cell, nat>, n: Cell, v: nat)
    requires n in g && v < g[n]
    ensures |CostUnits(g[n := v])| < |CostUnits(g)|
  {
    var before, after := CostUnits(g), CostUnits(g[n := v]);
    assert (n, v) in before && (n, v) !in after;
    assert after <= before - {(n, v)};
    SubsetCard(after, before - {(n, v)});
  }

  /** The termination measure of the main loop of `astar` (unseen cells,
      then total cost, then size of the open set) lies lexicographically
      below the triple it had at the start of an iteration. */
  predicate MeasureBelow(start: Cell, rows: int, cols: int, g: map<Cell, nat>, open: int,
                         unseen0: int, units0: int, open0: int) {
    var u, s := Unseen(start, rows, cols, g), |CostUnits(g)|;
    u < unseen0 || (u == unseen0 && (s < units0 || (s == units0 && open < open0)))
  }

  /** A relaxation (a first cost, or a strictly lower one) keeps the measure
      below, even though it pushes one more cell. */
  lemma RelaxKeepsMeasureBelow(start: Cell, rows: int, cols: int, g: map<Cell, nat>, open: int,
                               unseen0: int, units0: int, open0: int, n: Cell, v: nat)
    requires MeasureBelow(start, rows, cols, g, open, unseen0, units0, open0)
    requires n in Universe(start, rows, cols) && (n in g ==> v < g[n])
    ensures MeasureBelow(start, rows, cols, g[n := v], open + 1, unseen0, units0, open0)
  {
    if n in g {
      assert g[n := v].Keys == g.Keys;
      CostUnitsShrink(g, n, v);
    } else {
      UnseenShrinks(start, rows, cols, g, n, v);
    }
  }

  // ---------------------------------------------------------------------
  // Direction of the next step
  // ---------------------------------------------------------------------

  /** `get_direction`: compares the rows of the path's second cell and the
      current cell first, the columns only when the rows agree; `None` when
      the cells are equal (the Python function returns nothing). */
  function GetDirection(current: Cell, path: seq<Cell>): (d: Option<Direction>)
    requires |path| >= 2
    ensures d == Some(Up) <==> path[1].row < current.row
    ensures d == Some(Down) <==> path[1].row > current.row
    ensures d == Some(Left) <==> path[1].row == current.row && path[1].col < current.col
    ensures d == Some(Right) <==> path[1].row == current.row && path[1].col > current.col
    ensures d == None <==> path[1] == current
  {
    var next := path[1];
    if next.row < current.row then Some(Up)
    else if next.row > current.row then Some(Down)
    else if next.col < current.col then Some(Left)
    else if next.col > current.col then Some(Right)
    else None
  }

  /** For a next cell one move away, `get_direction` names that move, and
      only that one. */
  lemma GetDirectionOfStep(current: Cell, path: seq<Cell>, d: Direction)
    requires |path| >= 2
    ensures GetDirection(current, path) == Some(d) && Adjacent(current, path[1]) <==> path[1] == Step(current, d)
  {
  }

  // ---------------------------------------------------------------------
  // reconstruct_path
  // ---------------------------------------------------------------------

  /** `s[::-1]`. */
  function Reverse<T>(s: seq<T>): seq<T> {
    if s == [] then [] else Reverse(s[1..]) + [s[0]]
  }

  lemma {:induction false} ReverseAt<T>(s: seq<T>, i: int)
    requires 0 <= i < |s|
    ensures |Reverse(s)| == |s| && Reverse(s)[i] == s[|s| - 1 - i]
  {
    ReverseLength(s);
    if i < |s| - 1 {
      ReverseAt(s[1..], i);
    }
  }

  lemma {:induction false} ReverseLength<T>(s: seq<T>)
    ensures |Reverse(s)| == |s|
  {
    if s != [] {
      ReverseLength(s[1..]);
    }
  }

  /** `chain` follows `cameFrom` from `goal` back to the first occurrence of `start`. */
  predicate ParentChain(cameFrom: map<Cell, Cell>, chain: seq<Cell>, goal: Cell, start: Cell) {
    && |chain| >= 1
    && chain[0] == goal
    && chain[|chain| - 1] == start
    && forall i :: 0 <= i < |chain| - 1 ==> chain[i] != start && chain[i] in cameFrom && cameFrom[chain[i]] == chain[i + 1]
  }
}
