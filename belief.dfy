/** The belief state of the red agent as values: the scanners, the merge of
    a visibility window into the grid, stale correction, and the three
    reconcilers that `update` runs after the merge.  The class in agent.dfy
    is proved to compute exactly these functions on its array. */
module Belief {
  import opened Tiles

  /** `knowledge_base`: three position lists and the world knowledge grid. */
  datatype Beliefs = Beliefs(
    enemyAgents: seq<Cell>,
    enemyFlag: seq<Cell>,
    myFlag: seq<Cell>,
    world: Grid)

  function AllUnknown(rows: nat, cols: nat): (g: Grid)
    ensures IsGrid(g, rows, cols)
    ensures forall r, c :: 0 <= r < rows && 0 <= c < cols ==> g[r][c] == Unknown
  {
    seq(rows, _ => seq(cols, _ => Unknown))
  }

  /** The knowledge base a freshly constructed agent writes. */
  function Initial(rows: nat, cols: nat): Beliefs {
    Beliefs([], [], [], AllUnknown(rows, cols))
  }

  // ---------------------------------------------------------------------
  // Scanners
  // ---------------------------------------------------------------------

  const Origin := Cell(0, 0)

  /** The shift that turns window indices into grid cells, for an agent at `pos`. */
  function WindowOffset(pos: Cell): Cell {
    Cell(pos.row - HalfWindow, pos.col - HalfWindow)
  }

  /** Cell `e`, shifted back by `off`, indexes a tile `t` of `g`. */
  predicate Holds(g: Grid, t: Tile, off: Cell, e: Cell) {
    var r, c := e.row - off.row, e.col - off.col;
    0 <= r < |g| && 0 <= c < |g[r]| && g[r][c] == t
  }

  predicate RowMajorBefore(a: Cell, b: Cell) {
    a.row < b.row || (a.row == b.row && a.col < b.col)
  }

  /** Cells of one row, strictly increasing by column. */
  predicate LeftToRight(s: seq<Cell>) {
    forall i, j :: 0 <= i < j < |s| ==> s[i].row == s[j].row && s[i].col < s[j].col
  }

  predicate StrictlyRowMajor(s: seq<Cell>) {
    forall i, j :: 0 <= i < j < |s| ==> RowMajorBefore(s[i], s[j])
  }

  /** The hits for `t` among the first `n` columns of row `r`, shifted by `off`. */
  function RowHits(row: seq<Tile>, r: int, t: Tile, n: nat, off: Cell): seq<Cell>
    requires n <= |row|
  {
    if n == 0 then []
    else RowHits(row, r, t, n - 1, off)
         + (if row[n - 1] == t then [Cell(r + off.row, n - 1 + off.col)] else [])
  }

  /** The hits for `t` among the first `m` rows of `g`, in row-major order. */
  function GridHits(g: Grid, t: Tile, m: nat, off: Cell): seq<Cell>
    requires m <= |g|
  {
    if m == 0 then []
    else GridHits(g, t, m - 1, off) + RowHits(g[m - 1], m - 1, t, |g[m - 1]|, off)
  }

  /** The list both scanners build: every (row + off.row, col + off.col) whose
      tile is `t`, visiting rows in order and each row left to right. */
  function Positions(g: Grid, t: Tile, off: Cell): seq<Cell> {
    GridHits(g, t, |g|, off)
  }

  /** `get_positions_from_world_knowledge`. */
  function WorldPositions(g: Grid, t: Tile): seq<Cell> {
    Positions(g, t, Origin)
  }

  /** `get_positions_from_visible_world`: no bounds filtering. */
  function VisiblePositions(w: Grid, pos: Cell, t: Tile): seq<Cell> {
    Positions(w, t, WindowOffset(pos))
  }

  lemma {:induction false} RowHitsExact(row: seq<Tile>, r: int, t: Tile, n: nat, off: Cell)
    requires n <= |row|
    ensures forall e :: e in RowHits(row, r, t, n, off) <==>
      e.row == r + off.row && 0 <= e.col - off.col < n && row[e.col - off.col] == t
    ensures LeftToRight(RowHits(row, r, t, n, off))
  {
    if n > 0 {
      RowHitsExact(row, r, t, n - 1, off);
      var prev := RowHits(row, r, t, n - 1, off);
      var s := RowHits(row, r, t, n, off);
      forall i | 0 <= i < |prev| ensures prev[i].row == r + off.row && prev[i].col < n - 1 + off.col {
        assert prev[i] in prev;
      }
      if row[n - 1] == t {
        var e := Cell(r + off.row, n - 1 + off.col);
        assert s == prev + [e];
        forall i, j | 0 <= i < j < |s|
          ensures s[i].row == s[j].row && s[i].col < s[j].col
        {
          if j == |s| - 1 {
            assert s[i] == prev[i] && s[j] == e;
          } else {
            assert s[i] == prev[i] && s[j] == prev[j];
          }
        }
      } else {
        assert s == prev;
      }
    }
  }

  lemma {:induction false} GridHitsExact(g: Grid, t: Tile, m: nat, off: Cell)
    requires m <= |g|
    ensures forall e :: e in GridHits(g, t, m, off) <==> e.row - off.row < m && Holds(g, t, off, e)
    ensures StrictlyRowMajor(GridHits(g, t, m, off))
  {
    if m > 0 {
      GridHitsExact(g, t, m - 1, off);
      RowHitsExact(g[m - 1], m - 1, t, |g[m - 1]|, off);
      var prev := GridHits(g, t, m - 1, off);
      var last := RowHits(g[m - 1], m - 1, t, |g[m - 1]|, off);
      var s := GridHits(g, t, m, off);
      assert s == prev + last;
      forall i, j | 0 <= i < j < |s|
        ensures RowMajorBefore(s[i], s[j])
      {
        if j < |prev| {
          assert s[i] == prev[i] && s[j] == prev[j];
          assert RowMajorBefore(prev[i], prev[j]);
        } else if i < |prev| {
          assert s[i] == prev[i] && prev[i] in prev;
          assert s[j] == last[j - |prev|] && last[j - |prev|] in last;
          assert prev[i].row - off.row < m - 1;
          assert last[j - |prev|].row == m - 1 + off.row;
        } else {
          assert s[i] == last[i - |prev|] && s[j] == last[j - |prev|];
          assert last[i - |prev|].row == last[j - |prev|].row && last[i - |prev|].col < last[j - |prev|].col;
        }
      }
    }
  }

  /** Scanner exactness: the list holds exactly the shifted cells holding `t`,
      in strictly increasing row-major order, hence each of them once. */
  lemma PositionsExact(g: Grid, t: Tile, off: Cell)
    ensures forall e :: e in Positions(g, t, off) <==> Holds(g, t, off, e)
    ensures StrictlyRowMajor(Positions(g, t, off))
    ensures var s := Positions(g, t, off); forall i, j :: 0 <= i < j < |s| ==> s[i] != s[j]
  {
    GridHitsExact(g, t, |g|, off);
    var s := Positions(g, t, off);
    forall i, j | 0 <= i < j < |s| ensures s[i] != s[j] {
      assert RowMajorBefore(s[i], s[j]);
    }
  }

  /** The world scanner returns only cells of the grid, exactly those holding `t`. */
  lemma WorldPositionsExact(g: Grid, rows: int, cols: int, t: Tile)
    requires IsGrid(g, rows, cols)
    ensures forall e :: e in WorldPositions(g, t) <==> InBounds(e, rows, cols) && g[e.row][e.col] == t
  {
    PositionsExact(g, t, Origin);
  }

  // ---------------------------------------------------------------------
  // Merge of a visibility window
  // ---------------------------------------------------------------------

  /** The window's tile for grid cell (r, c), if the window covers it, for an
      agent at `pos` (the window is centred on the agent). */
  function Seen(w: Grid, pos: Cell, r: int, c: int): Option<Tile> {
    var j, i := r - pos.row + HalfWindow, c - pos.col + HalfWindow;
    if 0 <= j < |w| && 0 <= i < |w[j]| then Some(w[j][i]) else None
  }

  /** A visible position names cell (r, c) exactly when the window shows `t` there. */
  lemma VisiblePositionsExact(w: Grid, pos: Cell, t: Tile)
    ensures forall r, c :: Cell(r, c) in VisiblePositions(w, pos, t) <==> Seen(w, pos, r, c) == Some(t)
  {
    PositionsExact(w, t, WindowOffset(pos));
  }

  /** Cell (r, c) after the merge: the window's tile when it covers the cell
      and is not `Unknown`, the old belief otherwise. */
  function MergedCell(belief: Tile, w: Grid, pos: Cell, r: int, c: int): Tile {
    match Seen(w, pos, r, c)
    case Some(t) => if t != Unknown then t else belief
    case None => belief
  }

  /** The nested loop of `update_world_knowledge` as a function of the grid. */
  function MergeGrid(g: Grid, w: Grid, pos: Cell): (g': Grid)
    ensures |g'| == |g| && forall r :: 0 <= r < |g| ==> |g'[r]| == |g[r]|
  {
    seq(|g|, r requires 0 <= r < |g| =>
      seq(|g[r]|, c requires 0 <= c < |g[r]| => MergedCell(g[r][c], w, pos, r, c)))
  }

  /** The grid shows every known tile of the window that falls inside it. */
  ghost predicate Agrees(g: Grid, w: Grid, pos: Cell) {
    forall r, c :: 0 <= r < |g| && 0 <= c < |g[r]| && Seen(w, pos, r, c).Some? && Seen(w, pos, r, c).value != Unknown
      ==> g[r][c] == Seen(w, pos, r, c).value
  }

  /** Merge frame: a known window tile overwrites its cell, an `Unknown` one
      or a cell the window does not cover keeps its belief, and the grid
      keeps its dimensions. */
  lemma MergeFrame(g: Grid, rows: int, cols: int, w: Grid, pos: Cell)
    requires IsGrid(g, rows, cols)
    ensures IsGrid(MergeGrid(g, w, pos), rows, cols)
    ensures forall r, c :: 0 <= r < rows && 0 <= c < cols ==>
      MergeGrid(g, w, pos)[r][c] == (if Seen(w, pos, r, c).Some? && Seen(w, pos, r, c).value != Unknown
                                      then Seen(w, pos, r, c).value else g[r][c])
    ensures Agrees(MergeGrid(g, w, pos), w, pos)
  {
  }

  /** Merging the same window twice from the same position is merging once. */
  lemma MergeIdempotent(g: Grid, w: Grid, pos: Cell)
    ensures MergeGrid(MergeGrid(g, w, pos), w, pos) == MergeGrid(g, w, pos)
  {
    var once := MergeGrid(g, w, pos);
    var twice := MergeGrid(once, w, pos);
    forall r | 0 <= r < |g| ensures twice[r] == once[r] {
      assert forall c :: 0 <= c < |g[r]| ==> twice[r][c] == once[r][c];
    }
  }

  // ---------------------------------------------------------------------
  // Stale correction
  // ---------------------------------------------------------------------

  /** `remove_incorrect_positions`: every cell of `list1` that is not in
      `list2` becomes `Empty`. */
  function Cleared(g: Grid, list1: seq<Cell>, list2: seq<Cell>): (g': Grid)
    ensures |g'| == |g| && forall r :: 0 <= r < |g| ==> |g'[r]| == |g[r]|
  {
    seq(|g|, r requires 0 <= r < |g| =>
      seq(|g[r]|, c requires 0 <= c < |g[r]| =>
        if Cell(r, c) in list1 && Cell(r, c) !in list2 then Empty else g[r][c]))
  }

  /** The remembered cells of one kind of entity (two tiles). */
  function Memory(g: Grid, a: Tile, b: Tile): seq<Cell> {
    WorldPositions(g, a) + WorldPositions(g, b)
  }

  /** The cells of a kind of entity that the window shows. */
  function Visible(w: Grid, pos: Cell, a: Tile, b: Tile): seq<Cell> {
    VisiblePositions(w, pos, a) + VisiblePositions(w, pos, b)
  }

  /** One cell of stale correction on a grid that shows the window. */
  lemma ClearedAt(g: Grid, rows: int, cols: int, w: Grid, pos: Cell, a: Tile, b: Tile, r: int, c: int)
    requires IsGrid(g, rows, cols) && Agrees(g, w, pos)
    requires a !in {Unknown, Empty} && b !in {Unknown, Empty}
    requires 0 <= r < rows && 0 <= c < cols
    ensures var g', v := Cleared(g, Memory(g, a, b), Visible(w, pos, a, b)), Visible(w, pos, a, b);
      && ((g'[r][c] == a || g'[r][c] == b) <==> Cell(r, c) in v)
      && (g'[r][c] != g[r][c] ==> g'[r][c] == Empty && (g[r][c] == a || g[r][c] == b) && Cell(r, c) !in v)
      && (Seen(w, pos, r, c).Some? && Seen(w, pos, r, c).value != Unknown ==> g'[r][c] == Seen(w, pos, r, c).value)
  {
    var m, v := Memory(g, a, b), Visible(w, pos, a, b);
    var e := Cell(r, c);
    assert InBounds(e, rows, cols);
    assert e in m <==> (g[r][c] == a || g[r][c] == b) by {
      WorldPositionsExact(g, rows, cols, a);
      WorldPositionsExact(g, rows, cols, b);
    }
    assert e in v <==> (Seen(w, pos, r, c) == Some(a) || Seen(w, pos, r, c) == Some(b)) by {
      VisiblePositionsExact(w, pos, a);
      VisiblePositionsExact(w, pos, b);
    }
  }

  /** Stale correction of a kind (tiles `a` and `b`) on a grid that shows the
      window: afterwards the grid cells holding `a` or `b` are exactly the
      visible ones; a cell that changes is a remembered cell that is not in
      the visible list, and it becomes `Empty`; the grid still shows the window. */
  lemma ClearExact(g: Grid, rows: int, cols: int, w: Grid, pos: Cell, a: Tile, b: Tile)
    requires IsGrid(g, rows, cols) && Agrees(g, w, pos)
    requires a !in {Unknown, Empty} && b !in {Unknown, Empty}
    ensures var g' := Cleared(g, Memory(g, a, b), Visible(w, pos, a, b));
      && IsGrid(g', rows, cols)
      && Agrees(g', w, pos)
      && (forall r, c :: 0 <= r < rows && 0 <= c < cols ==>
            ((g'[r][c] == a || g'[r][c] == b) <==> Cell(r, c) in Visible(w, pos, a, b)))
      && (forall r, c :: 0 <= r < rows && 0 <= c < cols && g'[r][c] != g[r][c] ==>
            g'[r][c] == Empty && (g[r][c] == a || g[r][c] == b) && Cell(r, c) !in Visible(w, pos, a, b))
  {
    var g' := Cleared(g, Memory(g, a, b), Visible(w, pos, a, b));
    forall r, c | 0 <= r < rows && 0 <= c < cols
      ensures ((g'[r][c] == a || g'[r][c] == b) <==> Cell(r, c) in Visible(w, pos, a, b))
      ensures (g'[r][c] != g[r][c] ==> g'[r][c] == Empty && (g[r][c] == a || g[r][c] == b) && Cell(r, c) !in Visible(w, pos, a, b))
      ensures (Seen(w, pos, r, c).Some? && Seen(w, pos, r, c).value != Unknown ==> g'[r][c] == Seen(w, pos, r, c).value)
    {
      ClearedAt(g, rows, cols, w, pos, a, b, r, c);
    }
  }

  /** Clearing with lists that are equal changes nothing. */
  lemma ClearedSame(g: Grid, list: seq<Cell>)
    ensures Cleared(g, list, list) == g
  {
    var g' := Cleared(g, list, list);
    forall r | 0 <= r < |g| ensures g'[r] == g[r] {
      assert forall c :: 0 <= c < |g[r]| ==> g'[r][c] == g[r][c];
    }
  }

  // ---------------------------------------------------------------------
  // Reconcilers
  // ---------------------------------------------------------------------

  /** `update_enemy_agent_positions`: the grid is corrected only when more
      than three enemies are remembered. */
  function EnemyAgentsStep(kb: Beliefs, w: Grid, pos: Cell): Beliefs {
    var memory := Memory(kb.world, BlueAgent, BlueAgentF);
    if memory == [] then kb
    else if |memory| > 3 then
      var visible := Visible(w, pos, BlueAgent, BlueAgentF);
      kb.(enemyAgents := visible, world := Cleared(kb.world, memory, visible))
    else kb.(enemyAgents := memory)
  }

  /** The shape shared by the two flag reconcilers, for a position list
      `known` and the tiles `a` (the flag) and `b` (the agent carrying it). */
  function ReconcileFlag(known: seq<Cell>, g: Grid, w: Grid, pos: Cell, a: Tile, b: Tile): (seq<Cell>, Grid) {
    var memory := Memory(g, a, b);
    var visible := Visible(w, pos, a, b);
    if visible != [] then (visible, if visible != memory then Cleared(g, memory, visible) else g)
    else if memory != [] then (memory, g)
    else (known, g)
  }

  /** `update_enemy_flag_position`: the blue flag or a red agent carrying it. */
  function EnemyFlagStep(kb: Beliefs, w: Grid, pos: Cell): Beliefs {
    var (l, g) := ReconcileFlag(kb.enemyFlag, kb.world, w, pos, BlueFlag, RedAgentF);
    kb.(enemyFlag := l, world := g)
  }

  /** `update_my_flag_position`: the red flag or a blue agent carrying it. */
  function MyFlagStep(kb: Beliefs, w: Grid, pos: Cell): Beliefs {
    var (l, g) := ReconcileFlag(kb.myFlag, kb.world, w, pos, RedFlag, BlueAgentF);
    kb.(myFlag := l, world := g)
  }

  /** What `update` does to the knowledge base, in its fixed order. */
  function UpdateBeliefs(kb: Beliefs, w: Grid, pos: Cell): Beliefs {
    var merged := kb.(world := MergeGrid(kb.world, w, pos));
    MyFlagStep(EnemyFlagStep(EnemyAgentsStep(merged, w, pos), w, pos), w, pos)
  }

  /** Enemy-agent reconciliation on a grid that shows the window: with at most
      three remembered enemies the grid is untouched and the list is the
      remembered one (if any); with more, the list is the visible one and the
      grid's enemy cells are exactly the visible ones inside it. */
  lemma EnemyAgentsStepSpec(kb: Beliefs, rows: int, cols: int, w: Grid, pos: Cell)
    requires IsGrid(kb.world, rows, cols) && Agrees(kb.world, w, pos)
    ensures var kb' := EnemyAgentsStep(kb, w, pos);
      var memory := Memory(kb.world, BlueAgent, BlueAgentF);
      var visible := Visible(w, pos, BlueAgent, BlueAgentF);
      && IsGrid(kb'.world, rows, cols) && Agrees(kb'.world, w, pos)
      && kb'.enemyFlag == kb.enemyFlag && kb'.myFlag == kb.myFlag
      && (|memory| <= 3 ==> kb'.world == kb.world && kb'.enemyAgents == (if memory == [] then kb.enemyAgents else memory))
      && (|memory| > 3 ==> (kb'.enemyAgents == visible &&
            forall r, c :: 0 <= r < rows && 0 <= c < cols ==>
              ((kb'.world[r][c] == BlueAgent || kb'.world[r][c] == BlueAgentF) <==> Cell(r, c) in visible)))
      && (forall r, c :: 0 <= r < rows && 0 <= c < cols && kb'.world[r][c] != kb.world[r][c] ==>
            kb'.world[r][c] == Empty && (kb.world[r][c] == BlueAgent || kb.world[r][c] == BlueAgentF))
  {
    ClearExact(kb.world, rows, cols, w, pos, BlueAgent, BlueAgentF);
  }

  /** Flag reconciliation on a grid that shows the window.  When the window
      shows the flag or its carrier, the list becomes the visible one and the
      grid's cells of that kind are exactly the visible ones, each removed
      cell becoming `Empty`.  When it shows neither, the grid is untouched and
      the list becomes the remembered cells, or stays as it was when none is
      remembered. */
  lemma ReconcileFlagSpec(known: seq<Cell>, g: Grid, rows: int, cols: int, w: Grid, pos: Cell, a: Tile, b: Tile)
    requires IsGrid(g, rows, cols) && Agrees(g, w, pos)
    requires a !in {Unknown, Empty} && b !in {Unknown, Empty}
    ensures var (l, g') := ReconcileFlag(known, g, w, pos, a, b);
      var memory, visible := Memory(g, a, b), Visible(w, pos, a, b);
      && IsGrid(g', rows, cols) && Agrees(g', w, pos)
      && (visible != [] ==> (l == visible &&
            forall r, c :: 0 <= r < rows && 0 <= c < cols ==>
              ((g'[r][c] == a || g'[r][c] == b) <==> Cell(r, c) in visible)))
      && (visible == [] ==> g' == g && l == (if memory != [] then memory else known))
      && (forall r, c :: 0 <= r < rows && 0 <= c < cols && g'[r][c] != g[r][c] ==>
            g'[r][c] == Empty && (g[r][c] == a || g[r][c] == b) && Cell(r, c) !in visible)
  {
    var memory, visible := Memory(g, a, b), Visible(w, pos, a, b);
    ClearExact(g, rows, cols, w, pos, a, b);
    if visible == memory {
      ClearedSame(g, memory);
    }
  }

  /** A correction that only empties cells of kinds `a` and `b` keeps the
      cells of two other kinds `x` and `y` where they were. */
  lemma OtherKindsKept(g: Grid, g': Grid, rows: int, cols: int, a: Tile, b: Tile, x: Tile, y: Tile)
    requires IsGrid(g, rows, cols) && IsGrid(g', rows, cols)
    requires x != a && x != b && x != Empty && y != a && y != b && y != Empty
    requires forall r, c :: 0 <= r < rows && 0 <= c < cols && g'[r][c] != g[r][c] ==>
               g'[r][c] == Empty && (g[r][c] == a || g[r][c] == b)
    ensures forall r, c :: 0 <= r < rows && 0 <= c < cols ==>
              ((g'[r][c] == x || g'[r][c] == y) <==> (g[r][c] == x || g[r][c] == y))
  {
  }

  /** After `update`, the grid shows the window, and for each flag whose
      window shows it (or its carrier), its position list is what the window
      shows and the grid's cells of that kind are exactly the visible ones;
      the flags are corrected independently of each other. */
  lemma UpdateFlagsExact(kb: Beliefs, rows: int, cols: int, w: Grid, pos: Cell)
    requires IsGrid(kb.world, rows, cols)
    ensures var kb' := UpdateBeliefs(kb, w, pos);
      var enemyFlags, myFlags := Visible(w, pos, BlueFlag, RedAgentF), Visible(w, pos, RedFlag, BlueAgentF);
      && IsGrid(kb'.world, rows, cols) && Agrees(kb'.world, w, pos)
      && (enemyFlags != [] ==> (kb'.enemyFlag == enemyFlags &&
            forall r, c :: 0 <= r < rows && 0 <= c < cols ==>
              ((kb'.world[r][c] == BlueFlag || kb'.world[r][c] == RedAgentF) <==> Cell(r, c) in enemyFlags)))
      && (myFlags != [] ==> (kb'.myFlag == myFlags &&
            forall r, c :: 0 <= r < rows && 0 <= c < cols ==>
              ((kb'.world[r][c] == RedFlag || kb'.world[r][c] == BlueAgentF) <==> Cell(r, c) in myFlags)))
  {
    var merged := kb.(world := MergeGrid(kb.world, w, pos));
    MergeFrame(kb.world, rows, cols, w, pos);
    var k1 := EnemyAgentsStep(merged, w, pos);
    EnemyAgentsStepSpec(merged, rows, cols, w, pos);
    var k2 := EnemyFlagStep(k1, w, pos);
    ReconcileFlagSpec(k1.enemyFlag, k1.world, rows, cols, w, pos, BlueFlag, RedAgentF);
    var k3 := MyFlagStep(k2, w, pos);
    ReconcileFlagSpec(k2.myFlag, k2.world, rows, cols, w, pos, RedFlag, BlueAgentF);
    OtherKindsKept(k2.world, k3.world, rows, cols, RedFlag, BlueAgentF, BlueFlag, RedAgentF);
    assert k3 == UpdateBeliefs(kb, w, pos);
  }
}
