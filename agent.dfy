/** The red agent: its knowledge base, the per-tick update, the planner
    and the decision policy.  The world knowledge grid is an array that all
    agents of the team may share (it stands for the shared knowledge-base
    file); every state-changing method is proved to compute the matching
    function of module Belief. */
module RedAgent {
  import opened Tiles
  import opened Belief
  import opened Planner

  /** Two grids with the same dimensions and the same cells are equal. */
  lemma GridExt(a: Grid, b: Grid, rows: int, cols: int)
    requires IsGrid(a, rows, cols) && IsGrid(b, rows, cols)
    requires forall r, c :: 0 <= r < rows && 0 <= c < cols ==> a[r][c] == b[r][c]
    ensures a == b
  {
    forall r | 0 <= r < rows ensures a[r] == b[r] {
      assert forall c :: 0 <= c < cols ==> a[r][c] == b[r][c];
    }
  }

  class Agent {
    const color: string
    const index: int
    /** HEIGHT - 2 and WIDTH - 2: the playable interior. */
    const rows: nat
    const cols: nat
    /** `knowledge_base["world_knowledge"]`, indexed [row, col]. */
    const world: array2<Tile>
    var enemyAgentPositions: seq<Cell>
    var enemyFlagPosition: seq<Cell>
    var myFlagPosition: seq<Cell>

    ghost predicate Valid() {
      world.Length0 == rows && world.Length1 == cols && rows > 0
    }

    /** The grid as a list of rows. */
    ghost function WorldGrid(): (g: Grid)
      requires Valid()
      reads world
      ensures IsGrid(g, rows, cols)
      ensures forall r, c :: 0 <= r < rows && 0 <= c < cols ==> g[r][c] == world[r, c]
    {
      seq(rows, r requires 0 <= r < rows reads world =>
        seq(cols, c requires 0 <= c < cols reads world => world[r, c]))
    }

    /** The whole knowledge base. */
    ghost function State(): Beliefs
      requires Valid()
      reads this, world
    {
      Beliefs(enemyAgentPositions, enemyFlagPosition, myFlagPosition, WorldGrid())
    }

    /** `__init__`: empty position lists and an all-unknown grid of
        (height - 2) x (width - 2), written to the shared memory. */
    constructor (color: string, index: int, height: int, width: int, memory: array2<Tile>)
      requires height > 2
      requires memory.Length0 == height - 2 && memory.Length1 == (if width > 2 then width - 2 else 0)
      modifies memory
      ensures Valid() && world == memory
      ensures rows == height - 2 && cols == memory.Length1
      ensures this.color == color && this.index == index
      ensures State() == Initial(rows, cols)
    {
      this.color := color;
      this.index := index;
      rows := height - 2;
      cols := memory.Length1;
      world := memory;
      enemyAgentPositions := [];
      enemyFlagPosition := [];
      myFlagPosition := [];
      new;
      for r := 0 to rows
        invariant forall r', c :: 0 <= r' < r && 0 <= c < cols ==> world[r', c] == Unknown
        modifies world
      {
        for c := 0 to cols
          modifies world
          invariant forall r', c' :: 0 <= r' < r && 0 <= c' < cols ==> world[r', c'] == Unknown
          invariant forall c' :: 0 <= c' < c ==> world[r, c'] == Unknown
        {
          world[r, c] := Unknown;
        }
      }
      GridExt(WorldGrid(), AllUnknown(rows, cols), rows, cols);
    }

    /** `update`: converts the position to grid coordinates, merges the window,
        runs the three reconcilers in their fixed order and decides. */
    method Update(visibleWorld: Grid, position: (int, int), canShoot: bool, holdingFlag: bool,
                  pick: Direction, coin: bool)
      returns (r: Outcome<Decision>)
      requires Valid() && IsSquare(visibleWorld)
      modifies this, world
      ensures State() == UpdateBeliefs(old(State()), visibleWorld, GridCell(position))
      ensures r.Normal? ==> r.value == Decision(Move, Some(pick))
      ensures enemyFlagPosition == [] || CostsDefined(GridCell(position), visibleWorld, rows, cols) ==> r.Normal?
      ensures (enemyFlagPosition != [] && InBounds(GridCell(position), rows, cols) &&
               Neighbors(GridCell(position), rows, cols) != [] &&
               !CostsDefined(GridCell(position), visibleWorld, rows, cols)) ==> r.Raised?
    {
      var pos := GridCell(position);
      UpdateWorldKnowledge(visibleWorld, pos);
      UpdateEnemyAgentPositions(visibleWorld, pos);
      UpdateEnemyFlagPosition(visibleWorld, pos);
      UpdateMyFlagPosition(visibleWorld, pos);
      r := MakeDecision(canShoot, holdingFlag, pos, visibleWorld, pick, coin);
    }

    /** `any(self.knowledge_base.values())`: some list is non-empty or the
        grid has a row. */
    predicate AnyKnowledge()
      reads this
    {
      enemyAgentPositions != [] || enemyFlagPosition != [] || myFlagPosition != [] || rows > 0
    }

    /** `make_decision`, with `pick` the outcome of `random.choice` and `coin`
        that of `random.random() > 0.5`.  Since `astar` never returns a path,
        every decision is a move in the picked direction. */
    method MakeDecision(canShoot: bool, holdingFlag: bool, currentPosition: Cell, visibleWorld: Grid,
                        pick: Direction, coin: bool)
      returns (r: Outcome<Decision>)
      requires Valid()
      ensures r.Normal? ==> r.value == Decision(Move, Some(pick))
      ensures r.Raised? ==> enemyFlagPosition != [] && CostFromConst(r.at, visibleWorld).None?
      ensures enemyFlagPosition == [] || CostsDefined(currentPosition, visibleWorld, rows, cols) ==> r.Normal?
      ensures (enemyFlagPosition != [] && InBounds(currentPosition, rows, cols) &&
               Neighbors(currentPosition, rows, cols) != [] &&
               !CostsDefined(currentPosition, visibleWorld, rows, cols)) ==> r.Raised?
    {
      if !AnyKnowledge() {
        r := Normal(Decision(Move, Some(pick)));
      } else {
        var enemyFlag := enemyFlagPosition;
        if enemyFlag != [] {
          var targetPosition := enemyFlag[0];
          var result := AStar(currentPosition, targetPosition, visibleWorld, rows, cols);
          if result.Raised? {
            return Raised(result.at);
          }
          var (pathFound, shortestPath) := result.value;
          r := Normal(ActOnPath(pathFound, shortestPath, canShoot, coin, currentPosition, pick));
        } else {
          r := Normal(Decision(Move, Some(pick)));
        }
      }
    }

    /** `reconstruct_path` (never called): follows `cameFrom` from the goal back
        to the start and reverses.  Modelled for a `cameFrom` whose walk from
        the goal reaches the start; on any other map the Python raises
        `KeyError` once the walk leaves the map, or never returns when the
        walk enters a cycle that avoids the start. */
    method ReconstructPath(cameFrom: map<Cell, Cell>, start: Cell, goal: Cell) returns (path: seq<Cell>)
      requires exists chain :: ParentChain(cameFrom, chain, goal, start)
      ensures |path| >= 1 && path[0] == start && path[|path| - 1] == goal
      ensures forall i :: 1 <= i < |path| ==> path[i] != start && path[i] in cameFrom && cameFrom[path[i]] == path[i - 1]
    {
      ghost var chain :| ParentChain(cameFrom, chain, goal, start);
      ghost var k := 0;
      var current := goal;
      var trail := [current];
      while current != start
        invariant 0 <= k < |chain| && current == chain[k] && trail == chain[..k + 1]
        decreases |chain| - k
      {
        current := cameFrom[current];
        trail := trail + [current];
        k := k + 1;
      }
      assert k == |chain| - 1;
      assert trail == chain;
      path := Reverse(trail);
      ReverseLength(trail);
      forall i | 0 <= i < |path| ensures path[i] == chain[|chain| - 1 - i] {
        ReverseAt(trail, i);
      }
    }

    /** `update_enemy_agent_positions`. */
    method UpdateEnemyAgentPositions(visibleWorld: Grid, position: Cell)
      requires Valid()
      modifies this, world
      ensures State() == EnemyAgentsStep(old(State()), visibleWorld, position)
    {
      ghost var kb := State();
      var agents := PositionsFromWorldKnowledge(BlueAgent);
      var carriers := PositionsFromWorldKnowledge(BlueAgentF);
      var memoryEnemies := agents + carriers;
      if memoryEnemies != [] {
        if |memoryEnemies| > 3 {
          var seenAgents := PositionsFromVisibleWorld(visibleWorld, position, BlueAgent);
          var seenCarriers := PositionsFromVisibleWorld(visibleWorld, position, BlueAgentF);
          var visibleEnemies := seenAgents + seenCarriers;
          enemyAgentPositions := visibleEnemies;
          MemoryInBounds(kb.world, BlueAgent, BlueAgentF);
          RemoveIncorrectPositions(memoryEnemies, visibleEnemies);
        } else {
          enemyAgentPositions := memoryEnemies;
        }
      }
    }

    /** `update_enemy_flag_position`. */
    method UpdateEnemyFlagPosition(visibleWorld: Grid, position: Cell)
      requires Valid()
      modifies this, world
      ensures State() == EnemyFlagStep(old(State()), visibleWorld, position)
    {
      ghost var kb := State();
      var flags := PositionsFromWorldKnowledge(BlueFlag);
      var carriers := PositionsFromWorldKnowledge(RedAgentF);
      var memoryFlags := flags + carriers;
      var seenFlags := PositionsFromVisibleWorld(visibleWorld, position, BlueFlag);
      var seenCarriers := PositionsFromVisibleWorld(visibleWorld, position, RedAgentF);
      var visibleFlags := seenFlags + seenCarriers;
      if visibleFlags != [] {
        enemyFlagPosition := visibleFlags;
        if visibleFlags != memoryFlags {
          MemoryInBounds(kb.world, BlueFlag, RedAgentF);
          RemoveIncorrectPositions(memoryFlags, visibleFlags);
        }
      } else if memoryFlags != [] {
        enemyFlagPosition := memoryFlags;
      }
    }

    /** `update_my_flag_position`. */
    method UpdateMyFlagPosition(visibleWorld: Grid, position: Cell)
      requires Valid()
      modifies this, world
      ensures State() == MyFlagStep(old(State()), visibleWorld, position)
    {
      ghost var kb := State();
      var flags := PositionsFromWorldKnowledge(RedFlag);
      var carriers := PositionsFromWorldKnowledge(BlueAgentF);
      var memoryFlags := flags + carriers;
      var seenFlags := PositionsFromVisibleWorld(visibleWorld, position, RedFlag);
      var seenCarriers := PositionsFromVisibleWorld(visibleWorld, position, BlueAgentF);
      var visibleFlags := seenFlags + seenCarriers;
      if visibleFlags != [] {
        myFlagPosition := visibleFlags;
        if visibleFlags != memoryFlags {
          MemoryInBounds(kb.world, RedFlag, BlueAgentF);
          RemoveIncorrectPositions(memoryFlags, visibleFlags);
        }
      } else if memoryFlags != [] {
        myFlagPosition := memoryFlags;
      }
    }

    /** The nested loop of `update_world_knowledge`: every known tile of the
        (square) window whose cell lies in the grid is written there. */
    method UpdateWorldKnowledge(visibleWorld: Grid, position: Cell)
      requires Valid() && IsSquare(visibleWorld)
      modifies world
      ensures WorldGrid() == MergeGrid(old(WorldGrid()), visibleWorld, position)
    {
      ghost var before := WorldGrid();
      var n := |visibleWorld|;
      for i := 0 to n
        invariant forall r, c :: 0 <= r < rows && 0 <= c < cols ==>
          world[r, c] == MergedBefore(before[r][c], visibleWorld, position, r, c, i, 0)
      {
        for j := 0 to |visibleWorld[0]|
          invariant forall r, c :: 0 <= r < rows && 0 <= c < cols ==>
            world[r, c] == MergedBefore(before[r][c], visibleWorld, position, r, c, i, j)
        {
          var x := i - HalfWindow + position.col;
          var y := j - HalfWindow + position.row;
          if visibleWorld[j][i] != Unknown && 0 <= x < cols && 0 <= y < rows {
            world[y, x] := visibleWorld[j][i];
          }
        }
      }
      forall r, c | 0 <= r < rows && 0 <= c < cols
        ensures world[r, c] == MergeGrid(before, visibleWorld, position)[r][c]
      {
        assert world[r, c] == MergedBefore(before[r][c], visibleWorld, position, r, c, n, 0);
      }
      GridExt(WorldGrid(), MergeGrid(before, visibleWorld, position), rows, cols);
    }

    /** `get_positions_from_world_knowledge`. */
    method PositionsFromWorldKnowledge(asciiChar: Tile) returns (positions: seq<Cell>)
      requires Valid()
      ensures positions == WorldPositions(WorldGrid(), asciiChar)
    {
      ghost var g := WorldGrid();
      positions := [];
      for r := 0 to rows
        invariant positions == GridHits(g, asciiChar, r, Origin)
      {
        for c := 0 to cols
          invariant positions == GridHits(g, asciiChar, r, Origin) + RowHits(g[r], r, asciiChar, c, Origin)
        {
          if world[r, c] == asciiChar {
            positions := positions + [Cell(r, c)];
          }
        }
      }
    }

    /** `get_positions_from_visible_world`. */
    method PositionsFromVisibleWorld(visibleWorld: Grid, position: Cell, asciiChar: Tile) returns (positions: seq<Cell>)
      ensures positions == VisiblePositions(visibleWorld, position, asciiChar)
    {
      var off := WindowOffset(position);
      positions := [];
      for rowIdx := 0 to |visibleWorld|
        invariant positions == GridHits(visibleWorld, asciiChar, rowIdx, off)
      {
        var row := visibleWorld[rowIdx];
        for colIdx := 0 to |row|
          invariant positions == GridHits(visibleWorld, asciiChar, rowIdx, off) + RowHits(row, rowIdx, asciiChar, colIdx, off)
        {
          if row[colIdx] == asciiChar {
            positions := positions + [Cell(rowIdx - HalfWindow + position.row, colIdx - HalfWindow + position.col)];
          }
        }
      }
    }

    /** `remove_incorrect_positions`: the cells of `list1` not in `list2`
        become `Empty`, visited in any order; nothing else changes. */
    method RemoveIncorrectPositions(list1: seq<Cell>, list2: seq<Cell>)
      requires Valid()
      requires forall p :: p in list1 ==> InBounds(p, rows, cols)
      modifies world
      ensures WorldGrid() == Cleared(old(WorldGrid()), list1, list2)
    {
      ghost var before := WorldGrid();
      var pending := set p | p in list1 && p !in list2;
      ghost var stale := pending;
      while pending != {}
        invariant pending <= stale
        invariant forall r, c :: 0 <= r < rows && 0 <= c < cols ==>
          world[r, c] == if Cell(r, c) in stale - pending then Empty else before[r][c]
        decreases |pending|
      {
        var pos :| pos in pending;
        world[pos.row, pos.col] := Empty;
        pending := pending - {pos};
      }
      GridExt(WorldGrid(), Cleared(before, list1, list2), rows, cols);
    }
  }

  /** `astar` as written: the open set is a worklist popped in any order
      (the float heuristic only orders the heap), a neighbour is pushed only
      on a strict improvement of its cost, the step cost is that of the
      cell being left, the goal is never tested and the only return is the
      pair of empty lists.  It raises when a popped cell that has neighbours
      has no cost.  The grid size `rows` by `cols` is that of the belief
      grid (`HEIGHT - 2` by `WIDTH - 2`), which `is_valid` tests against. */
  method AStar(agentPos: Cell, targetPos: Cell, costGrid: Grid, rows: int, cols: int) returns (r: Outcome<(seq<Cell>, seq<Cell>)>)
    ensures r.Normal? ==> r.value == ([], [])
    ensures r.Raised? ==> r.at in Universe(agentPos, rows, cols) && CostFromConst(r.at, costGrid).None?
                          && Neighbors(r.at, rows, cols) != []
    ensures CostsDefined(agentPos, costGrid, rows, cols) ==> r.Normal?
    ensures InBounds(agentPos, rows, cols) && Neighbors(agentPos, rows, cols) != [] ==>
              (r.Raised? <==> !CostsDefined(agentPos, costGrid, rows, cols))
  {
    var start, goal := agentPos, targetPos;
    ghost var universe := Universe(start, rows, cols);
    var openSet: multiset<Cell> := multiset{start};
    var cameFrom: map<Cell, Cell> := map[];
    var gCost: map<Cell, nat> := map[start := 0];
    while openSet != multiset{}
      invariant gCost.Keys <= universe && start in gCost
      invariant forall p :: p in openSet ==> p in gCost
      invariant ExpandedOutside(gCost, openSet, {}, costGrid, rows, cols)
      decreases Unseen(start, rows, cols, gCost), |CostUnits(gCost)|, |openSet|
    {
      ghost var unseen0, units0, open0 := Unseen(start, rows, cols, gCost), |CostUnits(gCost)|, |openSet|;
      var currentPos :| currentPos in openSet;
      ExpandedAfterPop(gCost, openSet, currentPos, costGrid, rows, cols);
      openSet := openSet - multiset{currentPos};
      var raised;
      raised, gCost, openSet, cameFrom :=
        RelaxNeighbors(start, currentPos, costGrid, rows, cols, gCost, openSet, cameFrom, unseen0, units0, open0);
      if raised {
        UndefinedCost(start, costGrid, rows, cols, currentPos);
        return Raised(currentPos);
      }
    }
    if InBounds(start, rows, cols) && Neighbors(start, rows, cols) != [] {
      AllExpandedCostsDefined(start, gCost, costGrid, rows, cols);
    }
    return Normal(([], []));
  }

  /** The inner loop of `astar`: for each neighbour of the popped cell
      `current`, reads the step cost of `current` (raising when it has none)
      and, on a first or strictly lower cost, records it, pushes the neighbour
      and notes its parent.  Without a raise, every neighbour ends up with a
      cost entry, the table only grows within the universe, and the main
      loop's measure (`unseen0`, `units0`, `open0`, taken before the pop)
      stays below its value. */
  method RelaxNeighbors(start: Cell, current: Cell, costGrid: Grid, rows: int, cols: int,
                        gCost0: map<Cell, nat>, openSet0: multiset<Cell>, cameFrom0: map<Cell, Cell>,
                        ghost unseen0: int, ghost units0: int, ghost open0: int)
    returns (raised: bool, gCost: map<Cell, nat>, openSet: multiset<Cell>, cameFrom: map<Cell, Cell>)
    requires current in gCost0 && gCost0.Keys <= Universe(start, rows, cols)
    requires forall p :: p in openSet0 ==> p in gCost0
    requires MeasureBelow(start, rows, cols, gCost0, |openSet0|, unseen0, units0, open0)
    ensures raised <==> CostFromConst(current, costGrid).None? && Neighbors(current, rows, cols) != []
    ensures !raised ==> gCost0.Keys <= gCost.Keys <= Universe(start, rows, cols)
    ensures !raised ==> forall p :: p in openSet ==> p in gCost
    ensures !raised ==> MeasureBelow(start, rows, cols, gCost, |openSet|, unseen0, units0, open0)
    ensures !raised ==> Expanded(current, gCost, costGrid, rows, cols)
    ensures !raised && ExpandedOutside(gCost0, openSet0, {current}, costGrid, rows, cols) ==>
              ExpandedOutside(gCost, openSet, {current}, costGrid, rows, cols)
  {
    gCost, openSet, cameFrom := gCost0, openSet0, cameFrom0;
    var neighbors := Neighbors(current, rows, cols);
    ghost var expandedBefore := ExpandedOutside(gCost0, openSet0, {current}, costGrid, rows, cols);
    for k := 0 to |neighbors|
      invariant gCost0.Keys <= gCost.Keys <= Universe(start, rows, cols)
      invariant forall p :: p in openSet ==> p in gCost
      invariant MeasureBelow(start, rows, cols, gCost, |openSet|, unseen0, units0, open0)
      invariant expandedBefore ==> ExpandedOutside(gCost, openSet, {current}, costGrid, rows, cols)
      invariant forall n :: n in neighbors[..k] ==> n in gCost
      invariant k > 0 ==> CostFromConst(current, costGrid).Some?
    {
      var neighbor := neighbors[k];
      var cost := CostFromConst(current, costGrid);
      if cost.None? {
        return true, gCost, openSet, cameFrom;
      }
      var tentativeGCost := gCost[current] + cost.value;
      if neighbor in gCost && tentativeGCost >= gCost[neighbor] {
        PrefixCovered(neighbors, k, gCost, gCost);
        continue;
      }
      InUniverse(start, rows, cols, neighbor);
      RelaxKeepsMeasureBelow(start, rows, cols, gCost, |openSet|, unseen0, units0, open0, neighbor, tentativeGCost);
      if expandedBefore {
        ExpandedAfterRelax(gCost, openSet, current, neighbor, tentativeGCost, costGrid, rows, cols);
      }
      ghost var before := gCost;
      gCost := gCost[neighbor := tentativeGCost];
      PrefixCovered(neighbors, k, before, gCost);
      openSet := openSet + multiset{neighbor};
      cameFrom := cameFrom[neighbor := current];
    }
    assert neighbors[..|neighbors|] == neighbors;
    raised := false;
  }

  /** The branch of `make_decision` that follows the planned path: without a
      path of at least two cells it moves in the picked direction; otherwise
      it shoots (when it can, on a coin flip) or moves toward the path's
      second cell. */
  function ActOnPath(pathFound: seq<Cell>, shortestPath: seq<Cell>, canShoot: bool, coin: bool,
                     current: Cell, pick: Direction): (d: Decision)
    ensures pathFound == [] || |shortestPath| < 2 ==> d == Decision(Move, Some(pick))
    ensures pathFound != [] && |shortestPath| >= 2 ==>
      d.direction == GetDirection(current, shortestPath) && (d.action == Shoot <==> canShoot && coin)
  {
    if pathFound == [] || |shortestPath| < 2 then Decision(Move, Some(pick))
    else if canShoot && coin then Decision(Shoot, GetDirection(current, shortestPath))
    else Decision(Move, GetDirection(current, shortestPath))
  }

  /** Along a path whose second cell is one move away, the action is aimed
      in exactly the direction of that move. */
  lemma ActOnPathFollowsStep(pathFound: seq<Cell>, shortestPath: seq<Cell>, canShoot: bool, coin: bool,
                             current: Cell, pick: Direction, d: Direction)
    requires pathFound != [] && |shortestPath| >= 2 && shortestPath[1] == Step(current, d)
    ensures ActOnPath(pathFound, shortestPath, canShoot, coin, current, pick).direction == Some(d)
  {
    GetDirectionOfStep(current, shortestPath, d);
  }

  /** The value of cell (r, c) once the merge loop has visited every window
      index (i', j') before (i, j), column-major as the loop runs. */
  function MergedBefore(belief: Tile, w: Grid, pos: Cell, r: int, c: int, i: int, j: int): Tile {
    var ic, jc := c - pos.col + HalfWindow, r - pos.row + HalfWindow;
    if ic < i || (ic == i && jc < j) then MergedCell(belief, w, pos, r, c) else belief
  }

  /** The remembered cells of a kind lie in the grid. */
  lemma MemoryInBounds(g: Grid, a: Tile, b: Tile)
    ensures forall p :: p in Memory(g, a, b) ==> 0 <= p.row < |g| && 0 <= p.col < |g[p.row]|
  {
    PositionsExact(g, a, Origin);
    PositionsExact(g, b, Origin);
  }
}
