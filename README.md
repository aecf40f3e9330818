# Red agent of the capture-the-flag grid world, in Dafny

This project models the decision core of the red team's agent (`red_agent.py`). Each tick the agent:

- gets a square observation window centred on itself;
- merges that window into the team's shared world-knowledge grid;
- reconciles the positions it remembers for enemy agents, the enemy flag and its own flag with what it sees, clearing stale cells to `Empty`;
- plans with `astar`;
- emits an action (move or shoot) and a direction.

The modules:

- `Tiles` (tiles.dfy): the vocabulary. Tiles, cells, directions, decisions, and the Python coordinate conversion.
- `Belief` (belief.dfy): the knowledge base as values. It holds these specification functions:
  - the scanners (`get_positions_from_*`);
  - the window merge;
  - stale correction (`remove_incorrect_positions`);
  - the three reconcilers;
  - the whole per-tick update, `UpdateBeliefs`.

  Lemmas state what each of these means.
- `Planner` (planner.dfy): the pure parts of the planner:
  - the step-cost table and neighbour generation;
  - `get_direction`;
  - path reversal;
  - the measure that proves `astar`'s loop terminates.
- `RedAgent` (agent.dfy): the class `Agent`, and `astar` as the module-level methods `AStar` and `RelaxNeighbors` (they read no agent state).

  In the class:
  - its world-knowledge grid is an `array2<Tile>` handed to the constructor, and teammates may share it;
  - its position lists are fields;
  - the operations that loop in the Python (the scanners, the merge, stale correction and `reconstruct_path`, and outside the class `astar`) are methods with loops. `Update` and `MakeDecision` are straight-line calls, as in the source.

  Each state-changing method's `ensures` ties the new state to the matching function of `Belief`. Its meaning is then proved as lemmas about that function.

## What the source does

Several behaviours of the Python code are easy to miss, and the model proves them:

- **`update` fixes each visible flag's belief.** After an update the grid shows every known tile of the window. For each flag that the window shows (or whose carrier it shows):
  - its list is exactly the visible list;
  - the grid cells of that kind are exactly those cells (`Belief.UpdateFlagsExact`).
- **Stale correction reaches outside the window.** It clears remembered cells that lie outside the window too. Reconciliation empties every remembered cell that is not in the visible list, wherever it is.
- **Enemy agents are corrected only when more than three are remembered.** Up to three remembered enemies leave the grid alone (`Belief.EnemyAgentsStepSpec`).
- **`astar` never returns a path.** It has no goal test and only the return `[], []`. So whenever it returns, `make_decision` moves in the randomly picked direction (`RedAgent.Agent.MakeDecision`).
- **`astar` raises whenever some step cost is undefined.** Its step cost is looked up in the observation window at the cell's grid coordinates. That lookup can go out of range (an `IndexError`) or land on a tile with no cost (then the cost is `None` and the addition raises `TypeError`). The loop always terminates, and it raises only on a popped cell that has neighbours and no cost.
  - Conversely, from an in-grid start that has a neighbour, the search reaches and expands every cell of the grid. So it raises exactly when some grid cell has no cost (`RedAgent.AStar`).
  - The window is 9 x 9: the half-window offset 4 is hard-coded. On a map whose grid has more than 9 rows, the cell in row 9 falls off the window (`Planner.WindowAsCostGrid`). So once an enemy flag is known, every call of `make_decision` from a cell of the grid raises (`RedAgent.Agent.MakeDecision`).

The injected parameters:

- `random.choice` becomes the parameter `pick`.
- `random.random() > 0.5` becomes the boolean `coin`.
- Python exceptions in `astar` become `Outcome.Raised(cell)`.
- Negative indices of the cost grid follow Python's rule (`Planner.PyIndex`).

## Model

| member | source | states |
|---|---|---|
| `RedAgent.Agent.constructor` | red_agent.py:42-51 | the three lists are empty and the shared grid is (height-2) x (width-2), all `Unknown` |
| `RedAgent.Agent.Update` | red_agent.py:53-66 | converts (x, y) to grid (row, col), then the new knowledge base is merge, enemies, enemy flag, my flag in that order; the decision is a move in the picked direction; it cannot raise when no enemy flag is known or every cell has a cost, and it does raise when an enemy flag is known, the agent is in a grid of two or more cells and some cost is undefined |
| `RedAgent.Agent.MakeDecision` | red_agent.py:68-102 | every non-raising decision is `move` in the random direction; a raise happens only when an enemy flag is known and comes from a cell whose step cost is undefined; with a known enemy flag, an in-grid position that has a neighbour and some undefined cost, it always raises |
| `RedAgent.ActOnPath` | red_agent.py:85-95 | without a path of two cells it moves randomly; otherwise it aims at the path's second cell via `get_direction`, and shoots exactly when it can shoot and the coin comes up |
| `RedAgent.ActOnPathFollowsStep` | red_agent.py:85-95 | along a path whose second cell is one move away, the action is aimed in exactly that move's direction |
| `RedAgent.AStar` | red_agent.py:119-165 | terminates for every open-set pop order; a normal return is `([], [])`; a raise names a cell of {start} plus the grid whose cost is undefined and that has neighbours; when every such cell has a cost it never raises; from an in-grid start with a neighbour it raises exactly when some cost is undefined |
| `RedAgent.RelaxNeighbors` | red_agent.py:155-163 | the loop over the neighbours raises exactly when the popped cell has neighbours and no cost; otherwise every neighbour gets a cost entry, the table only grows inside the universe, the loop measure stays below its value at the pop, and expanded cells stay expanded |
| `Planner.ExpandedAfterPop` | red_agent.py:150-153 | popping a cell leaves every other cell outside the open set expanded |
| `Planner.ExpandedAfterRelax` | red_agent.py:160-163 | recording a cost and pushing the neighbour keeps every expanded cell expanded |
| `Planner.ExpandedAfterNeighbors` | red_agent.py:155-163 | once its neighbour loop is done, the popped cell counts as expanded |
| `Planner.PrefixCovered` | red_agent.py:155-160 | the neighbours visited so far keep their cost entries as the table grows |
| `Planner.ClosedReaches` | red_agent.py:127-130 | a cost table that holds an in-grid start and is closed under neighbours holds every grid cell |
| `Planner.EveryCellHasNeighbor` | red_agent.py:120-130 | if the start has a neighbour, the grid has two or more cells and every cell has a neighbour |
| `Planner.AllExpandedCostsDefined` | red_agent.py:150-165 | when the open set is empty and every entry is expanded, every cell of the grid had a defined step cost |
| `Planner.WindowAsCostGrid` | red_agent.py:132-134 | with the 9 x 9 window as cost grid and more than 9 grid rows, some step cost is undefined |
| `Planner.TileCost` | red_agent.py:132-141 | cost is defined exactly for unknown, empty, wall and own flag (1, 2, 10000, 3), so it is always within 1..10000 |
| `Planner.CostFromConst` | red_agent.py:132-141 | an in-range lookup yields the tile's cost, a row index past either end yields no cost, and any cost lies in 1..10000 |
| `Planner.PyIndex` | red_agent.py:133-139 | Python indexing: defined exactly for -len <= i < len, with negative indices counting from the end |
| `Planner.KeepValid` | red_agent.py:120-122 | keeps exactly the listed cells inside the grid |
| `Planner.CandidatesAreAdjacent` | red_agent.py:127-129 | the four listed candidates are exactly the orthogonally adjacent cells |
| `Planner.Neighbors` | red_agent.py:127-130 | a cell is a neighbour exactly when it is in the grid and orthogonally adjacent; at most four |
| `Planner.InUniverse` | red_agent.py:127-130 | every generated neighbour lies in the set of cells the cost table can hold |
| `Planner.UniverseMember` | red_agent.py:119-165 | the only cell of that set outside the grid is the start |
| `Planner.UndefinedCost` | red_agent.py:156-157 | a reachable cell without a cost breaks the all-costs-defined condition |
| `Planner.UnseenShrinks` | red_agent.py:158-160 | giving a cell its first cost leaves one fewer cell without a cost |
| `Planner.CostUnitsShrink` | red_agent.py:158-160 | strictly lowering a cell's cost strictly lowers the total cost |
| `Planner.RelaxKeepsMeasureBelow` | red_agent.py:158-162 | each improving relaxation, which pushes one more cell, keeps the loop's lexicographic measure below its value at the last pop |
| `Planner.GetDirection` | red_agent.py:167-176 | up/down exactly when the next row is smaller/larger; left/right only when the rows agree; no direction exactly when the next cell is the current one |
| `Planner.GetDirectionOfStep` | red_agent.py:167-176 | for an adjacent next cell, the direction returned is exactly the move that reaches it |
| `Tiles.AdjacentIsStep` | red_agent.py:167-176 | every orthogonally adjacent cell is one move away in some direction |
| `RedAgent.Agent.ReconstructPath` | red_agent.py:178-184 | given a parent chain from goal to start, returns that chain reversed: starts at `start`, ends at `goal`, each cell's parent is its predecessor |
| `Planner.ReverseAt` | red_agent.py:184 | `[::-1]` puts element i of the original at position len-1-i |
| `Planner.ReverseLength` | red_agent.py:184 | `[::-1]` keeps the length |
| `RedAgent.Agent.UpdateEnemyAgentPositions` | red_agent.py:186-198 | the new state is `Belief.EnemyAgentsStep` of the old one |
| `Belief.EnemyAgentsStepSpec` | red_agent.py:186-198 | with at most three remembered enemies, the grid stays and the list becomes the remembered cells; with more, the list is the visible one and the enemy cells of the grid are exactly the visible ones; any changed cell was an enemy and is now `Empty` |
| `RedAgent.Agent.UpdateEnemyFlagPosition` | red_agent.py:200-212 | the new state is `Belief.EnemyFlagStep` of the old one |
| `RedAgent.Agent.UpdateMyFlagPosition` | red_agent.py:214-226 | the new state is `Belief.MyFlagStep` of the old one |
| `Belief.ReconcileFlagSpec` | red_agent.py:200-212 | if the window shows the flag or its carrier, the list is the visible one and the grid's cells of that kind are exactly those; otherwise the grid is unchanged and the list is the remembered one, or kept when nothing is remembered |
| `Belief.OtherKindsKept` | red_agent.py:214-226 | correcting one kind leaves the cells of two other kinds where they were |
| `Belief.UpdateFlagsExact` | red_agent.py:53-60 | after the whole update the grid shows the window, and each visible flag's list and grid cells match the window exactly |
| `RedAgent.Agent.UpdateWorldKnowledge` | red_agent.py:228-241 | the new grid is `Belief.MergeGrid` of the old grid, the window and the position |
| `Belief.MergeGrid` | red_agent.py:234-241 | the merge keeps the grid's dimensions |
| `Belief.MergeFrame` | red_agent.py:234-241 | a known window tile overwrites its in-grid cell; an `Unknown` window tile, or a cell the window does not cover, keeps its belief |
| `Belief.MergeIdempotent` | red_agent.py:234-241 | merging the same window from the same position twice is the same as merging it once |
| `RedAgent.Agent.PositionsFromVisibleWorld` | red_agent.py:251-259 | the result is `Belief.VisiblePositions` of the window, the position and the tile |
| `Belief.VisiblePositionsExact` | red_agent.py:251-259 | cell (r, c) is reported exactly when the window, centred on the agent, shows the tile there |
| `RedAgent.Agent.PositionsFromWorldKnowledge` | red_agent.py:261-269 | the result is `Belief.WorldPositions` of the grid and the tile |
| `Belief.WorldPositionsExact` | red_agent.py:261-269 | a cell is reported exactly when it lies in the grid and holds the tile |
| `Belief.PositionsExact` | red_agent.py:251-269 | the scan reports exactly the matching cells, in strict row-major order and without duplicates |
| `Belief.RowHitsExact` | red_agent.py:265-267 | the inner loop reports exactly the matching cells of the row so far, left to right |
| `Belief.GridHitsExact` | red_agent.py:264-267 | the outer loop reports exactly the matching cells of the rows so far, in strict row-major order |
| `RedAgent.MemoryInBounds` | red_agent.py:269-273 | remembered cells are valid grid indices, so `remove_incorrect_positions` cannot raise |
| `RedAgent.Agent.RemoveIncorrectPositions` | red_agent.py:271-273 | in any visiting order, the new grid is `Belief.Cleared` of the old one (the cells of list 1 not in list 2 become `Empty`) |
| `Belief.Cleared` | red_agent.py:271-273 | clearing keeps the grid's dimensions |
| `Belief.ClearedAt` | red_agent.py:271-273 | for one cell on a grid that shows the window: after clearing, it holds the kind exactly when the window shows it there; a change turns a remembered cell into `Empty`; known window tiles survive |
| `Belief.ClearExact` | red_agent.py:271-273 | the same for every cell, and the grid still shows the window |
| `Belief.ClearedSame` | red_agent.py:208-209 | clearing with equal lists changes nothing, so skipping the correction when the lists are equal is harmless |
| `Belief.AllUnknown` | red_agent.py:49 | an all-`Unknown` grid of the given dimensions |
| `Tiles.Step` | red_agent.py:167-176 | the cell one move away is orthogonally adjacent |
| `Tiles.GridCellRoundTrip` | red_agent.py:55 | the (x, y) to (row, col) conversion and its inverse round-trip both ways |

## Left out

- Reading and writing `red_knowledge_base.json` (`write_knowledge_base` and the reload at the start of `update_world_knowledge`) is not modelled. The shared file becomes a shared grid array, so a reload returns what is already there. The position lists are per-agent fields.
- A teammate's write that lands during this agent's tick is not modelled: one between the reload (red_agent.py:230-232) and the write-back (red_agent.py:62), which the write-back would overwrite. Writes between this agent's ticks are what the shared array captures.
- `print` output and `terminate` (which only prints) are left out.
- The float `heuristic` in `astar` is left out. It only orders the heap, and the model pops the open set in any order, so every proved property holds for every pop order.
- `RedAgent.AStar` does not model `heapq` ordering or the `came_from` contents beyond their updates. Neither affects the result, which is always `([], [])` unless it raises.
- The randomness is not modelled. `random.choice` and `random.random()` come in as the parameters `pick` and `coin`, with no probabilities.
- `determine_direction_towards_enemy` and `determine_direction_towards_flag` are never called by the agent, so the model leaves them out.
- Unused constants are left out: `EMPTY_STEP_COST`, `FEAR_OF_UNKNOWN`, `UNKNOWN_STEP_COST`, `FEAR_OF_ENEMY`, `VISITED_STEP_COST`.
- The strategy description in the header docstring is left out. It describes intentions the code does not implement.
- The configuration module `config` (`HEIGHT`, `WIDTH`, `ASCII_TILES`) is not part of this model. `HEIGHT` and `WIDTH` become constructor parameters. `ASCII_TILES` becomes the closed `Tile` type. That assumes the configured symbols are distinct single characters: the scanners join each row into a string and index it by character.
- `RedAgent.Agent.constructor`: requires `height > 2`, so that the grid has at least one row. With no rows, the Python grid is an empty list. `update_world_knowledge` would then raise on `world_knowledge[0]`, but only once the window shows a known tile. With empty position lists, the first branch of `make_decision` (nothing known) would become reachable. The model covers neither case.
- `RedAgent.Agent.UpdateWorldKnowledge`: requires a square window, as the simulation provides. The Python bounds its outer loop by the number of rows and its inner loop by the first row's length. Other window shapes can make it raise. It does not raise in two cases. If the first row is empty, nothing is merged. If the first row has as many cells as there are rows and no row is shorter, only the leading square is merged. In both cases the scanners still read whole rows. The model covers no such window.
- `RedAgent.Agent.Update`: states the new knowledge base and the decision, but not the write-back to the file.
- `RedAgent.Agent.ReconstructPath`: requires a `came_from` map whose walk from the goal reaches the start. On other maps the Python raises `KeyError` as soon as the walk reaches a cell with no entry, or never returns when the walk enters a cycle that avoids the start. The model covers neither. The function is never called.
