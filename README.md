# MazeCrafter maze engine in Dafny

This project models the algorithmic core of MazeCrafter, a maze generation and maze solving
web application, and proves its properties in Dafny. There are three parts:

- **Generation** (`src/utils/mazeGenerators.ts`). A grid of cells has four wall flags each
  (top, right, bottom, left) and a `visited` flag. The randomized recursive backtracker and
  randomized Prim's algorithm carve passages into it with `removeWalls`. Both are proved to
  return a *perfect maze*: wall flags agree on both sides of every shared wall, the outer border
  stays sealed, every cell is reachable from every other, and there are exactly
  `rows*cols - 1` passages, which makes the passage graph a spanning tree. Every `visited`
  flag is cleared on return.
- **Solving** (`src/utils/mazeSolvers.ts`). Depth-first search, breadth-first search, A* with
  the Manhattan heuristic and Dijkstra search the passage graph. Each returns the cells it
  expanded, in order, and a path rebuilt from parent pointers. All four are proved to expand
  each cell at most once and to expand only reachable cells. They return a path exactly when
  the end is reachable. The path runs from start to end through open walls and ends at the
  last expanded cell. When there is no path, every reachable cell was expanded. When the
  start is the end, the result is `[start]` for both the path and the trace. Breadth-first
  search, A* and Dijkstra are also proved to return a path of the least possible length.
  The solvers receive the grid with no write permission, so none of them can change it.
- **The page controller** (`src/hooks/useMaze.ts`). A class holds the React state that
  cell clicks, reset, generation and solving change. `Click` is a pure function that states
  the endpoint-selection rule, and the class method is proved to follow it.

Files:

- `maze_types.dfy`: positions, cells, wall sides, scores (`Inf` for the source's
  `Infinity`) and the algorithm names.
- `grid.dfy`: the value view of the grid (`Snapshot`), single-cell writes, steps and paths
  through open walls, reachability, and the perfect-maze predicate.
- `maze_generators.dfy`: the generators and their invariants.
- `maze_search.dfy`: the shared solver pieces (moves, Manhattan distance, first-minimum scan,
  parent tree, path reconstruction) and the search invariants with their lemmas.
- `maze_solvers.dfy`: depth-first and breadth-first search.
- `maze_scored.dfy`: Dijkstra and A*.
- `maze_dispatch.dfy`: `solveMaze` and the lemmas that compare the four solvers.
- `maze_controller.dfy`: the page controller.

The engine checks neither the grid dimensions, nor that a start or end position lies inside
the grid, nor that the two cells given to `removeWalls` are adjacent. An empty grid, an
out-of-range start or a diagonal pair would index outside the grid or carve the wrong walls.
The model states these conditions as preconditions. Dijkstra keeps no closed set. When a
cell's distance improves, it is pushed onto the queue only if it is not already there
(`src/utils/mazeSolvers.ts:355-361`).

## Model

| member | source | states |
|---|---|---|
| MazeTypes.DirectionOf | src/utils/mazeGenerators.ts:80-96 | for adjacent cells, the side found is the one whose one-step offset reaches the other cell |
| Grid.SetCell | src/utils/mazeGenerators.ts:110 | writing one cell changes that cell of the grid and no other |
| MazeGenerators.RandomSource.GetRandomInt | src/utils/mazeGenerators.ts:31-33 | the injected random source yields `min <= r < max` when `min < max`, a value in `[max, min]` when `max < min`, and `min` when they are equal, as `Math.floor(Math.random()*(max-min))+min` does |
| MazeGenerators.InitializeGrid | src/utils/mazeGenerators.ts:6-26 | a fresh `rows` by `cols` grid in which every cell has all four walls and is unvisited |
| MazeGenerators.FullyWalledFacts | src/utils/mazeGenerators.ts:6-26 | a fully walled grid is wall-symmetric, has a sealed border, has no passages and allows no step |
| MazeGenerators.GetNeighbors | src/utils/mazeGenerators.ts:38-67 | at most 4 cells, each one step away, in bounds and unvisited; every such cell is listed, in top, right, bottom, left order |
| MazeGenerators.RemoveWalls | src/utils/mazeGenerators.ts:72-97 | the new grid is the old one with the facing wall pair between two adjacent cells cleared |
| MazeGenerators.CarveClearsFacingPair | src/utils/mazeGenerators.ts:72-97 | carving clears the wall of the first cell toward the second and of the second toward the first, and no other wall or cell changes |
| MazeGenerators.CarveSymmetric | src/utils/mazeGenerators.ts:72-97 | carving keeps wall symmetry |
| MazeGenerators.JoinedPassages | src/utils/mazeGenerators.ts:127-130 | joining a fully walled cell to the maze adds exactly one passage |
| MazeGenerators.JoinPreserves | src/utils/mazeGenerators.ts:127-130 | marking and carving to a new cell keeps the growing-tree invariant (symmetric, sealed, connected over the marked cells, one passage per added cell) |
| MazeGenerators.GrowingComplete | src/utils/mazeGenerators.ts:113-134 | when no marked cell has an unmarked neighbour, every cell is marked and the grid is a perfect maze |
| MazeGenerators.BacktrackingStart | src/utils/mazeGenerators.ts:103-111 | marking the random start cell and pushing it establishes the backtracker invariant |
| MazeGenerators.BacktrackingPop | src/utils/mazeGenerators.ts:117-120 | popping a stack top with no unvisited neighbour keeps the invariant |
| MazeGenerators.BacktrackingPush | src/utils/mazeGenerators.ts:123-133 | marking, carving to and pushing an unvisited neighbour keeps the invariant and adds a new cell |
| MazeGenerators.BacktrackStep | src/utils/mazeGenerators.ts:114-133 | one loop iteration either pops the stack or adds one new cell, and keeps the invariant |
| MazeGenerators.GenerateDFSMaze | src/utils/mazeGenerators.ts:102-144 | the backtracker returns a fresh `rows` by `cols` perfect maze with every `visited` flag cleared |
| MazeGenerators.BacktrackingComplete | src/utils/mazeGenerators.ts:114-134 | once the stack is empty, the carved grid is a perfect maze |
| MazeGenerators.StartWalls | src/utils/mazeGenerators.ts:160-163 | the start cell's candidate list is `StartList`: exactly its in-bounds neighbours, each once, in top, right, bottom, left order |
| MazeGenerators.StartListFacts | src/utils/mazeGenerators.ts:160-163 | `StartList` has at most four entries, each a wall of the start cell toward an in-bounds neighbour, and it lists the wall toward every in-bounds side |
| MazeGenerators.StartListOrdered | src/utils/mazeGenerators.ts:160-163 | every entry of `StartList` starts at the start cell and is adjacent to it, and the sides strictly increase along the list, so no neighbour appears twice |
| MazeGenerators.NewWallsFacts | src/utils/mazeGenerators.ts:180-199 | a new cell's candidates are at most four, each joins it to an unvisited in-bounds neighbour, and every such neighbour is listed |
| MazeGenerators.AddWall | src/utils/mazeGenerators.ts:182-199 | one side's check appends that side's candidate exactly when the neighbour there is in bounds and unvisited |
| MazeGenerators.AddWalls | src/utils/mazeGenerators.ts:180-199 | the list grows by the new cell's unvisited in-bounds neighbours and keeps its old entries |
| MazeGenerators.FrontierStart | src/utils/mazeGenerators.ts:150-163 | the marked start cell and its candidate list establish the Prim invariant |
| MazeGenerators.FrontierDiscard | src/utils/mazeGenerators.ts:171-204 | splicing out a candidate whose two cells are both in the maze keeps the invariant |
| MazeGenerators.FrontierGrow | src/utils/mazeGenerators.ts:171-204 | carving to the candidate's unvisited cell, adding its candidates and splicing out the chosen one keeps the invariant |
| MazeGenerators.NewCellBordered | src/utils/mazeGenerators.ts:180-204 | after the splice, the new cell's walls toward unvisited cells are still listed |
| MazeGenerators.OldCellBordered | src/utils/mazeGenerators.ts:180-204 | after the splice, the walls from older maze cells to cells outside the maze are still listed |
| MazeGenerators.PrimStep | src/utils/mazeGenerators.ts:165-205 | one loop iteration either shortens the list or adds one new cell, and keeps the invariant |
| MazeGenerators.GeneratePrimMaze | src/utils/mazeGenerators.ts:149-215 | Prim's algorithm returns a fresh `rows` by `cols` perfect maze with every `visited` flag cleared |
| MazeGenerators.FrontierComplete | src/utils/mazeGenerators.ts:165-205 | once the candidate list is empty, the carved grid is a perfect maze |
| MazeGenerators.ClearVisited | src/utils/mazeGenerators.ts:136-141 | every cell keeps its walls and becomes unvisited |
| MazeGenerators.ResetAfterCarving | src/utils/mazeGenerators.ts:207-212 | clearing the flags keeps the walls, so the grid stays a perfect maze, now with no visited cell |
| MazeGenerators.SameWallsPerfect | src/utils/mazeGenerators.ts:136-141 | a grid with the same walls as a perfect maze is one |
| MazeGenerators.SameWallsSteps | src/utils/mazeGenerators.ts:136-141 | a grid with the same walls allows exactly the same moves |
| MazeGenerators.GenerateMaze | src/utils/mazeGenerators.ts:220-234 | `Prim` runs Prim's algorithm and every other name runs the backtracker; either way the result is a fresh perfect maze of the requested size with no visited cell |
| MazeSearch.IsValidMove | src/utils/mazeSolvers.ts:6-13 | true exactly when the cell has no wall on that side |
| MazeSearch.GetValidNeighbors | src/utils/mazeSolvers.ts:18-49 | at most 4 cells, each one open step away; every open step is listed, in top, right, bottom, left order |
| MazeSearch.ManhattanMetric | src/utils/mazeSolvers.ts:54-56 | the distance is symmetric and is 0 exactly for equal positions |
| MazeSearch.ManhattanStep | src/utils/mazeSolvers.ts:54-56 | one step changes the distance to a fixed cell by at most 1, so the heuristic is consistent |
| MazeSearch.ManhattanLowerBound | src/utils/mazeSolvers.ts:54-56 | a path is always longer than the Manhattan distance between its ends, so the heuristic is admissible |
| MazeSearch.HeuristicAlongPath | src/utils/mazeSolvers.ts:272 | along a path, the heuristic at a cell is at most the remaining steps plus the heuristic at the path's end |
| MazeSearch.FirstMinimum | src/utils/mazeSolvers.ts:207-220 | the scan returns an index with no strictly smaller score in the list and a strictly smaller score than every earlier entry, so the first minimum wins |
| MazeSearch.TreeHasPath | src/utils/mazeSolvers.ts:84-92 | every cell in the parent map has a path from the start one longer than its depth |
| MazeSearch.ReconstructPath | src/utils/mazeSolvers.ts:84-92 | following parent pointers back from the end builds a path from start to end of length depth plus 1 |
| MazeSearch.ExploredAll | src/utils/mazeSolvers.ts:110-111 | a set of reachable cells that contains the start and is closed under steps is exactly the set reachable from the start |
| MazeSearch.SettleAll | src/utils/mazeSolvers.ts:205-237 | a frontier cell with the least depth plus heuristic has optimal depth when every expanded cell is optimal and every step out of the expanded set reaches the frontier |
| MazeSearch.ExploredBound | src/utils/mazeSolvers.ts:66-80 | a search expands at most `rows*cols` cells |
| MazeSearch.SearchStart | src/utils/mazeSolvers.ts:66-76 | the frontier holding only the start satisfies the search invariant |
| MazeSearch.SearchPop | src/utils/mazeSolvers.ts:78-80 | the popped cell is new and in bounds, and appending it to the trace keeps the trace duplicate-free |
| MazeSearch.SearchFound | src/utils/mazeSolvers.ts:83-94 | popping the end with a path from start to end completes a correct exploration |
| MazeSearch.SearchExhausted | src/utils/mazeSolvers.ts:110-111 | an empty frontier means the end is unreachable and the trace holds every reachable cell |
| MazeSolvers.PushUnvisited | src/utils/mazeSolvers.ts:101-107 | the frontier grows by exactly `Unvisited(neighbors, marked)`, the unmarked neighbours in the order `getValidNeighbors` lists them; each is marked, gets the current cell as parent and lies one step deeper |
| MazeSolvers.UnvisitedFacts | src/utils/mazeSolvers.ts:101-107 | `Unvisited` holds exactly the neighbours not yet marked, each once |
| MazeSolvers.SearchExpanded | src/utils/mazeSolvers.ts:97-107 | expanding a cell keeps the search invariant |
| MazeSolvers.SolveDFS | src/utils/mazeSolvers.ts:61-112 | depth-first search returns a correct exploration: a trace with no repeats, a path exactly when the end is reachable, and every reachable cell expanded when there is no path |
| MazeSolvers.LayeredStart | src/utils/mazeSolvers.ts:123 | the queue holding only the start is in breadth-first order |
| MazeSolvers.LayeredSettle | src/utils/mazeSolvers.ts:134-136 | the queue's head always has optimal depth |
| MazeSolvers.LayeredStep | src/utils/mazeSolvers.ts:153-163 | dequeuing the head and enqueuing its new neighbours keeps the queue's depths non-decreasing and within one of each other |
| MazeSolvers.BreadthStep | src/utils/mazeSolvers.ts:153-163 | expanding the dequeued cell (not the end) keeps the breadth-first invariant: the search bookkeeping, non-decreasing queue depths and optimal depths for expanded cells |
| MazeSolvers.BreadthHead | src/utils/mazeSolvers.ts:134-136 | the queue's head is in the parent tree and not yet expanded, so the loop makes progress |
| MazeSolvers.BreadthFound | src/utils/mazeSolvers.ts:139-150 | dequeuing the end completes a correct exploration, and the rebuilt path is a shortest one |
| MazeSolvers.BreadthExhausted | src/utils/mazeSolvers.ts:166-167 | an empty queue means the end is unreachable and every reachable cell was expanded |
| MazeSolvers.SolveBFS | src/utils/mazeSolvers.ts:117-168 | breadth-first search returns a correct exploration, and its path is a shortest one |
| ScoredSolvers.InitScores | src/utils/mazeSolvers.ts:191-198 | every cell of the grid starts at `Infinity` |
| ScoredSolvers.ScoredStart | src/utils/mazeSolvers.ts:200-203 | the start at score 0 (or its heuristic) satisfies the scored-search invariant |
| ScoredSolvers.LeastScore | src/utils/mazeSolvers.ts:207-220 | a cell with the least score has the least depth plus heuristic in the open set |
| ScoredSolvers.ScoredPop | src/utils/mazeSolvers.ts:205-237 | the selected cell is new, in bounds and settled at its optimal depth |
| ScoredSolvers.ScoredStep | src/utils/mazeSolvers.ts:239-273 | expanding the selected cell and relaxing all its neighbours keeps the scored-search invariant |
| ScoredSolvers.SolveDijkstra | src/utils/mazeSolvers.ts:283-368 | Dijkstra returns a correct exploration, and its path is a shortest one |
| ScoredSolvers.RelaxDistances | src/utils/mazeSolvers.ts:343-363 | relaxing every neighbour keeps distances, parents and queue consistent |
| ScoredSolvers.RelaxOne | src/utils/mazeSolvers.ts:344-362 | when `distance[current] + 1 < distance[y]`, `y` gets that distance and `current` as parent and is appended to the queue unless already queued; otherwise queue, distances and parents are unchanged |
| ScoredSolvers.DijkstraImproved | src/utils/mazeSolvers.ts:350-361 | a strictly shorter distance gives the neighbour a new parent and depth and keeps the relaxation invariant |
| ScoredSolvers.DijkstraUnimproved | src/utils/mazeSolvers.ts:350 | a distance that is not smaller leaves the state as it was and keeps the invariant |
| ScoredSolvers.Improved | src/utils/mazeSolvers.ts:269-272 | recording a strictly better score, parent and depth for an open-step neighbour keeps the relaxation invariant |
| ScoredSolvers.Unimproved | src/utils/mazeSolvers.ts:264-266 | skipping a neighbour whose score does not improve keeps the relaxation invariant |
| ScoredSolvers.SolveAStar | src/utils/mazeSolvers.ts:173-278 | A* returns a correct exploration, and its path is a shortest one |
| ScoredSolvers.AStarPick | src/utils/mazeSolvers.ts:207-220 | the open cell of least `fScore` is in the parent tree, not closed, and at its optimal depth |
| ScoredSolvers.AStarFound | src/utils/mazeSolvers.ts:222-237 | picking the end completes a correct exploration, and the rebuilt path is a shortest one |
| ScoredSolvers.AStarExhausted | src/utils/mazeSolvers.ts:276-277 | an empty open set means the end is unreachable and every reachable cell was expanded |
| ScoredSolvers.AStarExpand | src/utils/mazeSolvers.ts:239-273 | closing the picked cell and relaxing its neighbours keeps the A* invariant |
| ScoredSolvers.RelaxScores | src/utils/mazeSolvers.ts:246-273 | relaxing every neighbour keeps g, f, parents and the open set consistent |
| ScoredSolvers.RelaxNeighbor | src/utils/mazeSolvers.ts:247-272 | a closed neighbour changes nothing; otherwise, with `t = gScore[current] + 1`, a neighbour not yet open is appended, and an open one is rescored only when `t` is strictly smaller; a rescored or opened `y` gets parent `current`, `gScore[y] = t` and `fScore[y] = t + manhattan(y, end)`, and nothing else changes |
| ScoredSolvers.ClosedSkip | src/utils/mazeSolvers.ts:249-252 | skipping a closed neighbour keeps the relaxation invariant |
| ScoredSolvers.Unopened | src/utils/mazeSolvers.ts:257-263 | a cell not yet opened still has g score `Infinity`, so the tentative score always improves it |
| ScoredSolvers.AStarUnimproved | src/utils/mazeSolvers.ts:264-266 | an open neighbour whose tentative g is not smaller is left alone and the invariant holds |
| ScoredSolvers.AStarImproved | src/utils/mazeSolvers.ts:257-272 | opening a new neighbour or rescoring an open one whose tentative g is strictly smaller records the new parent, g and f and keeps the invariant |
| ScoredSolvers.BothScoresUpdated | src/utils/mazeSolvers.ts:270-272 | writing g and f = g + Manhattan distance keeps both score maps matched to depths |
| SolverDispatch.SolveMaze | src/utils/mazeSolvers.ts:373-390 | whichever solver is named, the result is a correct exploration, and a shortest path for every solver but depth-first search |
| SolverDispatch.SameVerdict | src/utils/mazeSolvers.ts:110-111 | two explorations agree on whether a path exists, and expand the same cells when there is none |
| SolverDispatch.ShortestAgree | src/utils/mazeSolvers.ts:117-168 | two shortest paths between the same cells have equal length |
| SolverDispatch.SolversCompare | src/utils/mazeSolvers.ts:61-368 | breadth-first, A* and Dijkstra paths have equal length, and the depth-first path is at least that long |
| SolverDispatch.PerfectMazeSolved | src/utils/mazeSolvers.ts:373-390 | on a perfect maze every solver finds a path between any two cells, and the end is the last cell expanded |
| SolverDispatch.VisitedBound | src/utils/mazeSolvers.ts:78-80 | the trace is no longer than the number of cells |
| MazeController.Click | src/hooks/useMaze.ts:141-196 | an endpoint moves exactly when neither endpoint is the clicked cell; then only one endpoint moves, onto the clicked cell, and the mode resets; otherwise both endpoints stay |
| MazeController.ClickOnEndpoint | src/hooks/useMaze.ts:145-162 | clicking the start selects start mode, clicking the end (not also the start) selects end mode; nothing else changes |
| MazeController.ClickArmed | src/hooks/useMaze.ts:165-170 | in start or end mode a click elsewhere moves that endpoint and resets the mode |
| MazeController.ClickFills | src/hooks/useMaze.ts:174-177 | with no mode, an unset start is filled first, then an unset end |
| MazeController.ClickMovesNearer | src/hooks/useMaze.ts:178-188 | with both set, the start moves exactly when it is no farther from the click than the end, and the end moves otherwise |
| MazeController.ClickKeepsApart | src/hooks/useMaze.ts:141-196 | no click puts the start and the end on the same cell |
| MazeController.MoveStartTwoClicks | src/hooks/useMaze.ts:145-170 | clicking the start and then another cell moves the start there and leaves the end |
| MazeController.FirstTwoClicks | src/hooks/useMaze.ts:174-177 | on a fresh page, two clicks on different cells set start and then end |
| MazeController.MazePage.constructor | src/hooks/useMaze.ts:55-67 | no endpoints, no mode, an empty trace and no solve running |
| MazeController.MazePage.HandleCellClick | src/hooks/useMaze.ts:141-196 | the endpoints and mode follow `Click`; the trace, steps and time are cleared exactly when an endpoint moved |
| MazeController.MazePage.ResetMaze | src/hooks/useMaze.ts:133-138 | the trace, steps and time are cleared; endpoints and mode are unchanged |
| MazeController.MazePage.GenerateNewMaze | src/hooks/useMaze.ts:70-99 | the new grid is a perfect maze of the chosen size, the endpoints are the two opposite corners and the trace is cleared |
| MazeController.MazePage.BeginSolve | src/hooks/useMaze.ts:102-109 | a solve starts exactly when both endpoints are set and none is running; otherwise nothing changes; when it starts, the solve is marked as running and the trace is cleared |
| MazeController.MazePage.FinishSolve | src/hooks/useMaze.ts:112-129 | the stored trace is a correct exploration from the captured start, `steps` is the path length, `time` is the measured time and the solve is no longer running |

## Left out

- `Math.random` is not modelled. `RandomSource` takes an arbitrary draw function, and every proof holds for every draw sequence.
- GenerateMaze: `BFS`, `Kruskal`, `RecursiveDivision` and `AldousBroder` have no generator of their own and run the backtracker, as in the code.
- GenerateDFSMaze, GeneratePrimMaze, GenerateMaze, MazePage.GenerateNewMaze: `rows` and `cols` must be at least 1. The code would index row 0 of an empty grid.
- RemoveWalls: requires the two cells to be orthogonally adjacent. For a diagonal pair, the code clears the top and bottom pair and ignores the column.
- SolveDFS, SolveBFS, SolveAStar, SolveDijkstra, SolveMaze: require the start to be inside the grid. The code would index outside its `visited` matrix. The end may be anywhere.
- GeneratePrimMaze: the branch that marks the candidate's first cell never runs, because candidates are always listed from a cell already in the maze. The model carves only toward the second cell.
- Parent, score and distance maps are keyed by `Pos`, not by `"row,col"` strings. The string encoding is injective on integer pairs, so nothing is lost.
- SolveAStar: the starting `fScore` is a copy of the all-`Infinity` `gScore` map. It is not built by a second loop.
- SolveMaze: the `default` branch falls back to breadth-first search. It cannot be reached for the closed `SolvingAlgorithm` type.
- Determinism of a solve (the same trace twice) is not stated as a contract. The Dafny methods have no source of nondeterminism.
- The solution trace is proved to be a correct exploration and, where it applies, shortest. The exact expansion order produced by the tie-breaks is not stated as a function. `FirstMinimum` states the first-minimum rule for one scan.
- MazePage.BeginSolve and MazePage.FinishSolve: the `setTimeout` deferral is split into these two calls. The clock reading `Date.now()` becomes the `elapsed` parameter. `FinishSolve` requires the captured start to be inside the grid, which the click handler's cells always are.
- MazePage.GenerateNewMaze: the `isGenerating` flag and its `setTimeout` wrapper are not modelled. The state update runs synchronously.
- The `useEffect` that rebuilds the grid when the size changes is not modelled. It is framework scheduling.
- Rendering, animation playback, the HTTP client, saved mazes and the leaderboard are not modelled. They are UI, network I/O and demo data.
