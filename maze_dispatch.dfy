/**
 * `solveMaze`: run the solver the caller names, and what the four solvers
 * have in common. All four explore the same cells when the goal cannot be
 * reached and agree on whether it can; the three that rank their frontier
 * (breadth-first, Dijkstra, A*) return paths of the same, least, length, and
 * the depth-first path is never shorter than theirs.
 */
module SolverDispatch {
  import opened MazeTypes
  import opened Grid
  import opened MazeSearch
  import MazeSolvers
  import ScoredSolvers

  /**
   * `solveMaze`: dispatch on the algorithm. Whichever runs, the result is
   * an exploration from `start` (every visited cell reachable, once each; a
   * path exactly when `end` is reachable), and every solver but depth-first
   * search returns a shortest path.
   */
  method SolveMaze(algorithm: SolvingAlgorithm, g: array2<Cell>, start: Pos, end: Pos) returns (r: Solution)
    requires 0 <= start.row < g.Length0 && 0 <= start.col < g.Length1
    ensures Explored(Snapshot(g), start, end, r)
    ensures algorithm != DFS && r.path != [] ==> Shortest(Snapshot(g), r.path, start, end)
  {
    match algorithm
    case DFS => r := MazeSolvers.SolveDFS(g, start, end);
    case BFS => r := MazeSolvers.SolveBFS(g, start, end);
    case AStar => r := ScoredSolvers.SolveAStar(g, start, end);
    case Dijkstra => r := ScoredSolvers.SolveDijkstra(g, start, end);
  }

  /** Two explorations of the same maze agree on whether a path exists. */
  lemma SameVerdict(m: Layout, start: Pos, end: Pos, r1: Solution, r2: Solution)
    requires Explored(m, start, end, r1) && Explored(m, start, end, r2)
    ensures r1.path == [] <==> r2.path == []
    ensures r1.path == [] ==> Elems(r1.visitedCells) == Elems(r2.visitedCells)
  {
  }

  /** Two shortest paths between the same cells have the same length. */
  lemma ShortestAgree(m: Layout, start: Pos, end: Pos, p: seq<Pos>, q: seq<Pos>)
    requires PathBetween(m, p, start, end) && Shortest(m, p, start, end)
    requires PathBetween(m, q, start, end) && Shortest(m, q, start, end)
    ensures |p| == |q|
  {
  }

  /**
   * The breadth-first, Dijkstra and A* searches return paths of the same
   * length, and the depth-first path is at least that long.
   */
  lemma SolversCompare(m: Layout, start: Pos, end: Pos, dfs: Solution, bfs: Solution, astar: Solution,
                       dijkstra: Solution)
    requires Explored(m, start, end, dfs) && Explored(m, start, end, bfs)
    requires Explored(m, start, end, astar) && Explored(m, start, end, dijkstra)
    requires bfs.path != [] ==> Shortest(m, bfs.path, start, end)
    requires astar.path != [] ==> Shortest(m, astar.path, start, end)
    requires dijkstra.path != [] ==> Shortest(m, dijkstra.path, start, end)
    ensures |bfs.path| == |astar.path| == |dijkstra.path| <= |dfs.path|
  {
    SameVerdict(m, start, end, bfs, astar);
    SameVerdict(m, start, end, bfs, dijkstra);
    SameVerdict(m, start, end, bfs, dfs);
    if bfs.path != [] {
      ShortestAgree(m, start, end, bfs.path, astar.path);
      ShortestAgree(m, start, end, bfs.path, dijkstra.path);
      assert |bfs.path| <= |dfs.path|;
    }
  }

  /** In a perfect maze every cell is reachable, so every solver finds a path between any two cells. */
  lemma PerfectMazeSolved(m: Layout, start: Pos, end: Pos, r: Solution)
    requires PerfectMaze(m) && InBounds(m, start) && InBounds(m, end)
    requires Explored(m, start, end, r)
    ensures PathBetween(m, r.path, start, end)
    ensures r.visitedCells[|r.visitedCells| - 1] == end
  {
    assert Reachable(m, start, end);
  }

  /** A solver visits each cell at most once, so never more cells than the grid has. */
  lemma VisitedBound(g: array2<Cell>, start: Pos, end: Pos, r: Solution)
    requires Explored(Snapshot(g), start, end, r)
    ensures |r.visitedCells| <= g.Length0 * g.Length1
  {
    ExploredBound(Snapshot(g), start, end, r);
  }
}
