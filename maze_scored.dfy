/**
 * The two solvers that rank their open cells by a score: Dijkstra's
 * algorithm (`solveDijkstra`, by the distance so far) and A* (`solveAStar`,
 * by the distance so far plus the Manhattan distance to the goal). Both keep
 * their scores in a table with one entry per cell of the grid, initialised
 * to infinity, and pick the first open cell of least score.
 */
module ScoredSolvers {
  import opened MazeTypes
  import opened Grid
  import opened MazeSearch

  // ---------------------------------------------------------------------------
  // Score tables

  /** The initialisation loop both solvers share: every cell of the grid scores infinity. */
  method InitScores(rows: nat, cols: nat) returns (score: map<Pos, Score>)
    ensures score.Keys == AllCells(rows, cols)
    ensures forall p | p in score :: score[p] == Inf
  {
    score := map[];
    for row := 0 to rows
      invariant score.Keys == AllCells(row, cols)
      invariant forall p | p in score :: score[p] == Inf
    {
      for col := 0 to cols
        invariant score.Keys == AllCells(row, cols) + RowCells(row, col)
        invariant forall p | p in score :: score[p] == Inf
      {
        score := score[Pos(row, col) := Inf];
      }
      assert AllCells(row + 1, cols) == AllCells(row, cols) + RowCells(row, cols);
    }
  }

  /**
   * A score table in step with the search tree: one entry per cell, the
   * depth plus the heuristic for every cell of the tree, infinity for every
   * other cell.
   */
  ghost predicate ScoresMatch(m: Layout, score: map<Pos, Score>, parent: map<Pos, Option<Pos>>, depth: map<Pos, nat>,
                              informed: bool, end: Pos)
  {
    (forall v | v in score :: InBounds(m, v)) && (forall v | InBounds(m, v) :: v in score) &&
    (forall v | v in parent :: v in depth && v in score && score[v] == Fin(depth[v] + Heuristic(informed, v, end))) &&
    (forall v | v in score && v !in parent :: score[v] == Inf)
  }

  /** Only expanded cells are parents. */
  ghost predicate ChildrenIn(parent: map<Pos, Option<Pos>>, X: set<Pos>)
  {
    forall v | v in parent && parent[v].Some? :: parent[v].value in X
  }

  /**
   * The invariant both scored searches keep: the search bookkeeping, parents
   * are expanded, every expanded cell has its exact distance and has offered
   * each of its moves to the open cells.
   */
  ghost predicate ScoredInv(m: Layout, start: Pos, end: Pos, open: seq<Pos>, parent: map<Pos, Option<Pos>>,
                            depth: map<Pos, nat>, X: set<Pos>, visitedCells: seq<Pos>)
  {
    TreeFrame(m, start, end, open, parent, depth, X, visitedCells) && ChildrenIn(parent, X) &&
    Settled(m, start, depth, X) && Relaxed(m, X, open, depth)
  }

  /** The cell `y` is expanded, or open and at most one deeper than `current`. */
  ghost predicate Offered(X: set<Pos>, open: seq<Pos>, depth: map<Pos, nat>, current: Pos, y: Pos)
  {
    y in X || (y in Elems(open) && y in depth && current in depth && depth[y] <= depth[current] + 1)
  }

  /**
   * What relaxing the moves out of `current` keeps: the bookkeeping, the
   * depths of expanded cells, and every open cell stays open, no deeper.
   */
  ghost predicate Relaxing(m: Layout, start: Pos, end: Pos, X: set<Pos>, visitedCells: seq<Pos>,
                           open: seq<Pos>, depth: map<Pos, nat>,
                           open1: seq<Pos>, parent1: map<Pos, Option<Pos>>, depth1: map<Pos, nat>)
  {
    TreeFrame(m, start, end, open1, parent1, depth1, X, visitedCells) && ChildrenIn(parent1, X) &&
    (forall x | x in X :: x in depth && x in depth1 && depth1[x] == depth[x]) &&
    (forall v | v in Elems(open) :: v in Elems(open1) && v in depth && v in depth1 && depth1[v] <= depth[v])
  }

  /** A move into a cell with its exact distance never shortens it. */
  lemma SettledNeighbor(m: Layout, start: Pos, parent: map<Pos, Option<Pos>>, depth: map<Pos, nat>, x: Pos, y: Pos)
    requires ParentTree(m, start, parent, depth) && x in parent && y in depth
    requires Optimal(m, start, depth, y) && Step(m, x, y)
    ensures depth[y] <= depth[x] + 1
  {
    TreeHasPath(m, start, parent, depth, x);
    var path :| PathBetween(m, path, start, x) && |path| == depth[x] + 1;
    var longer := path + [y];
    assert forall i | 0 <= i < |longer| - 1 :: longer[i] == path[i];
    assert PathBetween(m, longer, start, y);
  }

  /** No move out of `current` leads to an expanded cell deeper than `current` plus one. */
  ghost predicate Dominated(m: Layout, X: set<Pos>, depth: map<Pos, nat>, current: Pos)
  {
    forall y | y in X && Step(m, current, y) :: y in depth && current in depth && depth[y] <= depth[current] + 1
  }

  /** Expanded cells with exact distances are never improved by a move out of a tree cell. */
  lemma SettledDominated(m: Layout, start: Pos, parent: map<Pos, Option<Pos>>, depth: map<Pos, nat>, X: set<Pos>, current: Pos)
    requires ParentTree(m, start, parent, depth) && X <= parent.Keys && current in parent
    requires Settled(m, start, depth, X)
    ensures Dominated(m, X, depth, current)
  {
    forall y | y in X && Step(m, current, y) ensures y in depth && current in depth && depth[y] <= depth[current] + 1 {
      SettledNeighbor(m, start, parent, depth, current, y);
    }
  }

  /** The start of both searches: only `start` is open, with score `h(start)`. */
  lemma ScoredStart(m: Layout, start: Pos, end: Pos, score: map<Pos, Score>, informed: bool)
    requires InBounds(m, start)
    requires score.Keys == AllCells(|m|, Width(m)) && forall p | p in score :: score[p] == Inf
    ensures ScoredInv(m, start, end, [start], map[start := None], map[start := 0], {}, [])
    ensures ScoresMatch(m, score[start := Fin(Heuristic(informed, start, end))], map[start := None], map[start := 0], informed, end)
  {
    SearchStart(m, start, end);
    assert start == Pos(start.row, start.col);
  }

  /** A least score among the open cells is a least depth plus heuristic. */
  lemma LeastScore(m: Layout, open: seq<Pos>, score: map<Pos, Score>, parent: map<Pos, Option<Pos>>, depth: map<Pos, nat>,
                   informed: bool, end: Pos, k: nat)
    requires ScoresMatch(m, score, parent, depth, informed, end) && Elems(open) <= parent.Keys && k < |open|
    requires forall j | 0 <= j < |open| :: open[j] in score && !Less(score[open[j]], score[open[k]])
    ensures open[k] in depth
    ensures forall o | o in Elems(open) ::
      o in depth && depth[open[k]] + Heuristic(informed, open[k], end) <= depth[o] + Heuristic(informed, o, end)
  {
    assert open[k] in Elems(open);
    forall o | o in Elems(open)
      ensures o in depth && depth[open[k]] + Heuristic(informed, open[k], end) <= depth[o] + Heuristic(informed, o, end)
    {
      var j :| 0 <= j < |open| && open[j] == o;
    }
  }

  /**
   * Taking the open cell `u` of least depth plus heuristic: it has its exact
   * distance, and unless it is `end` the bookkeeping holds with `u` expanded.
   */
  lemma {:induction false} ScoredPop(m: Layout, start: Pos, end: Pos, open: seq<Pos>, parent: map<Pos, Option<Pos>>,
                                     depth: map<Pos, nat>, X: set<Pos>, visitedCells: seq<Pos>, k: nat, informed: bool)
    requires ScoredInv(m, start, end, open, parent, depth, X, visitedCells) && k < |open|
    requires forall o | o in Elems(open) ::
      o in depth && depth[open[k]] + Heuristic(informed, open[k], end) <= depth[o] + Heuristic(informed, o, end)
    ensures SearchInv(m, start, end, open, parent, depth, X, visitedCells)
    ensures open[k] in depth && Optimal(m, start, depth, open[k])
    ensures open[k] in AllCells(|m|, Width(m)) - X
    ensures open[k] != end ==>
      TreeFrame(m, start, end, RemoveAt(open, k), parent, depth, X + {open[k]}, visitedCells + [open[k]])
  {
    var u := open[k];
    RelaxedInTree(m, start, end, open, parent, depth, X, visitedCells);
    SearchPop(m, start, end, open, parent, depth, X, visitedCells, k);
    assert u in Elems(open);
    SettleAll(m, start, X, Elems(open), depth, informed, end, u);
  }

  /** Relaxing every move out of the expanded cell `u` restores the invariant. */
  lemma {:induction false} ScoredStep(m: Layout, start: Pos, end: Pos, open: seq<Pos>, parent: map<Pos, Option<Pos>>,
                                      depth: map<Pos, nat>, X: set<Pos>, visitedCells: seq<Pos>, k: nat,
                                      open1: seq<Pos>, parent1: map<Pos, Option<Pos>>, depth1: map<Pos, nat>)
    requires ScoredInv(m, start, end, open, parent, depth, X, visitedCells) && k < |open| && open[k] != end
    requires open[k] in depth && Optimal(m, start, depth, open[k])
    requires Relaxing(m, start, end, X + {open[k]}, visitedCells + [open[k]], RemoveAt(open, k), depth, open1, parent1, depth1)
    requires forall y | Step(m, open[k], y) :: Offered(X + {open[k]}, open1, depth1, open[k], y)
    ensures ScoredInv(m, start, end, open1, parent1, depth1, X + {open[k]}, visitedCells + [open[k]])
  {
    var u := open[k];
    var X1 := X + {u};
    var rest := RemoveAt(open, k);
    RemoveAtElems(open, k);
    forall x | x in X1 ensures Optimal(m, start, depth1, x) {
      assert Optimal(m, start, depth, x);
    }
    assert Settled(m, start, depth1, X1);
    forall x, y | x in X1 && Step(m, x, y) ensures y in X1 || (y in Elems(open1) && depth1[y] <= depth1[x] + 1) {
      if x == u {
        assert Offered(X1, open1, depth1, u, y);
      } else if y !in X1 {
        assert y in Elems(open) && depth[y] <= depth[x] + 1;
        assert y in Elems(rest);
      }
    }
    assert Relaxed(m, X1, open1, depth1);
  }

  // ---------------------------------------------------------------------------
  // Dijkstra's algorithm

  /** The loop invariant of `solveDijkstra`. */
  ghost predicate DijkstraInv(m: Layout, start: Pos, end: Pos, queue: seq<Pos>, distance: map<Pos, Score>,
                              parent: map<Pos, Option<Pos>>, depth: map<Pos, nat>, X: set<Pos>, visitedCells: seq<Pos>)
  {
    ScoredInv(m, start, end, queue, parent, depth, X, visitedCells) && ScoresMatch(m, distance, parent, depth, false, end)
  }

  /**
   * `solveDijkstra`: expand the first queued cell of least distance; stop
   * when it is `end`; otherwise lower the distance of every open neighbour
   * that can be reached in fewer moves through it. The path found is a
   * shortest one.
   */
  method SolveDijkstra(g: array2<Cell>, start: Pos, end: Pos) returns (r: Solution)
    requires 0 <= start.row < g.Length0 && 0 <= start.col < g.Length1
    ensures Explored(Snapshot(g), start, end, r)
    ensures r.path != [] ==> Shortest(Snapshot(g), r.path, start, end)
  {
    ghost var m := Snapshot(g);
    var visitedCells: seq<Pos> := [];
    var queue := [start];
    var distance := InitScores(g.Length0, g.Length1);
    ScoredStart(m, start, end, distance, false);
    distance := distance[start := Fin(0)];
    var parent: map<Pos, Option<Pos>> := map[start := None];
    ghost var depth: map<Pos, nat> := map[start := 0];
    ghost var X: set<Pos> := {};
    while |queue| > 0
      invariant DijkstraInv(m, start, end, queue, distance, parent, depth, X, visitedCells)
      decreases AllCells(|m|, Width(m)) - X
    {
      ghost var queue0, visitedCells0 := queue, visitedCells;
      var smallest := FirstMinimum(queue, distance);
      var current := queue[smallest];
      queue := RemoveAt(queue, smallest);
      visitedCells := visitedCells + [current];
      LeastScore(m, queue0, distance, parent, depth, false, end, smallest);
      ScoredPop(m, start, end, queue0, parent, depth, X, visitedCells0, smallest, false);
      if current == end {
        var path := ReconstructPath(parent, end, m, start, depth);
        SearchFound(m, start, end, queue0, parent, depth, X, visitedCells0, smallest, path);
        return Solution(path, visitedCells);
      }
      var neighbors := GetValidNeighbors(g, current);
      SettledDominated(m, start, parent, depth, X + {current}, current);
      RelaxBegin(m, start, end, X + {current}, visitedCells, queue, parent, depth, current, neighbors);
      ghost var depth1;
      var queue1, distance1, parent1;
      queue1, distance1, parent1, depth1 :=
        RelaxDistances(current, neighbors, queue, distance, parent, depth, m, start, end, X + {current}, visitedCells);
      RelaxDone(m, start, end, X + {current}, visitedCells, queue, depth, current, neighbors, queue1, parent1, depth1);
      ScoredStep(m, start, end, queue0, parent, depth, X, visitedCells0, smallest, queue1, parent1, depth1);
      queue, distance, parent, depth, X := queue1, distance1, parent1, depth1, X + {current};
    }
    RelaxedInTree(m, start, end, queue, parent, depth, X, visitedCells);
    SearchExhausted(m, start, end, parent, depth, X, visitedCells);
    return Solution([], visitedCells);
  }

  /**
   * The inner loop of `solveDijkstra`: a neighbour whose distance through
   * `current` is smaller than its recorded distance takes that distance and
   * `current` as its parent, and joins the queue unless already there.
   */
  method RelaxDistances(current: Pos, neighbors: seq<Pos>, queue: seq<Pos>, distance: map<Pos, Score>,
                        parent: map<Pos, Option<Pos>>, ghost depth: map<Pos, nat>, ghost m: Layout, ghost start: Pos,
                        ghost end: Pos, ghost X: set<Pos>, ghost visitedCells: seq<Pos>)
    returns (queue1: seq<Pos>, distance1: map<Pos, Score>, parent1: map<Pos, Option<Pos>>, ghost depth1: map<Pos, nat>)
    requires DijkstraRelaxInv(m, start, end, X, visitedCells, queue, depth, current, neighbors, 0, queue, distance, parent, depth)
    ensures DijkstraRelaxInv(m, start, end, X, visitedCells, queue, depth, current, neighbors, |neighbors|,
                             queue1, distance1, parent1, depth1)
  {
    queue1, distance1, parent1, depth1 := queue, distance, parent, depth;
    for i := 0 to |neighbors|
      invariant DijkstraRelaxInv(m, start, end, X, visitedCells, queue, depth, current, neighbors, i,
                                 queue1, distance1, parent1, depth1)
    {
      DijkstraCurrent(m, start, end, X, visitedCells, queue, depth, current, neighbors, i, queue1, distance1, parent1, depth1);
      queue1, distance1, parent1, depth1 :=
        RelaxOne(current, neighbors, i, queue1, distance1, parent1, depth1, m, start, end, X, visitedCells, queue, depth);
    }
  }

  /** One pass of `solveDijkstra`'s inner loop, for the move from `current` to `neighbors[i]`. */
  method RelaxOne(current: Pos, neighbors: seq<Pos>, i: nat, queue0: seq<Pos>, distance0: map<Pos, Score>,
                  parent0: map<Pos, Option<Pos>>, ghost depth0: map<Pos, nat>, ghost m: Layout, ghost start: Pos,
                  ghost end: Pos, ghost X: set<Pos>, ghost visitedCells: seq<Pos>, ghost queue: seq<Pos>,
                  ghost depth: map<Pos, nat>)
    returns (queue1: seq<Pos>, distance1: map<Pos, Score>, parent1: map<Pos, Option<Pos>>, ghost depth1: map<Pos, nat>)
    requires i < |neighbors|
    requires DijkstraRelaxInv(m, start, end, X, visitedCells, queue, depth, current, neighbors, i, queue0, distance0, parent0, depth0)
    requires current in distance0 && neighbors[i] in distance0
    ensures DijkstraRelaxInv(m, start, end, X, visitedCells, queue, depth, current, neighbors, i + 1,
                             queue1, distance1, parent1, depth1)
    ensures var y, d := neighbors[i], Plus(distance0[current], 1);
      Less(d, distance0[y]) ==>
        distance1 == distance0[y := d] && parent1 == parent0[y := Some(current)] &&
        queue1 == (if y in queue0 then queue0 else queue0 + [y])
    ensures var y, d := neighbors[i], Plus(distance0[current], 1);
      !Less(d, distance0[y]) ==> queue1 == queue0 && distance1 == distance0 && parent1 == parent0
  {
    var neighbor := neighbors[i];
    queue1, distance1, parent1, depth1 := queue0, distance0, parent0, depth0;
    DijkstraCurrent(m, start, end, X, visitedCells, queue, depth, current, neighbors, i, queue0, distance0, parent0, depth0);
    var newDist := Plus(distance0[current], 1);
    ghost var k := depth[current] + 1;
    if Less(newDist, distance0[neighbor]) {
      distance1 := distance0[neighbor := newDist];
      parent1 := parent0[neighbor := Some(current)];
      depth1 := depth0[neighbor := k];
      if neighbor !in queue0 {
        queue1 := queue0 + [neighbor];
      }
      DijkstraImproved(m, start, end, X, visitedCells, queue, depth, current, neighbors, i,
                       queue0, distance0, parent0, depth0, queue1, k, newDist);
    } else {
      DijkstraUnimproved(m, start, end, X, visitedCells, queue, depth, current, neighbors, i,
                         queue0, distance0, parent0, depth0);
    }
  }

  /** The improving branch of `solveDijkstra`'s inner loop. */
  lemma DijkstraImproved(m: Layout, start: Pos, end: Pos, X: set<Pos>, visitedCells: seq<Pos>, open: seq<Pos>,
                         depth: map<Pos, nat>, current: Pos, neighbors: seq<Pos>, i: nat, open0: seq<Pos>,
                         distance0: map<Pos, Score>, parent0: map<Pos, Option<Pos>>, depth0: map<Pos, nat>,
                         open1: seq<Pos>, k: nat, newDist: Score)
    requires i < |neighbors|
    requires DijkstraRelaxInv(m, start, end, X, visitedCells, open, depth, current, neighbors, i, open0, distance0, parent0, depth0)
    requires current in depth && k == depth[current] + 1 && neighbors[i] in distance0
    requires newDist == Fin(k + Heuristic(false, neighbors[i], end)) && Less(newDist, distance0[neighbors[i]])
    requires open1 == (if neighbors[i] in open0 then open0 else open0 + [neighbors[i]])
    ensures DijkstraRelaxInv(m, start, end, X, visitedCells, open, depth, current, neighbors, i + 1, open1,
                             distance0[neighbors[i] := newDist], parent0[neighbors[i] := Some(current)],
                             depth0[neighbors[i] := k])
  {
    Improved(m, start, end, X, visitedCells, open, depth, current, neighbors, i, open0, distance0, parent0, depth0,
             false, open1, k, newDist);
    ScoresUpdated(m, distance0, parent0, depth0, false, end, neighbors[i], k, newDist, Some(current));
  }

  /** The distance recorded for the expanded cell is its depth, and one move more is the depth plus one. */
  lemma DijkstraCurrent(m: Layout, start: Pos, end: Pos, X: set<Pos>, visitedCells: seq<Pos>, open: seq<Pos>,
                        depth: map<Pos, nat>, current: Pos, neighbors: seq<Pos>, i: nat, open0: seq<Pos>,
                        distance0: map<Pos, Score>, parent0: map<Pos, Option<Pos>>, depth0: map<Pos, nat>)
    requires i < |neighbors|
    requires DijkstraRelaxInv(m, start, end, X, visitedCells, open, depth, current, neighbors, i, open0, distance0, parent0, depth0)
    ensures current in depth && current in distance0 && neighbors[i] in distance0
    ensures Plus(distance0[current], 1) == Fin(depth[current] + 1 + Heuristic(false, neighbors[i], end))
  {
    RelaxCurrent(m, start, end, X, visitedCells, open, depth, current, neighbors, i, open0, parent0, depth0);
  }

  /** The branch of `solveDijkstra`'s inner loop that changes nothing. */
  lemma DijkstraUnimproved(m: Layout, start: Pos, end: Pos, X: set<Pos>, visitedCells: seq<Pos>, open: seq<Pos>,
                           depth: map<Pos, nat>, current: Pos, neighbors: seq<Pos>, i: nat, open0: seq<Pos>,
                           distance0: map<Pos, Score>, parent0: map<Pos, Option<Pos>>, depth0: map<Pos, nat>)
    requires i < |neighbors|
    requires DijkstraRelaxInv(m, start, end, X, visitedCells, open, depth, current, neighbors, i, open0, distance0, parent0, depth0)
    requires current in depth && neighbors[i] in distance0
    requires !Less(Fin(depth[current] + 1 + Heuristic(false, neighbors[i], end)), distance0[neighbors[i]])
    ensures DijkstraRelaxInv(m, start, end, X, visitedCells, open, depth, current, neighbors, i + 1, open0, distance0, parent0, depth0)
  {
    Unimproved(m, start, end, X, visitedCells, open, depth, current, neighbors, i, open0, distance0, parent0, depth0, false);
  }

  /** The invariant of `solveDijkstra`'s relaxation loop. */
  ghost predicate DijkstraRelaxInv(m: Layout, start: Pos, end: Pos, X: set<Pos>, visitedCells: seq<Pos>,
                                   open: seq<Pos>, depth: map<Pos, nat>, current: Pos, neighbors: seq<Pos>, n: nat,
                                   open1: seq<Pos>, distance1: map<Pos, Score>, parent1: map<Pos, Option<Pos>>,
                                   depth1: map<Pos, nat>)
  {
    RelaxInv(m, start, end, X, visitedCells, open, depth, current, neighbors, n, open1, parent1, depth1) &&
    ScoresMatch(m, distance1, parent1, depth1, false, end)
  }

  /**
   * The invariant of both relaxation loops, once the first `n` moves out of
   * `current` are relaxed: the bookkeeping holds, expanded cells keep their
   * depths, open cells stay open and no deeper, and each of those `n` moves
   * is offered.
   */
  ghost predicate RelaxInv(m: Layout, start: Pos, end: Pos, X: set<Pos>, visitedCells: seq<Pos>,
                           open: seq<Pos>, depth: map<Pos, nat>, current: Pos, neighbors: seq<Pos>, n: nat,
                           open1: seq<Pos>, parent1: map<Pos, Option<Pos>>, depth1: map<Pos, nat>)
  {
    Relaxing(m, start, end, X, visitedCells, open, depth, open1, parent1, depth1) &&
    Dominated(m, X, depth, current) && current in X && n <= |neighbors| &&
    (forall j | 0 <= j < |neighbors| :: Step(m, current, neighbors[j])) &&
    forall j | 0 <= j < n :: Offered(X, open1, depth1, current, neighbors[j])
  }

  /** Before any move is relaxed. */
  lemma RelaxBegin(m: Layout, start: Pos, end: Pos, X: set<Pos>, visitedCells: seq<Pos>, open: seq<Pos>,
                   parent: map<Pos, Option<Pos>>, depth: map<Pos, nat>, current: Pos, neighbors: seq<Pos>)
    requires TreeFrame(m, start, end, open, parent, depth, X, visitedCells) && ChildrenIn(parent, X)
    requires Dominated(m, X, depth, current) && current in X
    requires forall j | 0 <= j < |neighbors| :: Step(m, current, neighbors[j])
    ensures RelaxInv(m, start, end, X, visitedCells, open, depth, current, neighbors, 0, open, parent, depth)
  {
  }

  /** The expanded cell keeps its depth while its moves are relaxed. */
  lemma RelaxCurrent(m: Layout, start: Pos, end: Pos, X: set<Pos>, visitedCells: seq<Pos>, open: seq<Pos>, depth: map<Pos, nat>,
                     current: Pos, neighbors: seq<Pos>, n: nat, open1: seq<Pos>, parent1: map<Pos, Option<Pos>>,
                     depth1: map<Pos, nat>)
    requires RelaxInv(m, start, end, X, visitedCells, open, depth, current, neighbors, n, open1, parent1, depth1)
    ensures current in depth && current in parent1 && current in depth1 && depth1[current] == depth[current]
    ensures n < |neighbors| ==> Step(m, current, neighbors[n]) && InBounds(m, neighbors[n])
  {
  }

  /** Once every move out of `current` is relaxed, the moves are all offered. */
  lemma RelaxDone(m: Layout, start: Pos, end: Pos, X: set<Pos>, visitedCells: seq<Pos>, open: seq<Pos>, depth: map<Pos, nat>,
                  current: Pos, neighbors: seq<Pos>, open1: seq<Pos>, parent1: map<Pos, Option<Pos>>, depth1: map<Pos, nat>)
    requires RelaxInv(m, start, end, X, visitedCells, open, depth, current, neighbors, |neighbors|, open1, parent1, depth1)
    requires forall q | Step(m, current, q) :: q in neighbors
    ensures Relaxing(m, start, end, X, visitedCells, open, depth, open1, parent1, depth1)
    ensures forall y | Step(m, current, y) :: Offered(X, open1, depth1, current, y)
  {
  }

  /**
   * Giving `neighbors[i]` the parent `current` and `k`, one move more than
   * `current`, as its depth, and adding it to the open cells unless it is
   * open, keeps the loop invariant when its score beats the recorded one.
   */
  lemma Improved(m: Layout, start: Pos, end: Pos, X: set<Pos>, visitedCells: seq<Pos>, open: seq<Pos>, depth: map<Pos, nat>,
                 current: Pos, neighbors: seq<Pos>, i: nat, open0: seq<Pos>, score0: map<Pos, Score>,
                 parent0: map<Pos, Option<Pos>>, depth0: map<Pos, nat>, informed: bool, open1: seq<Pos>, k: nat, s: Score)
    requires i < |neighbors|
    requires RelaxInv(m, start, end, X, visitedCells, open, depth, current, neighbors, i, open0, parent0, depth0)
    requires ScoresMatch(m, score0, parent0, depth0, informed, end) && neighbors[i] in score0
    requires current in depth && k == depth[current] + 1
    requires s == Fin(k + Heuristic(informed, neighbors[i], end)) && Less(s, score0[neighbors[i]])
    requires open1 == (if neighbors[i] in open0 then open0 else open0 + [neighbors[i]])
    ensures RelaxInv(m, start, end, X, visitedCells, open, depth, current, neighbors, i + 1, open1,
                     parent0[neighbors[i] := Some(current)], depth0[neighbors[i] := k])
  {
    var y := neighbors[i];
    assert Step(m, current, y);
    Shorter(m, score0, parent0, depth0, informed, end, y, k, s);
    ImprovedOutside(m, start, end, X, visitedCells, open, depth, current, open0, parent0, depth0, y, k);
    ImprovedRelaxing(m, start, end, X, visitedCells, open, depth, current, open0, parent0, depth0, y, k, open1);
    ImprovedOffered(X, current, neighbors, i, open0, depth0, k, open1);
  }

  /** A score that beats the recorded one means fewer moves than the tree records. */
  lemma Shorter(m: Layout, score0: map<Pos, Score>, parent0: map<Pos, Option<Pos>>, depth0: map<Pos, nat>,
                informed: bool, end: Pos, y: Pos, k: nat, s: Score)
    requires ScoresMatch(m, score0, parent0, depth0, informed, end) && y in score0
    requires s == Fin(k + Heuristic(informed, y, end)) && Less(s, score0[y])
    ensures y in parent0 ==> y in depth0 && k < depth0[y]
  {
  }

  /** A neighbour that a move out of `current` would shorten is not expanded. */
  lemma ImprovedOutside(m: Layout, start: Pos, end: Pos, X: set<Pos>, visitedCells: seq<Pos>, open: seq<Pos>,
                        depth: map<Pos, nat>, current: Pos, open0: seq<Pos>, parent0: map<Pos, Option<Pos>>,
                        depth0: map<Pos, nat>, y: Pos, k: nat)
    requires Relaxing(m, start, end, X, visitedCells, open, depth, open0, parent0, depth0)
    requires Dominated(m, X, depth, current) && Step(m, current, y) && current in depth && k == depth[current] + 1
    requires y in parent0 ==> y in depth0 && k < depth0[y]
    ensures y !in X
  {
  }

  /** Re-parenting a neighbour of `current` with fewer moves keeps what relaxing keeps. */
  lemma ImprovedRelaxing(m: Layout, start: Pos, end: Pos, X: set<Pos>, visitedCells: seq<Pos>, open: seq<Pos>,
                         depth: map<Pos, nat>, current: Pos, open0: seq<Pos>, parent0: map<Pos, Option<Pos>>,
                         depth0: map<Pos, nat>, y: Pos, k: nat, open1: seq<Pos>)
    requires Relaxing(m, start, end, X, visitedCells, open, depth, open0, parent0, depth0)
    requires current in X && Step(m, current, y) && y !in X && current in depth && k == depth[current] + 1
    requires y in parent0 ==> y in depth0 && k < depth0[y]
    requires open1 == (if y in open0 then open0 else open0 + [y])
    ensures Relaxing(m, start, end, X, visitedCells, open, depth, open1, parent0[y := Some(current)], depth0[y := k])
  {
    ImprovedFrame(m, start, end, X, visitedCells, current, open0, parent0, depth0, y, k, open1);
  }

  /** After re-parenting `neighbors[i]`, the first `i + 1` moves out of `current` are offered. */
  lemma ImprovedOffered(X: set<Pos>, current: Pos, neighbors: seq<Pos>, i: nat, open0: seq<Pos>, depth0: map<Pos, nat>,
                        k: nat, open1: seq<Pos>)
    requires i < |neighbors| && current in X && neighbors[i] !in X && current in depth0 && k == depth0[current] + 1
    requires forall j | 0 <= j < i :: Offered(X, open0, depth0, current, neighbors[j])
    requires open1 == (if neighbors[i] in open0 then open0 else open0 + [neighbors[i]])
    ensures forall j | 0 <= j < i + 1 :: Offered(X, open1, depth0[neighbors[i] := k], current, neighbors[j])
  {
    var y := neighbors[i];
    assert Elems(open0) <= Elems(open1) && y in Elems(open1) by {
      if y !in open0 {
        assert open1[|open0|] == y;
      }
    }
    forall j | 0 <= j < i + 1 ensures Offered(X, open1, depth0[y := k], current, neighbors[j]) {
      if neighbors[j] != y {
        assert Offered(X, open0, depth0, current, neighbors[j]);
      }
    }
  }

  /** Re-parenting an unexpanded neighbour of an expanded cell keeps the bookkeeping. */
  lemma ImprovedFrame(m: Layout, start: Pos, end: Pos, X: set<Pos>, visitedCells: seq<Pos>, current: Pos,
                      open0: seq<Pos>, parent0: map<Pos, Option<Pos>>, depth0: map<Pos, nat>, y: Pos, k: nat,
                      open1: seq<Pos>)
    requires TreeFrame(m, start, end, open0, parent0, depth0, X, visitedCells) && ChildrenIn(parent0, X)
    requires current in X && Step(m, current, y) && y !in X && k == depth0[current] + 1
    requires open1 == (if y in open0 then open0 else open0 + [y])
    ensures TreeFrame(m, start, end, open1, parent0[y := Some(current)], depth0[y := k], X, visitedCells)
    ensures ChildrenIn(parent0[y := Some(current)], X)
  {
    ImprovedFrontier(m, start, end, X, visitedCells, open0, parent0, depth0, y, open1);
    assert visitedCells != [] by {
      assert current in Elems(visitedCells);
    }
    ImprovedTree(m, start, X, current, parent0, depth0, y, k);
  }

  /** Adding a cell outside the tree to the open cells keeps them free of repeats. */
  lemma ImprovedFrontier(m: Layout, start: Pos, end: Pos, X: set<Pos>, visitedCells: seq<Pos>, open0: seq<Pos>,
                         parent0: map<Pos, Option<Pos>>, depth0: map<Pos, nat>, y: Pos, open1: seq<Pos>)
    requires TreeFrame(m, start, end, open0, parent0, depth0, X, visitedCells) && y !in X
    requires open1 == (if y in open0 then open0 else open0 + [y])
    ensures NoDup(open1) && Elems(open1) == Elems(open0) + {y}
  {
    if y !in open0 {
      assert Elems(open1) == Elems(open0) + {y};
      forall i, j | 0 <= i < j < |open1| ensures open1[i] != open1[j] {
        if j == |open0| {
          assert open1[i] in Elems(open0);
        }
      }
    } else {
      assert y in Elems(open0);
    }
  }

  /** Re-parenting a tree cell that parents nothing keeps the search tree. */
  lemma ImprovedTree(m: Layout, start: Pos, X: set<Pos>, current: Pos, parent0: map<Pos, Option<Pos>>, depth0: map<Pos, nat>,
                     y: Pos, k: nat)
    requires ParentTree(m, start, parent0, depth0) && ChildrenIn(parent0, X) && current in X && y !in X
    requires current in parent0 && Step(m, current, y) && k == depth0[current] + 1 && y != start
    ensures ParentTree(m, start, parent0[y := Some(current)], depth0[y := k]) && ChildrenIn(parent0[y := Some(current)], X)
  {
    var parent1, depth1 := parent0[y := Some(current)], depth0[y := k];
    forall v | v in parent1 && parent1[v].Some?
      ensures parent1[v].value in parent1 && Step(m, parent1[v].value, v) && depth1[v] == depth1[parent1[v].value] + 1
    {
      if v != y {
        assert parent0[v].value in X;
      }
    }
  }

  /** Recording the new depth of `y` in a score table keeps it in step with the tree. */
  lemma ScoresUpdated(m: Layout, score0: map<Pos, Score>, parent0: map<Pos, Option<Pos>>, depth0: map<Pos, nat>,
                      informed: bool, end: Pos, y: Pos, k: nat, s: Score, p: Option<Pos>)
    requires ScoresMatch(m, score0, parent0, depth0, informed, end) && y in score0
    requires s == Fin(k + Heuristic(informed, y, end))
    ensures ScoresMatch(m, score0[y := s], parent0[y := p], depth0[y := k], informed, end)
  {
  }

  /** A move whose recorded score is not beaten is already offered. */
  lemma Unimproved(m: Layout, start: Pos, end: Pos, X: set<Pos>, visitedCells: seq<Pos>, open: seq<Pos>, depth: map<Pos, nat>,
                   current: Pos, neighbors: seq<Pos>, i: nat,
                   open1: seq<Pos>, score1: map<Pos, Score>, parent1: map<Pos, Option<Pos>>, depth1: map<Pos, nat>,
                   informed: bool)
    requires i < |neighbors|
    requires RelaxInv(m, start, end, X, visitedCells, open, depth, current, neighbors, i, open1, parent1, depth1)
    requires ScoresMatch(m, score1, parent1, depth1, informed, end)
    requires current in depth && neighbors[i] in score1
    requires !Less(Fin(depth[current] + 1 + Heuristic(informed, neighbors[i], end)), score1[neighbors[i]])
    ensures RelaxInv(m, start, end, X, visitedCells, open, depth, current, neighbors, i + 1, open1, parent1, depth1)
  {
    var y := neighbors[i];
    assert Step(m, current, y);
    assert y == Pos(y.row, y.col);
    assert Offered(X, open1, depth1, current, y);
  }

  // ---------------------------------------------------------------------------
  // A*

  /** The loop invariant of `solveAStar`: the scored invariant, `gScore` the depths, `fScore` depth plus heuristic. */
  ghost predicate AStarInv(m: Layout, start: Pos, end: Pos, openSet: seq<Pos>, gScore: map<Pos, Score>,
                           fScore: map<Pos, Score>, parent: map<Pos, Option<Pos>>, depth: map<Pos, nat>,
                           closedSet: set<Pos>, visitedCells: seq<Pos>)
  {
    ScoredInv(m, start, end, openSet, parent, depth, closedSet, visitedCells) &&
    ScoresMatch(m, gScore, parent, depth, false, end) && ScoresMatch(m, fScore, parent, depth, true, end)
  }

  /**
   * `solveAStar`: like Dijkstra's algorithm, but the open cell picked is
   * the first of least `fScore` (moves so far plus the Manhattan distance to
   * `end`), expanded cells are kept in `closedSet` and skipped, and a cell
   * that is already open is re-parented only when the new route is strictly
   * shorter. Because the Manhattan distance never drops by more than one
   * per move, the path it returns is a shortest one.
   */
  method SolveAStar(g: array2<Cell>, start: Pos, end: Pos) returns (r: Solution)
    requires 0 <= start.row < g.Length0 && 0 <= start.col < g.Length1
    ensures Explored(Snapshot(g), start, end, r)
    ensures r.path != [] ==> Shortest(Snapshot(g), r.path, start, end)
  {
    ghost var m := Snapshot(g);
    var visitedCells: seq<Pos> := [];
    var openSet := [start];
    var closedSet: set<Pos> := {};
    var gScore := InitScores(g.Length0, g.Length1);
    var fScore := gScore;
    ScoredStart(m, start, end, gScore, false);
    ScoredStart(m, start, end, fScore, true);
    gScore := gScore[start := Fin(0)];
    fScore := fScore[start := Fin(ManhattanDistance(start, end))];
    var parent: map<Pos, Option<Pos>> := map[start := None];
    ghost var depth: map<Pos, nat> := map[start := 0];
    while |openSet| > 0
      invariant AStarInv(m, start, end, openSet, gScore, fScore, parent, depth, closedSet, visitedCells)
      decreases AllCells(|m|, Width(m)) - closedSet
    {
      AStarScored(m, start, end, openSet, gScore, fScore, parent, depth, closedSet, visitedCells);
      var currentIndex := FirstMinimum(openSet, fScore);
      var current := openSet[currentIndex];
      AStarPick(m, start, end, openSet, gScore, fScore, parent, depth, closedSet, visitedCells, currentIndex);
      if current == end {
        var path := ReconstructPath(parent, end, m, start, depth);
        AStarFound(m, start, end, openSet, gScore, fScore, parent, depth, closedSet, visitedCells, currentIndex, path);
        return Solution(path, visitedCells + [current]);
      }
      openSet, gScore, fScore, parent, depth :=
        AStarExpand(g, currentIndex, openSet, gScore, fScore, parent, depth, closedSet, m, start, end, visitedCells);
      closedSet := closedSet + {current};
      visitedCells := visitedCells + [current];
    }
    AStarExhausted(m, start, end, gScore, fScore, parent, depth, closedSet, visitedCells);
    return Solution([], visitedCells);
  }

  /** Every open cell has an `fScore`. */
  lemma AStarScored(m: Layout, start: Pos, end: Pos, openSet: seq<Pos>, gScore: map<Pos, Score>,
                    fScore: map<Pos, Score>, parent: map<Pos, Option<Pos>>, depth: map<Pos, nat>,
                    closedSet: set<Pos>, visitedCells: seq<Pos>)
    requires AStarInv(m, start, end, openSet, gScore, fScore, parent, depth, closedSet, visitedCells)
    ensures forall i | 0 <= i < |openSet| :: openSet[i] in fScore
  {
    forall i | 0 <= i < |openSet| ensures openSet[i] in fScore {
      assert openSet[i] in Elems(openSet);
    }
  }

  /** The open cell of least `fScore` is in the tree, not yet closed, and has its exact distance. */
  lemma AStarPick(m: Layout, start: Pos, end: Pos, openSet: seq<Pos>, gScore: map<Pos, Score>,
                  fScore: map<Pos, Score>, parent: map<Pos, Option<Pos>>, depth: map<Pos, nat>,
                  closedSet: set<Pos>, visitedCells: seq<Pos>, k: nat)
    requires AStarInv(m, start, end, openSet, gScore, fScore, parent, depth, closedSet, visitedCells) && k < |openSet|
    requires forall j | 0 <= j < |openSet| :: openSet[j] in fScore && !Less(fScore[openSet[j]], fScore[openSet[k]])
    ensures ParentTree(m, start, parent, depth) && openSet[k] in parent
    ensures openSet[k] in AllCells(|m|, Width(m)) - closedSet
    ensures openSet[k] in depth && Optimal(m, start, depth, openSet[k])
  {
    LeastScore(m, openSet, fScore, parent, depth, true, end, k);
    ScoredPop(m, start, end, openSet, parent, depth, closedSet, visitedCells, k, true);
    assert openSet[k] in Elems(openSet);
  }

  /** Reaching `end` first: an exploration, and the path rebuilt from the tree is a shortest one. */
  lemma AStarFound(m: Layout, start: Pos, end: Pos, openSet: seq<Pos>, gScore: map<Pos, Score>,
                   fScore: map<Pos, Score>, parent: map<Pos, Option<Pos>>, depth: map<Pos, nat>,
                   closedSet: set<Pos>, visitedCells: seq<Pos>, k: nat, path: seq<Pos>)
    requires AStarInv(m, start, end, openSet, gScore, fScore, parent, depth, closedSet, visitedCells) && k < |openSet|
    requires forall j | 0 <= j < |openSet| :: openSet[j] in fScore && !Less(fScore[openSet[j]], fScore[openSet[k]])
    requires openSet[k] == end && end in depth
    requires PathBetween(m, path, start, end) && |path| == depth[end] + 1
    ensures Explored(m, start, end, Solution(path, visitedCells + [end]))
    ensures Shortest(m, path, start, end)
  {
    LeastScore(m, openSet, fScore, parent, depth, true, end, k);
    ScoredPop(m, start, end, openSet, parent, depth, closedSet, visitedCells, k, true);
    SearchFound(m, start, end, openSet, parent, depth, closedSet, visitedCells, k, path);
  }

  /** An empty open set: every cell reachable from `start` was closed, and `end` is not among them. */
  lemma AStarExhausted(m: Layout, start: Pos, end: Pos, gScore: map<Pos, Score>,
                       fScore: map<Pos, Score>, parent: map<Pos, Option<Pos>>, depth: map<Pos, nat>,
                       closedSet: set<Pos>, visitedCells: seq<Pos>)
    requires AStarInv(m, start, end, [], gScore, fScore, parent, depth, closedSet, visitedCells)
    ensures Explored(m, start, end, Solution([], visitedCells))
  {
    RelaxedInTree(m, start, end, [], parent, depth, closedSet, visitedCells);
    SearchExhausted(m, start, end, parent, depth, closedSet, visitedCells);
  }

  /**
   * One expansion of `solveAStar`: close the open cell at index `k`
   * (`current`, not `end`) and relax every move out of it.
   */
  method AStarExpand(g: array2<Cell>, k: nat, openSet: seq<Pos>, gScore: map<Pos, Score>, fScore: map<Pos, Score>,
                     parent: map<Pos, Option<Pos>>, ghost depth: map<Pos, nat>, closedSet: set<Pos>,
                     ghost m: Layout, ghost start: Pos, end: Pos, ghost visitedCells: seq<Pos>)
    returns (openSet1: seq<Pos>, gScore1: map<Pos, Score>, fScore1: map<Pos, Score>, parent1: map<Pos, Option<Pos>>,
             ghost depth1: map<Pos, nat>)
    requires m == Snapshot(g)
    requires AStarInv(m, start, end, openSet, gScore, fScore, parent, depth, closedSet, visitedCells) && k < |openSet|
    requires forall j | 0 <= j < |openSet| :: openSet[j] in fScore && !Less(fScore[openSet[j]], fScore[openSet[k]])
    requires openSet[k] != end
    ensures AStarInv(m, start, end, openSet1, gScore1, fScore1, parent1, depth1, closedSet + {openSet[k]},
                     visitedCells + [openSet[k]])
  {
    var current := openSet[k];
    LeastScore(m, openSet, fScore, parent, depth, true, end, k);
    ScoredPop(m, start, end, openSet, parent, depth, closedSet, visitedCells, k, true);
    var rest := RemoveAt(openSet, k);
    var closed1 := closedSet + {current};
    var visited1 := visitedCells + [current];
    var neighbors := GetValidNeighbors(g, current);
    SettledDominated(m, start, parent, depth, closed1, current);
    RelaxBegin(m, start, end, closed1, visited1, rest, parent, depth, current, neighbors);
    openSet1, gScore1, fScore1, parent1, depth1 :=
      RelaxScores(current, neighbors, closed1, rest, gScore, fScore, parent, depth, m, start, end, visited1);
    RelaxDone(m, start, end, closed1, visited1, rest, depth, current, neighbors, openSet1, parent1, depth1);
    ScoredStep(m, start, end, openSet, parent, depth, closedSet, visitedCells, k, openSet1, parent1, depth1);
  }

  /** The invariant of `solveAStar`'s relaxation loop. */
  ghost predicate AStarRelaxInv(m: Layout, start: Pos, end: Pos, closedSet: set<Pos>, visitedCells: seq<Pos>,
                                open: seq<Pos>, depth: map<Pos, nat>, current: Pos, neighbors: seq<Pos>, n: nat,
                                openSet: seq<Pos>, gScore: map<Pos, Score>, fScore: map<Pos, Score>,
                                parent: map<Pos, Option<Pos>>, depth1: map<Pos, nat>)
  {
    RelaxInv(m, start, end, closedSet, visitedCells, open, depth, current, neighbors, n, openSet, parent, depth1) &&
    ScoresMatch(m, gScore, parent, depth1, false, end) && ScoresMatch(m, fScore, parent, depth1, true, end)
  }

  /** The loop over the moves out of `current` in `solveAStar`. */
  method RelaxScores(current: Pos, neighbors: seq<Pos>, closedSet: set<Pos>, openSet: seq<Pos>, gScore: map<Pos, Score>,
                     fScore: map<Pos, Score>, parent: map<Pos, Option<Pos>>, ghost depth: map<Pos, nat>,
                     ghost m: Layout, ghost start: Pos, end: Pos, ghost visitedCells: seq<Pos>)
    returns (openSet1: seq<Pos>, gScore1: map<Pos, Score>, fScore1: map<Pos, Score>, parent1: map<Pos, Option<Pos>>,
             ghost depth1: map<Pos, nat>)
    requires AStarRelaxInv(m, start, end, closedSet, visitedCells, openSet, depth, current, neighbors, 0,
                           openSet, gScore, fScore, parent, depth)
    ensures AStarRelaxInv(m, start, end, closedSet, visitedCells, openSet, depth, current, neighbors, |neighbors|,
                          openSet1, gScore1, fScore1, parent1, depth1)
  {
    openSet1, gScore1, fScore1, parent1, depth1 := openSet, gScore, fScore, parent, depth;
    for i := 0 to |neighbors|
      invariant AStarRelaxInv(m, start, end, closedSet, visitedCells, openSet, depth, current, neighbors, i,
                              openSet1, gScore1, fScore1, parent1, depth1)
    {
      AStarCurrent(m, start, end, closedSet, visitedCells, openSet, depth, current, neighbors, i,
                   openSet1, gScore1, fScore1, parent1, depth1);
      openSet1, gScore1, fScore1, parent1, depth1 :=
        RelaxNeighbor(current, neighbors, i, closedSet, openSet1, gScore1, fScore1, parent1, depth1,
                      m, start, end, visitedCells, openSet, depth);
    }
  }

  /**
   * One move out of `current` in `solveAStar`: skip a closed cell; add a
   * cell that is not open to the open cells and record the route through
   * `current`; for an open cell, record it only when `gScore[current] + 1`
   * beats its `gScore`.
   */
  method RelaxNeighbor(current: Pos, neighbors: seq<Pos>, i: nat, closedSet: set<Pos>, openSet0: seq<Pos>,
                       gScore0: map<Pos, Score>, fScore0: map<Pos, Score>, parent0: map<Pos, Option<Pos>>,
                       ghost depth0: map<Pos, nat>, ghost m: Layout, ghost start: Pos, end: Pos,
                       ghost visitedCells: seq<Pos>, ghost open: seq<Pos>, ghost depth: map<Pos, nat>)
    returns (openSet1: seq<Pos>, gScore1: map<Pos, Score>, fScore1: map<Pos, Score>, parent1: map<Pos, Option<Pos>>,
             ghost depth1: map<Pos, nat>)
    requires i < |neighbors|
    requires AStarRelaxInv(m, start, end, closedSet, visitedCells, open, depth, current, neighbors, i,
                           openSet0, gScore0, fScore0, parent0, depth0)
    requires current in gScore0 && neighbors[i] in gScore0
    ensures AStarRelaxInv(m, start, end, closedSet, visitedCells, open, depth, current, neighbors, i + 1,
                          openSet1, gScore1, fScore1, parent1, depth1)
    ensures neighbors[i] in closedSet ==>
      openSet1 == openSet0 && gScore1 == gScore0 && fScore1 == fScore0 && parent1 == parent0
    ensures var y, t := neighbors[i], Plus(gScore0[current], 1);
      y !in closedSet && y in openSet0 && !Less(t, gScore0[y]) ==>
        openSet1 == openSet0 && gScore1 == gScore0 && fScore1 == fScore0 && parent1 == parent0
    ensures var y, t := neighbors[i], Plus(gScore0[current], 1);
      y !in closedSet && (y !in openSet0 || Less(t, gScore0[y])) ==>
        openSet1 == (if y in openSet0 then openSet0 else openSet0 + [y]) &&
        parent1 == parent0[y := Some(current)] && gScore1 == gScore0[y := t] &&
        fScore1 == fScore0[y := Plus(t, ManhattanDistance(y, end))]
  {
    var neighbor := neighbors[i];
    openSet1, gScore1, fScore1, parent1, depth1 := openSet0, gScore0, fScore0, parent0, depth0;
    if neighbor in closedSet {
      ClosedSkip(m, start, end, closedSet, visitedCells, open, depth, current, neighbors, i, openSet0, parent0, depth0);
      return;
    }
    AStarCurrent(m, start, end, closedSet, visitedCells, open, depth, current, neighbors, i,
                 openSet0, gScore0, fScore0, parent0, depth0);
    var tentativeGScore := Plus(gScore0[current], 1);
    ghost var k := depth[current] + 1;
    var inOpenSet := neighbor in openSet0;
    if !inOpenSet {
      openSet1 := openSet0 + [neighbor];
    } else if !Less(tentativeGScore, gScore0[neighbor]) {
      AStarUnimproved(m, start, end, closedSet, visitedCells, open, depth, current, neighbors, i,
                      openSet0, gScore0, fScore0, parent0, depth0);
      return;
    }
    parent1 := parent0[neighbor := Some(current)];
    gScore1 := gScore0[neighbor := tentativeGScore];
    var f := Plus(gScore1[neighbor], ManhattanDistance(neighbor, end));
    fScore1 := fScore0[neighbor := f];
    depth1 := depth0[neighbor := k];
    AStarImproved(m, start, end, closedSet, visitedCells, open, depth, current, neighbors, i,
                  openSet0, gScore0, fScore0, parent0, depth0, openSet1, k, tentativeGScore, f);
  }

  /**
   * The branch of `solveAStar`'s inner loop that records a better route to
   * an open or newly opened neighbour keeps the loop invariant.
   */
  lemma AStarImproved(m: Layout, start: Pos, end: Pos, X: set<Pos>, visitedCells: seq<Pos>, open: seq<Pos>,
                      depth: map<Pos, nat>, current: Pos, neighbors: seq<Pos>, i: nat, open0: seq<Pos>,
                      gScore0: map<Pos, Score>, fScore0: map<Pos, Score>, parent0: map<Pos, Option<Pos>>,
                      depth0: map<Pos, nat>, open1: seq<Pos>, k: nat, g: Score, f: Score)
    requires i < |neighbors| && neighbors[i] !in X
    requires AStarRelaxInv(m, start, end, X, visitedCells, open, depth, current, neighbors, i, open0, gScore0, fScore0,
                           parent0, depth0)
    requires current in depth && current in gScore0 && neighbors[i] in gScore0 && neighbors[i] in fScore0
    requires k == depth[current] + 1 && g == Plus(gScore0[current], 1)
    requires g == Fin(k + Heuristic(false, neighbors[i], end))
    requires f == Plus(g, ManhattanDistance(neighbors[i], end))
    requires open1 == (if neighbors[i] in open0 then open0 else open0 + [neighbors[i]])
    requires neighbors[i] in open0 ==> Less(g, gScore0[neighbors[i]])
    ensures AStarRelaxInv(m, start, end, X, visitedCells, open, depth, current, neighbors, i + 1, open1,
                          gScore0[neighbors[i] := g], fScore0[neighbors[i] := f],
                          parent0[neighbors[i] := Some(current)], depth0[neighbors[i] := k])
  {
    var y := neighbors[i];
    if y !in open0 {
      Unopened(m, start, end, X, visitedCells, open, depth, current, neighbors, i, open0, gScore0, parent0, depth0);
    }
    Improved(m, start, end, X, visitedCells, open, depth, current, neighbors, i, open0, gScore0, parent0, depth0,
             false, open1, k, g);
    BothScoresUpdated(m, gScore0, fScore0, parent0, depth0, end, y, k, g, f, Some(current));
  }

  /** A move into a closed cell is already offered. */
  lemma ClosedSkip(m: Layout, start: Pos, end: Pos, X: set<Pos>, visitedCells: seq<Pos>, open: seq<Pos>,
                   depth: map<Pos, nat>, current: Pos, neighbors: seq<Pos>, i: nat, open1: seq<Pos>,
                   parent1: map<Pos, Option<Pos>>, depth1: map<Pos, nat>)
    requires i < |neighbors| && neighbors[i] in X
    requires RelaxInv(m, start, end, X, visitedCells, open, depth, current, neighbors, i, open1, parent1, depth1)
    ensures RelaxInv(m, start, end, X, visitedCells, open, depth, current, neighbors, i + 1, open1, parent1, depth1)
  {
    assert Offered(X, open1, depth1, current, neighbors[i]);
  }

  /** The score tables hold `current` and its neighbour, and one move more than `current` is its depth plus one. */
  lemma AStarCurrent(m: Layout, start: Pos, end: Pos, X: set<Pos>, visitedCells: seq<Pos>, open: seq<Pos>,
                     depth: map<Pos, nat>, current: Pos, neighbors: seq<Pos>, i: nat, open0: seq<Pos>,
                     gScore0: map<Pos, Score>, fScore0: map<Pos, Score>, parent0: map<Pos, Option<Pos>>,
                     depth0: map<Pos, nat>)
    requires i < |neighbors|
    requires AStarRelaxInv(m, start, end, X, visitedCells, open, depth, current, neighbors, i, open0, gScore0, fScore0,
                           parent0, depth0)
    ensures current in depth && current in gScore0 && neighbors[i] in gScore0 && neighbors[i] in fScore0
    ensures Plus(gScore0[current], 1) == Fin(depth[current] + 1 + Heuristic(false, neighbors[i], end))
  {
    RelaxCurrent(m, start, end, X, visitedCells, open, depth, current, neighbors, i, open0, parent0, depth0);
  }

  /** A cell neither closed nor open has no entry in the tree, so it scores infinity. */
  lemma Unopened(m: Layout, start: Pos, end: Pos, X: set<Pos>, visitedCells: seq<Pos>, open: seq<Pos>,
                 depth: map<Pos, nat>, current: Pos, neighbors: seq<Pos>, i: nat, open0: seq<Pos>,
                 score0: map<Pos, Score>, parent0: map<Pos, Option<Pos>>, depth0: map<Pos, nat>)
    requires i < |neighbors| && neighbors[i] !in X && neighbors[i] !in open0
    requires RelaxInv(m, start, end, X, visitedCells, open, depth, current, neighbors, i, open0, parent0, depth0)
    requires ScoresMatch(m, score0, parent0, depth0, false, end) && neighbors[i] in score0
    ensures score0[neighbors[i]] == Inf
  {
    assert neighbors[i] !in Elems(open0);
  }

  /** The branch of `solveAStar`'s inner loop that changes nothing. */
  lemma AStarUnimproved(m: Layout, start: Pos, end: Pos, X: set<Pos>, visitedCells: seq<Pos>, open: seq<Pos>,
                        depth: map<Pos, nat>, current: Pos, neighbors: seq<Pos>, i: nat, open0: seq<Pos>,
                        gScore0: map<Pos, Score>, fScore0: map<Pos, Score>, parent0: map<Pos, Option<Pos>>,
                        depth0: map<Pos, nat>)
    requires i < |neighbors|
    requires AStarRelaxInv(m, start, end, X, visitedCells, open, depth, current, neighbors, i, open0, gScore0, fScore0,
                           parent0, depth0)
    requires current in depth && neighbors[i] in gScore0
    requires !Less(Fin(depth[current] + 1 + Heuristic(false, neighbors[i], end)), gScore0[neighbors[i]])
    ensures AStarRelaxInv(m, start, end, X, visitedCells, open, depth, current, neighbors, i + 1, open0, gScore0, fScore0,
                          parent0, depth0)
  {
    Unimproved(m, start, end, X, visitedCells, open, depth, current, neighbors, i, open0, gScore0, parent0, depth0, false);
  }

  /** Recording a new depth of `y` in both of A*'s score tables keeps them in step with the tree. */
  lemma BothScoresUpdated(m: Layout, gScore0: map<Pos, Score>, fScore0: map<Pos, Score>, parent0: map<Pos, Option<Pos>>,
                          depth0: map<Pos, nat>, end: Pos, y: Pos, k: nat, g: Score, f: Score, p: Option<Pos>)
    requires ScoresMatch(m, gScore0, parent0, depth0, false, end) && ScoresMatch(m, fScore0, parent0, depth0, true, end)
    requires y in gScore0 && y in fScore0
    requires g == Fin(k + Heuristic(false, y, end)) && f == Plus(g, ManhattanDistance(y, end))
    ensures ScoresMatch(m, gScore0[y := g], parent0[y := p], depth0[y := k], false, end)
    ensures ScoresMatch(m, fScore0[y := f], parent0[y := p], depth0[y := k], true, end)
  {
    ScoresUpdated(m, gScore0, parent0, depth0, false, end, y, k, g, p);
    ScoresUpdated(m, fScore0, parent0, depth0, true, end, y, k, f, p);
  }


}
