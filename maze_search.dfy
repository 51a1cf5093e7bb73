/**
 * What the four maze solvers share: the moves they may make
 * (`getValidNeighbors`), the Manhattan heuristic, the first-minimum scan of
 * the priority-queue stand-ins, the parent map and the path rebuilt from it,
 * and the facts about searches that every solver's proof uses.
 */
module MazeSearch {
  import opened MazeTypes
  import opened Grid

  /** What a solver returns: the path found (empty when none) and the cells in the order they were expanded. */
  datatype Solution = Solution(path: seq<Pos>, visitedCells: seq<Pos>)

  // ---------------------------------------------------------------------------
  // Moves

  /** `isValidMove`: the side `d` of the cell at `p` has no wall. */
  function IsValidMove(g: array2<Cell>, p: Pos, d: Side): (r: bool)
    reads g
    requires 0 <= p.row < g.Length0 && 0 <= p.col < g.Length1
    ensures r <==> !Wall(Snapshot(g), p, d)
  {
    !g[p.row, p.col].walls[d]
  }

  /**
   * `getValidNeighbors`: every in-bounds neighbour of `p` whose side of `p`
   * is open, in the order top, right, bottom, left. These are exactly the
   * moves of the passage graph out of `p`.
   */
  method GetValidNeighbors(g: array2<Cell>, p: Pos) returns (nbrs: seq<Pos>)
    requires 0 <= p.row < g.Length0 && 0 <= p.col < g.Length1
    ensures |nbrs| <= 4
    ensures forall i | 0 <= i < |nbrs| :: Adjacent(p, nbrs[i]) && Step(Snapshot(g), p, nbrs[i])
    ensures forall q | Step(Snapshot(g), p, q) :: q in nbrs
    ensures forall i, j | 0 <= i < j < |nbrs| :: DirectionOf(p, nbrs[i]) < DirectionOf(p, nbrs[j])
  {
    ghost var m := Snapshot(g);
    nbrs := [];
    for d := 0 to 4
      invariant |nbrs| <= d
      invariant forall i | 0 <= i < |nbrs| :: Adjacent(p, nbrs[i]) && Step(m, p, nbrs[i]) && DirectionOf(p, nbrs[i]) < d
      invariant forall e: Side | e < d && InBounds(m, Offset(p, e)) && !Wall(m, p, e) :: Offset(p, e) in nbrs
      invariant forall i, j | 0 <= i < j < |nbrs| :: DirectionOf(p, nbrs[i]) < DirectionOf(p, nbrs[j])
    {
      var q := Offset(p, d);
      if 0 <= q.row < g.Length0 && 0 <= q.col < g.Length1 && IsValidMove(g, p, d) {
        nbrs := nbrs + [q];
      }
    }
  }

  // ---------------------------------------------------------------------------
  // The heuristic

  function Abs(x: int): nat
  {
    if x < 0 then -x else x
  }

  /** `manhattanDistance`: |row difference| + |column difference|. */
  function ManhattanDistance(a: Pos, b: Pos): nat
  {
    Abs(a.row - b.row) + Abs(a.col - b.col)
  }

  /** The distance is zero exactly between equal positions, and symmetric. */
  lemma ManhattanMetric(a: Pos, b: Pos)
    ensures ManhattanDistance(a, b) == 0 <==> a == b
    ensures ManhattanDistance(a, b) == ManhattanDistance(b, a)
  {
  }

  /** One move changes the distance to any target by at most one. */
  lemma ManhattanStep(p: Pos, q: Pos, e: Pos)
    requires Adjacent(p, q)
    ensures ManhattanDistance(p, e) <= ManhattanDistance(q, e) + 1
    ensures ManhattanDistance(q, e) <= ManhattanDistance(p, e) + 1
  {
  }

  /** The estimate a search adds to its cost so far: Manhattan distance to the goal for A*, nothing otherwise. */
  function Heuristic(informed: bool, p: Pos, end: Pos): nat
  {
    if informed then ManhattanDistance(p, end) else 0
  }

  /**
   * The heuristic is consistent: along any path it drops by at most the
   * number of moves, so it never overestimates the moves left.
   */
  lemma {:induction false} HeuristicAlongPath(m: Layout, path: seq<Pos>, k: nat, informed: bool, end: Pos)
    requires IsPath(m, path) && k < |path|
    ensures Heuristic(informed, path[k], end) <= |path| - 1 - k + Heuristic(informed, path[|path| - 1], end)
    decreases |path| - k
  {
    if k < |path| - 1 {
      HeuristicAlongPath(m, path, k + 1, informed, end);
      assert Step(m, path[k], path[k + 1]);
      ManhattanStep(path[k], path[k + 1], end);
    }
  }

  /** No path reaches the goal in fewer moves than the Manhattan distance. */
  lemma ManhattanLowerBound(m: Layout, path: seq<Pos>)
    requires IsPath(m, path)
    ensures ManhattanDistance(path[0], path[|path| - 1]) < |path|
  {
    HeuristicAlongPath(m, path, 0, true, path[|path| - 1]);
    ManhattanMetric(path[|path| - 1], path[|path| - 1]);
  }

  // ---------------------------------------------------------------------------
  // The first minimum

  /**
   * The scan both priority-queue stand-ins use: the index of the first
   * entry of `open` whose score no other entry beats (`<` is strict, so a
   * tie keeps the earlier entry).
   */
  method FirstMinimum(open: seq<Pos>, score: map<Pos, Score>) returns (best: nat)
    requires |open| > 0
    requires forall i | 0 <= i < |open| :: open[i] in score
    ensures best < |open|
    ensures forall j | 0 <= j < |open| :: !Less(score[open[j]], score[open[best]])
    ensures forall j | 0 <= j < best :: Less(score[open[best]], score[open[j]])
  {
    best := 0;
    var lowest := score[open[0]];
    for i := 1 to |open|
      invariant best < i && lowest == score[open[best]]
      invariant forall j | 0 <= j < i :: !Less(score[open[j]], lowest)
      invariant forall j | 0 <= j < best :: Less(lowest, score[open[j]])
    {
      if Less(score[open[i]], lowest) {
        LessTrans(lowest, score[open[i]]);
        lowest := score[open[i]];
        best := i;
      }
    }
  }

  /** `Less` is a strict total order. */
  lemma LessTrans(a: Score, b: Score)
    requires Less(b, a)
    ensures forall c :: !Less(c, a) ==> !Less(c, b)
    ensures forall c :: Less(a, c) ==> Less(b, c)
  {
  }

  // ---------------------------------------------------------------------------
  // Parent maps and the path rebuilt from them

  /**
   * `parent` is a search tree rooted at `start`: the root has no parent,
   * every other entry's parent is an entry one move before it, and `depth`
   * counts the moves from the root.
   */
  ghost predicate ParentTree(m: Layout, start: Pos, parent: map<Pos, Option<Pos>>, depth: map<Pos, nat>)
  {
    start in parent && parent[start] == None && start in depth && depth[start] == 0 &&
    (forall v | v in parent :: v in depth && InBounds(m, v)) &&
    (forall v | v in parent && parent[v].None? :: v == start) &&
    (forall v | v in parent && parent[v].Some? ::
      parent[v].value in parent && Step(m, parent[v].value, v) && depth[v] == depth[parent[v].value] + 1)
  }

  /** Every entry of a search tree is reached from the root in `depth` moves. */
  lemma {:induction false} TreeHasPath(m: Layout, start: Pos, parent: map<Pos, Option<Pos>>, depth: map<Pos, nat>, v: Pos)
    requires ParentTree(m, start, parent, depth) && v in parent
    ensures exists path :: PathBetween(m, path, start, v) && |path| == depth[v] + 1
    decreases depth[v]
  {
    if parent[v].None? {
      assert PathBetween(m, [start], start, v);
    } else {
      var u := parent[v].value;
      TreeHasPath(m, start, parent, depth, u);
      var path :| PathBetween(m, path, start, u) && |path| == depth[u] + 1;
      var longer := path + [v];
      assert forall i | 0 <= i < |longer| - 1 :: longer[i] == path[i];
      assert PathBetween(m, longer, start, v);
    }
  }

  /** Every entry of a search tree is reachable from the root. */
  lemma TreeReachable(m: Layout, start: Pos, parent: map<Pos, Option<Pos>>, depth: map<Pos, nat>, v: Pos)
    requires ParentTree(m, start, parent, depth) && v in parent
    ensures Reachable(m, start, v)
  {
    TreeHasPath(m, start, parent, depth, v);
  }

  /** A path stays a path when a cell one move before its first cell is put in front. */
  lemma PrependStep(m: Layout, v: Pos, path: seq<Pos>)
    requires IsPath(m, path) && Step(m, v, path[0])
    ensures IsPath(m, [v] + path) && ([v] + path)[|path|] == path[|path| - 1]
  {
    var longer := [v] + path;
    assert forall i | 1 <= i < |longer| :: longer[i] == path[i - 1];
  }

  /**
   * The path from the root to `end`, built by prepending `end`, its parent,
   * its parent's parent, ... until the root, whose parent is `null`.
   */
  method ReconstructPath(parent: map<Pos, Option<Pos>>, end: Pos, ghost m: Layout, ghost start: Pos, ghost depth: map<Pos, nat>)
    returns (path: seq<Pos>)
    requires ParentTree(m, start, parent, depth) && end in parent
    ensures PathBetween(m, path, start, end) && |path| == depth[end] + 1
  {
    path := [];
    var curr := Some(end);
    while curr.Some?
      invariant curr.Some? ==> curr.value in parent && |path| + depth[curr.value] == depth[end]
      invariant curr.Some? && path == [] ==> curr.value == end
      invariant curr.Some? && path != [] ==> Step(m, curr.value, path[0])
      invariant curr.None? ==> path != [] && path[0] == start && |path| == depth[end] + 1
      invariant path != [] ==> IsPath(m, path) && path[|path| - 1] == end
      decreases if curr.Some? then depth[curr.value] + 1 else 0
    {
      var v := curr.value;
      if path != [] {
        PrependStep(m, v, path);
      }
      path := [v] + path;
      curr := parent[v];
    }
  }

  // ---------------------------------------------------------------------------
  // Facts about searches

  /** The in-bounds cells reachable from `s`. */
  ghost function ReachableFrom(m: Layout, s: Pos): set<Pos>
  {
    set p | p in AllCells(|m|, Width(m)) && Reachable(m, s, p)
  }

  /**
   * A set of reachable cells that holds `s` and every move out of its
   * members is the whole of `ReachableFrom(m, s)`.
   */
  lemma ExploredAll(m: Layout, s: Pos, X: set<Pos>)
    requires s in X
    requires forall x | x in X :: Reachable(m, s, x)
    requires forall x, y | x in X && Step(m, x, y) :: y in X
    ensures X == ReachableFrom(m, s)
  {
    forall p | p in ReachableFrom(m, s) ensures p in X {
      ClosedHoldsReachable(m, X, s, p);
    }
    forall p | p in X ensures p in ReachableFrom(m, s) {
      ReachableInBounds(m, s, p);
      assert p == Pos(p.row, p.col);
    }
  }

  lemma ReachableFromMember(m: Layout, s: Pos, e: Pos)
    ensures Reachable(m, s, e) ==> e in ReachableFrom(m, s)
  {
    if Reachable(m, s, e) {
      ReachableInBounds(m, s, e);
      assert e == Pos(e.row, e.col);
    }
  }

  /** `d[v]` is at most the number of moves of every path from `start` to `v`. */
  ghost predicate Optimal(m: Layout, start: Pos, d: map<Pos, nat>, v: Pos)
    requires v in d
  {
    forall path | PathBetween(m, path, start, v) :: d[v] < |path|
  }

  /** The first position of `path` outside `X`. */
  lemma {:induction false} FirstOutside(path: seq<Pos>, X: set<Pos>, i: nat) returns (k: nat)
    requires i < |path| && path[|path| - 1] !in X
    requires forall j | 0 <= j < i :: path[j] in X
    ensures i <= k < |path| && path[k] !in X
    ensures forall j | 0 <= j < k :: path[j] in X
    decreases |path| - i
  {
    if path[i] !in X {
      k := i;
    } else {
      k := FirstOutside(path, X, i + 1);
    }
  }

  /**
   * The settling step of Dijkstra's algorithm, of breadth-first search and
   * (with a consistent heuristic) of A*: when every expanded cell `X` has
   * its exact distance and has offered each of its moves to the open set
   * `O`, the open cell `u` with the least estimate `d + h` has its exact
   * distance too.
   */
  lemma {:induction false} Settle(m: Layout, start: Pos, X: set<Pos>, O: set<Pos>, d: map<Pos, nat>,
                                  informed: bool, end: Pos, u: Pos, path: seq<Pos>)
    requires PathBetween(m, path, start, u)
    requires u in O && u !in X && X <= d.Keys && O <= d.Keys
    requires start in X || (start in O && d[start] == 0)
    requires forall x | x in X :: Optimal(m, start, d, x)
    requires forall x, y | x in X && Step(m, x, y) :: y in X || (y in O && d[y] <= d[x] + 1)
    requires forall o | o in O :: d[u] + Heuristic(informed, u, end) <= d[o] + Heuristic(informed, o, end)
    ensures d[u] < |path|
  {
    var k := FirstOutside(path, X, 0);
    var y := path[k];
    if k == 0 {
      assert y == start;
    } else {
      var x := path[k - 1];
      var prefix := path[..k];
      assert PathBetween(m, prefix, start, x);
      assert d[x] < k;
      assert Step(m, x, y);
    }
    assert d[y] <= k;
    HeuristicAlongPath(m, path, k, informed, end);
  }

  /** The settling step for every path at once. */
  lemma SettleAll(m: Layout, start: Pos, X: set<Pos>, O: set<Pos>, d: map<Pos, nat>, informed: bool, end: Pos, u: Pos)
    requires u in O && u !in X && X <= d.Keys && O <= d.Keys
    requires start in X || (start in O && d[start] == 0)
    requires forall x | x in X :: Optimal(m, start, d, x)
    requires forall x, y | x in X && Step(m, x, y) :: y in X || (y in O && d[y] <= d[x] + 1)
    requires forall o | o in O :: d[u] + Heuristic(informed, u, end) <= d[o] + Heuristic(informed, o, end)
    ensures Optimal(m, start, d, u)
  {
    forall path | PathBetween(m, path, start, u) ensures d[u] < |path| {
      Settle(m, start, X, O, d, informed, end, u, path);
    }
  }

  // ---------------------------------------------------------------------------
  // What every solver promises, and the invariant that gives it

  /** `path` has no more moves than any other path from `start` to `end`. */
  ghost predicate Shortest(m: Layout, path: seq<Pos>, start: Pos, end: Pos)
  {
    forall other | PathBetween(m, other, start, end) :: |path| <= |other|
  }

  /**
   * The outcome of a search from `start` for `end`: the cells expanded
   * start with `start`, are expanded once each and are all reachable; a
   * path is returned exactly when `end` is reachable, it runs from `start`
   * to `end` and `end` was the last cell expanded; when there is none, every
   * reachable cell was expanded; and a search for the start itself expands
   * only the start and returns the one-cell path.
   */
  ghost predicate Explored(m: Layout, start: Pos, end: Pos, r: Solution)
  {
    r.visitedCells != [] && r.visitedCells[0] == start && NoDup(r.visitedCells) &&
    (forall i | 0 <= i < |r.visitedCells| :: Reachable(m, start, r.visitedCells[i])) &&
    (r.path == [] <==> !Reachable(m, start, end)) &&
    (r.path != [] ==> PathBetween(m, r.path, start, end) && r.visitedCells[|r.visitedCells| - 1] == end) &&
    (r.path == [] ==> Elems(r.visitedCells) == ReachableFrom(m, start)) &&
    (start == end ==> r.path == [start] && r.visitedCells == [start])
  }

  /** The expanded cells of a search fit in the grid. */
  lemma ExploredBound(m: Layout, start: Pos, end: Pos, r: Solution)
    requires Explored(m, start, end, r)
    ensures |r.visitedCells| <= |m| * Width(m)
  {
    forall i | 0 <= i < |r.visitedCells| ensures 0 <= r.visitedCells[i].row < |m| && 0 <= r.visitedCells[i].col < Width(m) {
      ReachableInBounds(m, start, r.visitedCells[i]);
    }
    NoDupBound(r.visitedCells, |m|, Width(m));
  }

  /**
   * The bookkeeping every solver keeps: `parent` is a search tree whose
   * entries are the expanded cells `X` (in `visitedCells`, once each) and
   * the cells waiting in `frontier` (once each), and `end` has not been
   * expanded.
   */
  ghost predicate TreeFrame(m: Layout, start: Pos, end: Pos, frontier: seq<Pos>, parent: map<Pos, Option<Pos>>,
                            depth: map<Pos, nat>, X: set<Pos>, visitedCells: seq<Pos>)
  {
    ParentTree(m, start, parent, depth) &&
    parent.Keys == X + Elems(frontier) && X !! Elems(frontier) && NoDup(frontier) &&
    X == Elems(visitedCells) && NoDup(visitedCells) &&
    (visitedCells == [] ==> frontier == [start]) &&
    (visitedCells != [] ==> visitedCells[0] == start) &&
    end !in X
  }

  /** The search invariant: the bookkeeping, and every move out of an expanded cell leads into the tree. */
  ghost predicate SearchInv(m: Layout, start: Pos, end: Pos, frontier: seq<Pos>, parent: map<Pos, Option<Pos>>,
                            depth: map<Pos, nat>, X: set<Pos>, visitedCells: seq<Pos>)
  {
    TreeFrame(m, start, end, frontier, parent, depth, X, visitedCells) &&
    (forall x, y | x in X && Step(m, x, y) :: y in parent)
  }

  /** Every expanded cell has its exact distance. */
  ghost predicate Settled(m: Layout, start: Pos, depth: map<Pos, nat>, X: set<Pos>)
    requires X <= depth.Keys
  {
    forall x | x in X :: Optimal(m, start, depth, x)
  }

  /**
   * Every move out of an expanded cell `x` leads to an expanded cell or to
   * a cell of the frontier at most one deeper than `x`.
   */
  ghost predicate Relaxed(m: Layout, X: set<Pos>, frontier: seq<Pos>, depth: map<Pos, nat>)
    requires X + Elems(frontier) <= depth.Keys
  {
    forall x, y | x in X && Step(m, x, y) :: y in X || (y in Elems(frontier) && depth[y] <= depth[x] + 1)
  }

  /** Relaxed moves stay inside the tree. */
  lemma RelaxedInTree(m: Layout, start: Pos, end: Pos, frontier: seq<Pos>, parent: map<Pos, Option<Pos>>,
                      depth: map<Pos, nat>, X: set<Pos>, visitedCells: seq<Pos>)
    requires TreeFrame(m, start, end, frontier, parent, depth, X, visitedCells) && Relaxed(m, X, frontier, depth)
    ensures SearchInv(m, start, end, frontier, parent, depth, X, visitedCells)
  {
  }

  /** The invariant before the first expansion. */
  lemma SearchStart(m: Layout, start: Pos, end: Pos)
    requires InBounds(m, start)
    ensures SearchInv(m, start, end, [start], map[start := None], map[start := 0], {}, [])
  {
    assert Elems([start]) == {start};
  }

  /** Taking the entry at index `k` off the frontier and expanding it. */
  lemma {:induction false} SearchPop(m: Layout, start: Pos, end: Pos, frontier: seq<Pos>, parent: map<Pos, Option<Pos>>,
                                     depth: map<Pos, nat>, X: set<Pos>, visitedCells: seq<Pos>, k: nat)
    requires SearchInv(m, start, end, frontier, parent, depth, X, visitedCells) && k < |frontier|
    ensures frontier[k] !in X && frontier[k] in parent && frontier[k] in AllCells(|m|, Width(m))
    ensures NoDup(RemoveAt(frontier, k)) && NoDup(visitedCells + [frontier[k]])
    ensures Elems(visitedCells + [frontier[k]]) == X + {frontier[k]}
    ensures parent.Keys == X + {frontier[k]} + Elems(RemoveAt(frontier, k))
    ensures (X + {frontier[k]}) !! Elems(RemoveAt(frontier, k))
    ensures (visitedCells + [frontier[k]])[0] == start
    ensures frontier[k] != end ==>
      TreeFrame(m, start, end, RemoveAt(frontier, k), parent, depth, X + {frontier[k]}, visitedCells + [frontier[k]])
  {
    var u := frontier[k];
    assert u in Elems(frontier);
    assert u == Pos(u.row, u.col);
    RemoveAtElems(frontier, k);
    var vc := visitedCells + [u];
    assert Elems(vc) == Elems(visitedCells) + {u};
    forall i, j | 0 <= i < j < |vc| ensures vc[i] != vc[j] {
      if j == |vc| - 1 {
        assert vc[i] in Elems(visitedCells);
      }
    }
  }

  /** When the expanded cell is `end`, the rebuilt path completes the outcome. */
  lemma {:induction false} SearchFound(m: Layout, start: Pos, end: Pos, frontier: seq<Pos>, parent: map<Pos, Option<Pos>>,
                                       depth: map<Pos, nat>, X: set<Pos>, visitedCells: seq<Pos>, k: nat, path: seq<Pos>)
    requires SearchInv(m, start, end, frontier, parent, depth, X, visitedCells) && k < |frontier| && frontier[k] == end
    requires PathBetween(m, path, start, end) && |path| == depth[end] + 1
    ensures Explored(m, start, end, Solution(path, visitedCells + [end]))
  {
    SearchPop(m, start, end, frontier, parent, depth, X, visitedCells, k);
    var vc := visitedCells + [end];
    forall i | 0 <= i < |vc| ensures Reachable(m, start, vc[i]) {
      assert vc[i] in Elems(vc);
      TreeReachable(m, start, parent, depth, vc[i]);
    }
  }

  /** When the frontier runs out, `end` is unreachable and every reachable cell was expanded. */
  lemma {:induction false} SearchExhausted(m: Layout, start: Pos, end: Pos, parent: map<Pos, Option<Pos>>,
                                           depth: map<Pos, nat>, X: set<Pos>, visitedCells: seq<Pos>)
    requires SearchInv(m, start, end, [], parent, depth, X, visitedCells)
    ensures Explored(m, start, end, Solution([], visitedCells))
  {
    var none: seq<Pos> := [];
    assert Elems(none) == {};
    assert start in X;
    forall x | x in X ensures Reachable(m, start, x) {
      TreeReachable(m, start, parent, depth, x);
    }
    ExploredAll(m, start, X);
    ReachableFromMember(m, start, end);
    forall i | 0 <= i < |visitedCells| ensures Reachable(m, start, visitedCells[i]) {
      assert visitedCells[i] in Elems(visitedCells);
    }
  }
}
