/**
 * The four maze solvers and `solveMaze`. Each reads the grid and never
 * writes it (no solver has a `modifies` clause); each returns the path it
 * found, rebuilt from its parent map, and the cells in the order it
 * expanded them.
 */
module MazeSolvers {
  import opened MazeTypes
  import opened Grid
  import opened MazeSearch

  // ---------------------------------------------------------------------------
  // Depth-first and breadth-first search: a visited matrix and a frontier

  /** The `visited` matrix marks exactly the cells that have a parent entry. */
  ghost predicate Marks(visited: array2<bool>, m: Layout, parent: map<Pos, Option<Pos>>)
    reads visited
  {
    visited.Length0 == |m| && visited.Length1 == Width(m) &&
    forall p | InBounds(m, p) :: visited[p.row, p.col] <==> p in parent
  }

  /**
   * The cells `added` are new moves out of `current`: each joins the tree
   * with `current` as parent, one deeper; older entries keep theirs; and
   * every move out of `current` is now in the tree.
   */
  ghost predicate Pushed(m: Layout, current: Pos, parent: map<Pos, Option<Pos>>, depth: map<Pos, nat>,
                         added: seq<Pos>, parent1: map<Pos, Option<Pos>>, depth1: map<Pos, nat>)
  {
    current in depth && NoDup(added) &&
    (forall y | y in added :: y !in parent && Step(m, current, y)) &&
    parent1.Keys == parent.Keys + Elems(added) &&
    (forall y | y in parent :: parent1[y] == parent[y] && y in depth1 && y in depth && depth1[y] == depth[y]) &&
    (forall y | y in added :: parent1[y] == Some(current) && y in depth1 && depth1[y] == depth[current] + 1) &&
    (forall y | Step(m, current, y) :: y in parent1)
  }

  /**
   * The cells of `ns` that are not in `seen`, in their order in `ns`, each
   * once: what the inner loop of both searches appends to the frontier.
   */
  function Unvisited(ns: seq<Pos>, seen: set<Pos>): seq<Pos>
    decreases |ns|
  {
    if ns == [] then []
    else if ns[0] in seen then Unvisited(ns[1..], seen)
    else [ns[0]] + Unvisited(ns[1..], seen + {ns[0]})
  }

  /** `Unvisited` holds exactly the cells of `ns` outside `seen`, each once. */
  lemma {:induction false} UnvisitedFacts(ns: seq<Pos>, seen: set<Pos>)
    ensures forall x :: x in Unvisited(ns, seen) <==> x in ns && x !in seen
    ensures NoDup(Unvisited(ns, seen))
    decreases |ns|
  {
    if ns != [] {
      var rest := ns[1..];
      assert forall x :: x in ns <==> x == ns[0] || x in rest;
      if ns[0] in seen {
        UnvisitedFacts(rest, seen);
      } else {
        UnvisitedFacts(rest, seen + {ns[0]});
        var tail := Unvisited(rest, seen + {ns[0]});
        assert ns[0] !in tail;
        forall i, j | 0 <= i < j < |[ns[0]] + tail| ensures ([ns[0]] + tail)[i] != ([ns[0]] + tail)[j] {
          if i == 0 {
            assert ([ns[0]] + tail)[j] == tail[j - 1];
          } else {
            assert ([ns[0]] + tail)[i] == tail[i - 1] && ([ns[0]] + tail)[j] == tail[j - 1];
          }
        }
      }
    }
  }

  /** Unfolding `Unvisited` at index `i` of `ns`. */
  lemma UnvisitedAt(ns: seq<Pos>, i: nat, seen: set<Pos>)
    requires i < |ns|
    ensures Unvisited(ns[i..], seen) ==
      if ns[i] in seen then Unvisited(ns[i + 1..], seen) else [ns[i]] + Unvisited(ns[i + 1..], seen + {ns[i]})
  {
    assert ns[i..][0] == ns[i];
    assert ns[i..][1..] == ns[i + 1..];
  }

  /**
   * The inner loop of both searches: every neighbour not yet visited is
   * marked, gets `current` as its parent and joins the end of the frontier,
   * in the order the neighbours are listed.
   */
  method PushUnvisited(visited: array2<bool>, current: Pos, neighbors: seq<Pos>, frontier: seq<Pos>,
                       parent: map<Pos, Option<Pos>>, ghost depth: map<Pos, nat>, ghost m: Layout)
    returns (frontier1: seq<Pos>, parent1: map<Pos, Option<Pos>>, ghost depth1: map<Pos, nat>, ghost added: seq<Pos>)
    requires Marks(visited, m, parent) && current in depth && parent.Keys <= depth.Keys
    requires forall i | 0 <= i < |neighbors| :: Step(m, current, neighbors[i])
    requires forall q | Step(m, current, q) :: q in neighbors
    modifies visited
    ensures Marks(visited, m, parent1)
    ensures frontier1 == frontier + added && added == Unvisited(neighbors, parent.Keys)
    ensures Pushed(m, current, parent, depth, added, parent1, depth1)
  {
    frontier1, parent1, depth1, added := frontier, parent, depth, [];
    assert neighbors[0..] == neighbors;
    for i := 0 to |neighbors|
      invariant PushInv(visited, m, current, neighbors, i, frontier, parent, depth, frontier1, parent1, depth1, added)
    {
      frontier1, parent1, depth1, added :=
        PushOne(visited, current, neighbors, i, frontier1, parent1, depth1, added, m, frontier, parent, depth);
    }
    PushDone(visited, m, current, neighbors, frontier, parent, depth, frontier1, parent1, depth1, added);
  }

  /** The invariant of the push loop after `i` neighbours: the marks match the parent map, and the pushes so far. */
  ghost predicate PushInv(visited: array2<bool>, m: Layout, current: Pos, neighbors: seq<Pos>, i: nat,
                          frontier: seq<Pos>, parent: map<Pos, Option<Pos>>, depth: map<Pos, nat>,
                          frontier1: seq<Pos>, parent1: map<Pos, Option<Pos>>, depth1: map<Pos, nat>, added: seq<Pos>)
    reads visited
  {
    Marks(visited, m, parent1) &&
    Pushing(m, current, neighbors, i, frontier, parent, depth, frontier1, parent1, depth1, added)
  }

  /**
   * The pushes after `i` neighbours: the cells pushed so far are the
   * unvisited ones among the first `i` neighbours, in their order, and each
   * joined the tree below `current`, one deeper.
   */
  ghost predicate Pushing(m: Layout, current: Pos, neighbors: seq<Pos>, i: nat,
                          frontier: seq<Pos>, parent: map<Pos, Option<Pos>>, depth: map<Pos, nat>,
                          frontier1: seq<Pos>, parent1: map<Pos, Option<Pos>>, depth1: map<Pos, nat>, added: seq<Pos>)
  {
    PushOrder(neighbors, i, frontier, parent, frontier1, parent1, added) &&
    PushTree(m, current, neighbors, parent, depth, parent1, depth1, added)
  }

  /** The order half of `Pushing`: `added` is the unvisited prefix of the neighbours, in order, and the marks grew by it. */
  ghost predicate PushOrder(neighbors: seq<Pos>, i: nat, frontier: seq<Pos>, parent: map<Pos, Option<Pos>>,
                            frontier1: seq<Pos>, parent1: map<Pos, Option<Pos>>, added: seq<Pos>)
  {
    i <= |neighbors| &&
    added + Unvisited(neighbors[i..], parent1.Keys) == Unvisited(neighbors, parent.Keys) &&
    frontier1 == frontier + added && NoDup(added) &&
    parent1.Keys == parent.Keys + Elems(added) &&
    (forall j | 0 <= j < i :: neighbors[j] in parent1)
  }

  /** The tree half of `Pushing`: old entries kept, every added cell a step below `current`. */
  ghost predicate PushTree(m: Layout, current: Pos, neighbors: seq<Pos>, parent: map<Pos, Option<Pos>>, depth: map<Pos, nat>,
                           parent1: map<Pos, Option<Pos>>, depth1: map<Pos, nat>, added: seq<Pos>)
  {
    current in depth && parent.Keys <= depth.Keys &&
    (forall j | 0 <= j < |neighbors| :: Step(m, current, neighbors[j])) &&
    (forall y | y in added :: y !in parent && Step(m, current, y)) &&
    (forall y | y in parent :: y in parent1 && parent1[y] == parent[y] && y in depth1 && depth1[y] == depth[y]) &&
    (forall y | y in added :: y in parent1 && parent1[y] == Some(current) && y in depth1 && depth1[y] == depth[current] + 1)
  }

  /** Pushing an unmarked `neighbors[i]` keeps the pushes in step. */
  lemma PushTake(m: Layout, current: Pos, neighbors: seq<Pos>, i: nat,
                 frontier: seq<Pos>, parent: map<Pos, Option<Pos>>, depth: map<Pos, nat>,
                 frontier1: seq<Pos>, parent1: map<Pos, Option<Pos>>, depth1: map<Pos, nat>, added: seq<Pos>, k: nat)
    requires i < |neighbors| && neighbors[i] !in parent1
    requires Pushing(m, current, neighbors, i, frontier, parent, depth, frontier1, parent1, depth1, added)
    requires k == depth[current] + 1
    ensures Pushing(m, current, neighbors, i + 1, frontier, parent, depth, frontier1 + [neighbors[i]],
                    parent1[neighbors[i] := Some(current)], depth1[neighbors[i] := k], added + [neighbors[i]])
  {
    TakeOrder(neighbors, i, frontier, parent, frontier1, parent1, added, current);
    TakeTree(m, current, neighbors, i, parent, depth, parent1, depth1, added, k);
  }

  /** Taking `neighbors[i]` extends the unvisited prefix by it. */
  lemma TakeOrder(neighbors: seq<Pos>, i: nat, frontier: seq<Pos>, parent: map<Pos, Option<Pos>>,
                  frontier1: seq<Pos>, parent1: map<Pos, Option<Pos>>, added: seq<Pos>, current: Pos)
    requires i < |neighbors| && neighbors[i] !in parent1
    requires PushOrder(neighbors, i, frontier, parent, frontier1, parent1, added)
    ensures PushOrder(neighbors, i + 1, frontier, parent, frontier1 + [neighbors[i]],
                      parent1[neighbors[i] := Some(current)], added + [neighbors[i]])
  {
    var y := neighbors[i];
    var p2 := parent1[y := Some(current)];
    UnvisitedAt(neighbors, i, parent1.Keys);
    assert p2.Keys == parent1.Keys + {y};
    assert (added + [y]) + Unvisited(neighbors[i + 1..], p2.Keys) == added + Unvisited(neighbors[i..], parent1.Keys);
    AppendFresh(added, y);
  }

  /** Taking `neighbors[i]` hangs it below `current`, one deeper, and keeps the old entries. */
  lemma TakeTree(m: Layout, current: Pos, neighbors: seq<Pos>, i: nat, parent: map<Pos, Option<Pos>>, depth: map<Pos, nat>,
                 parent1: map<Pos, Option<Pos>>, depth1: map<Pos, nat>, added: seq<Pos>, k: nat)
    requires i < |neighbors| && neighbors[i] !in parent1
    requires PushTree(m, current, neighbors, parent, depth, parent1, depth1, added)
    requires k == depth[current] + 1
    ensures PushTree(m, current, neighbors, parent, depth, parent1[neighbors[i] := Some(current)],
                     depth1[neighbors[i] := k], added + [neighbors[i]])
  {
  }

  /** Appending a new element to a duplicate-free sequence keeps it duplicate-free and adds one element. */
  lemma AppendFresh(s: seq<Pos>, y: Pos)
    requires NoDup(s) && y !in s
    ensures NoDup(s + [y]) && Elems(s + [y]) == Elems(s) + {y}
  {
    forall a, b | 0 <= a < b < |s + [y]| ensures (s + [y])[a] != (s + [y])[b] {
      if b == |s| {
        assert (s + [y])[a] in s;
      }
    }
  }

  /** Skipping a marked `neighbors[i]` keeps the pushes in step. */
  lemma PushSkip(m: Layout, current: Pos, neighbors: seq<Pos>, i: nat,
                 frontier: seq<Pos>, parent: map<Pos, Option<Pos>>, depth: map<Pos, nat>,
                 frontier1: seq<Pos>, parent1: map<Pos, Option<Pos>>, depth1: map<Pos, nat>, added: seq<Pos>)
    requires i < |neighbors| && neighbors[i] in parent1
    requires Pushing(m, current, neighbors, i, frontier, parent, depth, frontier1, parent1, depth1, added)
    ensures Pushing(m, current, neighbors, i + 1, frontier, parent, depth, frontier1, parent1, depth1, added)
  {
    UnvisitedAt(neighbors, i, parent1.Keys);
  }

  /** One pass of the push loop: mark and push `neighbors[i]` unless it is already marked. */
  method PushOne(visited: array2<bool>, current: Pos, neighbors: seq<Pos>, i: nat, frontier1: seq<Pos>,
                 parent1: map<Pos, Option<Pos>>, ghost depth1: map<Pos, nat>, ghost added: seq<Pos>, ghost m: Layout,
                 ghost frontier: seq<Pos>, ghost parent: map<Pos, Option<Pos>>, ghost depth: map<Pos, nat>)
    returns (frontier2: seq<Pos>, parent2: map<Pos, Option<Pos>>, ghost depth2: map<Pos, nat>, ghost added2: seq<Pos>)
    requires i < |neighbors|
    requires PushInv(visited, m, current, neighbors, i, frontier, parent, depth, frontier1, parent1, depth1, added)
    modifies visited
    ensures PushInv(visited, m, current, neighbors, i + 1, frontier, parent, depth, frontier2, parent2, depth2, added2)
  {
    var neighbor := neighbors[i];
    assert Step(m, current, neighbor);
    frontier2, parent2, depth2, added2 := frontier1, parent1, depth1, added;
    if !visited[neighbor.row, neighbor.col] {
      ghost var k := depth[current] + 1;
      PushTake(m, current, neighbors, i, frontier, parent, depth, frontier1, parent1, depth1, added, k);
      visited[neighbor.row, neighbor.col] := true;
      parent2 := parent1[neighbor := Some(current)];
      frontier2 := frontier1 + [neighbor];
      depth2 := depth1[neighbor := k];
      added2 := added + [neighbor];
    } else {
      PushSkip(m, current, neighbors, i, frontier, parent, depth, frontier1, parent1, depth1, added);
    }
  }

  /** After the last neighbour the push loop has done what `PushUnvisited` promises. */
  lemma PushDone(visited: array2<bool>, m: Layout, current: Pos, neighbors: seq<Pos>, frontier: seq<Pos>,
                 parent: map<Pos, Option<Pos>>, depth: map<Pos, nat>, frontier1: seq<Pos>,
                 parent1: map<Pos, Option<Pos>>, depth1: map<Pos, nat>, added: seq<Pos>)
    requires PushInv(visited, m, current, neighbors, |neighbors|, frontier, parent, depth, frontier1, parent1, depth1, added)
    requires forall q | Step(m, current, q) :: q in neighbors
    ensures Marks(visited, m, parent1)
    ensures frontier1 == frontier + added && added == Unvisited(neighbors, parent.Keys)
    ensures Pushed(m, current, parent, depth, added, parent1, depth1)
  {
    assert neighbors[|neighbors|..] == [];
    assert added + [] == added;
  }

  /** Expanding the frontier entry at index `k` and pushing its unvisited neighbours keeps the search invariant. */
  lemma {:induction false} SearchExpanded(m: Layout, start: Pos, end: Pos, frontier: seq<Pos>, parent: map<Pos, Option<Pos>>,
                                          depth: map<Pos, nat>, X: set<Pos>, visitedCells: seq<Pos>, k: nat,
                                          added: seq<Pos>, parent1: map<Pos, Option<Pos>>, depth1: map<Pos, nat>)
    requires SearchInv(m, start, end, frontier, parent, depth, X, visitedCells) && k < |frontier| && frontier[k] != end
    requires Pushed(m, frontier[k], parent, depth, added, parent1, depth1)
    ensures SearchInv(m, start, end, RemoveAt(frontier, k) + added, parent1, depth1, X + {frontier[k]}, visitedCells + [frontier[k]])
  {
    var u := frontier[k];
    SearchPop(m, start, end, frontier, parent, depth, X, visitedCells, k);
    var rest := RemoveAt(frontier, k);
    var f1 := rest + added;
    assert Elems(f1) == Elems(rest) + Elems(added);
    forall i, j | 0 <= i < j < |f1| ensures f1[i] != f1[j] {
      if i < |rest| && j >= |rest| {
        assert f1[i] in Elems(rest);
        assert f1[j] in added;
      }
    }
    assert ParentTree(m, start, parent1, depth1) by {
      forall v | v in parent1 && parent1[v].Some?
        ensures parent1[v].value in parent1 && Step(m, parent1[v].value, v) && depth1[v] == depth1[parent1[v].value] + 1
      {
        if v in parent {
          assert parent1[v].value in parent;
        } else {
          assert v in Elems(added);
        }
      }
      forall v | v in parent1 ensures v in depth1 && InBounds(m, v) {
        if v !in parent {
          assert v in Elems(added);
        }
      }
    }
  }

  /**
   * Breadth-first layering: the queue's depths never decrease and span at
   * most one, every expanded cell has its exact distance, and every move
   * out of an expanded cell `x` leads to an expanded cell or to a queued
   * cell at most one deeper than `x`.
   */
  ghost predicate Layered(m: Layout, start: Pos, queue: seq<Pos>, depth: map<Pos, nat>, X: set<Pos>)
    requires X + Elems(queue) <= depth.Keys
  {
    (forall i, j | 0 <= i <= j < |queue| :: depth[queue[i]] <= depth[queue[j]] <= depth[queue[i]] + 1) &&
    Settled(m, start, depth, X) && Relaxed(m, X, queue, depth)
  }

  /** The search starts layered: nothing expanded, only `start` queued. */
  lemma LayeredStart(m: Layout, start: Pos)
    ensures Layered(m, start, [start], map[start := 0], {})
  {
  }

  /** The head of a layered queue has its exact distance. */
  lemma LayeredSettle(m: Layout, start: Pos, end: Pos, queue: seq<Pos>, parent: map<Pos, Option<Pos>>,
                      depth: map<Pos, nat>, X: set<Pos>, visitedCells: seq<Pos>)
    requires SearchInv(m, start, end, queue, parent, depth, X, visitedCells) && |queue| > 0
    requires Layered(m, start, queue, depth, X)
    ensures Optimal(m, start, depth, queue[0])
  {
    assert queue[0] in Elems(queue);
    forall o | o in Elems(queue) ensures depth[queue[0]] + Heuristic(false, queue[0], end) <= depth[o] + Heuristic(false, o, end) {
      var i :| 0 <= i < |queue| && queue[i] == o;
    }
    SettleAll(m, start, X, Elems(queue), depth, false, end, queue[0]);
  }

  /** Expanding the head of a layered queue and appending its new neighbours keeps the layering. */
  lemma {:induction false} LayeredStep(m: Layout, start: Pos, end: Pos, queue: seq<Pos>, parent: map<Pos, Option<Pos>>,
                                       depth: map<Pos, nat>, X: set<Pos>, visitedCells: seq<Pos>,
                                       added: seq<Pos>, parent1: map<Pos, Option<Pos>>, depth1: map<Pos, nat>)
    requires SearchInv(m, start, end, queue, parent, depth, X, visitedCells) && |queue| > 0 && queue[0] != end
    requires Layered(m, start, queue, depth, X)
    requires Pushed(m, queue[0], parent, depth, added, parent1, depth1)
    ensures SearchInv(m, start, end, RemoveAt(queue, 0) + added, parent1, depth1, X + {queue[0]}, visitedCells + [queue[0]])
    ensures Layered(m, start, RemoveAt(queue, 0) + added, depth1, X + {queue[0]})
  {
    var u := queue[0];
    LayeredSettle(m, start, end, queue, parent, depth, X, visitedCells);
    SearchExpanded(m, start, end, queue, parent, depth, X, visitedCells, 0, added, parent1, depth1);
    var q1 := RemoveAt(queue, 0) + added;
    var X1 := X + {u};
    LayeredSorted(m, start, end, queue, parent, depth, X, visitedCells, added, parent1, depth1);
    forall x | x in X1 ensures Optimal(m, start, depth1, x) {
      assert Optimal(m, start, depth, x);
    }
    assert Settled(m, start, depth1, X1);
    LayeredMoves(m, start, end, queue, parent, depth, X, visitedCells, added, parent1, depth1);
    assert Relaxed(m, X1, q1, depth1);
  }

  lemma {:induction false} LayeredSorted(m: Layout, start: Pos, end: Pos, queue: seq<Pos>, parent: map<Pos, Option<Pos>>,
                                         depth: map<Pos, nat>, X: set<Pos>, visitedCells: seq<Pos>,
                                         added: seq<Pos>, parent1: map<Pos, Option<Pos>>, depth1: map<Pos, nat>)
    requires SearchInv(m, start, end, queue, parent, depth, X, visitedCells) && |queue| > 0
    requires Layered(m, start, queue, depth, X)
    requires Pushed(m, queue[0], parent, depth, added, parent1, depth1)
    ensures var q1 := RemoveAt(queue, 0) + added;
      forall i, j | 0 <= i <= j < |q1| :: q1[i] in depth1 && q1[j] in depth1 && depth1[q1[i]] <= depth1[q1[j]] <= depth1[q1[i]] + 1
  {
    forall i | 0 <= i < |queue| ensures queue[i] in depth && queue[i] in depth1 && depth1[queue[i]] == depth[queue[i]] {
      assert queue[i] in Elems(queue);
    }
    SortedAppend(queue, added, depth, depth1);
  }

  /**
   * A queue whose depths are non-decreasing and span at most one stays so
   * when its head is removed and cells one deeper than the head are appended.
   */
  lemma SortedAppend(queue: seq<Pos>, added: seq<Pos>, depth: map<Pos, nat>, depth1: map<Pos, nat>)
    requires |queue| > 0
    requires forall i | 0 <= i < |queue| :: queue[i] in depth && queue[i] in depth1 && depth1[queue[i]] == depth[queue[i]]
    requires forall i, j | 0 <= i <= j < |queue| :: depth[queue[i]] <= depth[queue[j]] <= depth[queue[i]] + 1
    requires forall y | y in added :: y in depth1 && depth1[y] == depth[queue[0]] + 1
    ensures var q1 := RemoveAt(queue, 0) + added;
      forall i, j | 0 <= i <= j < |q1| :: q1[i] in depth1 && q1[j] in depth1 && depth1[q1[i]] <= depth1[q1[j]] <= depth1[q1[i]] + 1
  {
    var rest := RemoveAt(queue, 0);
    var q1 := rest + added;
    assert forall i | 0 <= i < |rest| :: rest[i] == queue[i + 1];
    forall i, j | 0 <= i <= j < |q1| ensures q1[i] in depth1 && q1[j] in depth1 && depth1[q1[i]] <= depth1[q1[j]] <= depth1[q1[i]] + 1 {
      if j < |rest| {
        assert depth[queue[i + 1]] <= depth[queue[j + 1]] <= depth[queue[i + 1]] + 1;
      } else if i < |rest| {
        assert q1[j] in added;
        assert depth[queue[0]] <= depth[queue[i + 1]] <= depth[queue[0]] + 1;
      } else {
        assert q1[i] in added && q1[j] in added;
      }
    }
  }

  lemma {:induction false} LayeredMoves(m: Layout, start: Pos, end: Pos, queue: seq<Pos>, parent: map<Pos, Option<Pos>>,
                                        depth: map<Pos, nat>, X: set<Pos>, visitedCells: seq<Pos>,
                                        added: seq<Pos>, parent1: map<Pos, Option<Pos>>, depth1: map<Pos, nat>)
    requires SearchInv(m, start, end, queue, parent, depth, X, visitedCells) && |queue| > 0
    requires Layered(m, start, queue, depth, X)
    requires Pushed(m, queue[0], parent, depth, added, parent1, depth1)
    ensures var q1 := RemoveAt(queue, 0) + added;
      forall x, y | x in X + {queue[0]} && Step(m, x, y) ::
        y in X + {queue[0]} || (y in Elems(q1) && x in depth1 && y in depth1 && depth1[y] <= depth1[x] + 1)
  {
    var q1 := RemoveAt(queue, 0) + added;
    RemoveAtElems(queue, 0);
    assert Elems(q1) == Elems(RemoveAt(queue, 0)) + Elems(added);
    forall x, y | x in X + {queue[0]} && Step(m, x, y)
      ensures y in X + {queue[0]} || (y in Elems(q1) && x in depth1 && y in depth1 && depth1[y] <= depth1[x] + 1)
    {
      if y !in X + {queue[0]} {
        LayeredMove(m, start, end, queue, parent, depth, X, visitedCells, added, parent1, depth1, x, y);
      }
    }
  }

  /** One move out of an expanded cell, as `LayeredMoves` states it for all of them. */
  lemma LayeredMove(m: Layout, start: Pos, end: Pos, queue: seq<Pos>, parent: map<Pos, Option<Pos>>,
                    depth: map<Pos, nat>, X: set<Pos>, visitedCells: seq<Pos>,
                    added: seq<Pos>, parent1: map<Pos, Option<Pos>>, depth1: map<Pos, nat>, x: Pos, y: Pos)
    requires SearchInv(m, start, end, queue, parent, depth, X, visitedCells) && |queue| > 0
    requires Layered(m, start, queue, depth, X)
    requires Pushed(m, queue[0], parent, depth, added, parent1, depth1)
    requires Elems(RemoveAt(queue, 0)) == Elems(queue) - {queue[0]}
    requires x in X + {queue[0]} && Step(m, x, y) && y !in X + {queue[0]}
    ensures y in Elems(RemoveAt(queue, 0)) + Elems(added) && x in depth1 && y in depth1 && depth1[y] <= depth1[x] + 1
  {
    var u := queue[0];
    assert u in Elems(queue);
    if x == u {
      assert y in parent1;
      if y in parent {
        var i :| 0 <= i < |queue| && queue[i] == y;
        assert depth[queue[0]] <= depth[queue[i]] <= depth[queue[0]] + 1;
      } else {
        assert y in Elems(added);
      }
    } else {
      assert y in Elems(queue) && depth[y] <= depth[x] + 1;
    }
  }

  /**
   * `solveBFS`: expand the cell at the head of the queue; stop when it is
   * `end`; otherwise append its unvisited open neighbours. The path found is
   * a shortest one.
   */
  method SolveBFS(g: array2<Cell>, start: Pos, end: Pos) returns (r: Solution)
    requires 0 <= start.row < g.Length0 && 0 <= start.col < g.Length1
    ensures Explored(Snapshot(g), start, end, r)
    ensures r.path != [] ==> Shortest(Snapshot(g), r.path, start, end)
  {
    ghost var m := Snapshot(g);
    var visitedCells: seq<Pos> := [];
    var queue := [start];
    var visited := new bool[g.Length0, g.Length1]((i, j) => false);
    var parent: map<Pos, Option<Pos>> := map[start := None];
    visited[start.row, start.col] := true;
    ghost var depth: map<Pos, nat> := map[start := 0];
    ghost var X: set<Pos> := {};
    SearchStart(m, start, end);
    LayeredStart(m, start);
    while |queue| > 0
      invariant BreadthInv(visited, m, start, end, queue, parent, depth, X, visitedCells)
      decreases AllCells(|m|, Width(m)) - X
    {
      ghost var queue0, visitedCells0 := queue, visitedCells;
      BreadthHead(visited, m, start, end, queue0, parent, depth, X, visitedCells0);
      var current := queue[0];
      queue := queue[1..];
      visitedCells := visitedCells + [current];
      if current == end {
        var path := ReconstructPath(parent, end, m, start, depth);
        BreadthFound(visited, m, start, end, queue0, parent, depth, X, visitedCells0, path);
        return Solution(path, visitedCells);
      }
      queue, parent, depth := BreadthStep(g, visited, current, queue, parent, depth, m, start, end, queue0, X, visitedCells0);
      X := X + {current};
    }
    BreadthExhausted(visited, m, start, end, parent, depth, X, visitedCells);
    return Solution([], visitedCells);
  }

  /** The head of the queue is a new in-bounds cell of the search tree, and dropping it is `RemoveAt(queue, 0)`. */
  lemma BreadthHead(visited: array2<bool>, m: Layout, start: Pos, end: Pos, queue: seq<Pos>, parent: map<Pos, Option<Pos>>,
                    depth: map<Pos, nat>, X: set<Pos>, visitedCells: seq<Pos>)
    requires BreadthInv(visited, m, start, end, queue, parent, depth, X, visitedCells) && |queue| > 0
    ensures ParentTree(m, start, parent, depth) && queue[0] in parent
    ensures queue[0] in AllCells(|m|, Width(m)) - X
    ensures queue[1..] == RemoveAt(queue, 0)
  {
    SearchPop(m, start, end, queue, parent, depth, X, visitedCells, 0);
  }

  /** An empty queue: the end is unreachable and every reachable cell was expanded. */
  lemma BreadthExhausted(visited: array2<bool>, m: Layout, start: Pos, end: Pos, parent: map<Pos, Option<Pos>>,
                         depth: map<Pos, nat>, X: set<Pos>, visitedCells: seq<Pos>)
    requires BreadthInv(visited, m, start, end, [], parent, depth, X, visitedCells)
    ensures Explored(m, start, end, Solution([], visitedCells))
  {
    SearchExhausted(m, start, end, parent, depth, X, visitedCells);
  }

  /** Reaching `end` at the head of the queue: the search is complete and the path is a shortest one. */
  lemma BreadthFound(visited: array2<bool>, m: Layout, start: Pos, end: Pos, queue: seq<Pos>, parent: map<Pos, Option<Pos>>,
                     depth: map<Pos, nat>, X: set<Pos>, visitedCells: seq<Pos>, path: seq<Pos>)
    requires BreadthInv(visited, m, start, end, queue, parent, depth, X, visitedCells)
    requires |queue| > 0 && queue[0] == end
    requires PathBetween(m, path, start, end) && |path| == depth[end] + 1
    ensures Explored(m, start, end, Solution(path, visitedCells + [end]))
    ensures Shortest(m, path, start, end)
  {
    LayeredSettle(m, start, end, queue, parent, depth, X, visitedCells);
    SearchFound(m, start, end, queue, parent, depth, X, visitedCells, 0, path);
  }

  /** The loop invariant of `solveBFS`. */
  ghost predicate BreadthInv(visited: array2<bool>, m: Layout, start: Pos, end: Pos, queue: seq<Pos>,
                             parent: map<Pos, Option<Pos>>, depth: map<Pos, nat>, X: set<Pos>, visitedCells: seq<Pos>)
    reads visited
  {
    Marks(visited, m, parent) && SearchInv(m, start, end, queue, parent, depth, X, visitedCells) &&
    Layered(m, start, queue, depth, X)
  }

  /** One expansion of `solveBFS`: the unvisited open neighbours of `current`, the old head of `queue0`, join the queue. */
  method BreadthStep(g: array2<Cell>, visited: array2<bool>, current: Pos, queue: seq<Pos>, parent: map<Pos, Option<Pos>>,
                     ghost depth: map<Pos, nat>, ghost m: Layout, ghost start: Pos, ghost end: Pos,
                     ghost queue0: seq<Pos>, ghost X: set<Pos>, ghost visitedCells0: seq<Pos>)
    returns (queue1: seq<Pos>, parent1: map<Pos, Option<Pos>>, ghost depth1: map<Pos, nat>)
    requires m == Snapshot(g) && BreadthInv(visited, m, start, end, queue0, parent, depth, X, visitedCells0)
    requires |queue0| > 0 && current == queue0[0] && current != end && queue == queue0[1..]
    modifies visited
    ensures BreadthInv(visited, m, start, end, queue1, parent1, depth1, X + {current}, visitedCells0 + [current])
  {
    BreadthHead(visited, m, start, end, queue0, parent, depth, X, visitedCells0);
    assert current in parent;
    var neighbors := GetValidNeighbors(g, current);
    ghost var added;
    queue1, parent1, depth1, added := PushUnvisited(visited, current, neighbors, queue, parent, depth, m);
    LayeredStep(m, start, end, queue0, parent, depth, X, visitedCells0, added, parent1, depth1);
  }

  /**
   * `solveDFS`: expand the cell on top of the stack; stop when it is `end`;
   * otherwise push its unvisited open neighbours.
   */
  method SolveDFS(g: array2<Cell>, start: Pos, end: Pos) returns (r: Solution)
    requires 0 <= start.row < g.Length0 && 0 <= start.col < g.Length1
    ensures Explored(Snapshot(g), start, end, r)
  {
    ghost var m := Snapshot(g);
    var visitedCells: seq<Pos> := [];
    var stack := [start];
    var visited := new bool[g.Length0, g.Length1]((i, j) => false);
    var parent: map<Pos, Option<Pos>> := map[start := None];
    visited[start.row, start.col] := true;
    ghost var depth: map<Pos, nat> := map[start := 0];
    ghost var X: set<Pos> := {};
    SearchStart(m, start, end);
    while |stack| > 0
      invariant Marks(visited, m, parent)
      invariant SearchInv(m, start, end, stack, parent, depth, X, visitedCells)
      decreases AllCells(|m|, Width(m)) - X
    {
      ghost var stack0, visitedCells0 := stack, visitedCells;
      ghost var top := |stack| - 1;
      var current := stack[|stack| - 1];
      stack := stack[..|stack| - 1];
      visitedCells := visitedCells + [current];
      assert stack == RemoveAt(stack0, top);
      if current == end {
        var path := ReconstructPath(parent, end, m, start, depth);
        SearchFound(m, start, end, stack0, parent, depth, X, visitedCells0, top, path);
        return Solution(path, visitedCells);
      }
      var neighbors := GetValidNeighbors(g, current);
      ghost var depth1, added;
      var parent1;
      stack, parent1, depth1, added := PushUnvisited(visited, current, neighbors, stack, parent, depth, m);
      SearchExpanded(m, start, end, stack0, parent, depth, X, visitedCells0, top, added, parent1, depth1);
      assert current == Pos(current.row, current.col);
      parent, depth, X := parent1, depth1, X + {current};
    }
    SearchExhausted(m, start, end, parent, depth, X, visitedCells);
    return Solution([], visitedCells);
  }
}
