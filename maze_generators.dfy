/**
 * Maze generation: a fully walled grid is carved into a perfect maze by the
 * randomized recursive backtracker (an explicit stack) or by randomized
 * Prim's algorithm (a frontier list of wall candidates). The grid is an
 * `array2<Cell>` changed in place; randomness is an injected `RandomSource`.
 */
module MazeGenerators {
  import opened MazeTypes
  import opened Grid

  // ---------------------------------------------------------------------------
  // Cells and walls as values

  /** A fresh cell: all four walls, not visited. */
  function CreateCell(): Cell
  {
    Cell([true, true, true, true], false)
  }

  function ClearWall(c: Cell, d: Side): Cell
  {
    c.(walls := c.walls[d := false])
  }

  /** `m` with the wall between `a` and its neighbour on side `d` removed from both cells. */
  function Carve(m: Layout, a: Pos, d: Side): Layout
    requires IsRect(m) && InBounds(m, a) && InBounds(m, Offset(a, d))
  {
    var m1 := Update(m, a, ClearWall(CellAt(m, a), d));
    Update(m1, Offset(a, d), ClearWall(CellAt(m1, Offset(a, d)), Opposite(d)))
  }

  /** No cell of `m` is marked visited. */
  ghost predicate NoneVisited(m: Layout)
  {
    forall p | InBounds(m, p) :: !CellAt(m, p).visited
  }

  lemma OffsetFacts(p: Pos, d: Side)
    ensures Offset(Offset(p, d), Opposite(d)) == p
    ensures Opposite(Opposite(d)) == d
    ensures Offset(p, d) != p
    ensures Adjacent(p, Offset(p, d)) && DirectionOf(p, Offset(p, d)) == d
    ensures Adjacent(Offset(p, d), p) && DirectionOf(Offset(p, d), p) == Opposite(d)
    ensures forall e: Side | e != d :: Offset(p, e) != Offset(p, d)
  {
  }

  /**
   * `m1` is `m` after the unvisited cell `y` joined the maze through its
   * neighbour `x`: the facing walls of `x` and `y` are gone, `y` is visited,
   * and nothing else changed.
   */
  ghost predicate Joined(m: Layout, m1: Layout, x: Pos, y: Pos)
    requires Adjacent(x, y) && Adjacent(y, x)
  {
    |m1| == |m| && IsRect(m1) && Width(m1) == Width(m) &&
    CellAt(m1, x) == ClearWall(CellAt(m, x), DirectionOf(x, y)) &&
    CellAt(m1, y) == Cell(CellAt(m, y).walls[DirectionOf(y, x) := false], true) &&
    forall q | q != x && q != y :: CellAt(m1, q) == CellAt(m, q)
  }

  /** After a join the moves are the old ones plus the two between `x` and `y`. */
  lemma JoinedStep(m: Layout, m1: Layout, x: Pos, y: Pos, p: Pos, q: Pos)
    requires Adjacent(x, y) && Adjacent(y, x) && x != y && Joined(m, m1, x, y)
    requires InBounds(m, x) && InBounds(m, y)
    ensures Step(m1, p, q) <==> Step(m, p, q) || (p == x && q == y) || (p == y && q == x)
  {
    var dx := DirectionOf(x, y);
    var dy := DirectionOf(y, x);
    OffsetFacts(x, dx);
    OffsetFacts(y, dy);
    if p == x {
      forall e: Side ensures Wall(m1, x, e) == (Wall(m, x, e) && e != dx) {}
    } else if p == y {
      forall e: Side ensures Wall(m1, y, e) == (Wall(m, y, e) && e != dy) {}
    } else {
      forall e: Side ensures Wall(m1, p, e) == Wall(m, p, e) {}
    }
  }

  // ---------------------------------------------------------------------------
  // The invariant the carvers keep while the maze grows

  /**
   * The maze grown so far: the cells of `V` are exactly the visited ones,
   * every unvisited cell still has all four walls, walls are symmetric and
   * the border is sealed, the passages form a tree on `V` (one fewer
   * passage than cells, all reachable from the first cell `s`).
   */
  ghost predicate Growing(m: Layout, rows: nat, cols: nat, V: set<Pos>, s: Pos)
  {
    rows > 0 && cols > 0 && |m| == rows && IsRect(m) && Width(m) == cols &&
    Symmetric(m) && Sealed(m) &&
    V <= AllCells(rows, cols) && s in V &&
    MarksExactly(m, V) &&
    |Passages(m)| + 1 == |V| &&
    SpansFrom(m, s, V)
  }

  /** The visited cells are exactly `V`, and the others still have all four walls. */
  ghost predicate MarksExactly(m: Layout, V: set<Pos>)
  {
    (forall p | InBounds(m, p) :: CellAt(m, p).visited <==> p in V) &&
    (forall p | InBounds(m, p) && p !in V :: CellAt(m, p).walls == [true, true, true, true])
  }

  /** Every cell of `V` is reachable from `s`. */
  ghost predicate SpansFrom(m: Layout, s: Pos, V: set<Pos>)
  {
    forall p | p in V :: Reachable(m, s, p)
  }

  lemma InBoundsAllCells(m: Layout, p: Pos)
    ensures InBounds(m, p) <==> p in AllCells(|m|, Width(m))
  {
    if InBounds(m, p) {
      assert p == Pos(p.row, p.col);
    }
  }

  /** The grid right after the first cell `s` was marked: a one-cell tree. */
  lemma {:induction false} StartGrowing(m: Layout, rows: nat, cols: nat, s: Pos)
    requires rows > 0 && cols > 0 && |m| == rows && IsRect(m) && Width(m) == cols
    requires InBounds(m, s)
    requires forall p | InBounds(m, p) :: CellAt(m, p) == Cell([true, true, true, true], p == s)
    ensures Growing(m, rows, cols, {s}, s)
  {
    assert Passages(m) == {} by {
      forall x | x in Passages(m) ensures false {
        var p, q :| x == (p, q) && p in AllCells(|m|, Width(m)) && Step(m, p, q);
        InBoundsAllCells(m, p);
      }
    }
    InBoundsAllCells(m, s);
    ReachableSelf(m, s);
  }

  lemma PassagesMember(m: Layout, p: Pos, q: Pos)
    ensures (p, q) in Passages(m) <==> Before(p, q) && Step(m, p, q)
  {
    InBoundsAllCells(m, p);
    InBoundsAllCells(m, q);
  }

  /** Passages after a join: one more than before. */
  lemma {:induction false} JoinedPassages(m: Layout, m1: Layout, x: Pos, y: Pos)
    requires Adjacent(x, y) && Adjacent(y, x) && x != y && Joined(m, m1, x, y)
    requires IsRect(m) && InBounds(m, x) && InBounds(m, y) && Symmetric(m)
    requires CellAt(m, y).walls == [true, true, true, true]
    ensures |Passages(m1)| == |Passages(m)| + 1
  {
    var e := if Before(x, y) then (x, y) else (y, x);
    assert !Step(m, y, x);
    assert !Step(m, x, y) by {
      if Step(m, x, y) {
        StepSymmetric(m, x, y);
      }
    }
    forall z | z in Passages(m1) ensures z in Passages(m) + {e} {
      PassagesMember(m1, z.0, z.1);
      JoinedStep(m, m1, x, y, z.0, z.1);
      PassagesMember(m, z.0, z.1);
    }
    forall z | z in Passages(m) + {e} ensures z in Passages(m1) {
      PassagesMember(m1, z.0, z.1);
      JoinedStep(m, m1, x, y, z.0, z.1);
      PassagesMember(m, z.0, z.1);
    }
    assert Passages(m1) == Passages(m) + {e};
    PassagesMember(m, e.0, e.1);
  }

  lemma {:induction false} JoinedSymmetric(m: Layout, m1: Layout, x: Pos, y: Pos)
    requires Adjacent(x, y) && Adjacent(y, x) && x != y && Joined(m, m1, x, y)
    requires InBounds(m, x) && InBounds(m, y) && Symmetric(m)
    ensures Symmetric(m1)
  {
    forall p | InBounds(m1, p) && InBounds(m1, Offset(p, RIGHT))
      ensures Wall(m1, p, RIGHT) == Wall(m1, Offset(p, RIGHT), LEFT)
    {
      JoinedSymmetricAt(m, m1, x, y, p, RIGHT);
    }
    forall p | InBounds(m1, p) && InBounds(m1, Offset(p, BOTTOM))
      ensures Wall(m1, p, BOTTOM) == Wall(m1, Offset(p, BOTTOM), TOP)
    {
      JoinedSymmetricAt(m, m1, x, y, p, BOTTOM);
    }
  }

  /** One wall pair after a join: the pair between `x` and `y` is open on both sides, every other pair is as before. */
  lemma JoinedSymmetricAt(m: Layout, m1: Layout, x: Pos, y: Pos, p: Pos, e: Side)
    requires Adjacent(x, y) && Adjacent(y, x) && x != y && Joined(m, m1, x, y)
    requires InBounds(m, x) && InBounds(m, y) && Symmetric(m)
    requires InBounds(m1, p) && InBounds(m1, Offset(p, e))
    ensures Wall(m1, p, e) == Wall(m1, Offset(p, e), Opposite(e))
  {
    var dx := DirectionOf(x, y);
    OffsetFacts(x, dx);
    assert DirectionOf(y, x) == Opposite(dx);
    OffsetFacts(p, e);
    SymmetricAt(m, p, e);
    if p == x {
    } else if p == y {
    } else if Offset(p, e) == x {
      assert e != Opposite(dx);
    } else if Offset(p, e) == y {
      assert e != dx;
    }
  }

  lemma {:induction false} JoinedSealed(m: Layout, m1: Layout, x: Pos, y: Pos)
    requires Adjacent(x, y) && Adjacent(y, x) && x != y && Joined(m, m1, x, y)
    requires InBounds(m, x) && InBounds(m, y) && Sealed(m)
    ensures Sealed(m1)
  {
    forall p, e: Side | InBounds(m1, p) && !InBounds(m1, Offset(p, e)) ensures Wall(m1, p, e) {
      assert Wall(m, p, e);
    }
  }

  lemma {:induction false} JoinedReach(m: Layout, m1: Layout, V: set<Pos>, s: Pos, x: Pos, y: Pos)
    requires Adjacent(x, y) && Adjacent(y, x) && x != y && Joined(m, m1, x, y)
    requires InBounds(m, x) && InBounds(m, y) && x in V
    requires SpansFrom(m, s, V)
    ensures SpansFrom(m1, s, V + {y})
    ensures Step(m1, x, y)
  {
    forall p, q | Step(m, p, q) ensures Step(m1, p, q) {
      JoinedStep(m, m1, x, y, p, q);
    }
    JoinedStep(m, m1, x, y, x, y);
    forall p | p in V + {y} ensures Reachable(m1, s, p) {
      if p == y {
        ReachableMono(m, m1, s, x);
        ReachableStep(m1, s, x, y);
      } else {
        ReachableMono(m, m1, s, p);
      }
    }
  }

  lemma {:induction false} JoinedMarks(m: Layout, m1: Layout, V: set<Pos>, x: Pos, y: Pos)
    requires Adjacent(x, y) && Adjacent(y, x) && x != y && Joined(m, m1, x, y)
    requires x in V && y !in V && MarksExactly(m, V)
    requires InBounds(m, x) && InBounds(m, y)
    ensures MarksExactly(m1, V + {y})
  {
    forall p | InBounds(m1, p) ensures CellAt(m1, p).visited <==> p in V + {y} {
      if p != x && p != y {
        assert CellAt(m1, p) == CellAt(m, p);
      }
    }
    forall p | InBounds(m1, p) && p !in V + {y} ensures CellAt(m1, p).walls == [true, true, true, true] {
      assert CellAt(m1, p) == CellAt(m, p);
    }
  }

  /** Joining a new neighbour `y` of the maze through `x` keeps the invariant. */
  lemma {:induction false} JoinPreserves(m: Layout, m1: Layout, rows: nat, cols: nat, V: set<Pos>, s: Pos, x: Pos, y: Pos)
    requires Growing(m, rows, cols, V, s)
    requires Adjacent(x, y) && Adjacent(y, x) && InBounds(m, x) && InBounds(m, y)
    requires x in V && y !in V
    requires Joined(m, m1, x, y)
    ensures Growing(m1, rows, cols, V + {y}, s)
    ensures Step(m1, x, y)
  {
    assert x != y;
    JoinedSymmetric(m, m1, x, y);
    JoinedSealed(m, m1, x, y);
    JoinedCount(m, m1, rows, cols, V, x, y);
    JoinedReach(m, m1, V, s, x, y);
    JoinedMarks(m, m1, V, x, y);
  }

  /** A join adds one cell to the maze and one passage to the grid. */
  lemma JoinedCount(m: Layout, m1: Layout, rows: nat, cols: nat, V: set<Pos>, x: Pos, y: Pos)
    requires Adjacent(x, y) && Adjacent(y, x) && x != y && Joined(m, m1, x, y)
    requires |m| == rows && IsRect(m) && Width(m) == cols && InBounds(m, x) && InBounds(m, y) && Symmetric(m)
    requires y !in V && V <= AllCells(rows, cols) && |Passages(m)| + 1 == |V|
    requires MarksExactly(m, V)
    ensures |Passages(m1)| + 1 == |V + {y}| && V + {y} <= AllCells(rows, cols)
  {
    assert CellAt(m, y).walls == [true, true, true, true];
    JoinedPassages(m, m1, x, y);
    InBoundsAllCells(m, y);
    assert |V + {y}| == |V| + 1;
  }

  /** Every in-bounds neighbour of `p` is in `V`. */
  ghost predicate Closed(m: Layout, V: set<Pos>, p: Pos)
  {
    forall d: Side | InBounds(m, Offset(p, d)) :: Offset(p, d) in V
  }

  /** Once no cell of the maze has an unvisited neighbour, the grid is a perfect maze. */
  lemma {:induction false} GrowingComplete(m: Layout, rows: nat, cols: nat, V: set<Pos>, s: Pos)
    requires Growing(m, rows, cols, V, s)
    requires forall p | p in V :: Closed(m, V, p)
    ensures PerfectMaze(m)
    ensures V == AllCells(rows, cols)
  {
    forall p, d: Side | p in V && InBounds(m, Offset(p, d)) ensures Offset(p, d) in V {
      assert Closed(m, V, p);
    }
    InBoundsAllCells(m, s);
    forall t | t in AllCells(rows, cols) ensures t in V {
      InBoundsAllCells(m, t);
      AdjacencyClosedHoldsAll(m, V, s, t);
    }
    assert V == AllCells(rows, cols);
    AllCellsSize(rows, cols);
    assert |Passages(m)| == |m| * Width(m) - 1;
    forall p | InBounds(m, p) ensures Reachable(m, s, p) {
      InBoundsAllCells(m, p);
    }
    ConnectedFromRoot(m, s);
  }

  /** Clearing the visited flags leaves a perfect maze perfect. */
  lemma {:induction false} SameWallsPerfect(m: Layout, m1: Layout)
    requires |m1| == |m| && IsRect(m1) && Width(m1) == Width(m)
    requires forall p | InBounds(m, p) :: CellAt(m1, p).walls == CellAt(m, p).walls
    requires PerfectMaze(m)
    ensures PerfectMaze(m1)
  {
    SameWallsSteps(m, m1);
    assert Passages(m1) == Passages(m);
    assert Symmetric(m1) by {
      forall p, e: Side | InBounds(m1, p) && InBounds(m1, Offset(p, e))
        ensures Wall(m1, p, e) == Wall(m1, Offset(p, e), Opposite(e))
      {
        SymmetricAt(m, p, e);
      }
    }
    assert Sealed(m1) by {
      forall p, e: Side | InBounds(m1, p) && !InBounds(m1, Offset(p, e)) ensures Wall(m1, p, e) {
        assert Wall(m, p, e);
      }
    }
    forall p, q | InBounds(m1, p) && InBounds(m1, q) ensures Reachable(m1, p, q) {
      assert Reachable(m, p, q);
      ReachableMono(m, m1, p, q);
    }
  }

  /** Two grids of the same shape with the same walls have the same walls and the same moves. */
  lemma SameWallsSteps(m: Layout, m1: Layout)
    requires |m1| == |m| && IsRect(m1) && Width(m1) == Width(m)
    requires forall p | InBounds(m, p) :: CellAt(m1, p).walls == CellAt(m, p).walls
    ensures forall p, e: Side | InBounds(m, p) :: Wall(m1, p, e) == Wall(m, p, e)
    ensures forall p, q :: Step(m1, p, q) <==> Step(m, p, q)
  {
    forall p, q ensures Step(m1, p, q) <==> Step(m, p, q) {
      if InBounds(m, p) {
        assert forall e: Side :: Wall(m1, p, e) == Wall(m, p, e);
      }
    }
  }

  // ---------------------------------------------------------------------------
  // Facts about carving

  /** `Carve` clears exactly the facing pair of walls and touches nothing else. */
  lemma CarveClearsFacingPair(m: Layout, a: Pos, d: Side)
    requires IsRect(m) && InBounds(m, a) && InBounds(m, Offset(a, d))
    ensures var r := Carve(m, a, d);
      !Wall(r, a, d) && !Wall(r, Offset(a, d), Opposite(d)) &&
      |r| == |m| && IsRect(r) && Width(r) == Width(m) &&
      (forall p, e: Side | !(p == a && e == d) && !(p == Offset(a, d) && e == Opposite(d)) ::
         Wall(r, p, e) == Wall(m, p, e)) &&
      (forall p :: CellAt(r, p).visited == CellAt(m, p).visited)
  {
    OffsetFacts(a, d);
  }

  /** Carving between two neighbours keeps the walls symmetric. */
  lemma CarveSymmetric(m: Layout, a: Pos, d: Side)
    requires IsRect(m) && InBounds(m, a) && InBounds(m, Offset(a, d)) && Symmetric(m)
    ensures Symmetric(Carve(m, a, d))
  {
    var r := Carve(m, a, d);
    var b := Offset(a, d);
    CarveClearsFacingPair(m, a, d);
    OffsetFacts(a, d);
    forall p, e: Side | InBounds(r, p) && InBounds(r, Offset(p, e))
      ensures Wall(r, p, e) == Wall(r, Offset(p, e), Opposite(e))
    {
      OffsetFacts(p, e);
      SymmetricAt(m, p, e);
      if p == a && e == d {
      } else if p == b && e == Opposite(d) {
      }
    }
  }

  /** Marking `y` visited and then carving from `x` to `y` joins `y` to the maze (the backtracker's order). */
  lemma MarkThenCarve(m: Layout, x: Pos, y: Pos)
    requires IsRect(m) && InBounds(m, x) && InBounds(m, y) && Adjacent(x, y)
    ensures Adjacent(y, x) && x != y
    ensures var m1 := Update(m, y, CellAt(m, y).(visited := true));
      Joined(m, Carve(m1, x, DirectionOf(x, y)), x, y)
  {
    var d := DirectionOf(x, y);
    OffsetFacts(x, d);
  }

  /** Carving from `x` to `y` and then marking `y` visited joins `y` to the maze (Prim's order). */
  lemma CarveThenMark(m: Layout, x: Pos, y: Pos)
    requires IsRect(m) && InBounds(m, x) && InBounds(m, y) && Adjacent(x, y)
    ensures Adjacent(y, x) && x != y
    ensures var m1 := Carve(m, x, DirectionOf(x, y));
      Joined(m, Update(m1, y, CellAt(m1, y).(visited := true)), x, y)
  {
    var d := DirectionOf(x, y);
    OffsetFacts(x, d);
  }

  // ---------------------------------------------------------------------------
  // Randomness

  /**
   * The source of `Math.random()`: `draw(k)` stands for the k-th value drawn,
   * scaled to a natural number; `calls` counts the draws so far.
   */
  class RandomSource {
    const draw: nat -> nat
    var calls: nat

    constructor (draw: nat -> nat)
      ensures this.draw == draw && calls == 0
    {
      this.draw := draw;
      calls := 0;
    }

    /**
     * `Math.floor(Math.random() * (max - min)) + min`: an integer in
     * `[min, max)` when `min < max`; `min` itself when they are equal; and
     * when `max < min`, where the product lies in `(max - min, 0]` and the
     * floor rounds down, an integer in `[max, min]`.
     */
    method GetRandomInt(min: int, max: int) returns (r: int)
      modifies this
      ensures min < max ==> min <= r < max
      ensures min == max ==> r == min
      ensures max < min ==> max <= r <= min
      ensures calls == old(calls) + 1
    {
      var k := draw(calls);
      if min < max {
        r := min + k % (max - min);
      } else if max < min {
        r := min - k % (min - max + 1);
      } else {
        r := min;
      }
      calls := calls + 1;
    }
  }

  // ---------------------------------------------------------------------------
  // Grid operations

  /** Every cell has all four walls and is unvisited. */
  ghost predicate FullyWalled(m: Layout)
  {
    forall p | InBounds(m, p) :: CellAt(m, p) == CreateCell()
  }

  /** A fully walled grid: walls are symmetric, the border is sealed, nothing is carved. */
  lemma FullyWalledFacts(m: Layout)
    requires IsRect(m) && FullyWalled(m)
    ensures Symmetric(m) && Sealed(m) && NoneVisited(m)
    ensures Passages(m) == {}
    ensures forall p, q :: !Step(m, p, q)
  {
    forall p, q ensures !Step(m, p, q) {
      if InBounds(m, p) {
        assert CellAt(m, p) == CreateCell();
      }
    }
    forall x | x in Passages(m) ensures false {
      PassagesMember(m, x.0, x.1);
    }
  }

  /** A `rows` by `cols` grid of fresh cells. */
  method InitializeGrid(rows: nat, cols: nat) returns (g: array2<Cell>)
    ensures fresh(g) && g.Length0 == rows && g.Length1 == cols
    ensures FullyWalled(Snapshot(g))
  {
    g := new Cell[rows, cols];
    for i := 0 to rows
      invariant forall r, c | 0 <= r < i && 0 <= c < cols :: g[r, c] == CreateCell()
    {
      for j := 0 to cols
        invariant forall r, c | 0 <= r < i && 0 <= c < cols :: g[r, c] == CreateCell()
        invariant forall c | 0 <= c < j :: g[i, c] == CreateCell()
      {
        g[i, j] := CreateCell();
      }
    }
  }

  /**
   * The in-bounds, unvisited neighbours of `p`, in the order top, right,
   * bottom, left.
   */
  method GetNeighbors(g: array2<Cell>, p: Pos) returns (nbrs: seq<Pos>)
    ensures |nbrs| <= 4
    ensures forall i | 0 <= i < |nbrs| ::
      Adjacent(p, nbrs[i]) && InBounds(Snapshot(g), nbrs[i]) && !CellAt(Snapshot(g), nbrs[i]).visited
    ensures forall d: Side | InBounds(Snapshot(g), Offset(p, d)) && !CellAt(Snapshot(g), Offset(p, d)).visited ::
      Offset(p, d) in nbrs
    ensures forall i, j | 0 <= i < j < |nbrs| :: DirectionOf(p, nbrs[i]) < DirectionOf(p, nbrs[j])
  {
    ghost var m := Snapshot(g);
    nbrs := [];
    for d := 0 to 4
      invariant |nbrs| <= d
      invariant forall i | 0 <= i < |nbrs| ::
        Adjacent(p, nbrs[i]) && DirectionOf(p, nbrs[i]) < d &&
        InBounds(m, nbrs[i]) && !CellAt(m, nbrs[i]).visited
      invariant forall e: Side | e < d && InBounds(m, Offset(p, e)) && !CellAt(m, Offset(p, e)).visited ::
        Offset(p, e) in nbrs
      invariant forall i, j | 0 <= i < j < |nbrs| :: DirectionOf(p, nbrs[i]) < DirectionOf(p, nbrs[j])
    {
      var q := Offset(p, d);
      OffsetFacts(p, d);
      if 0 <= q.row < g.Length0 && 0 <= q.col < g.Length1 && !g[q.row, q.col].visited {
        nbrs := nbrs + [q];
      }
    }
  }

  /** Removes the wall between the neighbours `a` and `b` from both cells. */
  method RemoveWalls(g: array2<Cell>, a: Pos, b: Pos)
    requires 0 <= a.row < g.Length0 && 0 <= a.col < g.Length1
    requires 0 <= b.row < g.Length0 && 0 <= b.col < g.Length1
    requires Adjacent(a, b)
    modifies g
    ensures Snapshot(g) == Carve(old(Snapshot(g)), a, DirectionOf(a, b))
  {
    if a.row - b.row == 1 {
      SetCell(g, a, ClearWall(g[a.row, a.col], TOP));
      SetCell(g, b, ClearWall(g[b.row, b.col], BOTTOM));
    } else if a.row - b.row == -1 {
      SetCell(g, a, ClearWall(g[a.row, a.col], BOTTOM));
      SetCell(g, b, ClearWall(g[b.row, b.col], TOP));
    } else if a.col - b.col == 1 {
      SetCell(g, a, ClearWall(g[a.row, a.col], LEFT));
      SetCell(g, b, ClearWall(g[b.row, b.col], RIGHT));
    } else if a.col - b.col == -1 {
      SetCell(g, a, ClearWall(g[a.row, a.col], RIGHT));
      SetCell(g, b, ClearWall(g[b.row, b.col], LEFT));
    }
  }

  /** Sets the cell at `p` visited. */
  method MarkVisited(g: array2<Cell>, p: Pos)
    requires 0 <= p.row < g.Length0 && 0 <= p.col < g.Length1
    modifies g
    ensures Snapshot(g) == Update(old(Snapshot(g)), p, CellAt(old(Snapshot(g)), p).(visited := true))
  {
    SetCell(g, p, g[p.row, p.col].(visited := true));
  }

  /** Clears every visited flag and keeps the walls. */
  method ClearVisited(g: array2<Cell>)
    modifies g
    ensures forall i, j | 0 <= i < g.Length0 && 0 <= j < g.Length1 ::
      g[i, j] == old(g[i, j]).(visited := false)
  {
    for i := 0 to g.Length0
      invariant forall r, c | 0 <= r < g.Length0 && 0 <= c < g.Length1 ::
        g[r, c] == if r < i then old(g[r, c]).(visited := false) else old(g[r, c])
    {
      for j := 0 to g.Length1
        invariant forall r, c | 0 <= r < g.Length0 && 0 <= c < g.Length1 ::
          g[r, c] == if r < i || (r == i && c < j) then old(g[r, c]).(visited := false) else old(g[r, c])
      {
        g[i, j] := g[i, j].(visited := false);
      }
    }
  }

  // ---------------------------------------------------------------------------
  // The generators

  /** Clearing the visited flags of a finished maze: the result is perfect and unmarked. */
  method ResetAfterCarving(g: array2<Cell>)
    requires g.Length0 > 0 && PerfectMaze(Snapshot(g))
    modifies g
    ensures PerfectMaze(Snapshot(g)) && NoneVisited(Snapshot(g))
    ensures forall p | InBounds(Snapshot(g), p) :: CellAt(Snapshot(g), p).walls == CellAt(old(Snapshot(g)), p).walls
  {
    ghost var m := Snapshot(g);
    ClearVisited(g);
    ghost var m1 := Snapshot(g);
    SameWallsPerfect(m, m1);
  }

  /**
   * The backtracker's loop invariant: the maze grown so far, the stack holds
   * maze cells, and every maze cell off the stack has no unvisited neighbour.
   */
  ghost predicate Backtracking(m: Layout, rows: nat, cols: nat, V: set<Pos>, s: Pos, stack: seq<Pos>)
  {
    Growing(m, rows, cols, V, s) && |V| <= rows * cols &&
    (forall i | 0 <= i < |stack| :: stack[i] in V) &&
    (forall p | p in V && p !in stack :: Closed(m, V, p))
  }

  /** The single marked start cell is a one-cell maze with itself on the stack. */
  lemma {:induction false} BacktrackingStart(m0: Layout, rows: nat, cols: nat, s: Pos)
    requires rows > 0 && cols > 0 && |m0| == rows && IsRect(m0) && Width(m0) == cols
    requires FullyWalled(m0) && InBounds(m0, s)
    ensures Backtracking(Update(m0, s, CellAt(m0, s).(visited := true)), rows, cols, {s}, s, [s])
  {
    var m := Update(m0, s, CellAt(m0, s).(visited := true));
    forall p | InBounds(m, p) ensures CellAt(m, p) == Cell([true, true, true, true], p == s) {
      assert CellAt(m0, p) == CreateCell();
    }
    StartGrowing(m, rows, cols, s);
    InBoundsAllCells(m, s);
    AllCellsSize(rows, cols);
    SubsetCard({s}, AllCells(rows, cols));
  }

  /** Popping a cell with no unvisited neighbour keeps the invariant. */
  lemma {:induction false} BacktrackingPop(m: Layout, rows: nat, cols: nat, V: set<Pos>, s: Pos, stack: seq<Pos>, top: Pos)
    requires Backtracking(m, rows, cols, V, s, stack) && |stack| > 0 && top == stack[|stack| - 1]
    requires forall d: Side | InBounds(m, Offset(top, d)) :: CellAt(m, Offset(top, d)).visited
    ensures Backtracking(m, rows, cols, V, s, stack[..|stack| - 1]) && |V| <= rows * cols
  {
    assert Closed(m, V, top);
    forall p | p in V && p !in stack[..|stack| - 1] ensures Closed(m, V, p) {
      if p != top {
        assert p !in stack;
      }
    }
  }

  /** Joining a new neighbour of the top cell and pushing it keeps the invariant. */
  lemma {:induction false} BacktrackingPush(m: Layout, m1: Layout, rows: nat, cols: nat, V: set<Pos>, s: Pos, stack: seq<Pos>, next: Pos)
    requires Backtracking(m, rows, cols, V, s, stack) && |stack| > 0
    requires Adjacent(stack[|stack| - 1], next) && InBounds(m, next) && !CellAt(m, next).visited
    requires Adjacent(next, stack[|stack| - 1]) && Joined(m, m1, stack[|stack| - 1], next)
    ensures Backtracking(m1, rows, cols, V + {next}, s, stack + [next])
    ensures next !in V && |V| < |V + {next}| <= rows * cols
  {
    var current := stack[|stack| - 1];
    InBoundsAllCells(m, current);
    JoinPreserves(m, m1, rows, cols, V, s, current, next);
    forall p | p in V + {next} && p !in stack + [next] ensures Closed(m1, V + {next}, p) {
      assert Closed(m, V, p);
    }
    AllCellsSize(rows, cols);
    SubsetCard(V + {next}, AllCells(rows, cols));
  }

  /**
   * The randomized recursive backtracker: start at a random cell, and from
   * the cell on top of the stack carve into a random unvisited neighbour
   * (pushing it) or, when there is none, pop. The result is a perfect maze
   * with every visited flag cleared.
   */
  method GenerateDFSMaze(rows: nat, cols: nat, rng: RandomSource) returns (g: array2<Cell>)
    requires rows > 0 && cols > 0
    modifies rng
    ensures fresh(g) && g.Length0 == rows && g.Length1 == cols
    ensures PerfectMaze(Snapshot(g)) && NoneVisited(Snapshot(g))
  {
    g := InitializeGrid(rows, cols);
    var startRow := rng.GetRandomInt(0, rows);
    var startCol := rng.GetRandomInt(0, cols);
    var s := Pos(startRow, startCol);
    BacktrackingStart(Snapshot(g), rows, cols, s);
    MarkVisited(g, s);

    var stack := [s];
    ghost var V: set<Pos> := {s};
    while |stack| > 0
      invariant g.Length0 == rows && g.Length1 == cols
      invariant Backtracking(Snapshot(g), rows, cols, V, s, stack)
      decreases rows * cols - |V|, |stack|
    {
      stack, V := BacktrackStep(g, rng, rows, cols, s, stack, V);
    }
    BacktrackingComplete(Snapshot(g), rows, cols, V, s);
    ResetAfterCarving(g);
  }

  /** An empty stack means every maze cell is closed off: the maze is perfect. */
  lemma {:induction false} BacktrackingComplete(m: Layout, rows: nat, cols: nat, V: set<Pos>, s: Pos)
    requires Backtracking(m, rows, cols, V, s, [])
    ensures |m| > 0 && PerfectMaze(m)
  {
    GrowingComplete(m, rows, cols, V, s);
  }

  /** One turn of the backtracker's loop: pop a dead end, or carve into a random unvisited neighbour and push it. */
  method BacktrackStep(g: array2<Cell>, rng: RandomSource, rows: nat, cols: nat, s: Pos, stack: seq<Pos>, ghost V: set<Pos>)
    returns (stack1: seq<Pos>, ghost V1: set<Pos>)
    requires g.Length0 == rows && g.Length1 == cols && |stack| > 0
    requires Backtracking(Snapshot(g), rows, cols, V, s, stack)
    modifies g, rng
    ensures Backtracking(Snapshot(g), rows, cols, V1, s, stack1) && |V1| <= rows * cols
    ensures (V1 == V && |stack1| < |stack|) || |V1| > |V|
  {
    var current := stack[|stack| - 1];
    ghost var m := Snapshot(g);
    assert current in V;
    InBoundsAllCells(m, current);
    var neighbors := GetNeighbors(g, current);
    if |neighbors| == 0 {
      BacktrackingPop(m, rows, cols, V, s, stack, current);
      stack1, V1 := stack[..|stack| - 1], V;
      return;
    }
    var randomIndex := rng.GetRandomInt(0, |neighbors|);
    var next := neighbors[randomIndex];
    MarkVisited(g, next);
    RemoveWalls(g, current, next);
    MarkThenCarve(m, current, next);
    BacktrackingPush(m, Snapshot(g), rows, cols, V, s, stack, next);
    V1 := V + {next};
    stack1 := stack + [next];
  }

  /** An entry of Prim's wall list: the wall between the maze cell `cell` and its neighbour `neighbor`. */
  datatype WallEntry = WallEntry(cell: Pos, neighbor: Pos)

  /** Every wall of the maze cell `p` that faces a cell outside the maze is listed. */
  ghost predicate Bordered(m: Layout, V: set<Pos>, walls: seq<WallEntry>, p: Pos)
  {
    forall d: Side | InBounds(m, Offset(p, d)) && Offset(p, d) !in V :: WallEntry(p, Offset(p, d)) in walls
  }

  /**
   * Prim's loop invariant: the maze grown so far, every listed wall runs from
   * a maze cell to an in-bounds neighbour, and every wall between the maze
   * and the rest of the grid is listed.
   */
  ghost predicate Frontier(m: Layout, rows: nat, cols: nat, V: set<Pos>, s: Pos, walls: seq<WallEntry>)
  {
    Growing(m, rows, cols, V, s) && |V| <= rows * cols &&
    (forall i | 0 <= i < |walls| ::
      walls[i].cell in V && Adjacent(walls[i].cell, walls[i].neighbor) && InBounds(m, walls[i].neighbor)) &&
    (forall p | p in V :: Bordered(m, V, walls, p))
  }

  /** The start cell's walls toward in-bounds cells, in the order top, right, bottom, left. */
  method StartWalls(rows: nat, cols: nat, s: Pos) returns (walls: seq<WallEntry>)
    requires 0 <= s.row < rows && 0 <= s.col < cols
    ensures walls == StartList(rows, cols, s)
    ensures |walls| <= 4
    ensures forall i | 0 <= i < |walls| ::
      walls[i].cell == s && Adjacent(s, walls[i].neighbor) &&
      0 <= walls[i].neighbor.row < rows && 0 <= walls[i].neighbor.col < cols
    ensures forall d: Side | 0 <= Offset(s, d).row < rows && 0 <= Offset(s, d).col < cols ::
      WallEntry(s, Offset(s, d)) in walls
  {
    walls := [];
    if s.row > 0 {
      walls := walls + [WallEntry(s, Pos(s.row - 1, s.col))];
    }
    assert walls == StartCandidate(rows, cols, s, TOP);
    if s.col < cols - 1 {
      walls := walls + [WallEntry(s, Pos(s.row, s.col + 1))];
    }
    assert walls == StartCandidate(rows, cols, s, TOP) + StartCandidate(rows, cols, s, RIGHT);
    if s.row < rows - 1 {
      walls := walls + [WallEntry(s, Pos(s.row + 1, s.col))];
    }
    assert walls == StartCandidate(rows, cols, s, TOP) + StartCandidate(rows, cols, s, RIGHT) +
                    StartCandidate(rows, cols, s, BOTTOM);
    if s.col > 0 {
      walls := walls + [WallEntry(s, Pos(s.row, s.col - 1))];
    }
    StartListFacts(rows, cols, s);
  }

  /** The start list holds at most four walls of `s`, each toward an in-bounds cell, and every such wall. */
  lemma StartListFacts(rows: nat, cols: nat, s: Pos)
    requires 0 <= s.row < rows && 0 <= s.col < cols
    ensures var walls := StartList(rows, cols, s);
      |walls| <= 4 &&
      (forall i | 0 <= i < |walls| ::
        walls[i].cell == s && Adjacent(s, walls[i].neighbor) &&
        0 <= walls[i].neighbor.row < rows && 0 <= walls[i].neighbor.col < cols) &&
      (forall d: Side | 0 <= Offset(s, d).row < rows && 0 <= Offset(s, d).col < cols ::
        WallEntry(s, Offset(s, d)) in walls)
  {
    var walls := StartList(rows, cols, s);
    forall d: Side | 0 <= Offset(s, d).row < rows && 0 <= Offset(s, d).col < cols
      ensures WallEntry(s, Offset(s, d)) in walls
    {
      assert StartCandidate(rows, cols, s, d) == [WallEntry(s, Offset(s, d))];
    }
    forall i | 0 <= i < |walls|
      ensures walls[i].cell == s && Adjacent(s, walls[i].neighbor) &&
        0 <= walls[i].neighbor.row < rows && 0 <= walls[i].neighbor.col < cols
    {
    }
  }

  /** The wall of the start cell `s` toward side `d`, listed when the cell there is inside a `rows` by `cols` grid. */
  function StartCandidate(rows: nat, cols: nat, s: Pos, d: Side): seq<WallEntry>
  {
    var q := Offset(s, d);
    if 0 <= q.row < rows && 0 <= q.col < cols then [WallEntry(s, q)] else []
  }

  /** The start cell's walls toward in-bounds cells, in the order top, right, bottom, left. */
  function StartList(rows: nat, cols: nat, s: Pos): seq<WallEntry>
  {
    StartCandidate(rows, cols, s, TOP) + StartCandidate(rows, cols, s, RIGHT) +
    StartCandidate(rows, cols, s, BOTTOM) + StartCandidate(rows, cols, s, LEFT)
  }

  /** Every entry of `w` is a wall of `s`, and the sides they face strictly increase along `w`. */
  ghost predicate SideOrdered(s: Pos, w: seq<WallEntry>)
  {
    (forall i | 0 <= i < |w| :: w[i].cell == s && Adjacent(s, w[i].neighbor)) &&
    (forall i, j | 0 <= i < j < |w| :: DirectionOf(s, w[i].neighbor) < DirectionOf(s, w[j].neighbor))
  }

  /** Two side-ordered lists whose sides do not interleave concatenate to a side-ordered list. */
  lemma OrderedConcat(s: Pos, a: seq<WallEntry>, b: seq<WallEntry>)
    requires SideOrdered(s, a) && SideOrdered(s, b)
    requires forall i, j | 0 <= i < |a| && 0 <= j < |b| :: DirectionOf(s, a[i].neighbor) < DirectionOf(s, b[j].neighbor)
    ensures SideOrdered(s, a + b)
  {
    var w := a + b;
    forall i, j | 0 <= i < j < |w| ensures DirectionOf(s, w[i].neighbor) < DirectionOf(s, w[j].neighbor) {
      if j < |a| {
        assert w[i] == a[i] && w[j] == a[j];
      } else if i >= |a| {
        assert w[i] == b[i - |a|] && w[j] == b[j - |a|];
      } else {
        assert w[i] == a[i] && w[j] == b[j - |a|];
      }
    }
  }

  /** The start candidate for side `d` is at most one wall, and it faces side `d`. */
  lemma StartCandidateSide(rows: nat, cols: nat, s: Pos, d: Side)
    ensures SideOrdered(s, StartCandidate(rows, cols, s, d))
    ensures forall i | 0 <= i < |StartCandidate(rows, cols, s, d)| ::
      DirectionOf(s, StartCandidate(rows, cols, s, d)[i].neighbor) == d
  {
    OffsetFacts(s, d);
  }

  /**
   * The start list names each in-bounds side once and in increasing side
   * order, so the entry at each index is fixed: top first, then right,
   * bottom and left.
   */
  lemma StartListOrdered(rows: nat, cols: nat, s: Pos)
    ensures SideOrdered(s, StartList(rows, cols, s))
  {
    var t, r, b, l := StartCandidate(rows, cols, s, TOP), StartCandidate(rows, cols, s, RIGHT),
                      StartCandidate(rows, cols, s, BOTTOM), StartCandidate(rows, cols, s, LEFT);
    StartCandidateSide(rows, cols, s, TOP);
    StartCandidateSide(rows, cols, s, RIGHT);
    StartCandidateSide(rows, cols, s, BOTTOM);
    StartCandidateSide(rows, cols, s, LEFT);
    OrderedConcat(s, t, r);
    forall i, j | 0 <= i < |t + r| && 0 <= j < |b| ensures DirectionOf(s, (t + r)[i].neighbor) < DirectionOf(s, b[j].neighbor) {
      if i < |t| { assert (t + r)[i] == t[i]; } else { assert (t + r)[i] == r[i - |t|]; }
    }
    OrderedConcat(s, t + r, b);
    forall i, j | 0 <= i < |t + r + b| && 0 <= j < |l| ensures DirectionOf(s, (t + r + b)[i].neighbor) < DirectionOf(s, l[j].neighbor) {
      assert (t + r + b)[i] in t + r + b;
    }
    OrderedConcat(s, t + r + b, l);
  }

  /** The wall of `p` toward side `d`, listed when the cell there is in bounds and not yet in the maze. */
  function Candidate(m: Layout, p: Pos, d: Side): seq<WallEntry>
  {
    if InBounds(m, Offset(p, d)) && !CellAt(m, Offset(p, d)).visited then [WallEntry(p, Offset(p, d))] else []
  }

  /** The walls a new maze cell `p` adds to the list, in the order top, right, bottom, left. */
  function NewWalls(m: Layout, p: Pos): seq<WallEntry>
  {
    Candidate(m, p, TOP) + Candidate(m, p, RIGHT) + Candidate(m, p, BOTTOM) + Candidate(m, p, LEFT)
  }

  /** A new cell adds at most four walls, each toward an unvisited in-bounds neighbour, and misses none. */
  lemma NewWallsFacts(m: Layout, p: Pos)
    ensures |NewWalls(m, p)| <= 4
    ensures forall i | 0 <= i < |NewWalls(m, p)| ::
      NewWalls(m, p)[i].cell == p && Adjacent(p, NewWalls(m, p)[i].neighbor) &&
      InBounds(m, NewWalls(m, p)[i].neighbor) && !CellAt(m, NewWalls(m, p)[i].neighbor).visited
    ensures forall d: Side | InBounds(m, Offset(p, d)) && !CellAt(m, Offset(p, d)).visited ::
      WallEntry(p, Offset(p, d)) in NewWalls(m, p)
  {
    forall d: Side | InBounds(m, Offset(p, d)) && !CellAt(m, Offset(p, d)).visited
      ensures WallEntry(p, Offset(p, d)) in NewWalls(m, p)
    {
      assert WallEntry(p, Offset(p, d)) in Candidate(m, p, d);
    }
  }

  /** Appending to the list in two steps or in one gives the same list. */
  lemma AppendCandidate(walls: seq<WallEntry>, added: seq<WallEntry>, c: seq<WallEntry>)
    ensures walls + added + c == walls + (added + c)
  {
  }

  /** The list grown by the walls of a new cell holds the old list, then walls of `p` toward unvisited in-bounds neighbours, and misses none. */
  lemma ListedWalls(m: Layout, p: Pos, walls: seq<WallEntry>, walls1: seq<WallEntry>)
    requires walls1 == walls + NewWalls(m, p)
    ensures |walls| <= |walls1| <= |walls| + 4 && walls1[..|walls|] == walls
    ensures forall i | |walls| <= i < |walls1| ::
      walls1[i].cell == p && Adjacent(p, walls1[i].neighbor) &&
      InBounds(m, walls1[i].neighbor) && !CellAt(m, walls1[i].neighbor).visited
    ensures forall d: Side | InBounds(m, Offset(p, d)) && !CellAt(m, Offset(p, d)).visited ::
      WallEntry(p, Offset(p, d)) in walls1
  {
    NewWallsFacts(m, p);
    forall i | |walls| <= i < |walls1| ensures walls1[i] == NewWalls(m, p)[i - |walls|] {
    }
  }

  /** One of the four guarded pushes: the wall of `p` toward side `d` when the cell there is in bounds and unvisited. */
  method AddWall(g: array2<Cell>, p: Pos, d: Side, walls: seq<WallEntry>) returns (walls1: seq<WallEntry>)
    ensures walls1 == walls + Candidate(Snapshot(g), p, d)
  {
    var q := Offset(p, d);
    if 0 <= q.row < g.Length0 && 0 <= q.col < g.Length1 && !g[q.row, q.col].visited {
      walls1 := walls + [WallEntry(p, q)];
    } else {
      walls1 := walls;
    }
  }

  /** Appends the walls of the new maze cell `p` toward unvisited in-bounds cells, in the order top, right, bottom, left. */
  method AddWalls(g: array2<Cell>, p: Pos, walls: seq<WallEntry>) returns (walls1: seq<WallEntry>)
    ensures walls1 == walls + NewWalls(Snapshot(g), p)
    ensures |walls| <= |walls1| <= |walls| + 4 && walls1[..|walls|] == walls
    ensures forall i | |walls| <= i < |walls1| ::
      walls1[i].cell == p && Adjacent(p, walls1[i].neighbor) &&
      InBounds(Snapshot(g), walls1[i].neighbor) && !CellAt(Snapshot(g), walls1[i].neighbor).visited
    ensures forall d: Side | InBounds(Snapshot(g), Offset(p, d)) && !CellAt(Snapshot(g), Offset(p, d)).visited ::
      WallEntry(p, Offset(p, d)) in walls1
  {
    ghost var m := Snapshot(g);
    walls1 := AddWall(g, p, TOP, walls);
    ghost var added := Candidate(m, p, TOP);
    walls1 := AddWall(g, p, RIGHT, walls1);
    AppendCandidate(walls, added, Candidate(m, p, RIGHT));
    added := added + Candidate(m, p, RIGHT);
    walls1 := AddWall(g, p, BOTTOM, walls1);
    AppendCandidate(walls, added, Candidate(m, p, BOTTOM));
    added := added + Candidate(m, p, BOTTOM);
    walls1 := AddWall(g, p, LEFT, walls1);
    AppendCandidate(walls, added, Candidate(m, p, LEFT));
    ListedWalls(m, p, walls, walls1);
  }

  /** The start cell with its walls listed satisfies Prim's invariant. */
  lemma {:induction false} FrontierStart(m0: Layout, rows: nat, cols: nat, s: Pos, walls: seq<WallEntry>)
    requires rows > 0 && cols > 0 && |m0| == rows && IsRect(m0) && Width(m0) == cols
    requires FullyWalled(m0) && InBounds(m0, s)
    requires forall i | 0 <= i < |walls| ::
      walls[i].cell == s && Adjacent(s, walls[i].neighbor) &&
      0 <= walls[i].neighbor.row < rows && 0 <= walls[i].neighbor.col < cols
    requires forall d: Side | 0 <= Offset(s, d).row < rows && 0 <= Offset(s, d).col < cols ::
      WallEntry(s, Offset(s, d)) in walls
    ensures Frontier(Update(m0, s, CellAt(m0, s).(visited := true)), rows, cols, {s}, s, walls)
  {
    var m := Update(m0, s, CellAt(m0, s).(visited := true));
    BacktrackingStart(m0, rows, cols, s);
    assert Bordered(m, {s}, walls, s);
  }

  /** Dropping a listed wall whose far cell is already in the maze keeps Prim's invariant. */
  lemma {:induction false} FrontierDiscard(m: Layout, rows: nat, cols: nat, V: set<Pos>, s: Pos, walls: seq<WallEntry>, r: nat)
    requires Frontier(m, rows, cols, V, s, walls) && r < |walls| && walls[r].neighbor in V
    ensures Frontier(m, rows, cols, V, s, RemoveAt(walls, r)) && |V| <= rows * cols
  {
    var w1 := RemoveAt(walls, r);
    forall i | 0 <= i < |w1| ensures w1[i].cell in V && Adjacent(w1[i].cell, w1[i].neighbor) && InBounds(m, w1[i].neighbor) {
      assert w1[i] in walls;
    }
    forall p | p in V ensures Bordered(m, V, w1, p) {
      assert Bordered(m, V, walls, p);
    }
  }

  /**
   * Joining the far cell `y` of the listed wall at index `r`, appending the
   * walls of `y` and dropping entry `r` keeps Prim's invariant.
   */
  lemma {:induction false} FrontierGrow(m: Layout, m1: Layout, rows: nat, cols: nat, V: set<Pos>, s: Pos,
                                        walls: seq<WallEntry>, r: nat, walls2: seq<WallEntry>)
    requires Frontier(m, rows, cols, V, s, walls) && r < |walls| && walls[r].neighbor !in V
    requires Adjacent(walls[r].neighbor, walls[r].cell)
    requires Joined(m, m1, walls[r].cell, walls[r].neighbor)
    requires |walls| <= |walls2| && walls2[..|walls|] == walls
    requires forall i | |walls| <= i < |walls2| ::
      walls2[i].cell == walls[r].neighbor && Adjacent(walls[r].neighbor, walls2[i].neighbor) &&
      InBounds(m1, walls2[i].neighbor)
    requires forall d: Side | InBounds(m1, Offset(walls[r].neighbor, d)) && !CellAt(m1, Offset(walls[r].neighbor, d)).visited ::
      WallEntry(walls[r].neighbor, Offset(walls[r].neighbor, d)) in walls2
    ensures Frontier(m1, rows, cols, V + {walls[r].neighbor}, s, RemoveAt(walls2, r))
    ensures |V| < |V + {walls[r].neighbor}| <= rows * cols
  {
    var x, y := walls[r].cell, walls[r].neighbor;
    var V1 := V + {y};
    var w1 := RemoveAt(walls2, r);
    assert walls2[r] == walls[r];
    JoinPreserves(m, m1, rows, cols, V, s, x, y);
    AllCellsSize(rows, cols);
    SubsetCard(V1, AllCells(rows, cols));
    forall i | 0 <= i < |walls2| ensures walls2[i].cell in V1 && Adjacent(walls2[i].cell, walls2[i].neighbor) && InBounds(m1, walls2[i].neighbor) {
      if i < |walls| {
        assert walls2[i] == walls[i];
      }
    }
    forall i | 0 <= i < |w1| ensures w1[i].cell in V1 && Adjacent(w1[i].cell, w1[i].neighbor) && InBounds(m1, w1[i].neighbor) {
      assert w1[i] in walls2;
    }
    forall p | p in V1 ensures Bordered(m1, V1, w1, p) {
      if p == y {
        NewCellBordered(m1, V1, walls2, r, y);
      } else {
        assert Bordered(m, V, walls, p);
        OldCellBordered(m, m1, V, y, walls, r, walls2, p);
      }
    }
  }

  /** The joined cell `y`: its walls toward unvisited cells were appended after index `r`, so they survive dropping entry `r`. */
  lemma NewCellBordered(m1: Layout, V1: set<Pos>, walls2: seq<WallEntry>, r: nat, y: Pos)
    requires r < |walls2| && walls2[r].neighbor == y
    requires MarksExactly(m1, V1)
    requires forall d: Side | InBounds(m1, Offset(y, d)) && !CellAt(m1, Offset(y, d)).visited ::
      WallEntry(y, Offset(y, d)) in walls2
    ensures Bordered(m1, V1, RemoveAt(walls2, r), y)
  {
    forall d: Side | InBounds(m1, Offset(y, d)) && Offset(y, d) !in V1 ensures WallEntry(y, Offset(y, d)) in RemoveAt(walls2, r) {
      assert !CellAt(m1, Offset(y, d)).visited;
      OffsetFacts(y, d);
    }
  }

  /** A cell already in the maze keeps its listed walls: they sit in the old list, which `walls2` extends, and none of them is entry `r`. */
  lemma OldCellBordered(m: Layout, m1: Layout, V: set<Pos>, y: Pos, walls: seq<WallEntry>, r: nat, walls2: seq<WallEntry>, p: Pos)
    requires r < |walls| <= |walls2| && walls2[..|walls|] == walls && walls[r].neighbor == y
    requires |m1| == |m| && Width(m1) == Width(m)
    requires p in V && y !in V && Bordered(m, V, walls, p)
    ensures Bordered(m1, V + {y}, RemoveAt(walls2, r), p)
  {
    forall d: Side | InBounds(m1, Offset(p, d)) && Offset(p, d) !in V + {y} ensures WallEntry(p, Offset(p, d)) in RemoveAt(walls2, r) {
      assert WallEntry(p, Offset(p, d)) in walls;
      assert WallEntry(p, Offset(p, d)) in walls2;
    }
  }

  /**
   * Randomized Prim's algorithm: start at a random cell with its walls
   * listed; repeatedly take a random listed wall, and when it separates the
   * maze from an unvisited cell, carve it, add that cell and list its walls
   * toward unvisited cells; drop the wall from the list. The result is a
   * perfect maze with every visited flag cleared.
   */
  method GeneratePrimMaze(rows: nat, cols: nat, rng: RandomSource) returns (g: array2<Cell>)
    requires rows > 0 && cols > 0
    modifies rng
    ensures fresh(g) && g.Length0 == rows && g.Length1 == cols
    ensures PerfectMaze(Snapshot(g)) && NoneVisited(Snapshot(g))
  {
    g := InitializeGrid(rows, cols);
    var startRow := rng.GetRandomInt(0, rows);
    var startCol := rng.GetRandomInt(0, cols);
    var s := Pos(startRow, startCol);
    ghost var m0 := Snapshot(g);
    MarkVisited(g, s);
    var walls := StartWalls(rows, cols, s);
    FrontierStart(m0, rows, cols, s, walls);

    ghost var V: set<Pos> := {s};
    while |walls| > 0
      invariant g.Length0 == rows && g.Length1 == cols
      invariant Frontier(Snapshot(g), rows, cols, V, s, walls)
      decreases rows * cols - |V|, |walls|
    {
      walls, V := PrimStep(g, rng, rows, cols, s, walls, V);
    }
    FrontierComplete(Snapshot(g), rows, cols, V, s);
    ResetAfterCarving(g);
  }

  /** An empty wall list means every maze cell is closed off: the maze is perfect. */
  lemma {:induction false} FrontierComplete(m: Layout, rows: nat, cols: nat, V: set<Pos>, s: Pos)
    requires Frontier(m, rows, cols, V, s, [])
    ensures |m| > 0 && PerfectMaze(m)
  {
    forall p | p in V ensures Closed(m, V, p) {
      assert Bordered(m, V, [], p);
    }
    GrowingComplete(m, rows, cols, V, s);
  }

  /** One turn of Prim's loop: take a random listed wall, carve it when it leads out of the maze, drop it. */
  method PrimStep(g: array2<Cell>, rng: RandomSource, rows: nat, cols: nat, s: Pos, walls: seq<WallEntry>, ghost V: set<Pos>)
    returns (walls1: seq<WallEntry>, ghost V1: set<Pos>)
    requires g.Length0 == rows && g.Length1 == cols && |walls| > 0
    requires Frontier(Snapshot(g), rows, cols, V, s, walls)
    modifies g, rng
    ensures Frontier(Snapshot(g), rows, cols, V1, s, walls1) && |V1| <= rows * cols
    ensures (V1 == V && |walls1| < |walls|) || |V1| > |V|
  {
    ghost var m := Snapshot(g);
    var randomIndex := rng.GetRandomInt(0, |walls|);
    var e := walls[randomIndex];
    InBoundsAllCells(m, e.cell);
    if g[e.cell.row, e.cell.col].visited != g[e.neighbor.row, e.neighbor.col].visited {
      RemoveWalls(g, e.cell, e.neighbor);
      CarveClearsFacingPair(m, e.cell, DirectionOf(e.cell, e.neighbor));
      if !g[e.cell.row, e.cell.col].visited {
        // The listed cell is always in the maze already.
        assert false;
      } else {
        MarkVisited(g, e.neighbor);
        CarveThenMark(m, e.cell, e.neighbor);
        walls1 := AddWalls(g, e.neighbor, walls);
        FrontierGrow(m, Snapshot(g), rows, cols, V, s, walls, randomIndex, walls1);
        V1 := V + {e.neighbor};
      }
    } else {
      FrontierDiscard(m, rows, cols, V, s, walls, randomIndex);
      walls1, V1 := walls, V;
    }
    walls1 := RemoveAt(walls1, randomIndex);
  }

  /**
   * `generateMaze`: Prim's algorithm for `Prim`; every other name, including
   * the ones with no generator of their own, runs the backtracker.
   */
  method GenerateMaze(algorithm: GenerationAlgorithm, rows: nat, cols: nat, rng: RandomSource) returns (g: array2<Cell>)
    requires rows > 0 && cols > 0
    modifies rng
    ensures fresh(g) && g.Length0 == rows && g.Length1 == cols
    ensures PerfectMaze(Snapshot(g)) && NoneVisited(Snapshot(g))
  {
    match algorithm {
      case GenDFS =>
        g := GenerateDFSMaze(rows, cols, rng);
      case GenPrim =>
        g := GeneratePrimMaze(rows, cols, rng);
      case _ =>
        g := GenerateDFSMaze(rows, cols, rng);
    }
  }
}
