/**
 * The grid model: the grid as a value (`Layout`), the passage graph over it,
 * paths and reachability, and the facts about them that the generators and
 * the solvers share. The in-place grid is an `array2<Cell>`; `Snapshot`
 * reads it as a value and `SetCell` is the one write to a cell.
 */
module Grid {
  import opened MazeTypes

  /** Number of columns, read from the first row as the source does (`grid[0].length`). */
  function Width(m: Layout): nat
  {
    if |m| == 0 then 0 else |m[0]|
  }

  /** All rows have the same length. */
  predicate IsRect(m: Layout)
  {
    forall i | 0 <= i < |m| :: |m[i]| == Width(m)
  }

  predicate InBounds(m: Layout, p: Pos)
  {
    0 <= p.row < |m| && 0 <= p.col < Width(m)
  }

  /** The cell at `p`, or a fully walled cell outside the rows. */
  function CellAt(m: Layout, p: Pos): Cell
  {
    if 0 <= p.row < |m| && 0 <= p.col < |m[p.row]| then m[p.row][p.col]
    else Cell([true, true, true, true], false)
  }

  predicate Wall(m: Layout, p: Pos, d: Side)
  {
    CellAt(m, p).walls[d]
  }

  /** All in-bounds positions of an `rows` by `cols` grid. */
  function AllCells(rows: nat, cols: nat): set<Pos>
  {
    set r, c | 0 <= r < rows && 0 <= c < cols :: Pos(r, c)
  }

  /**
   * One move of the passage graph: `q` is an in-bounds neighbour of `p`
   * and the wall on `p`'s side facing `q` is absent.
   */
  predicate Step(m: Layout, p: Pos, q: Pos)
  {
    InBounds(m, p) && InBounds(m, q) &&
    ((q == Offset(p, TOP) && !Wall(m, p, TOP)) ||
     (q == Offset(p, RIGHT) && !Wall(m, p, RIGHT)) ||
     (q == Offset(p, BOTTOM) && !Wall(m, p, BOTTOM)) ||
     (q == Offset(p, LEFT) && !Wall(m, p, LEFT)))
  }

  /** A non-empty sequence of positions each one `Step` from the one before. */
  ghost predicate IsPath(m: Layout, path: seq<Pos>)
  {
    |path| >= 1 && InBounds(m, path[0]) &&
    forall i | 0 <= i < |path| - 1 :: Step(m, path[i], path[i + 1])
  }

  ghost predicate PathBetween(m: Layout, path: seq<Pos>, s: Pos, e: Pos)
  {
    IsPath(m, path) && path[0] == s && path[|path| - 1] == e
  }

  ghost predicate Reachable(m: Layout, s: Pos, e: Pos)
  {
    exists path :: PathBetween(m, path, s, e)
  }

  /** Every cell can be reached from every other cell. */
  ghost predicate Connected(m: Layout)
  {
    forall p, q | InBounds(m, p) && InBounds(m, q) :: Reachable(m, p, q)
  }

  /**
   * The wall facing a neighbour is present on one side exactly when it is
   * present on the other (stated for the right and bottom neighbours; see
   * `SymmetricAt` for all four sides).
   */
  ghost predicate Symmetric(m: Layout)
  {
    (forall p | InBounds(m, p) && InBounds(m, Offset(p, RIGHT)) ::
      Wall(m, p, RIGHT) == Wall(m, Offset(p, RIGHT), LEFT)) &&
    (forall p | InBounds(m, p) && InBounds(m, Offset(p, BOTTOM)) ::
      Wall(m, p, BOTTOM) == Wall(m, Offset(p, BOTTOM), TOP))
  }

  lemma SymmetricAt(m: Layout, p: Pos, d: Side)
    requires Symmetric(m) && InBounds(m, p) && InBounds(m, Offset(p, d))
    ensures Wall(m, p, d) == Wall(m, Offset(p, d), Opposite(d))
  {
    var q := Offset(p, d);
    if d == TOP {
      assert Offset(q, BOTTOM) == p;
    } else if d == LEFT {
      assert Offset(q, RIGHT) == p;
    }
  }

  /** Every wall on the border of the grid is present. */
  ghost predicate Sealed(m: Layout)
  {
    forall p, d: Side | InBounds(m, p) && !InBounds(m, Offset(p, d)) :: Wall(m, p, d)
  }

  /** Row-major order, used to name each passage once. */
  predicate Before(p: Pos, q: Pos)
  {
    p.row < q.row || (p.row == q.row && p.col < q.col)
  }

  /** The passages of the maze, each named once as (earlier cell, later cell). */
  ghost function Passages(m: Layout): set<(Pos, Pos)>
  {
    set p, q | p in AllCells(|m|, Width(m)) && q in AllCells(|m|, Width(m)) &&
               Before(p, q) && Step(m, p, q) :: (p, q)
  }

  /** A perfect maze: a spanning tree of the grid graph, walled in at the border. */
  ghost predicate PerfectMaze(m: Layout)
  {
    IsRect(m) && Symmetric(m) && Sealed(m) && Connected(m) &&
    |Passages(m)| == |m| * Width(m) - 1
  }

  // ---------------------------------------------------------------------------
  // The grid in place

  /** The grid `g` read as a value. */
  ghost function Snapshot(g: array2<Cell>): (m: Layout)
    reads g
    ensures |m| == g.Length0 && IsRect(m)
    ensures g.Length0 > 0 ==> Width(m) == g.Length1
    ensures forall i, j | 0 <= i < g.Length0 && 0 <= j < g.Length1 :: m[i][j] == g[i, j]
  {
    seq(g.Length0, (i: int) reads g requires 0 <= i < g.Length0 =>
      seq(g.Length1, (j: int) reads g requires 0 <= j < g.Length1 => g[i, j]))
  }

  /** `m` with the cell at `p` replaced by `c`. */
  function Update(m: Layout, p: Pos, c: Cell): (r: Layout)
    requires IsRect(m) && InBounds(m, p)
    ensures |r| == |m| && IsRect(r) && Width(r) == Width(m)
    ensures CellAt(r, p) == c
    ensures forall q | q != p :: CellAt(r, q) == CellAt(m, q)
  {
    m[p.row := m[p.row][p.col := c]]
  }

  /** The assignment `grid[row][col] = c`: the only write to a grid cell. */
  method SetCell(g: array2<Cell>, p: Pos, c: Cell)
    requires 0 <= p.row < g.Length0 && 0 <= p.col < g.Length1
    modifies g
    ensures Snapshot(g) == Update(old(Snapshot(g)), p, c)
  {
    ghost var m0 := Snapshot(g);
    g[p.row, p.col] := c;
    ghost var m1 := Snapshot(g);
    ghost var u := Update(m0, p, c);
    forall i | 0 <= i < |m1|
      ensures m1[i] == u[i]
    {
      assert |m1[i]| == |u[i]|;
      forall j | 0 <= j < |m1[i]|
        ensures m1[i][j] == u[i][j]
      {
        assert CellAt(u, Pos(i, j)) == u[i][j];
      }
    }
  }

  // ---------------------------------------------------------------------------
  // Paths and reachability

  lemma ReachableSelf(m: Layout, s: Pos)
    requires InBounds(m, s)
    ensures Reachable(m, s, s)
  {
    assert PathBetween(m, [s], s, s);
  }

  /** A reachable cell extends its reach by one step. */
  lemma ReachableStep(m: Layout, s: Pos, p: Pos, q: Pos)
    requires Reachable(m, s, p) && Step(m, p, q)
    ensures Reachable(m, s, q)
  {
    var path :| PathBetween(m, path, s, p);
    var longer := path + [q];
    assert forall i | 0 <= i < |longer| - 1 :: longer[i] == path[i];
    assert PathBetween(m, longer, s, q);
  }

  /** Paths join end to start. */
  lemma {:induction false} PathConcat(m: Layout, a: seq<Pos>, b: seq<Pos>)
    requires IsPath(m, a) && IsPath(m, b) && a[|a| - 1] == b[0]
    ensures IsPath(m, a + b[1..]) && (a + b[1..])[0] == a[0]
    ensures (a + b[1..])[|a + b[1..]| - 1] == b[|b| - 1]
    ensures |a + b[1..]| == |a| + |b| - 1
  {
    var c := a + b[1..];
    forall i | 0 <= i < |c| - 1
      ensures Step(m, c[i], c[i + 1])
    {
      if i < |a| - 1 {
        assert c[i] == a[i] && c[i + 1] == a[i + 1];
      } else {
        var k := i - |a| + 1;
        assert c[i] == b[k] && c[i + 1] == b[k + 1];
      }
    }
  }

  lemma ReachableTrans(m: Layout, a: Pos, b: Pos, c: Pos)
    requires Reachable(m, a, b) && Reachable(m, b, c)
    ensures Reachable(m, a, c)
  {
    var p1 :| PathBetween(m, p1, a, b);
    var p2 :| PathBetween(m, p2, b, c);
    PathConcat(m, p1, p2);
    assert PathBetween(m, p1 + p2[1..], a, c);
  }

  /** With symmetric walls every move can be taken back. */
  lemma StepSymmetric(m: Layout, p: Pos, q: Pos)
    requires Symmetric(m) && Step(m, p, q)
    ensures Step(m, q, p)
  {
    var d: Side :|  q == Offset(p, d) && !Wall(m, p, d) by {
      if q == Offset(p, TOP) && !Wall(m, p, TOP) {
      } else if q == Offset(p, RIGHT) && !Wall(m, p, RIGHT) {
        assert q == Offset(p, RIGHT) && !Wall(m, p, RIGHT);
      } else if q == Offset(p, BOTTOM) && !Wall(m, p, BOTTOM) {
        assert q == Offset(p, BOTTOM) && !Wall(m, p, BOTTOM);
      } else {
        assert q == Offset(p, LEFT) && !Wall(m, p, LEFT);
      }
    }
    SymmetricAt(m, p, d);
    assert p == Offset(q, Opposite(d));
  }

  /** Reversing a path of a symmetric grid gives a path. */
  lemma ReachableSymmetric(m: Layout, a: Pos, b: Pos)
    requires Symmetric(m) && Reachable(m, a, b)
    ensures Reachable(m, b, a)
  {
    var path :| PathBetween(m, path, a, b);
    var rev := seq(|path|, i requires 0 <= i < |path| => path[|path| - 1 - i]);
    forall i | 0 <= i < |rev| - 1
      ensures Step(m, rev[i], rev[i + 1])
    {
      var k := |path| - 2 - i;
      assert rev[i] == path[k + 1] && rev[i + 1] == path[k];
      StepSymmetric(m, path[k], path[k + 1]);
    }
    PathInBounds(m, path, |path| - 1);
    assert PathBetween(m, rev, b, a);
  }

  /** A set holding `s` and closed under `Step` holds every cell of every path from `s`. */
  lemma {:induction false} ClosedHoldsPath(m: Layout, S: set<Pos>, path: seq<Pos>, k: nat)
    requires IsPath(m, path) && path[0] in S && k < |path|
    requires forall p, q | p in S && Step(m, p, q) :: q in S
    ensures path[k] in S
  {
    if k > 0 {
      ClosedHoldsPath(m, S, path, k - 1);
      assert Step(m, path[k - 1], path[k]);
    }
  }

  /** A set holding `s` and closed under `Step` holds every cell reachable from `s`. */
  lemma ClosedHoldsReachable(m: Layout, S: set<Pos>, s: Pos, e: Pos)
    requires s in S && Reachable(m, s, e)
    requires forall p, q | p in S && Step(m, p, q) :: q in S
    ensures e in S
  {
    var path :| PathBetween(m, path, s, e);
    ClosedHoldsPath(m, S, path, |path| - 1);
  }

  /** Every position on a path is in bounds. */
  lemma PathInBounds(m: Layout, path: seq<Pos>, k: nat)
    requires IsPath(m, path) && k < |path|
    ensures InBounds(m, path[k])
  {
    if k > 0 {
      assert Step(m, path[k - 1], path[k]);
    }
  }

  lemma ReachableInBounds(m: Layout, s: Pos, e: Pos)
    requires Reachable(m, s, e)
    ensures InBounds(m, s) && InBounds(m, e)
  {
    var path :| PathBetween(m, path, s, e);
    PathInBounds(m, path, |path| - 1);
  }

  /** Passages only added: every path stays a path. */
  lemma ReachableMono(m0: Layout, m1: Layout, s: Pos, e: Pos)
    requires forall p, q | Step(m0, p, q) :: Step(m1, p, q)
    requires |m0| == |m1| && Width(m0) == Width(m1)
    requires Reachable(m0, s, e)
    ensures Reachable(m1, s, e)
  {
    var path :| PathBetween(m0, path, s, e);
    assert PathBetween(m1, path, s, e);
  }

  /** Symmetric walls and one root reaching every cell give a connected grid. */
  lemma ConnectedFromRoot(m: Layout, s: Pos)
    requires Symmetric(m)
    requires forall p | InBounds(m, p) :: Reachable(m, s, p)
    ensures Connected(m)
  {
    forall p, q | InBounds(m, p) && InBounds(m, q)
      ensures Reachable(m, p, q)
    {
      ReachableSymmetric(m, s, p);
      ReachableTrans(m, p, s, q);
    }
  }

  // ---------------------------------------------------------------------------
  // Counting cells

  function RowCells(r: int, cols: nat): set<Pos>
  {
    set c | 0 <= c < cols :: Pos(r, c)
  }

  lemma {:induction false} RowCellsSize(r: int, cols: nat)
    ensures |RowCells(r, cols)| == cols
  {
    if cols > 0 {
      RowCellsSize(r, cols - 1);
      assert RowCells(r, cols) == RowCells(r, cols - 1) + {Pos(r, cols - 1)};
    } else {
      assert RowCells(r, cols) == {};
    }
  }

  lemma MulStep(rows: nat, cols: nat)
    requires rows > 0
    ensures (rows - 1) * cols + cols == rows * cols
  {
  }

  /** An `rows` by `cols` grid has `rows * cols` cells. */
  lemma {:induction false} AllCellsSize(rows: nat, cols: nat)
    ensures |AllCells(rows, cols)| == rows * cols
  {
    if rows > 0 {
      var top, last := AllCells(rows - 1, cols), RowCells(rows - 1, cols);
      AllCellsSize(rows - 1, cols);
      RowCellsSize(rows - 1, cols);
      forall p | p in AllCells(rows, cols) ensures p in top + last {
        if p.row < rows - 1 {
          assert p in top;
        } else {
          assert p in last;
        }
      }
      assert AllCells(rows, cols) == top + last;
      assert top !! last;
      assert |top + last| == |top| + |last|;
      MulStep(rows, cols);
    } else {
      assert AllCells(rows, cols) == {};
    }
  }

  predicate NoDup<T(==)>(s: seq<T>)
  {
    forall i, j | 0 <= i < j < |s| :: s[i] != s[j]
  }

  function Elems<T(==)>(s: seq<T>): set<T>
  {
    set x | x in s
  }

  lemma {:induction false} NoDupCard<T>(s: seq<T>)
    requires NoDup(s)
    ensures |Elems(s)| == |s|
  {
    if |s| > 0 {
      var t := s[..|s| - 1];
      assert NoDup(t);
      NoDupCard(t);
      assert Elems(s) == Elems(t) + {s[|s| - 1]};
      assert s[|s| - 1] !in Elems(t);
    } else {
      assert Elems(s) == {};
    }
  }

  /** A duplicate-free sequence of cells of an `rows` by `cols` grid has at most `rows * cols` entries. */
  lemma NoDupBound(s: seq<Pos>, rows: nat, cols: nat)
    requires NoDup(s)
    requires forall i | 0 <= i < |s| :: 0 <= s[i].row < rows && 0 <= s[i].col < cols
    ensures |s| <= rows * cols
  {
    NoDupCard(s);
    assert Elems(s) <= AllCells(rows, cols) by {
      forall x | x in Elems(s) ensures x in AllCells(rows, cols) {
        var i :| 0 <= i < |s| && s[i] == x;
      }
    }
    AllCellsSize(rows, cols);
    assert |Elems(s)| <= |AllCells(rows, cols)| by {
      SubsetCard(Elems(s), AllCells(rows, cols));
    }
  }

  /** `w` without its entry at index `r`, as `w.splice(r, 1)`. */
  function RemoveAt<T>(w: seq<T>, r: nat): (w1: seq<T>)
    requires r < |w|
    ensures |w1| == |w| - 1
    ensures forall x | x in w && x != w[r] :: x in w1
    ensures forall x | x in w1 :: x in w
  {
    w[..r] + w[r + 1..]
  }

  /** Removing one entry of a duplicate-free sequence removes exactly that element. */
  lemma RemoveAtElems<T>(w: seq<T>, r: nat)
    requires r < |w| && NoDup(w)
    ensures NoDup(RemoveAt(w, r))
    ensures Elems(RemoveAt(w, r)) == Elems(w) - {w[r]}
  {
    var w1 := RemoveAt(w, r);
    assert forall i | 0 <= i < |w1| :: w1[i] == if i < r then w[i] else w[i + 1];
    forall x | x in Elems(w1) ensures x != w[r] {
      var i :| 0 <= i < |w1| && w1[i] == x;
    }
  }

  lemma SubsetCard<T>(a: set<T>, b: set<T>)
    requires a <= b
    ensures |a| <= |b|
  {
    assert b == a + (b - a);
  }

  // ---------------------------------------------------------------------------
  // The grid graph (walls ignored) is connected

  /** A set of cells holding `s` and closed under grid adjacency holds every cell. */
  lemma {:induction false} AdjacencyClosedHoldsAll(m: Layout, S: set<Pos>, s: Pos, t: Pos)
    requires InBounds(m, s) && InBounds(m, t) && s in S
    requires forall p, d: Side | p in S && InBounds(m, Offset(p, d)) :: Offset(p, d) in S
    ensures t in S
    decreases (if s.row < t.row then t.row - s.row else s.row - t.row) +
              (if s.col < t.col then t.col - s.col else s.col - t.col)
  {
    if s.row < t.row {
      AdjacencyClosedHoldsAll(m, S, Offset(s, BOTTOM), t);
    } else if s.row > t.row {
      AdjacencyClosedHoldsAll(m, S, Offset(s, TOP), t);
    } else if s.col < t.col {
      AdjacencyClosedHoldsAll(m, S, Offset(s, RIGHT), t);
    } else if s.col > t.col {
      AdjacencyClosedHoldsAll(m, S, Offset(s, LEFT), t);
    }
  }
}
