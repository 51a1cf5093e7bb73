/**
 * The value types shared by the maze generators, the maze solvers and the
 * maze controller: positions, cells with their four wall flags, and the
 * closed sets of generation and solving algorithm names.
 */
module MazeTypes {

  /** A (row, col) coordinate; row-major, 0-indexed. */
  datatype Pos = Pos(row: int, col: int)

  /** An index into a cell's wall flags: 0 top, 1 right, 2 bottom, 3 left. */
  type Side = d: int | 0 <= d < 4

  const TOP: Side := 0
  const RIGHT: Side := 1
  const BOTTOM: Side := 2
  const LEFT: Side := 3

  /** The four wall flags of a cell, in the order top, right, bottom, left. */
  type Walls = w: seq<bool> | |w| == 4 witness [true, true, true, true]

  /** A grid cell: its walls and the flag the generators use while carving. */
  datatype Cell = Cell(walls: Walls, visited: bool)

  /** A grid as a value: a sequence of rows of cells. */
  type Layout = seq<seq<Cell>>

  datatype Option<T> = None | Some(value: T)

  /**
   * A search score: `Inf` stands for the source's `Infinity` (not reached yet).
   */
  datatype Score = Inf | Fin(n: nat)

  /** The generation algorithms a caller may name. */
  datatype GenerationAlgorithm =
    | GenDFS | GenBFS | GenPrim | GenKruskal | GenRecursiveDivision | GenAldousBroder

  /** The solving algorithms a caller may name. */
  datatype SolvingAlgorithm = DFS | BFS | AStar | Dijkstra

  /** The cell one step away from `p` on side `d`. */
  function Offset(p: Pos, d: Side): Pos
  {
    if d == TOP then Pos(p.row - 1, p.col)
    else if d == RIGHT then Pos(p.row, p.col + 1)
    else if d == BOTTOM then Pos(p.row + 1, p.col)
    else Pos(p.row, p.col - 1)
  }

  /** The side of a cell that faces back toward it from its neighbour on side `d`. */
  function Opposite(d: Side): Side
  {
    if d == TOP then BOTTOM
    else if d == RIGHT then LEFT
    else if d == BOTTOM then TOP
    else RIGHT
  }

  /** `q` is one orthogonal step away from `p`. */
  predicate Adjacent(p: Pos, q: Pos)
  {
    q == Offset(p, TOP) || q == Offset(p, RIGHT) || q == Offset(p, BOTTOM) || q == Offset(p, LEFT)
  }

  /** The side of `p` that faces its neighbour `q`. */
  function DirectionOf(p: Pos, q: Pos): (d: Side)
    requires Adjacent(p, q)
    ensures Offset(p, d) == q
  {
    if q == Offset(p, TOP) then TOP
    else if q == Offset(p, RIGHT) then RIGHT
    else if q == Offset(p, BOTTOM) then BOTTOM
    else LEFT
  }

  /** `Score` strict order, with `Inf` above every finite score. */
  predicate Less(a: Score, b: Score)
  {
    match (a, b)
    case (Fin(x), Fin(y)) => x < y
    case (Fin(_), Inf) => true
    case (Inf, _) => false
  }

  /** `s + k`, where `Infinity + k == Infinity`. */
  function Plus(s: Score, k: nat): Score
  {
    match s
    case Inf => Inf
    case Fin(x) => Fin(x + k)
  }
}
