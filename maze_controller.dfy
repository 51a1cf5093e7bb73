/**
 * The state the maze page keeps between user actions (the `useMaze` hook):
 * the chosen start and end cells, which of them the next click moves, and
 * the trace of the last solve (visited cells, path, step count and time).
 * A click on the grid either arms the selection of an endpoint or moves
 * one; moving an endpoint throws the old trace away.
 */
module MazeController {
  import opened MazeTypes
  import opened Grid
  import opened MazeSearch
  import MazeGenerators
  import SolverDispatch

  /** The hook's `selectionMode`: `'start'`, `'end'` or `'none'`. */
  datatype SelectionMode = SelectStart | SelectEnd | SelectNone

  /** The endpoints and the selection mode: everything a click reads. */
  datatype Endpoints = Endpoints(start: Option<Pos>, end: Option<Pos>, mode: SelectionMode)

  /** What a click leaves behind: the new endpoints, and whether an endpoint moved (which clears the trace). */
  datatype ClickResult = ClickResult(endpoints: Endpoints, moved: bool)

  /**
   * `handleCellClick` on the endpoints. Clicking the start arms its
   * selection, then clicking the end arms that; otherwise an armed
   * selection moves its endpoint, an unset start and then an unset end is
   * filled, and with both set the one nearer the click (Manhattan
   * distance, start on a tie) moves.
   */
  function Click(e: Endpoints, p: Pos): (r: ClickResult)
    ensures r.moved <==> e.start != Some(p) && e.end != Some(p)
    ensures !r.moved ==> r.endpoints.start == e.start && r.endpoints.end == e.end
    ensures r.moved ==> r.endpoints.mode == SelectNone
    ensures r.moved ==> (r.endpoints.start == Some(p) && r.endpoints.end == e.end) ||
                        (r.endpoints.end == Some(p) && r.endpoints.start == e.start)
  {
    if e.start == Some(p) then ClickResult(e.(mode := SelectStart), false)
    else if e.end == Some(p) then ClickResult(e.(mode := SelectEnd), false)
    else if e.mode == SelectStart then ClickResult(Endpoints(Some(p), e.end, SelectNone), true)
    else if e.mode == SelectEnd then ClickResult(Endpoints(e.start, Some(p), SelectNone), true)
    else if e.start.None? then ClickResult(Endpoints(Some(p), e.end, SelectNone), true)
    else if e.end.None? then ClickResult(Endpoints(e.start, Some(p), SelectNone), true)
    else if ManhattanDistance(p, e.start.value) <= ManhattanDistance(p, e.end.value) then
      ClickResult(Endpoints(Some(p), e.end, SelectNone), true)
    else ClickResult(Endpoints(e.start, Some(p), SelectNone), true)
  }

  /** Clicking an endpoint arms its selection; the start wins when both sit on the clicked cell. */
  lemma ClickOnEndpoint(e: Endpoints, p: Pos)
    ensures e.start == Some(p) ==> Click(e, p) == ClickResult(e.(mode := SelectStart), false)
    ensures e.start != Some(p) && e.end == Some(p) ==> Click(e, p) == ClickResult(e.(mode := SelectEnd), false)
  {
  }

  /** An armed selection moves its endpoint to any other clicked cell and disarms. */
  lemma ClickArmed(e: Endpoints, p: Pos)
    requires e.start != Some(p) && e.end != Some(p)
    ensures e.mode == SelectStart ==> Click(e, p).endpoints == Endpoints(Some(p), e.end, SelectNone)
    ensures e.mode == SelectEnd ==> Click(e, p).endpoints == Endpoints(e.start, Some(p), SelectNone)
  {
  }

  /** With nothing armed, the start is filled first, then the end. */
  lemma ClickFills(e: Endpoints, p: Pos)
    requires e.mode == SelectNone && e.start != Some(p) && e.end != Some(p)
    ensures e.start.None? ==> Click(e, p).endpoints == Endpoints(Some(p), e.end, SelectNone)
    ensures e.start.Some? && e.end.None? ==> Click(e, p).endpoints == Endpoints(e.start, Some(p), SelectNone)
  {
  }

  /**
   * With both endpoints set and nothing armed, the endpoint that moves to
   * the clicked cell is the nearer one, the start on a tie.
   */
  lemma ClickMovesNearer(e: Endpoints, p: Pos)
    requires e.mode == SelectNone && e.start.Some? && e.end.Some?
    requires e.start != Some(p) && e.end != Some(p)
    ensures Click(e, p).endpoints.start == Some(p) <==>
              ManhattanDistance(p, e.start.value) <= ManhattanDistance(p, e.end.value)
    ensures Click(e, p).endpoints.end == Some(p) <==>
              ManhattanDistance(p, e.start.value) > ManhattanDistance(p, e.end.value)
  {
  }

  /** The start and the end never land on the same cell. */
  ghost predicate Apart(e: Endpoints)
  {
    e.start.Some? && e.end.Some? ==> e.start != e.end
  }

  /** No click puts both endpoints on one cell. */
  lemma ClickKeepsApart(e: Endpoints, p: Pos)
    requires Apart(e)
    ensures Apart(Click(e, p).endpoints)
  {
  }

  /** Moving the start takes two clicks: one on the start, one on the new cell. */
  lemma MoveStartTwoClicks(e: Endpoints, s: Pos, p: Pos)
    requires e.start == Some(s) && p != s && e.end != Some(p)
    ensures Click(Click(e, s).endpoints, p) == ClickResult(Endpoints(Some(p), e.end, SelectNone), true)
  {
  }

  /** On a fresh page the first click places the start and a second click elsewhere places the end. */
  lemma FirstTwoClicks(p: Pos, q: Pos)
    requires p != q
    ensures var e1 := Click(Endpoints(None, None, SelectNone), p).endpoints;
            Click(e1, q).endpoints == Endpoints(Some(p), Some(q), SelectNone)
  {
  }

  /** The hook's state, one field per piece of React state the logic touches. */
  class MazePage {
    var startPosition: Option<Pos>
    var endPosition: Option<Pos>
    var selectionMode: SelectionMode
    var visitedCells: seq<Pos>
    var pathCells: seq<Pos>
    var steps: nat
    var time: nat
    var isSolving: bool

    /** The initial state: no endpoints, nothing armed, an empty trace, no solve running. */
    constructor ()
      ensures startPosition == None && endPosition == None && selectionMode == SelectNone
      ensures visitedCells == [] && pathCells == [] && steps == 0 && time == 0 && !isSolving
    {
      startPosition, endPosition, selectionMode := None, None, SelectNone;
      visitedCells, pathCells, steps, time, isSolving := [], [], 0, 0, false;
    }

    function Selection(): Endpoints
      reads this
    {
      Endpoints(startPosition, endPosition, selectionMode)
    }

    /** The trace of the last solve is empty and its counters are zero. */
    predicate TraceCleared()
      reads this
    {
      visitedCells == [] && pathCells == [] && steps == 0 && time == 0
    }

    /** `handleCellClick(row, col)`: the endpoints follow `Click`; when an endpoint moves, the trace is cleared. */
    method HandleCellClick(row: int, col: int)
      modifies this
      ensures Selection() == Click(old(Selection()), Pos(row, col)).endpoints
      ensures Click(old(Selection()), Pos(row, col)).moved ==> TraceCleared()
      ensures !Click(old(Selection()), Pos(row, col)).moved ==>
        visitedCells == old(visitedCells) && pathCells == old(pathCells) && steps == old(steps) && time == old(time)
      ensures isSolving == old(isSolving)
    {
      var position := Pos(row, col);
      if startPosition.Some? && startPosition.value.row == row && startPosition.value.col == col {
        selectionMode := SelectStart;
        return;
      }
      if endPosition.Some? && endPosition.value.row == row && endPosition.value.col == col {
        selectionMode := SelectEnd;
        return;
      }
      if selectionMode == SelectStart {
        startPosition := Some(position);
        selectionMode := SelectNone;
      } else if selectionMode == SelectEnd {
        endPosition := Some(position);
        selectionMode := SelectNone;
      } else {
        if startPosition.None? {
          startPosition := Some(position);
        } else if endPosition.None? {
          endPosition := Some(position);
        } else {
          var distToStart := Abs(row - startPosition.value.row) + Abs(col - startPosition.value.col);
          var distToEnd := Abs(row - endPosition.value.row) + Abs(col - endPosition.value.col);
          if distToStart <= distToEnd {
            startPosition := Some(position);
          } else {
            endPosition := Some(position);
          }
        }
      }
      visitedCells := [];
      pathCells := [];
      steps := 0;
      time := 0;
    }

    /** `resetMaze`: clear the trace; the endpoints and the selection stay. */
    method ResetMaze()
      modifies this
      ensures TraceCleared()
      ensures Selection() == old(Selection()) && isSolving == old(isSolving)
    {
      visitedCells := [];
      pathCells := [];
      steps := 0;
      time := 0;
    }

    /**
     * The deferred part of `generateNewMaze`: a new perfect maze of the
     * chosen size, the trace cleared, and the endpoints placed in the top
     * left and bottom right corners.
     */
    method GenerateNewMaze(algorithm: GenerationAlgorithm, rows: nat, cols: nat, rng: MazeGenerators.RandomSource)
      returns (g: array2<Cell>)
      requires rows > 0 && cols > 0
      modifies this, rng
      ensures fresh(g) && g.Length0 == rows && g.Length1 == cols
      ensures PerfectMaze(Snapshot(g)) && MazeGenerators.NoneVisited(Snapshot(g))
      ensures startPosition == Some(Pos(0, 0)) && endPosition == Some(Pos(rows - 1, cols - 1))
      ensures TraceCleared() && selectionMode == old(selectionMode) && isSolving == old(isSolving)
    {
      visitedCells := [];
      pathCells := [];
      steps := 0;
      time := 0;
      g := MazeGenerators.GenerateMaze(algorithm, rows, cols, rng);
      startPosition := Some(Pos(0, 0));
      endPosition := Some(Pos(rows - 1, cols - 1));
    }

    /**
     * The synchronous part of `solveMazeWithSelectedAlgorithm`: nothing
     * happens unless both endpoints are set and no solve is running;
     * otherwise the solve is marked as running, the visible trace is
     * emptied, and the endpoints the deferred solve will use are returned.
     */
    method BeginSolve() returns (job: Option<(Pos, Pos)>)
      modifies this
      ensures job.Some? <==> old(startPosition).Some? && old(endPosition).Some? && !old(isSolving)
      ensures job.None? ==>
        Selection() == old(Selection()) && visitedCells == old(visitedCells) && pathCells == old(pathCells) &&
        steps == old(steps) && time == old(time) && isSolving == old(isSolving)
      ensures job.Some? ==>
        job.value == (old(startPosition).value, old(endPosition).value) && isSolving &&
        visitedCells == [] && pathCells == [] && Selection() == old(Selection()) &&
        steps == old(steps) && time == old(time)
    {
      if startPosition.None? || endPosition.None? || isSolving {
        return None;
      }
      isSolving := true;
      visitedCells := [];
      pathCells := [];
      return Some((startPosition.value, endPosition.value));
    }

    /**
     * The deferred part of `solveMazeWithSelectedAlgorithm`: run the chosen
     * solver from the endpoints captured when the solve began, record its
     * trace, the path length as `steps` and the measured time, and mark the
     * solve as finished. The result is an exploration from `start` and, for
     * every solver but depth-first search, a shortest path.
     */
    method FinishSolve(algorithm: SolvingAlgorithm, g: array2<Cell>, start: Pos, end: Pos, elapsed: nat)
      requires 0 <= start.row < g.Length0 && 0 <= start.col < g.Length1
      modifies this
      ensures Explored(Snapshot(g), start, end, Solution(pathCells, visitedCells))
      ensures algorithm != DFS && pathCells != [] ==> Shortest(Snapshot(g), pathCells, start, end)
      ensures steps == |pathCells| && time == elapsed && !isSolving
      ensures Selection() == old(Selection())
    {
      var r := SolverDispatch.SolveMaze(algorithm, g, start, end);
      time := elapsed;
      steps := |r.path|;
      visitedCells := r.visitedCells;
      pathCells := r.path;
      isSolving := false;
    }
  }
}
