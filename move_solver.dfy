/** The search routines of mapCreator.js, which slide through simulateMove: a slide that
    stops on the target and returns the cells it covered, start included. */
module MoveSolver {
  import opened Constants
  import opened Grid
  import opened Slides
  import opened Search
  import opened Reach
  import opened Board
  import InlineSolver

  /** simulateMove: the start cell followed by the cells entered, stepping while the next cell
      is in bounds and not WALL and stopping on the target; the result is the last cell, and
      hitTarget says whether the slide stopped on the target, which is whether the full slide
      passes over or lands on it. */
  method SimulateMove(m: MapCreator, startPos: Pos, direction: Direction)
    returns (endPos: Pos, hitTarget: bool, path: seq<Pos>)
    requires m.Valid()
    ensures path == [startPos] + Path(m.grid, startPos, direction, Some(m.targetPos))
    ensures IsSlide(m.grid, startPos, direction, Some(m.targetPos), path)
    ensures endPos == path[|path| - 1] == End(m.grid, startPos, direction, Some(m.targetPos))
    ensures hitTarget == (m.targetPos in path[1..]) == Touches(m.grid, m.targetPos, startPos, direction)
    ensures hitTarget <==> |path| > 1 && endPos == m.targetPos
    ensures !hitTarget ==> endPos == End(m.grid, startPos, direction, None)
  {
    var g, t, stop := m.grid, m.targetPos, Some(m.targetPos);
    var pos := startPos;
    path := [startPos];
    var moving := true;
    hitTarget := false;
    while moving
      invariant |path| >= 1 && path[0] == startPos && pos == path[|path| - 1]
      invariant moving ==> [startPos] + Path(g, startPos, direction, stop) == path + Path(g, pos, direction, stop)
      invariant moving ==> !hitTarget && t !in path[1..]
      invariant !moving ==> [startPos] + Path(g, startPos, direction, stop) == path
      invariant !moving ==> (hitTarget <==> t in path[1..])
      decreases moving, Room(pos, direction)
    {
      var next := Step(pos, direction);
      if !InBounds(next) {
        moving := false;
      } else if g[next.y][next.x] == WALL {
        moving := false;
      } else {
        ghost var before := path;
        EnterCell(g, startPos, direction, stop, path, pos);
        pos := next;
        path := path + [pos];
        assert path[1..] == before[1..] + [pos];
        if pos == t {
          hitTarget := true;
          moving := false;
        }
      }
    }
    endPos := pos;
    StoppedSlide(g, t, startPos, direction);
    PathShape(g, startPos, direction, stop);
  }

  /** checkSolvable of this revision: the same breadth-first search, with each slide taken by
      simulateMove, and the same promise. */
  method CheckSolvable(m: MapCreator, initialPlayerPos: Pos) returns (r: SolveResult)
    requires m.Valid()
    ensures ShortestSolution(m.grid, m.targetPos, initialPlayerPos, r)
  {
    var g, t, start := m.grid, m.targetPos, initialPlayerPos;
    ghost var G := SolveGraph(g, t, start);
    ghost var hits := HitCells(g, t, start);
    SolveGraphComplete(g, t, start);
    var queue := [Node(start, 0)];
    var visited := {start};
    ghost var done: set<Pos> := {};
    ghost var lo := 0;
    SearchInit(G, t, hits, start);
    while queue != []
      invariant Frontier(G, t, start, done, visited, queue, lo) && Expanded(G, hits, done, visited)
      invariant queue != [] ==> lo == queue[0].moves
      decreases |G.Keys - done|
    {
      ghost var q0 := queue;
      var current := queue[0];
      queue := queue[1..];
      if current.pos == t {
        TargetAtHead(G, t, start, done, visited, q0, lo);
        return SolveResult(true, current.moves);
      }
      Dequeue(G, t, hits, start, done, visited, q0, lo);
      var found;
      found, visited, queue := TryMoves(m, start, G, hits, done, current, visited, queue);
      if found {
        Found(G, t, hits, start, done, visited, queue, current);
        SolutionAt(g, t, start, current.pos, current.moves);
        return SolveResult(true, current.moves + 1);
      }
      Finish(G, t, hits, start, done, visited, queue, current);
      done := done + {current.pos};
      if queue != [] {
        lo := queue[0].moves;
      }
    }
    Exhausted(G, t, hits, start, done, visited, lo);
    NoSolution(g, t, start);
    r := SolveResult(false, 0);
  }

  /** The `for dir` loop of checkSolvable: a move that hits the target ends the search (found);
      otherwise every resting cell is visited, the unvisited ones queued with one more move. */
  method TryMoves(m: MapCreator, ghost start: Pos, ghost G: Graph, ghost hits: set<Pos>, ghost done: set<Pos>,
                  current: Node, visited0: set<Pos>, queue0: seq<Node>)
    returns (found: bool, visited: set<Pos>, queue: seq<Node>)
    requires m.Valid() && G == SolveGraph(m.grid, m.targetPos, start) && hits == HitCells(m.grid, m.targetPos, start)
    requires InProgress(G, m.targetPos, hits, start, done, visited0, queue0, current) && current.pos != m.targetPos
    ensures InProgress(G, m.targetPos, hits, start, done, visited, queue, current)
    ensures found ==> current.pos in hits
    ensures !found ==> current.pos in G && G[current.pos] <= visited && current.pos !in hits
  {
    var g, t := m.grid, m.targetPos;
    visited, queue := visited0, queue0;
    assert current.pos in Universe(start);
    for dir := 0 to 4
      invariant InProgress(G, t, hits, start, done, visited, queue, current)
      invariant Tried(g, t, current.pos, visited, dir)
    {
      var endPos, hitTarget, path := SimulateMove(m, current.pos, Directions[dir]);
      ghost var visitedBefore := visited;
      if hitTarget {
        HitIntro(g, t, start, current.pos, Directions[dir]);
        return true, visited, queue;
      }
      if endPos !in visited {
        MoveIntro(g, t, start, current.pos, Directions[dir]);
        EndOnPath(g, current.pos, Directions[dir], None);
        Enqueue(G, t, hits, start, done, visited, queue, current, endPos);
        visited := visited + {endPos};
        queue := queue + [Node(endPos, current.moves + 1)];
      }
      TriedNext(g, t, current.pos, visitedBefore, visited, dir);
    }
    MovesTried(g, t, start, current.pos, visited);
    found := false;
  }

  /** checkAllCellsReachable of this revision: slides stop on the target, and every cell of
      each simulateMove path is deleted from the EMPTY and TARGET cells. */
  method CheckAllCellsReachable(m: MapCreator, playerPos: Pos) returns (r: bool)
    requires m.Valid()
    ensures r == AllReachable(m.grid, Some(m.targetPos), playerPos)
  {
    var g, stop, start := m.grid, Some(m.targetPos), playerPos;
    var emptyCells := InlineSolver.CollectFreeCells(g);
    var queue := [start];
    var visited := {start};
    if start in emptyCells {
      emptyCells := emptyCells - {start};
    }
    SweepGraphComplete(g, stop, start);
    SweepInit(SweepGraph(g, stop, start), SweepCover(g, stop, start), start);
    ghost var R, done, depth;
    emptyCells, R, done, visited, depth := SweepAll(m, start, queue, visited, emptyCells, {start}, map[start := 0]);
    SweepResult(g, stop, start, done, visited, R, depth);
    r := |emptyCells| == 0;
    assert r <==> emptyCells == {};
  }

  /** The `while (queue.length > 0)` loop of checkAllCellsReachable, from the start state. */
  method SweepAll(m: MapCreator, ghost start: Pos, queue0: seq<Pos>, visited0: set<Pos>, emptyCells0: set<Pos>,
                  ghost R0: set<Pos>, ghost depth0: map<Pos, int>)
    returns (emptyCells: set<Pos>, ghost R: set<Pos>, ghost done: set<Pos>, visited: set<Pos>, ghost depth: map<Pos, int>)
    requires m.Valid()
    requires Sweep(SweepGraph(m.grid, Some(m.targetPos), start), SweepCover(m.grid, Some(m.targetPos), start), start, {}, visited0, queue0, R0, depth0)
    requires emptyCells0 == FreeCells(m.grid) - R0
    ensures Sweep(SweepGraph(m.grid, Some(m.targetPos), start), SweepCover(m.grid, Some(m.targetPos), start), start, done, visited, [], R, depth)
    ensures emptyCells == FreeCells(m.grid) - R
  {
    ghost var G, C := SweepGraph(m.grid, Some(m.targetPos), start), SweepCover(m.grid, Some(m.targetPos), start);
    var queue := queue0;
    visited, emptyCells, R, done, depth := visited0, emptyCells0, R0, {}, depth0;
    while queue != []
      invariant Sweep(G, C, start, done, visited, queue, R, depth)
      invariant emptyCells == FreeCells(m.grid) - R
      decreases |G.Keys - done|
    {
      var current := queue[0];
      HeadTail(queue);
      queue := queue[1..];
      visited, queue, emptyCells, R, depth := SweepMoves(m, start, G, C, done, current, visited, queue, emptyCells, R, depth);
      SweepFinish(G, C, start, done, visited, current, queue, R, depth);
      done := done + {current};
    }
  }

  /** The `for (const pos of path)` loop: every cell of the path is deleted. */
  method DeletePath(emptyCells0: set<Pos>, path: seq<Pos>) returns (emptyCells: set<Pos>)
    ensures emptyCells == emptyCells0 - PathCells(path)
  {
    emptyCells := emptyCells0;
    for i := 0 to |path|
      invariant emptyCells == emptyCells0 - PathCells(path[..i])
    {
      assert PathCells(path[..i + 1]) == PathCells(path[..i]) + {path[i]} by {
        assert path[..i + 1] == path[..i] + [path[i]];
      }
      if path[i] in emptyCells {
        emptyCells := emptyCells - {path[i]};
      }
    }
    assert path[..|path|] == path;
  }

  /** The `for dir` loop of checkAllCellsReachable for the dequeued cell current. */
  method SweepMoves(m: MapCreator, ghost start: Pos, ghost G: Graph, ghost C: Graph, ghost done: set<Pos>, current: Pos,
                    visited0: set<Pos>, queue0: seq<Pos>, emptyCells0: set<Pos>, ghost R0: set<Pos>, ghost depth0: map<Pos, int>)
    returns (visited: set<Pos>, queue: seq<Pos>, emptyCells: set<Pos>, ghost R: set<Pos>, ghost depth: map<Pos, int>)
    requires m.Valid() && G == SweepGraph(m.grid, Some(m.targetPos), start) && C == SweepCover(m.grid, Some(m.targetPos), start)
    requires Sweep(G, C, start, done, visited0, [current] + queue0, R0, depth0) && emptyCells0 == FreeCells(m.grid) - R0
    ensures Sweep(G, C, start, done, visited, [current] + queue, R, depth) && emptyCells == FreeCells(m.grid) - R
    ensures current in G && G[current] <= visited && current in C && C[current] <= R
  {
    visited, queue, emptyCells, R, depth := visited0, queue0, emptyCells0, R0, depth0;
    for dir := 0 to 4
      invariant Sweep(G, C, start, done, visited, [current] + queue, R, depth) && emptyCells == FreeCells(m.grid) - R
      invariant Swept(m.grid, Some(m.targetPos), current, visited, R, dir)
    {
      visited, queue, emptyCells, R, depth := SweepMove(m, start, G, C, done, current, dir, visited, queue, emptyCells, R, depth);
    }
    assert current in visited;
    SlidesTried(m.grid, Some(m.targetPos), start, current, visited, R);
  }

  /** One pass of the `for dir` loop: the path of simulateMove is deleted and an unvisited
      resting cell is queued. */
  method SweepMove(m: MapCreator, ghost start: Pos, ghost G: Graph, ghost C: Graph, ghost done: set<Pos>, current: Pos, dir: int,
                   visited0: set<Pos>, queue0: seq<Pos>, emptyCells0: set<Pos>, ghost R0: set<Pos>, ghost depth0: map<Pos, int>)
    returns (visited: set<Pos>, queue: seq<Pos>, emptyCells: set<Pos>, ghost R: set<Pos>, ghost depth: map<Pos, int>)
    requires m.Valid() && G == SweepGraph(m.grid, Some(m.targetPos), start) && C == SweepCover(m.grid, Some(m.targetPos), start)
    requires Sweep(G, C, start, done, visited0, [current] + queue0, R0, depth0) && emptyCells0 == FreeCells(m.grid) - R0
    requires 0 <= dir < 4 && Swept(m.grid, Some(m.targetPos), current, visited0, R0, dir)
    ensures Sweep(G, C, start, done, visited, [current] + queue, R, depth) && emptyCells == FreeCells(m.grid) - R
    ensures Swept(m.grid, Some(m.targetPos), current, visited, R, dir + 1)
  {
    var g, stop := m.grid, Some(m.targetPos);
    visited, queue, R, depth := visited0, queue0, R0, depth0;
    assert current in visited;
    assert current in Universe(start);
    var endPos, hitTarget, path := SimulateMove(m, current, Directions[dir]);
    ghost var passed := PathCells(Path(g, current, Directions[dir], stop));
    PathCellsCons(current, Path(g, current, Directions[dir], stop));
    emptyCells := DeletePath(emptyCells0, path);
    SweepIntro(g, stop, start, current, Directions[dir]);
    SweepTouch(G, C, start, done, visited, [current] + queue, R, depth, current, passed);
    R := R + passed;
    if endPos !in visited {
      EndOnPath(g, current, Directions[dir], stop);
      SweepEnqueue(G, C, start, done, visited, current, queue, R, depth, endPos);
      visited := visited + {endPos};
      queue := queue + [endPos];
      depth := depth[endPos := depth[current] + 1];
    }
    SweptNext(g, stop, current, visited0, R0, visited, R, dir);
  }
}
