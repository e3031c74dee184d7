/** The search routines of slide_puzzle/mapCreator.js, which slide inline: checkSolvable and
    checkAllCellsReachable, each with its `while (moving)` slide loop as a helper method. */
module InlineSolver {
  import opened Constants
  import opened Grid
  import opened Slides
  import opened Search
  import opened Reach
  import opened Board

  /** The slide loop of checkSolvable: steps while the next cell is in bounds and not WALL;
      entering t ends the slide with onTarget (where the source returns). */
  method TrySlide(g: Cells, t: Pos, from: Pos, d: Direction) returns (newPos: Pos, onTarget: bool)
    requires WellFormed(g)
    ensures onTarget == Touches(g, t, from, d)
    ensures !onTarget ==> newPos == End(g, from, d, None)
  {
    newPos := from;
    onTarget := false;
    var moving := true;
    while moving
      invariant !onTarget ==>
        (Touches(g, t, from, d) <==> t in Path(g, newPos, d, None)) &&
        End(g, from, d, None) == End(g, newPos, d, None)
      invariant !moving && !onTarget ==> Path(g, newPos, d, None) == []
      invariant onTarget ==> Touches(g, t, from, d) && !moving
      decreases moving, Room(newPos, d)
    {
      var next := Step(newPos, d);
      if !InBounds(next) {
        moving := false;
      } else if g[next.y][next.x] == WALL {
        moving := false;
      } else {
        SlideUnfold(g, newPos, d, None);
        newPos := next;
        if newPos == t {
          onTarget := true;
          moving := false;
        }
      }
    }
  }

  /** checkSolvable: breadth-first search over resting cells, one move per slide. It reports
      0 moves when the start is the target, otherwise the least number of slides after which
      one passes over or lands on the target, or not solvable. */
  method CheckSolvable(m: MapCreator, initialPlayerPos: Pos) returns (r: SolveResult)
    requires m.Valid()
    ensures ShortestSolution(m.grid, m.targetPos, initialPlayerPos, r)
  {
    var g, t, start := m.grid, m.targetPos, initialPlayerPos;
    ghost var G := SolveGraph(g, t, start);
    ghost var hits := HitCells(g, t, start);
    SolveGraphComplete(g, t, start);
    var queue := [Node(start, 0)];
    var visited := {start};
    ghost var done: set<Pos> := {};
    ghost var lo := 0;
    SearchInit(G, t, hits, start);
    while queue != []
      invariant Frontier(G, t, start, done, visited, queue, lo) && Expanded(G, hits, done, visited)
      invariant queue != [] ==> lo == queue[0].moves
      decreases |G.Keys - done|
    {
      ghost var q0 := queue;
      var current := queue[0];
      queue := queue[1..];
      if current.pos == t {
        TargetAtHead(G, t, start, done, visited, q0, lo);
        return SolveResult(true, current.moves);
      }
      Dequeue(G, t, hits, start, done, visited, q0, lo);
      var found;
      found, visited, queue := TrySlides(g, t, start, G, hits, done, current, visited, queue);
      if found {
        Found(G, t, hits, start, done, visited, queue, current);
        SolutionAt(g, t, start, current.pos, current.moves);
        return SolveResult(true, current.moves + 1);
      }
      Finish(G, t, hits, start, done, visited, queue, current);
      done := done + {current.pos};
      if queue != [] {
        lo := queue[0].moves;
      }
    }
    Exhausted(G, t, hits, start, done, visited, lo);
    NoSolution(g, t, start);
    r := SolveResult(false, 0);
  }

  /** The `for dir` loop of checkSolvable for the dequeued entry current: either some slide
      touches the target (found), or every slide's resting cell is visited, the unvisited ones
      queued with one more move. */
  method TrySlides(g: Cells, t: Pos, ghost start: Pos, ghost G: Graph, ghost hits: set<Pos>, ghost done: set<Pos>,
                   current: Node, visited0: set<Pos>, queue0: seq<Node>)
    returns (found: bool, visited: set<Pos>, queue: seq<Node>)
    requires WellFormed(g) && G == SolveGraph(g, t, start) && hits == HitCells(g, t, start)
    requires InProgress(G, t, hits, start, done, visited0, queue0, current) && current.pos != t
    ensures InProgress(G, t, hits, start, done, visited, queue, current)
    ensures found ==> current.pos in hits
    ensures !found ==> current.pos in G && G[current.pos] <= visited && current.pos !in hits
  {
    visited, queue := visited0, queue0;
    assert current.pos in Universe(start);
    for dir := 0 to 4
      invariant InProgress(G, t, hits, start, done, visited, queue, current)
      invariant Tried(g, t, current.pos, visited, dir)
    {
      var newPos, onTarget := TrySlide(g, t, current.pos, Directions[dir]);
      ghost var visitedBefore := visited;
      if onTarget {
        HitIntro(g, t, start, current.pos, Directions[dir]);
        return true, visited, queue;
      }
      if newPos !in visited {
        MoveIntro(g, t, start, current.pos, Directions[dir]);
        EndOnPath(g, current.pos, Directions[dir], None);
        Enqueue(G, t, hits, start, done, visited, queue, current, newPos);
        visited := visited + {newPos};
        queue := queue + [Node(newPos, current.moves + 1)];
      }
      TriedNext(g, t, current.pos, visitedBefore, visited, dir);
    }
    MovesTried(g, t, start, current.pos, visited);
    found := false;
  }

  /** The counting loop of checkAllCellsReachable: every EMPTY or TARGET cell. */
  method CollectFreeCells(g: Cells) returns (emptyCells: set<Pos>)
    requires WellFormed(g)
    ensures emptyCells == FreeCells(g)
  {
    emptyCells := {};
    for y := 0 to GRID_SIZE
      invariant emptyCells == set c | c in FreeCells(g) && c.y < y
    {
      for x := 0 to GRID_SIZE
        invariant emptyCells == set c | c in FreeCells(g) && (c.y < y || (c.y == y && c.x < x))
      {
        if g[y][x] == EMPTY || g[y][x] == TARGET {
          emptyCells := emptyCells + {Pos(x, y)};
        }
      }
    }
  }

  /** The slide loop of checkAllCellsReachable: every cell entered is deleted from emptyCells. */
  method SweepSlide(g: Cells, from: Pos, d: Direction, emptyCells0: set<Pos>)
    returns (newPos: Pos, emptyCells: set<Pos>, ghost passed: set<Pos>)
    requires WellFormed(g)
    ensures newPos == End(g, from, d, None) && passed == PathCells(Path(g, from, d, None))
    ensures emptyCells == emptyCells0 - passed
  {
    newPos, emptyCells, passed := from, emptyCells0, {};
    var moving := true;
    while moving
      invariant PathCells(Path(g, from, d, None)) == passed + PathCells(Path(g, newPos, d, None))
      invariant End(g, from, d, None) == End(g, newPos, d, None)
      invariant emptyCells == emptyCells0 - passed
      invariant !moving ==> Path(g, newPos, d, None) == []
      decreases moving, Room(newPos, d)
    {
      var next := Step(newPos, d);
      if !InBounds(next) {
        moving := false;
      } else if g[next.y][next.x] == WALL {
        moving := false;
      } else {
        SlideUnfold(g, newPos, d, None);
        assert PathCells(Path(g, newPos, d, None)) == {next} + PathCells(Path(g, next, d, None));
        newPos := next;
        passed := passed + {newPos};
        if newPos in emptyCells {
          emptyCells := emptyCells - {newPos};
        }
      }
    }
  }

  /** checkAllCellsReachable: breadth-first search over resting cells, deleting every cell a
      slide enters from the EMPTY and TARGET cells; true exactly when every such cell is the
      start or is passed over by a slide from a reachable cell. */
  method CheckAllCellsReachable(m: MapCreator, playerPos: Pos) returns (r: bool)
    requires m.Valid()
    ensures r == AllReachable(m.grid, None, playerPos)
  {
    var g, start := m.grid, playerPos;
    var emptyCells := CollectFreeCells(g);
    var queue := [start];
    var visited := {start};
    if start in emptyCells {
      emptyCells := emptyCells - {start};
    }
    SweepGraphComplete(g, None, start);
    SweepInit(SweepGraph(g, None, start), SweepCover(g, None, start), start);
    ghost var R, done, depth;
    emptyCells, R, done, visited, depth := SweepAll(g, start, queue, visited, emptyCells, {start}, map[start := 0]);
    SweepResult(g, None, start, done, visited, R, depth);
    r := |emptyCells| == 0;
    assert r <==> emptyCells == {};
  }

  /** The `while (queue.length > 0)` loop of checkAllCellsReachable, from the start state. */
  method SweepAll(g: Cells, ghost start: Pos, queue0: seq<Pos>, visited0: set<Pos>, emptyCells0: set<Pos>,
                  ghost R0: set<Pos>, ghost depth0: map<Pos, int>)
    returns (emptyCells: set<Pos>, ghost R: set<Pos>, ghost done: set<Pos>, visited: set<Pos>, ghost depth: map<Pos, int>)
    requires WellFormed(g)
    requires Sweep(SweepGraph(g, None, start), SweepCover(g, None, start), start, {}, visited0, queue0, R0, depth0)
    requires emptyCells0 == FreeCells(g) - R0
    ensures Sweep(SweepGraph(g, None, start), SweepCover(g, None, start), start, done, visited, [], R, depth)
    ensures emptyCells == FreeCells(g) - R
  {
    ghost var G, C := SweepGraph(g, None, start), SweepCover(g, None, start);
    var queue := queue0;
    visited, emptyCells, R, done, depth := visited0, emptyCells0, R0, {}, depth0;
    while queue != []
      invariant Sweep(G, C, start, done, visited, queue, R, depth)
      invariant emptyCells == FreeCells(g) - R
      decreases |G.Keys - done|
    {
      var current := queue[0];
      HeadTail(queue);
      queue := queue[1..];
      visited, queue, emptyCells, R, depth := SweepSlides(g, start, G, C, done, current, visited, queue, emptyCells, R, depth);
      SweepFinish(G, C, start, done, visited, current, queue, R, depth);
      done := done + {current};
    }
  }

  /** The `for dir` loop of checkAllCellsReachable for the dequeued cell current: afterwards
      every slide from current rests on a visited cell and every cell it enters is deleted. */
  method SweepSlides(g: Cells, ghost start: Pos, ghost G: Graph, ghost C: Graph, ghost done: set<Pos>, current: Pos,
                     visited0: set<Pos>, queue0: seq<Pos>, emptyCells0: set<Pos>, ghost R0: set<Pos>, ghost depth0: map<Pos, int>)
    returns (visited: set<Pos>, queue: seq<Pos>, emptyCells: set<Pos>, ghost R: set<Pos>, ghost depth: map<Pos, int>)
    requires WellFormed(g) && G == SweepGraph(g, None, start) && C == SweepCover(g, None, start)
    requires Sweep(G, C, start, done, visited0, [current] + queue0, R0, depth0) && emptyCells0 == FreeCells(g) - R0
    ensures Sweep(G, C, start, done, visited, [current] + queue, R, depth) && emptyCells == FreeCells(g) - R
    ensures current in G && G[current] <= visited && current in C && C[current] <= R
  {
    visited, queue, emptyCells, R, depth := visited0, queue0, emptyCells0, R0, depth0;
    assert current in visited;
    assert current in Universe(start);
    for dir := 0 to 4
      invariant Sweep(G, C, start, done, visited, [current] + queue, R, depth) && emptyCells == FreeCells(g) - R
      invariant Swept(g, None, current, visited, R, dir)
    {
      ghost var visitedBefore, touchedBefore := visited, R;
      var newPos;
      ghost var passed;
      newPos, emptyCells, passed := SweepSlide(g, current, Directions[dir], emptyCells);
      SweepIntro(g, None, start, current, Directions[dir]);
      SweepTouch(G, C, start, done, visited, [current] + queue, R, depth, current, passed);
      R := R + passed;
      if newPos !in visited {
        EndOnPath(g, current, Directions[dir], None);
        SweepEnqueue(G, C, start, done, visited, current, queue, R, depth, newPos);
        visited := visited + {newPos};
        queue := queue + [newPos];
        depth := depth[newPos := depth[current] + 1];
        if newPos in emptyCells {
          emptyCells := emptyCells - {newPos};
        }
      }
      SweptNext(g, None, current, visitedBefore, touchedBefore, visited, R, dir);
    }
    SlidesTried(g, None, start, current, visited, R);
  }
}
