/** The grid class of both mapCreator.js revisions: building the walled grid with
    connectivity-preserving random walls, placing the target, and the bounds-checked
    accessors. The two revisions' search routines are in InlineSolver and MoveSolver. */
module Board {
  import opened Constants
  import opened Grid
  import Utils
  import opened Random

  /** The flood fill's state: every visited cell is open and reachable from start, every
      queued cell is visited, and only queued cells may have unvisited open neighbours. */
  ghost predicate FloodState(g: Cells, start: Pos, V: set<Pos>, queue: seq<Pos>)
  {
    WellFormed(g) && V <= EmptyInterior(g) && start in V && (forall p :: p in queue ==> p in V) &&
    ClosedBeyond(g, V, queue) && Covers(g, start, V)
  }

  /** Adding an open, unvisited neighbour of a visited cell to the frontier keeps the flood
      fill's invariants and uses up one unvisited open cell. */
  lemma EnqueueStep(g: Cells, start: Pos, V: set<Pos>, queue: seq<Pos>, p: Pos, d: Direction)
    requires FloodState(g, start, V, [p] + queue) && p in V && Open(g, Step(p, d)) && Step(p, d) !in V
    ensures FloodState(g, start, V + {Step(p, d)}, [p] + (queue + [Step(p, d)]))
    ensures |EmptyInterior(g) - (V + {Step(p, d)})| == |EmptyInterior(g) - V| - 1
  {
    assert [p] + (queue + [Step(p, d)]) == [p] + queue + [Step(p, d)];
    CoversStep(g, start, V, p, d);
    assert EmptyInterior(g) - (V + {Step(p, d)}) == (EmptyInterior(g) - V) - {Step(p, d)};
  }

  /** The open neighbours of p in the first n directions are in V. */
  ghost predicate NeighboursIn(g: Cells, V: set<Pos>, p: Pos, n: int)
    requires WellFormed(g)
  {
    forall j :: 0 <= j < n && j < 4 && Open(g, Step(p, Directions[j])) ==> Step(p, Directions[j]) in V
  }

  lemma NeighboursNext(g: Cells, V: set<Pos>, W: set<Pos>, p: Pos, i: int)
    requires WellFormed(g) && 0 <= i < 4 && NeighboursIn(g, V, p, i) && V <= W
    requires Open(g, Step(p, Directions[i])) ==> Step(p, Directions[i]) in W
    ensures NeighboursIn(g, W, p, i + 1)
  {
  }

  /** Once all four neighbours of the dequeued cell are in V, it leaves the pending list. */
  lemma DrainedCell(g: Cells, start: Pos, V: set<Pos>, queue: seq<Pos>, current: Pos)
    requires FloodState(g, start, V, [current] + queue) && NeighboursIn(g, V, current, 4)
    ensures FloodState(g, start, V, queue)
  {
    forall p, d | p in V && p !in queue && Open(g, Step(p, d))
      ensures Step(p, d) in V
    {
      if p == current {
        assert Directions[Code(d)] == d;
      } else {
        assert p !in [current] + queue;
      }
    }
  }

  /** A finished flood fill (closed, reachable from start) has visited all open cells exactly
      when the grid is connected. */
  lemma FloodFillVerdict(g: Cells, start: Pos, V: set<Pos>)
    requires FloodState(g, start, V, [])
    ensures (|V| == |EmptyInterior(g)|) == Connected(g)
  {
    if |V| == |EmptyInterior(g)| {
      SubsetSameSize(V, EmptyInterior(g));
      ConnectedFromCover(g, start, V);
    } else {
      DisconnectedWitness(g, V);
    }
  }

  // How the grid after addStrategicWalls relates to the grid g0 before it, given the set W of
  // kept walls.

  /** Every kept wall is an interior cell that was not a wall in g0 and is a wall now. */
  ghost predicate WallsKept(g0: Cells, g: Cells, W: set<Pos>)
    requires WellFormed(g0) && WellFormed(g)
  {
    forall p :: p in W ==> Interior(p) && g0[p.y][p.x] != WALL && g[p.y][p.x] == WALL
  }

  /** Every other cell is as in g0, or is a rejected attempt: interior, not a wall in g0, EMPTY now. */
  ghost predicate OthersReverted(g0: Cells, g: Cells, W: set<Pos>)
    requires WellFormed(g0) && WellFormed(g)
  {
    forall x, y :: 0 <= x < GRID_SIZE && 0 <= y < GRID_SIZE && Pos(x, y) !in W ==>
      g[y][x] == g0[y][x] || (Interior(Pos(x, y)) && g0[y][x] != WALL && g[y][x] == EMPTY)
  }

  /** g is g0 with exactly the cells of W turned into walls. */
  ghost predicate OnlyWallsAdded(g0: Cells, g: Cells, W: set<Pos>)
    requires WellFormed(g0) && WellFormed(g)
  {
    forall x, y :: 0 <= x < GRID_SIZE && 0 <= y < GRID_SIZE ==>
      g[y][x] == if Pos(x, y) in W then WALL else g0[y][x]
  }

  ghost predicate Trace(g0: Cells, g: Cells, W: set<Pos>)
  {
    WellFormed(g0) && WellFormed(g) && WallsKept(g0, g, W) && OthersReverted(g0, g, W) &&
    (InteriorPlain(g0) ==> OnlyWallsAdded(g0, g, W))
  }

  /** Walling a fresh interior non-wall cell extends the trace. */
  lemma TraceWall(g0: Cells, g: Cells, W: set<Pos>, p: Pos)
    requires Trace(g0, g, W) && Interior(p) && p !in W && g[p.y][p.x] != WALL
    ensures Trace(g0, Set(g, p, WALL), W + {p})
  {
  }

  /** Walling such a cell and setting it back to EMPTY keeps the trace; when g0's interior is
      only EMPTY and WALL, it restores the grid exactly. */
  lemma TraceRevert(g0: Cells, g: Cells, W: set<Pos>, p: Pos)
    requires Trace(g0, g, W) && Interior(p) && p !in W && g[p.y][p.x] != WALL
    ensures Trace(g0, Set(Set(g, p, WALL), p, EMPTY), W)
    ensures InteriorPlain(g0) ==> Set(Set(g, p, WALL), p, EMPTY) == g
  {
    if InteriorPlain(g0) {
      var r := Set(Set(g, p, WALL), p, EMPTY);
      assert g[p.y][p.x] == EMPTY;
      assert forall y :: 0 <= y < GRID_SIZE ==> r[y] == g[y];
    }
  }

  /** The outcome of the wall attempts: whether a wall was kept, the grid, the kept walls and
      the generator's next seed. */
  datatype WallRun = WallRun(valid: bool, grid: Cells, walls: set<Pos>, seed: int)

  /** checkConnectivity's verdict on a grid, as a value for the functions below. */
  ghost predicate IsConnected(c: Cells)
  {
    WellFormed(c) && Connected(c)
  }

  /** One attempt of addStrategicWalls with the draws sample(seed) and sample(seed + 1): x and
      then y in [1, 8]; a cell not in W and not a wall is walled and kept when `keep` (the
      connectivity check) accepts the grid, otherwise set back to EMPTY. */
  ghost function Attempt(g: Cells, W: set<Pos>, keep: Cells -> bool, sample: int -> Unit, seed: int): (r: WallRun)
    requires WellFormed(g)
    ensures WellFormed(r.grid) && r.seed == seed + 2
    ensures r.valid ==> |r.walls| == |W| + 1 && keep(r.grid)
    ensures !r.valid ==> r.walls == W
  {
    var p := Pos(Scale(sample(seed), 1, GRID_SIZE - 2), Scale(sample(seed + 1), 1, GRID_SIZE - 2));
    if p !in W && g[p.y][p.x] != WALL then
      var walled := Set(g, p, WALL);
      if keep(walled) then WallRun(true, walled, W + {p}, seed + 2)
      else WallRun(false, Set(walled, p, EMPTY), W, seed + 2)
    else WallRun(false, g, W, seed + 2)
  }

  /** The attempt loop for one wall from attempt number `attempts`: attempts follow each other
      until one keeps its wall; after 50 attempts the wall is given up. */
  ghost function WallAttempts(g: Cells, W: set<Pos>, keep: Cells -> bool, sample: int -> Unit, seed: int, attempts: int): (r: WallRun)
    requires WellFormed(g)
    ensures WellFormed(r.grid) && (r.valid ==> keep(r.grid))
    decreases 50 - attempts
  {
    if attempts >= 50 then WallRun(false, g, W, seed)
    else
      var a := Attempt(g, W, keep, sample, seed);
      if a.valid then a else WallAttempts(a.grid, a.walls, keep, sample, a.seed, attempts + 1)
  }

  /** The attempt loop from attempt number a on: a kept wall is one new cell after between 1
      and 50 - a attempts of two draws each; a wall given up took all 50 - a attempts and keeps
      W. */
  lemma {:induction false} WallAttemptsUse(g: Cells, W: set<Pos>, keep: Cells -> bool, sample: int -> Unit, seed: int, a: int)
    requires WellFormed(g) && 0 <= a <= 50
    ensures var r := WallAttempts(g, W, keep, sample, seed, a);
      r.valid ==> |r.walls| == |W| + 1 && seed + 2 <= r.seed <= seed + 2 * (50 - a)
    ensures var r := WallAttempts(g, W, keep, sample, seed, a);
      !r.valid ==> r.walls == W && r.seed == seed + 2 * (50 - a)
    decreases 50 - a
  {
    if a < 50 {
      var t := Attempt(g, W, keep, sample, seed);
      if !t.valid {
        WallAttemptsUse(t.grid, t.walls, keep, sample, t.seed, a + 1);
      }
    }
  }

  /** On a grid whose interior holds only EMPTY and WALL, walling a free interior cell keeps
      that so, and setting it back to EMPTY restores the grid. */
  lemma PlainRevert(g: Cells, p: Pos)
    requires WellFormed(g) && InteriorPlain(g) && Interior(p) && g[p.y][p.x] != WALL
    ensures InteriorPlain(Set(g, p, WALL))
    ensures Set(Set(g, p, WALL), p, EMPTY) == g
  {
    var r := Set(Set(g, p, WALL), p, EMPTY);
    assert g[p.y][p.x] == EMPTY;
    assert forall y :: 0 <= y < GRID_SIZE ==> r[y] == g[y];
  }

  /** On such a grid, a wall given up leaves the grid as it was: every rejected attempt is
      undone exactly. */
  lemma {:induction false} WallAttemptsPlain(g: Cells, W: set<Pos>, keep: Cells -> bool, sample: int -> Unit, seed: int, a: int)
    requires WellFormed(g) && InteriorPlain(g)
    ensures var r := WallAttempts(g, W, keep, sample, seed, a);
      InteriorPlain(r.grid) && (!r.valid ==> r.grid == g)
    decreases 50 - a
  {
    if a < 50 {
      var p := Pos(Scale(sample(seed), 1, GRID_SIZE - 2), Scale(sample(seed + 1), 1, GRID_SIZE - 2));
      if p !in W && g[p.y][p.x] != WALL {
        PlainRevert(g, p);
      }
      var t := Attempt(g, W, keep, sample, seed);
      if !t.valid {
        WallAttemptsPlain(t.grid, t.walls, keep, sample, t.seed, a + 1);
      }
    }
  }

  /** The outcome of the wall loop: the grid, the kept walls, the next seed, and whether a wall
      ran out of attempts. */
  datatype WallsRun = WallsRun(grid: Cells, walls: set<Pos>, seed: int, exhausted: bool)

  /** The wall loop of addStrategicWalls from wall number i of numWalls: each wall runs its
      attempts, and the first wall given up ends the loop. */
  ghost function AddWalls(g: Cells, W: set<Pos>, keep: Cells -> bool, sample: int -> Unit, seed: int, i: int, numWalls: int): (r: WallsRun)
    requires WellFormed(g)
    decreases numWalls - i
  {
    if i >= numWalls then WallsRun(g, W, seed, false)
    else
      var a := WallAttempts(g, W, keep, sample, seed, 0);
      if !a.valid then WallsRun(a.grid, a.walls, a.seed, true)
      else AddWalls(a.grid, a.walls, keep, sample, a.seed, i + 1, numWalls)
  }

  /** The wall loop from wall i of n on: without a wall given up all n - i walls are added,
      with between 2 and 100 draws each; otherwise fewer are added, and the wall given up took
      100 draws more. */
  lemma {:induction false} AddWallsUse(g: Cells, W: set<Pos>, keep: Cells -> bool, sample: int -> Unit, seed: int, i: int, n: int)
    requires WellFormed(g) && 0 <= i <= n
    ensures var r := AddWalls(g, W, keep, sample, seed, i, n);
      |W| <= |r.walls| <= |W| + n - i && (r.exhausted <==> |r.walls| < |W| + n - i)
    ensures var r := AddWalls(g, W, keep, sample, seed, i, n);
      !r.exhausted ==> 2 * (|r.walls| - |W|) <= r.seed - seed <= 100 * (|r.walls| - |W|)
    ensures var r := AddWalls(g, W, keep, sample, seed, i, n);
      r.exhausted ==> 2 * (|r.walls| - |W|) + 100 <= r.seed - seed <= 100 * (|r.walls| - |W|) + 100
    decreases n - i
  {
    if i < n {
      WallAttemptsUse(g, W, keep, sample, seed, 0);
      var a := WallAttempts(g, W, keep, sample, seed, 0);
      if a.valid {
        AddWallsUse(a.grid, a.walls, keep, sample, a.seed, i + 1, n);
      }
    }
  }

  /** On such a grid the wall loop ends where it started, with no wall added, or on a grid
      the connectivity check accepted: the last kept wall passed it, and the wall given up
      after it changed nothing. */
  lemma {:induction false} AddWallsPlain(g: Cells, W: set<Pos>, keep: Cells -> bool, sample: int -> Unit, seed: int, i: int, n: int)
    requires WellFormed(g) && InteriorPlain(g)
    ensures var r := AddWalls(g, W, keep, sample, seed, i, n);
      (r.walls == W && r.grid == g) || keep(r.grid)
    decreases n - i
  {
    if i < n {
      WallAttemptsUse(g, W, keep, sample, seed, 0);
      WallAttemptsPlain(g, W, keep, sample, seed, 0);
      var a := WallAttempts(g, W, keep, sample, seed, 0);
      if a.valid {
        AddWallsPlain(a.grid, a.walls, keep, sample, a.seed, i + 1, n);
      }
    }
  }

  class MapCreator {
    /** The cell codes, indexed grid[y][x]. */
    var grid: Cells
    var targetPos: Pos
    const rng: SeededRandom

    ghost predicate Valid()
      reads this
    {
      WellFormed(grid)
    }

    constructor (rng: SeededRandom)
      ensures grid == [] && targetPos == Pos(0, 0) && this.rng == rng
    {
      grid := [];
      targetPos := Pos(0, 0);
      this.rng := rng;
    }

    /** initialize: an all-EMPTY grid, the outer ring walled, then the strategic walls. The
        result has its border walled, is connected, and its interior is EMPTY except for the
        walls that addStrategicWalls kept (at most fifteen). */
    method Initialize() returns (ghost walls: set<Pos>)
      modifies this`grid, rng
      ensures Valid() && BorderWalled(grid) && Connected(grid)
      ensures |walls| <= 15 && forall p :: p in walls ==> Interior(p)
      ensures forall x, y :: 1 <= x < GRID_SIZE - 1 && 1 <= y < GRID_SIZE - 1 ==>
        grid[y][x] == if Pos(x, y) in walls then WALL else EMPTY
    {
      grid := seq(GRID_SIZE, _ => seq(GRID_SIZE, _ => EMPTY));
      for i := 0 to GRID_SIZE
        invariant WellFormed(grid)
        invariant forall x, y :: 0 <= x < GRID_SIZE && 0 <= y < GRID_SIZE ==>
          grid[y][x] == if ((y == 0 || y == GRID_SIZE - 1) && x < i) || ((x == 0 || x == GRID_SIZE - 1) && y < i)
                        then WALL else EMPTY
      {
        grid := grid[0 := grid[0][i := WALL]];
        grid := grid[GRID_SIZE - 1 := grid[GRID_SIZE - 1][i := WALL]];
        grid := grid[i := grid[i][0 := WALL]];
        grid := grid[i := grid[i][GRID_SIZE - 1 := WALL]];
      }
      assert Fresh(grid);
      FreshConnected(grid);
      ghost var numWalls: int, exhausted: bool;
      numWalls, walls, exhausted := AddStrategicWalls();
    }

    /** addStrategicWalls: draws numWalls in [10, 15] and places that many walls one after
        the other; the first wall without a valid position ends the additions.
        `walls` is the set of kept walls (the source's wallPositions), `drawn` is numWalls and
        `exhausted` says that some wall used all its attempts. Each kept wall took between 2
        and 100 draws of the generator, and the wall that ran out of attempts took 100. */
    method AddStrategicWalls() returns (ghost drawn: int, ghost walls: set<Pos>, ghost exhausted: bool)
      requires Valid()
      modifies this`grid, rng
      ensures Valid()
      ensures 10 <= drawn <= 15 && |walls| <= drawn
      ensures drawn == Scale(rng.sample(old(rng.seed)), 10, 15)
      ensures exhausted <==> |walls| < drawn
      ensures var used := rng.seed - old(rng.seed) - 1 - (if exhausted then 100 else 0);
        2 * |walls| <= used <= 100 * |walls|
      // The run is exactly the source's: the same draws, the same walls, and no wall tried
      // after the first one given up.
      ensures AddWalls(old(grid), {}, IsConnected, rng.sample, old(rng.seed) + 1, 0, drawn) ==
        WallsRun(grid, walls, rng.seed, exhausted)
      ensures WallsKept(old(grid), grid, walls) && OthersReverted(old(grid), grid, walls)
      // With only EMPTY and WALL in the interior, a rejected attempt leaves no trace and every
      // kept wall passed the connectivity check.
      ensures old(InteriorPlain(grid)) ==>
        OnlyWallsAdded(old(grid), grid, walls) && (walls == {} || Connected(grid))
      ensures old(Connected(grid) && InteriorPlain(grid)) ==> Connected(grid)
    {
      ghost var g0 := grid;
      var numWalls := rng.RandomInt(10, 15);
      drawn := numWalls;
      walls, exhausted := WallLoop(g0, numWalls);
      AddWallsUse(g0, {}, IsConnected, rng.sample, old(rng.seed) + 1, 0, numWalls);
      if InteriorPlain(g0) {
        AddWallsPlain(g0, {}, IsConnected, rng.sample, old(rng.seed) + 1, 0, numWalls);
      }
    }

    /** The `for` loop of addStrategicWalls over numWalls walls, from an empty wallPositions:
        each wall runs its attempt loop, and the first wall given up ends the loop. */
    method WallLoop(ghost g0: Cells, numWalls: int) returns (ghost walls: set<Pos>, ghost exhausted: bool)
      requires WellFormed(g0) && grid == g0 && 10 <= numWalls <= 15
      modifies this`grid, rng
      ensures Trace(g0, grid, walls)
      ensures AddWalls(g0, {}, IsConnected, rng.sample, old(rng.seed), 0, numWalls) ==
        WallsRun(grid, walls, rng.seed, exhausted)
    {
      var wallPositions: set<Pos> := {};
      exhausted := false;
      var i := 0;
      while i < numWalls
        invariant 0 <= i <= numWalls && |wallPositions| == i
        invariant Trace(g0, grid, wallPositions)
        invariant !exhausted
        invariant AddWalls(g0, {}, IsConnected, rng.sample, old(rng.seed), 0, numWalls) ==
          AddWalls(grid, wallPositions, IsConnected, rng.sample, rng.seed, i, numWalls)
      {
        var validPosition;
        validPosition, wallPositions := NextWall(g0, wallPositions, i, numWalls);
        if !validPosition {
          exhausted := true;
          assert |wallPositions| == i < numWalls;
          break;
        }
        i := i + 1;
      }
      walls := wallPositions;
    }

    /** Wall number i of the loop of addStrategicWalls: its attempt loop is the next step of
        AddWalls, and a wall given up ends the run there. */
    method NextWall(ghost g0: Cells, wallPositions0: set<Pos>, ghost i: int, ghost numWalls: int)
      returns (validPosition: bool, wallPositions: set<Pos>)
      requires Trace(g0, grid, wallPositions0) && i < numWalls
      modifies this`grid, rng
      ensures Trace(g0, grid, wallPositions)
      ensures validPosition ==> |wallPositions| == |wallPositions0| + 1
      ensures !validPosition ==> wallPositions == wallPositions0
      ensures AddWalls(old(grid), wallPositions0, IsConnected, rng.sample, old(rng.seed), i, numWalls) ==
        if validPosition then AddWalls(grid, wallPositions, IsConnected, rng.sample, rng.seed, i + 1, numWalls)
        else WallsRun(grid, wallPositions, rng.seed, true)
    {
      validPosition, wallPositions := PlaceWall(g0, wallPositions0);
    }

    /** The attempt loop of addStrategicWalls for one wall: up to 50 attempts; an attempt's
        cell not yet in wallPositions and not a wall is walled, and kept when the grid stays
        connected, otherwise set back to EMPTY. */
    method PlaceWall(ghost g0: Cells, wallPositions0: set<Pos>) returns (validPosition: bool, wallPositions: set<Pos>)
      requires Trace(g0, grid, wallPositions0)
      modifies this`grid, rng
      ensures Trace(g0, grid, wallPositions)
      ensures validPosition ==> Connected(grid) && exists p :: p !in wallPositions0 && wallPositions == wallPositions0 + {p}
      ensures !validPosition ==> wallPositions == wallPositions0
      ensures !validPosition && InteriorPlain(g0) ==> grid == old(grid)
      ensures !validPosition ==> rng.seed == old(rng.seed) + 100
      ensures validPosition ==> old(rng.seed) + 2 <= rng.seed <= old(rng.seed) + 100
      ensures WallAttempts(old(grid), wallPositions0, IsConnected, rng.sample, old(rng.seed), 0) ==
        WallRun(validPosition, grid, wallPositions, rng.seed)
    {
      ghost var g1, s1 := grid, rng.seed;
      wallPositions := wallPositions0;
      var attempts := 0;
      validPosition := false;
      while !validPosition && attempts < 50
        invariant 0 <= attempts <= 50
        invariant Trace(g0, grid, wallPositions)
        invariant validPosition ==> exists p :: p !in wallPositions0 && wallPositions == wallPositions0 + {p}
        invariant !validPosition ==> wallPositions == wallPositions0
        invariant !validPosition && InteriorPlain(g0) ==> grid == old(grid)
        invariant WallAttempts(old(grid), wallPositions0, IsConnected, rng.sample, old(rng.seed), 0) ==
          if validPosition then WallRun(true, grid, wallPositions, rng.seed)
          else WallAttempts(grid, wallPositions, IsConnected, rng.sample, rng.seed, attempts)
        decreases 50 - attempts
      {
        validPosition, wallPositions := WallAttempt(g0, wallPositions);
        attempts := attempts + 1;
      }
      WallAttemptsUse(g1, wallPositions0, IsConnected, rng.sample, s1, 0);
    }

    /** One attempt of the loop above: draw x and then y in [1, 8]; a cell not in
        wallPositions and not a wall is walled, and kept when the grid stays connected,
        otherwise set back to EMPTY. */
    method WallAttempt(ghost g0: Cells, wallPositions0: set<Pos>) returns (validPosition: bool, wallPositions: set<Pos>)
      requires Trace(g0, grid, wallPositions0)
      modifies this`grid, rng
      ensures Trace(g0, grid, wallPositions) && rng.seed == old(rng.seed) + 2
      ensures validPosition ==> Connected(grid) && exists p :: p !in wallPositions0 && wallPositions == wallPositions0 + {p}
      ensures !validPosition ==> wallPositions == wallPositions0
      ensures !validPosition && InteriorPlain(g0) ==> grid == old(grid)
      ensures Attempt(old(grid), wallPositions0, IsConnected, rng.sample, old(rng.seed)) ==
        WallRun(validPosition, grid, wallPositions, rng.seed)
    {
      wallPositions := wallPositions0;
      validPosition := false;
      var x := rng.RandomInt(1, GRID_SIZE - 2);
      var y := rng.RandomInt(1, GRID_SIZE - 2);
      var posKey := Pos(x, y);
      if posKey !in wallPositions && grid[y][x] != WALL {
        validPosition, wallPositions := TryWall(g0, wallPositions0, posKey);
      }
    }

    /** The body of an attempt on a free cell posKey: wall it, and keep the wall when the grid
        stays connected, otherwise set the cell back to EMPTY. */
    method TryWall(ghost g0: Cells, wallPositions0: set<Pos>, posKey: Pos) returns (validPosition: bool, wallPositions: set<Pos>)
      requires Trace(g0, grid, wallPositions0) && Interior(posKey)
      requires posKey !in wallPositions0 && grid[posKey.y][posKey.x] != WALL
      modifies this`grid
      ensures Trace(g0, grid, wallPositions)
      ensures validPosition == IsConnected(Set(old(grid), posKey, WALL))
      ensures validPosition ==> grid == Set(old(grid), posKey, WALL) && wallPositions == wallPositions0 + {posKey}
      ensures !validPosition ==> grid == Set(Set(old(grid), posKey, WALL), posKey, EMPTY) && wallPositions == wallPositions0
      ensures !validPosition && InteriorPlain(g0) ==> grid == old(grid)
    {
      var x, y := posKey.x, posKey.y;
      TraceWall(g0, grid, wallPositions0, posKey);
      TraceRevert(g0, grid, wallPositions0, posKey);
      grid := grid[y := grid[y][x := WALL]];
      wallPositions := wallPositions0 + {posKey};
      var connected := CheckConnectivity();
      validPosition := connected;
      if !connected {
        grid := grid[y := grid[y][x := EMPTY]];
        wallPositions := wallPositions - {posKey};
      }
    }

    /** The first interior EMPTY cell in row-major order, or startX == -1 when there is none. */
    method FirstEmpty() returns (startX: int, startY: int)
      requires Valid()
      ensures startX == -1 ==> EmptyInterior(grid) == {}
      ensures startX != -1 ==>
        Open(grid, Pos(startX, startY)) &&
        forall p :: Open(grid, p) ==> startY < p.y || (startY == p.y && startX <= p.x)
    {
      startX, startY := -1, -1;
      var y := 1;
      while y < GRID_SIZE - 1
        invariant 1 <= y <= GRID_SIZE - 1
        invariant startX == -1
        invariant forall p :: Open(grid, p) ==> p.y >= y
      {
        var x := 1;
        while x < GRID_SIZE - 1
          invariant 1 <= x <= GRID_SIZE - 1
          invariant startX == -1
          invariant forall p :: Open(grid, p) ==> p.y > y || (p.y == y && p.x >= x)
        {
          if grid[y][x] == EMPTY {
            startX := x;
            startY := y;
            break;
          }
          x := x + 1;
        }
        if startX != -1 {
          break;
        }
        y := y + 1;
      }
    }

    /** The number of interior EMPTY cells. */
    method CountEmpty() returns (total: int)
      requires Valid()
      ensures total == |EmptyInterior(grid)|
    {
      total := 0;
      ghost var seen: set<Pos> := {};
      for y := 1 to GRID_SIZE - 1
        invariant forall p :: p in seen <==> Open(grid, p) && p.y < y
        invariant total == |seen|
      {
        for x := 1 to GRID_SIZE - 1
          invariant forall p :: p in seen <==> Open(grid, p) && (p.y < y || (p.y == y && p.x < x))
          invariant total == |seen|
        {
          if grid[y][x] == EMPTY {
            total := total + 1;
            seen := seen + {Pos(x, y)};
          }
        }
      }
      assert seen == EmptyInterior(grid);
    }

    /** checkConnectivity: flood fill over interior EMPTY cells from the first one; true iff it
        visits as many cells as there are interior EMPTY cells (true when there are none). */
    method CheckConnectivity() returns (connected: bool)
      requires Valid()
      ensures connected == Connected(grid)
    {
      var startX, startY := FirstEmpty();
      if startX == -1 {
        NoOpenCellConnected(grid);
        return true;
      }
      var totalEmptyCells := CountEmpty();
      var start := Pos(startX, startY);
      var visited := FloodFill(start);
      connected := |visited| == totalEmptyCells;
      FloodFillVerdict(grid, start, visited);
    }

    /** The queue loop of checkConnectivity: breadth-first flood fill from an open cell. The
        visited set is closed under open neighbours and reachable from start. */
    method FloodFill(start: Pos) returns (visited: set<Pos>)
      requires Valid() && Open(grid, start)
      ensures FloodState(grid, start, visited, [])
    {
      visited := {start};
      var queue: seq<Pos> := [start];
      while queue != []
        invariant FloodState(grid, start, visited, queue)
        decreases |EmptyInterior(grid) - visited|, |queue|
      {
        var current := queue[0];
        assert [current] + queue[1..] == queue;
        queue := queue[1..];
        visited, queue := VisitNeighbours(start, current, visited, queue);
      }
    }

    /** The inner loop of checkConnectivity: each of the four neighbours of `current` that is
        interior, EMPTY and unvisited is marked visited and queued. */
    method VisitNeighbours(ghost start: Pos, current: Pos, visited0: set<Pos>, queue0: seq<Pos>)
      returns (visited: set<Pos>, queue: seq<Pos>)
      requires Valid() && FloodState(grid, start, visited0, [current] + queue0)
      ensures visited0 <= visited && FloodState(grid, start, visited, queue)
      ensures forall p :: p in visited - visited0 ==> p in queue
      ensures |queue| >= |queue0|
      ensures |EmptyInterior(grid) - visited| == |EmptyInterior(grid) - visited0| - (|queue| - |queue0|)
    {
      visited, queue := visited0, queue0;
      for i := 0 to 4
        invariant visited0 <= visited && FloodState(grid, start, visited, [current] + queue)
        invariant |queue| >= |queue0|
        invariant |EmptyInterior(grid) - visited| == |EmptyInterior(grid) - visited0| - (|queue| - |queue0|)
        invariant forall p :: p in visited - visited0 ==> p in queue
        invariant NeighboursIn(grid, visited, current, i)
      {
        ghost var visited1 := visited;
        var next := Step(current, Directions[i]);
        if 1 <= next.x < GRID_SIZE - 1 && 1 <= next.y < GRID_SIZE - 1 {
          if grid[next.y][next.x] == EMPTY && next !in visited {
            EnqueueStep(grid, start, visited, queue, current, Directions[i]);
            visited := visited + {next};
            queue := queue + [next];
          }
        }
        NeighboursNext(grid, visited1, visited, current, i);
      }
      DrainedCell(grid, start, visited, queue, current);
    }

    /** placeTarget, with at most maxAttempts draws: an interior cell that is EMPTY and not
        adjacent to (or on) the player becomes TARGET. Without such a draw the grid is unchanged. */
    method PlaceTarget(playerPos: Pos, maxAttempts: nat) returns (placed: bool)
      requires Valid()
      modifies this, rng
      ensures Valid()
      ensures placed ==>
        Interior(targetPos) && old(grid)[targetPos.y][targetPos.x] == EMPTY &&
        !Utils.ArePositionsAdjacent(playerPos, targetPos) &&
        grid == Set(old(grid), targetPos, TARGET) && grid[targetPos.y][targetPos.x] == TARGET
      ensures !placed ==> grid == old(grid)
    {
      placed := false;
      var attempts := 0;
      while !placed && attempts < maxAttempts
        invariant WellFormed(grid) && grid == old(grid)
        invariant placed ==>
          Interior(targetPos) && grid[targetPos.y][targetPos.x] == EMPTY &&
          !Utils.ArePositionsAdjacent(playerPos, targetPos)
        decreases maxAttempts - attempts
      {
        var x := rng.RandomInt(1, GRID_SIZE - 2);
        var y := rng.RandomInt(1, GRID_SIZE - 2);
        targetPos := Pos(x, y);
        placed := grid[targetPos.y][targetPos.x] == EMPTY && !Utils.ArePositionsAdjacent(playerPos, targetPos);
        attempts := attempts + 1;
      }
      if placed {
        grid := grid[targetPos.y := grid[targetPos.y][targetPos.x := TARGET]];
      }
    }

    /** getCellType: the stored code in bounds, WALL outside. */
    function GetCellType(x: int, y: int): (t: int)
      reads this
      requires Valid()
      ensures t == Get(grid, Pos(x, y))
    {
      if x < 0 || x >= GRID_SIZE || y < 0 || y >= GRID_SIZE then WALL else grid[y][x]
    }

    /** setCellType: writes in bounds, ignores out-of-bounds coordinates. */
    method SetCellType(x: int, y: int, t: int)
      requires Valid()
      modifies this`grid
      ensures Valid() && grid == Set(old(grid), Pos(x, y), t)
      ensures InBounds(Pos(x, y)) ==> GetCellType(x, y) == t
      ensures forall q :: q != Pos(x, y) ==> Get(grid, q) == Get(old(grid), q)
      ensures !InBounds(Pos(x, y)) ==> grid == old(grid)
    {
      if x >= 0 && x < GRID_SIZE && y >= 0 && y < GRID_SIZE {
        grid := grid[y := grid[y][x := t]];
      }
    }
  }
}
