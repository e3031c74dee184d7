/** The player of player.js: its position on the grid, the start it returns to, the move
    counter, and the slide path it animates. */
module Players {
  import opened Constants
  import opened Grid
  import opened Slides
  import opened Board
  import opened Random
  import Utils

  /** The grid after reset: the current cell is cleared to EMPTY, then the start cell gets
      PLAYER. */
  function ResetCells(g: Cells, pos: Pos, initialPos: Pos): (r: Cells)
    requires WellFormed(g)
    ensures WellFormed(r)
  {
    Set(Set(g, pos, EMPTY), initialPos, PLAYER)
  }

  /** reset writes EMPTY over the current cell even when it holds the target, unless the
      current cell is the start. */
  lemma ResetClearsCurrent(g: Cells, pos: Pos, initialPos: Pos)
    requires WellFormed(g) && InBounds(pos) && pos != initialPos
    ensures Get(ResetCells(g, pos, initialPos), pos) == EMPTY
  {
    GetAfterSet(Set(g, pos, EMPTY), initialPos, PLAYER, pos);
    GetAfterSet(g, pos, EMPTY, pos);
  }

  /** After reset the start cell holds PLAYER and every cell other than the old and the new
      position keeps its code. */
  lemma ResetCellsEffect(g: Cells, pos: Pos, initialPos: Pos, c: Pos)
    requires WellFormed(g) && InBounds(initialPos)
    ensures Get(ResetCells(g, pos, initialPos), initialPos) == PLAYER
    ensures c != pos && c != initialPos ==> Get(ResetCells(g, pos, initialPos), c) == Get(g, c)
  {
    GetAfterSet(Set(g, pos, EMPTY), initialPos, PLAYER, c);
    GetAfterSet(g, pos, EMPTY, c);
  }

  /** A second reset, now from the start cell, changes nothing. */
  lemma ResetIdempotent(g: Cells, pos: Pos, initialPos: Pos)
    requires WellFormed(g)
    ensures ResetCells(ResetCells(g, pos, initialPos), initialPos, initialPos) == ResetCells(g, pos, initialPos)
  {
    var r := ResetCells(g, pos, initialPos);
    if InBounds(initialPos) {
      assert r[initialPos.y][initialPos.x] == PLAYER;
      assert Set(Set(r, initialPos, EMPTY), initialPos, PLAYER)[initialPos.y] == r[initialPos.y];
    }
  }

  class Player {
    const grid: MapCreator
    const rng: SeededRandom
    var pos: Pos
    var initialPos: Pos
    var moveCount: int

    constructor (grid: MapCreator, rng: SeededRandom)
      ensures this.grid == grid && this.rng == rng
      ensures pos == Pos(0, 0) && initialPos == Pos(0, 0) && moveCount == 0
    {
      this.grid := grid;
      this.rng := rng;
      pos := Pos(0, 0);
      initialPos := Pos(0, 0);
      moveCount := 0;
    }

    /** place, with at most maxAttempts draws: an interior cell that is not WALL receives the
        player, which also becomes the start. Without such a draw nothing is written. */
    method Place(maxAttempts: nat) returns (placed: bool)
      requires grid.Valid()
      modifies this`pos, this`initialPos, grid`grid, rng
      ensures grid.Valid()
      ensures placed ==>
        Interior(pos) && old(grid.grid)[pos.y][pos.x] != WALL &&
        grid.grid == Set(old(grid.grid), pos, PLAYER) && grid.grid[pos.y][pos.x] == PLAYER &&
        initialPos == pos
      ensures !placed ==> grid.grid == old(grid.grid) && initialPos == old(initialPos)
    {
      placed := false;
      var attempts := 0;
      while !placed && attempts < maxAttempts
        invariant grid.Valid() && grid.grid == old(grid.grid) && initialPos == old(initialPos)
        invariant placed ==> Interior(pos) && grid.grid[pos.y][pos.x] != WALL
        decreases maxAttempts - attempts
      {
        var x := rng.RandomInt(1, GRID_SIZE - 2);
        var y := rng.RandomInt(1, GRID_SIZE - 2);
        pos := Pos(x, y);
        placed := grid.GetCellType(pos.x, pos.y) != WALL;
        attempts := attempts + 1;
      }
      if placed {
        grid.SetCellType(pos.x, pos.y, PLAYER);
        initialPos := pos;
      }
    }

    /** reset: clear the current cell, move back to the start, mark it PLAYER, zero the count. */
    method Reset()
      requires grid.Valid()
      modifies this`pos, this`moveCount, grid`grid
      ensures grid.Valid() && grid.grid == ResetCells(old(grid.grid), old(pos), initialPos)
      ensures pos == initialPos && moveCount == 0
    {
      grid.SetCellType(pos.x, pos.y, EMPTY);
      pos := initialPos;
      grid.SetCellType(pos.x, pos.y, PLAYER);
      moveCount := 0;
    }

    /** calculateMovePath: the current cell followed by every cell entered, stepping while the
        next cell is in bounds and not WALL and stopping on the target. Nothing is changed. */
    method CalculateMovePath(direction: Direction) returns (path: seq<Pos>)
      requires grid.Valid()
      ensures path == [pos] + Path(grid.grid, pos, direction, Some(grid.targetPos))
      ensures IsSlide(grid.grid, pos, direction, Some(grid.targetPos), path)
    {
      var g, stop := grid.grid, Some(grid.targetPos);
      path := [pos];
      var newPos := pos;
      var moving := true;
      while moving
        invariant |path| >= 1 && newPos == path[|path| - 1]
        invariant moving ==> [pos] + Path(g, pos, direction, stop) == path + Path(g, newPos, direction, stop)
        invariant !moving ==> [pos] + Path(g, pos, direction, stop) == path
        decreases moving, Room(newPos, direction)
      {
        var next := Step(newPos, direction);
        if !InBounds(next) {
          moving := false;
        } else if grid.GetCellType(next.x, next.y) == WALL {
          moving := false;
        } else {
          EnterCell(g, pos, direction, stop, path, newPos);
          newPos := next;
          path := path + [newPos];
          if Utils.ArePositionsEqual(newPos, grid.targetPos) {
            break;
          }
        }
      }
      PathShape(g, pos, direction, stop);
    }
  }
}
