/** The grid as a value: a GRID_SIZE x GRID_SIZE list of rows of cell codes, indexed
    `g[y][x]`, with the bounds-checked accessors and the connectivity notion that the
    wall placement preserves. */
module Grid {
  import opened Constants

  type Cells = seq<seq<int>>

  predicate WellFormed(g: Cells)
  {
    |g| == GRID_SIZE && forall y :: 0 <= y < GRID_SIZE ==> |g[y]| == GRID_SIZE
  }

  /** getCellType on a grid value: out-of-bounds reads as WALL. */
  function Get(g: Cells, p: Pos): int
    requires WellFormed(g)
  {
    if InBounds(p) then g[p.y][p.x] else WALL
  }

  /** setCellType on a grid value: out-of-bounds writes are ignored. */
  function Set(g: Cells, p: Pos, t: int): (r: Cells)
    requires WellFormed(g)
    ensures WellFormed(r)
  {
    if InBounds(p) then g[p.y := g[p.y][p.x := t]] else g
  }

  lemma GetOutOfBounds(g: Cells, p: Pos)
    requires WellFormed(g) && !InBounds(p)
    ensures Get(g, p) == WALL
  {
  }

  /** Reading a cell after writing it gives the value written; every other cell, and every
      cell after an out-of-bounds write, is unchanged. */
  lemma GetAfterSet(g: Cells, p: Pos, t: int, q: Pos)
    requires WellFormed(g)
    ensures Get(Set(g, p, t), q) == if InBounds(p) && q == p then t else Get(g, q)
  {
  }

  lemma SetOutOfBounds(g: Cells, p: Pos, t: int)
    requires WellFormed(g) && !InBounds(p)
    ensures Set(g, p, t) == g
  {
  }

  /** The outer ring (row 0, row 9, column 0, column 9) is WALL. */
  predicate BorderWalled(g: Cells)
    requires WellFormed(g)
  {
    forall i :: 0 <= i < GRID_SIZE ==>
      g[0][i] == WALL && g[GRID_SIZE - 1][i] == WALL && g[i][0] == WALL && g[i][GRID_SIZE - 1] == WALL
  }

  /** Each interior cell is EMPTY or WALL: no player or target has been placed yet. */
  predicate InteriorPlain(g: Cells)
    requires WellFormed(g)
  {
    forall x, y :: 1 <= x < GRID_SIZE - 1 && 1 <= y < GRID_SIZE - 1 ==> g[y][x] == EMPTY || g[y][x] == WALL
  }

  /** A cell the flood fill may enter: interior and EMPTY. */
  predicate Open(g: Cells, p: Pos)
    requires WellFormed(g)
  {
    Interior(p) && g[p.y][p.x] == EMPTY
  }

  ghost function EmptyInterior(g: Cells): (e: set<Pos>)
    requires WellFormed(g)
    ensures forall p :: p in e <==> Open(g, p)
  {
    set x, y | 1 <= x < GRID_SIZE - 1 && 1 <= y < GRID_SIZE - 1 && g[y][x] == EMPTY :: Pos(x, y)
  }

  /** S is closed under stepping to a neighbouring open cell. */
  ghost predicate Closed(g: Cells, S: set<Pos>)
    requires WellFormed(g)
  {
    forall p, d :: p in S && Open(g, Step(p, d)) ==> Step(p, d) in S
  }

  /** The interior EMPTY cells form one 4-connected component: the only nonempty set of them
      that is closed under neighbouring steps is all of them. A grid without interior EMPTY
      cells is connected. */
  ghost predicate Connected(g: Cells)
    requires WellFormed(g)
  {
    forall S :: S <= EmptyInterior(g) && S != {} && Closed(g, S) ==> S == EmptyInterior(g)
  }

  /** The open cells outside a closed set of open cells are closed too (neighbourhood is symmetric). */
  lemma ComplementClosed(g: Cells, S: set<Pos>)
    requires WellFormed(g) && S <= EmptyInterior(g) && Closed(g, S)
    ensures Closed(g, EmptyInterior(g) - S)
  {
    forall p, d | p in EmptyInterior(g) - S && Open(g, Step(p, d))
      ensures Step(p, d) in EmptyInterior(g) - S
    {
      StepBack(p, d);
    }
  }

  /** V lies inside every closed set of open cells that contains start: every cell of V is
      reachable from start. */
  ghost predicate Covers(g: Cells, start: Pos, V: set<Pos>)
    requires WellFormed(g)
  {
    forall S :: S <= EmptyInterior(g) && Closed(g, S) && start in S ==> V <= S
  }

  /** Stepping from a covered cell to an open neighbour keeps the cover. */
  lemma CoversStep(g: Cells, start: Pos, V: set<Pos>, p: Pos, d: Direction)
    requires WellFormed(g) && Covers(g, start, V) && p in V && Open(g, Step(p, d))
    ensures Covers(g, start, V + {Step(p, d)})
  {
  }

  /** Every cell of V outside `pending` has all its open neighbours in V. */
  ghost predicate ClosedBeyond(g: Cells, V: set<Pos>, pending: seq<Pos>)
    requires WellFormed(g)
  {
    forall p, d :: p in V && p !in pending && Open(g, Step(p, d)) ==> Step(p, d) in V
  }

  /** If the flood fill from an open cell reaches every open cell and lies in every closed set
      containing its start, the grid is connected. */
  lemma ConnectedFromCover(g: Cells, start: Pos, V: set<Pos>)
    requires WellFormed(g) && start in V && V == EmptyInterior(g) && Covers(g, start, V)
    ensures Connected(g)
  {
    forall S | S <= EmptyInterior(g) && S != {} && Closed(g, S)
      ensures S == EmptyInterior(g)
    {
      ComplementClosed(g, S);
    }
  }

  /** A closed nonempty proper subset of the open cells witnesses a disconnected grid. */
  lemma DisconnectedWitness(g: Cells, V: set<Pos>)
    requires WellFormed(g) && V <= EmptyInterior(g) && V != {} && Closed(g, V) && V != EmptyInterior(g)
    ensures !Connected(g)
  {
  }

  lemma NoOpenCellConnected(g: Cells)
    requires WellFormed(g) && EmptyInterior(g) == {}
    ensures Connected(g)
  {
  }

  /** A closed set containing one cell of a grid whose interior is all EMPTY contains every
      interior cell: walk from p towards q one step at a time. */
  lemma {:induction false} ClosedReaches(g: Cells, S: set<Pos>, p: Pos, q: Pos)
    requires WellFormed(g) && Closed(g, S) && p in S && Interior(p) && Interior(q)
    requires forall r :: Interior(r) ==> Open(g, r)
    ensures q in S
    decreases (if q.x >= p.x then q.x - p.x else p.x - q.x) + (if q.y >= p.y then q.y - p.y else p.y - q.y)
  {
    if q != p {
      var d := if q.x > p.x then Left else if q.x < p.x then Right else if q.y > p.y then Up else Down;
      var r := Step(q, d);
      ClosedReaches(g, S, p, r);
      StepBack(q, d);
      assert Step(r, Opposite(d)) == q;
    }
  }

  /** The grid that initialize produces before any strategic wall: ring walled, interior EMPTY. */
  predicate Fresh(g: Cells)
    requires WellFormed(g)
  {
    forall x, y :: 0 <= x < GRID_SIZE && 0 <= y < GRID_SIZE ==>
      g[y][x] == (if Interior(Pos(x, y)) then EMPTY else WALL)
  }

  /** The initial all-EMPTY interior is connected. */
  lemma FreshConnected(g: Cells)
    requires WellFormed(g) && Fresh(g)
    ensures Connected(g)
  {
    forall S | S <= EmptyInterior(g) && S != {} && Closed(g, S)
      ensures S == EmptyInterior(g)
    {
      var p :| p in S;
      forall q | q in EmptyInterior(g) ensures q in S {
        ClosedReaches(g, S, p, q);
      }
    }
  }

  /** A subset with as many elements as its superset is the superset. */
  lemma {:induction false} SubsetSameSize<T>(A: set<T>, B: set<T>)
    requires A <= B && |A| == |B|
    ensures A == B
  {
    assert B == A + (B - A);
    assert A * (B - A) == {};
    assert |B - A| == 0;
  }
}
