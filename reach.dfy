/** The move graphs that the two searches of mapCreator.js explore, built from slides, and
    what checkSolvable and checkAllCellsReachable promise about them. */
module Reach {
  import opened Constants
  import opened Grid
  import opened Slides
  import opened Search

  /** The cells of a path, as a set. */
  ghost function PathCells(P: seq<Pos>): set<Pos>
  {
    set c | c in P
  }

  lemma PathCellsCons(p: Pos, P: seq<Pos>)
    ensures PathCells([p] + P) == {p} + PathCells(P)
  {
  }

  /** Every cell a search can visit: the board and the start cell. */
  ghost function Universe(start: Pos): set<Pos>
  {
    AllCells() + {start}
  }

  lemma InUniverse(start: Pos, p: Pos)
    requires InBounds(p)
    ensures p in Universe(start)
  {
    assert p == Pos(p.x, p.y);
  }

  // ---------------------------------------------------------------------------------------
  // checkSolvable: slides that do not touch the target t.

  /** Resting cells of the slides from p that do not touch t. */
  ghost function Moves(g: Cells, t: Pos, p: Pos): set<Pos>
    requires WellFormed(g)
  {
    set d | d in AllDirections && !Touches(g, t, p, d) :: End(g, p, d, None)
  }

  ghost function SolveGraph(g: Cells, t: Pos, start: Pos): Graph
    requires WellFormed(g)
  {
    map p | p in Universe(start) :: Moves(g, t, p)
  }

  /** The cells from which some slide touches t. */
  ghost function HitCells(g: Cells, t: Pos, start: Pos): set<Pos>
    requires WellFormed(g)
  {
    set p | p in Universe(start) && exists d :: Touches(g, t, p, d)
  }

  /** The cells reachable from start in at most k slides none of which touches t. */
  ghost function Within(g: Cells, t: Pos, start: Pos, k: int): set<Pos>
    requires WellFormed(g)
  {
    Level(SolveGraph(g, t, start), start, k)
  }

  /** Some sequence of at most k slides touches t on its last slide. */
  ghost predicate SolvableIn(g: Cells, t: Pos, start: Pos, k: int)
    requires WellFormed(g)
  {
    exists p, d :: p in Within(g, t, start, k - 1) && Touches(g, t, p, d)
  }

  /** What checkSolvable promises: 0 moves when starting on the target, otherwise the least
      number of slides after which one has passed over or landed on the target, or
      "not solvable" with 0 when no number of slides reaches it. */
  ghost predicate ShortestSolution(g: Cells, t: Pos, start: Pos, r: SolveResult)
    requires WellFormed(g)
  {
    if start == t then r == SolveResult(true, 0)
    else if r.solvable then
      r.minMoves >= 1 && SolvableIn(g, t, start, r.minMoves) &&
      forall k :: 1 <= k < r.minMoves ==> !SolvableIn(g, t, start, k)
    else
      r.minMoves == 0 && forall k :: !SolvableIn(g, t, start, k)
  }

  /** At most one result meets the promise, so both revisions of checkSolvable agree. */
  lemma ShortestSolutionUnique(g: Cells, t: Pos, start: Pos, r1: SolveResult, r2: SolveResult)
    requires WellFormed(g)
    requires ShortestSolution(g, t, start, r1) && ShortestSolution(g, t, start, r2)
    ensures r1 == r2
  {
  }

  lemma SolveGraphComplete(g: Cells, t: Pos, start: Pos)
    requires WellFormed(g)
    ensures Complete(SolveGraph(g, t, start)) && start in SolveGraph(g, t, start)
  {
    var G := SolveGraph(g, t, start);
    forall p, e | p in G && e in G[p]
      ensures e in G
    {
      var d :| d in AllDirections && !Touches(g, t, p, d) && End(g, p, d, None) == e;
      EndOnPath(g, p, d, None);
      if e != p {
        InUniverse(start, e);
      }
    }
  }

  /** A non-touching slide from a cell of the universe is a move of the graph. */
  lemma MoveIntro(g: Cells, t: Pos, start: Pos, p: Pos, d: Direction)
    requires WellFormed(g) && p in Universe(start) && !Touches(g, t, p, d)
    ensures p in SolveGraph(g, t, start) && End(g, p, d, None) in SolveGraph(g, t, start)[p]
  {
    assert d in AllDirections;
  }

  lemma HitIntro(g: Cells, t: Pos, start: Pos, p: Pos, d: Direction)
    requires WellFormed(g) && p in Universe(start) && Touches(g, t, p, d)
    ensures p in HitCells(g, t, start)
  {
  }

  /** The first n slides from p, in the search's direction order, do not touch t and rest in V. */
  ghost predicate Tried(g: Cells, t: Pos, p: Pos, V: set<Pos>, n: int)
    requires WellFormed(g)
  {
    forall j :: 0 <= j < n && j < 4 ==> !Touches(g, t, p, Directions[j]) && End(g, p, Directions[j], None) in V
  }

  lemma TriedNext(g: Cells, t: Pos, p: Pos, V: set<Pos>, V': set<Pos>, n: int)
    requires WellFormed(g) && Tried(g, t, p, V, n) && V <= V' && 0 <= n < 4
    requires !Touches(g, t, p, Directions[n]) && End(g, p, Directions[n], None) in V'
    ensures Tried(g, t, p, V', n + 1)
  {
  }

  /** All four slides from p tried: every move from p is in V and p is not a hit. */
  lemma MovesTried(g: Cells, t: Pos, start: Pos, p: Pos, V: set<Pos>)
    requires WellFormed(g) && p in Universe(start) && Tried(g, t, p, V, 4)
    ensures p in SolveGraph(g, t, start) && SolveGraph(g, t, start)[p] <= V && p !in HitCells(g, t, start)
  {
    forall d ensures !Touches(g, t, p, d) && End(g, p, d, None) in V {
      assert Directions[Code(d)] == d;
    }
  }

  /** A hit within m slides and none within fewer: the shortest solution has m + 1 moves. */
  lemma SolutionAt(g: Cells, t: Pos, start: Pos, p: Pos, m: int)
    requires WellFormed(g) && start != t && m >= 0
    requires p in Within(g, t, start, m) && p in HitCells(g, t, start)
    requires forall k :: k < m ==> Within(g, t, start, k) !! HitCells(g, t, start)
    ensures ShortestSolution(g, t, start, SolveResult(true, m + 1))
  {
    var G := SolveGraph(g, t, start);
    SolveGraphComplete(g, t, start);
    var d :| Touches(g, t, p, d);
    assert SolvableIn(g, t, start, m + 1);
    forall k | 1 <= k < m + 1
      ensures !SolvableIn(g, t, start, k)
    {
      LevelInGraph(G, start, k - 1);
      forall c, d | c in Within(g, t, start, k - 1)
        ensures !Touches(g, t, c, d)
      {
        assert c !in HitCells(g, t, start);
      }
    }
  }

  /** No hit within any number of slides: checkSolvable reports "not solvable". */
  lemma NoSolution(g: Cells, t: Pos, start: Pos)
    requires WellFormed(g) && start != t
    requires forall k :: Within(g, t, start, k) !! HitCells(g, t, start)
    ensures ShortestSolution(g, t, start, SolveResult(false, 0))
  {
    var G := SolveGraph(g, t, start);
    SolveGraphComplete(g, t, start);
    forall k
      ensures !SolvableIn(g, t, start, k)
    {
      LevelInGraph(G, start, k - 1);
      forall c, d | c in Within(g, t, start, k - 1)
        ensures !Touches(g, t, c, d)
      {
        assert c !in HitCells(g, t, start);
      }
    }
  }

  // ---------------------------------------------------------------------------------------
  // checkAllCellsReachable: all slides, and the cells they pass over.

  ghost function SweepGraph(g: Cells, stop: Option<Pos>, start: Pos): Graph
    requires WellFormed(g)
  {
    map p | p in Universe(start) :: set d | d in AllDirections :: End(g, p, d, stop)
  }

  ghost function SweepCover(g: Cells, stop: Option<Pos>, start: Pos): Graph
    requires WellFormed(g)
  {
    map p | p in Universe(start) :: set d, c | d in AllDirections && c in Path(g, p, d, stop) :: c
  }

  /** The cells reachable from start in at most k slides. */
  ghost function Explored(g: Cells, stop: Option<Pos>, start: Pos, k: int): set<Pos>
    requires WellFormed(g)
  {
    Level(SweepGraph(g, stop, start), start, k)
  }

  /** c is the start or lies on some slide from a reachable cell. */
  ghost predicate TouchedFrom(g: Cells, stop: Option<Pos>, start: Pos, c: Pos)
    requires WellFormed(g)
  {
    c == start || exists k, p, d :: p in Explored(g, stop, start, k) && c in Path(g, p, d, stop)
  }

  /** The cells checkAllCellsReachable must see touched: every EMPTY or TARGET cell. */
  ghost function FreeCells(g: Cells): (f: set<Pos>)
    requires WellFormed(g)
    ensures forall c :: c in f <==> InBounds(c) && (g[c.y][c.x] == EMPTY || g[c.y][c.x] == TARGET)
  {
    set x, y | 0 <= x < GRID_SIZE && 0 <= y < GRID_SIZE && (g[y][x] == EMPTY || g[y][x] == TARGET) :: Pos(x, y)
  }

  /** Every EMPTY or TARGET cell is passed over or landed on by some slide sequence from start. */
  ghost predicate AllReachable(g: Cells, stop: Option<Pos>, start: Pos)
    requires WellFormed(g)
  {
    forall c :: c in FreeCells(g) ==> TouchedFrom(g, stop, start, c)
  }

  lemma SweepGraphComplete(g: Cells, stop: Option<Pos>, start: Pos)
    requires WellFormed(g)
    ensures Complete(SweepGraph(g, stop, start)) && start in SweepGraph(g, stop, start)
  {
    var G := SweepGraph(g, stop, start);
    forall p, e | p in G && e in G[p]
      ensures e in G
    {
      var d :| d in AllDirections && End(g, p, d, stop) == e;
      EndOnPath(g, p, d, stop);
      if e != p {
        InUniverse(start, e);
      }
    }
  }

  /** Every slide from a cell of the universe is a move, and passes over its cells. */
  lemma SweepIntro(g: Cells, stop: Option<Pos>, start: Pos, p: Pos, d: Direction)
    requires WellFormed(g) && p in Universe(start)
    ensures p in SweepGraph(g, stop, start) && End(g, p, d, stop) in SweepGraph(g, stop, start)[p]
    ensures p in SweepCover(g, stop, start) && PathCells(Path(g, p, d, stop)) <= SweepCover(g, stop, start)[p]
  {
    assert d in AllDirections;
  }

  /** The first n slides from p, in the search's direction order, rest in V and pass only over
      cells of R. */
  ghost predicate Swept(g: Cells, stop: Option<Pos>, p: Pos, V: set<Pos>, R: set<Pos>, n: int)
    requires WellFormed(g)
  {
    forall j :: 0 <= j < n && j < 4 ==> End(g, p, Directions[j], stop) in V && PathCells(Path(g, p, Directions[j], stop)) <= R
  }

  lemma SweptNext(g: Cells, stop: Option<Pos>, p: Pos, V: set<Pos>, R: set<Pos>, V': set<Pos>, R': set<Pos>, n: int)
    requires WellFormed(g) && Swept(g, stop, p, V, R, n) && V <= V' && R <= R' && 0 <= n < 4
    requires End(g, p, Directions[n], stop) in V' && PathCells(Path(g, p, Directions[n], stop)) <= R'
    ensures Swept(g, stop, p, V', R', n + 1)
  {
  }

  /** All four slides from p tried: every move from p is in V and every cell they pass over in R. */
  lemma SlidesTried(g: Cells, stop: Option<Pos>, start: Pos, p: Pos, V: set<Pos>, R: set<Pos>)
    requires WellFormed(g) && p in Universe(start) && Swept(g, stop, p, V, R, 4)
    ensures p in SweepGraph(g, stop, start) && SweepGraph(g, stop, start)[p] <= V
    ensures p in SweepCover(g, stop, start) && SweepCover(g, stop, start)[p] <= R
  {
    forall d ensures End(g, p, d, stop) in V && PathCells(Path(g, p, d, stop)) <= R {
      assert Directions[Code(d)] == d;
    }
  }

  /** With nothing pending, the EMPTY and TARGET cells not yet touched are none exactly when
      every one of them is touched from start. */
  lemma SweepResult(g: Cells, stop: Option<Pos>, start: Pos, D: set<Pos>, V: set<Pos>, R: set<Pos>, depth: map<Pos, int>)
    requires WellFormed(g) && Sweep(SweepGraph(g, stop, start), SweepCover(g, stop, start), start, D, V, [], R, depth)
    ensures (FreeCells(g) - R == {}) == AllReachable(g, stop, start)
  {
    var G, C := SweepGraph(g, stop, start), SweepCover(g, stop, start);
    SweepVerdict(G, C, start, D, V, R, depth);
    forall c
      ensures c in R <==> TouchedFrom(g, stop, start, c)
    {
      TouchedFromCovered(g, stop, start, c);
    }
    if FreeCells(g) - R == {} {
      forall c | c in FreeCells(g)
        ensures TouchedFrom(g, stop, start, c)
      {
        assert c !in FreeCells(g) - R;
      }
    } else {
      var c :| c in FreeCells(g) - R;
      assert !TouchedFrom(g, stop, start, c);
    }
  }

  /** TouchedFrom is coverage in the sweep graph. */
  lemma TouchedFromCovered(g: Cells, stop: Option<Pos>, start: Pos, c: Pos)
    requires WellFormed(g)
    ensures TouchedFrom(g, stop, start, c) <==> Covered(SweepGraph(g, stop, start), SweepCover(g, stop, start), start, c)
  {
    var G, C := SweepGraph(g, stop, start), SweepCover(g, stop, start);
    SweepGraphComplete(g, stop, start);
    if TouchedFrom(g, stop, start, c) && c != start {
      var k, p, d :| p in Explored(g, stop, start, k) && c in Path(g, p, d, stop);
      LevelInGraph(G, start, k);
      SweepIntro(g, stop, start, p, d);
    }
    if Covered(G, C, start, c) && c != start {
      var k, p :| p in Level(G, start, k) && p in C && c in C[p];
      var d :| d in AllDirections && c in Path(g, p, d, stop);
      assert p in Explored(g, stop, start, k);
    }
  }
}
