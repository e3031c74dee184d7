/** Slide semantics on a grid value and the breadth-first notions the two search routines
    are specified against. A slide from p in direction d enters cells one step at a time
    while the next cell is in bounds and not WALL; when a stop cell is given, it also ends
    right after entering that cell. */
module Slides {
  import opened Constants
  import opened Grid

  datatype Option<T> = None | Some(value: T)

  /** What checkSolvable reports. */
  datatype SolveResult = SolveResult(solvable: bool, minMoves: int)

  const AllDirections: set<Direction> := {Up, Right, Down, Left}

  /** The slide cannot enter q: it is out of bounds or a wall. */
  predicate Blocked(g: Cells, q: Pos)
    requires WellFormed(g)
  {
    !InBounds(q) || g[q.y][q.x] == WALL
  }

  /** Cells left before the edge in direction d; it shrinks with every cell a slide enters. */
  function Room(p: Pos, d: Direction): int
  {
    match d
    case Up => p.y
    case Right => GRID_SIZE - p.x
    case Down => GRID_SIZE - p.y
    case Left => p.x
  }

  /** The cells a slide from p in direction d enters, in order (p itself is not included). */
  function Path(g: Cells, p: Pos, d: Direction, stop: Option<Pos>): seq<Pos>
    requires WellFormed(g)
    decreases Room(p, d)
  {
    var q := Step(p, d);
    if Blocked(g, q) then []
    else if stop == Some(q) then [q]
    else [q] + Path(g, q, d, stop)
  }

  /** Where the slide comes to rest. */
  function End(g: Cells, p: Pos, d: Direction, stop: Option<Pos>): Pos
    requires WellFormed(g)
  {
    var path := Path(g, p, d, stop);
    if path == [] then p else path[|path| - 1]
  }

  /** The full slide from p in d passes over or lands on t. */
  predicate Touches(g: Cells, t: Pos, p: Pos, d: Direction)
    requires WellFormed(g)
  {
    t in Path(g, p, d, None)
  }

  /** Every cell of P is one step in d from the one before it (from p for the first) and
      is not blocked. */
  predicate SlideSteps(g: Cells, p: Pos, d: Direction, P: seq<Pos>)
    requires WellFormed(g)
  {
    forall i :: 0 <= i < |P| ==> P[i] == Step(if i == 0 then p else P[i - 1], d) && !Blocked(g, P[i])
  }

  /** Each entered cell is one step in d from the one before it (from p for the first) and
      is not blocked. */
  lemma {:induction false} PathSteps(g: Cells, p: Pos, d: Direction, stop: Option<Pos>)
    requires WellFormed(g)
    ensures SlideSteps(g, p, d, Path(g, p, d, stop))
    decreases Room(p, d)
  {
    var q := Step(p, d);
    if !Blocked(g, q) && stop != Some(q) {
      PathSteps(g, q, d, stop);
      var P, R := Path(g, p, d, stop), Path(g, q, d, stop);
      assert P == [q] + R;
      forall i | 1 <= i < |P| ensures P[i] == Step(P[i - 1], d) && !Blocked(g, P[i]) {
        var j := i - 1;
        assert R[j] == Step(if j == 0 then q else R[j - 1], d) && !Blocked(g, R[j]);
        assert P[i] == R[j];
        assert P[i - 1] == if j == 0 then q else R[j - 1];
      }
    }
  }

  /** The stop cell occurs only as the last entered cell. */
  lemma {:induction false} PathStopsOnce(g: Cells, p: Pos, d: Direction, t: Pos)
    requires WellFormed(g)
    ensures var P := Path(g, p, d, Some(t));
      (forall i :: 0 <= i < |P| - 1 ==> P[i] != t) && (t in P ==> P[|P| - 1] == t)
    decreases Room(p, d)
  {
    var q := Step(p, d);
    if !Blocked(g, q) && q != t {
      PathStopsOnce(g, q, d, t);
    }
  }

  /** Unless the slide ended on the stop cell, the cell after its resting cell is blocked. */
  lemma {:induction false} PathEndsBlocked(g: Cells, p: Pos, d: Direction, stop: Option<Pos>)
    requires WellFormed(g)
    requires stop.None? || stop.value !in Path(g, p, d, stop)
    ensures Blocked(g, Step(End(g, p, d, stop), d))
    decreases Room(p, d)
  {
    var q := Step(p, d);
    if !Blocked(g, q) && stop != Some(q) {
      PathEndsBlocked(g, q, d, stop);
    }
  }

  /** The shape of what simulateMove and calculateMovePath return for a slide from p: it
      starts at p, every later element is one step in d from the one before and not blocked,
      the stop cell can only be the last element, and unless the slide ended on the stop cell
      the next cell beyond the last element is blocked. */
  predicate IsSlide(g: Cells, p: Pos, d: Direction, stop: Option<Pos>, path: seq<Pos>)
    requires WellFormed(g)
  {
    && |path| >= 1 && path[0] == p
    && (forall i :: 1 <= i < |path| ==> path[i] == Step(path[i - 1], d) && !Blocked(g, path[i]))
    && (forall i :: 1 <= i < |path| - 1 ==> Some(path[i]) != stop)
    && (stop.Some? && stop.value in path[1..] ==> path[|path| - 1] == stop.value)
    && (stop.None? || stop.value !in path[1..] ==> Blocked(g, Step(path[|path| - 1], d)))
  }

  /** [p] + Path has the shape of a slide and ends on the resting cell. */
  lemma PathShape(g: Cells, p: Pos, d: Direction, stop: Option<Pos>)
    requires WellFormed(g)
    ensures IsSlide(g, p, d, stop, [p] + Path(g, p, d, stop))
    ensures End(g, p, d, stop) == ([p] + Path(g, p, d, stop))[|Path(g, p, d, stop)|]
  {
    var P := Path(g, p, d, stop);
    var path := [p] + P;
    assert path[1..] == P;
    PathSteps(g, p, d, stop);
    assert forall i :: 1 <= i < |path| ==> path[i] == P[i - 1];
    if stop.Some? {
      PathStopsOnce(g, p, d, stop.value);
    }
    if stop.None? || stop.value !in P {
      PathEndsBlocked(g, p, d, stop);
    }
  }

  /** The shape determines the slide: a sequence with the shape of a slide from p is [p] + Path. */
  lemma {:induction false} SlideUnique(g: Cells, p: Pos, d: Direction, stop: Option<Pos>, path: seq<Pos>)
    requires WellFormed(g) && IsSlide(g, p, d, stop, path)
    ensures path == [p] + Path(g, p, d, stop)
    decreases Room(p, d)
  {
    var q := Step(p, d);
    if |path| > 1 {
      assert path[1] == q && !Blocked(g, q);
      if stop == Some(q) {
        assert |path| == 2;
      } else {
        var rest := path[1..];
        assert path[1..] == [q] + rest[1..];
        forall i | 1 <= i < |rest|
          ensures rest[i] == Step(rest[i - 1], d) && !Blocked(g, rest[i])
        {
          assert rest[i] == path[i + 1] && rest[i - 1] == path[i];
        }
        forall i | 1 <= i < |rest| - 1
          ensures Some(rest[i]) != stop
        {
          assert rest[i] == path[i + 1];
        }
        assert rest[1..] == path[2..];
        SlideUnique(g, q, d, stop, rest);
      }
    }
  }

  /** The slide that stops on t is the prefix of the full slide up to t: they agree when the
      full slide never touches t, and both touch t or neither does. */
  lemma {:induction false} StopIsPrefix(g: Cells, t: Pos, p: Pos, d: Direction)
    requires WellFormed(g)
    ensures var full, stopped := Path(g, p, d, None), Path(g, p, d, Some(t));
      && stopped <= full
      && (t in stopped <==> t in full)
      && (t !in full ==> stopped == full)
    decreases Room(p, d)
  {
    var q := Step(p, d);
    if !Blocked(g, q) && q != t {
      StopIsPrefix(g, t, q, d);
    }
  }

  /** The resting cell is the start or a cell the slide entered, and it is in bounds then. */
  lemma EndOnPath(g: Cells, p: Pos, d: Direction, stop: Option<Pos>)
    requires WellFormed(g)
    ensures End(g, p, d, stop) == p || End(g, p, d, stop) in Path(g, p, d, stop)
    ensures forall c :: c in Path(g, p, d, stop) ==> InBounds(c)
  {
    PathShape(g, p, d, stop);
    var path := [p] + Path(g, p, d, stop);
    forall c | c in Path(g, p, d, stop) ensures InBounds(c) {
      var i :| 0 <= i < |Path(g, p, d, stop)| && Path(g, p, d, stop)[i] == c;
      assert path[i + 1] == c;
    }
  }

  /** Every cell of the 10x10 grid. */
  ghost function AllCells(): set<Pos>
  {
    set x, y | 0 <= x < GRID_SIZE && 0 <= y < GRID_SIZE :: Pos(x, y)
  }

  /** One step of a slide: when the next cell is free and not the stop cell, the slide enters
      it and continues from there, with the same resting cell. */
  lemma SlideUnfold(g: Cells, p: Pos, d: Direction, stop: Option<Pos>)
    requires WellFormed(g) && !Blocked(g, Step(p, d)) && stop != Some(Step(p, d))
    ensures Path(g, p, d, stop) == [Step(p, d)] + Path(g, Step(p, d), d, stop)
    ensures End(g, p, d, stop) == End(g, Step(p, d), d, stop)
  {
  }

  /** A slide that did not stop on t is the full slide, which does not touch t. */
  lemma MissedStop(g: Cells, t: Pos, p: Pos, d: Direction)
    requires WellFormed(g) && t !in Path(g, p, d, Some(t))
    ensures !Touches(g, t, p, d) && Path(g, p, d, Some(t)) == Path(g, p, d, None)
    ensures End(g, p, d, Some(t)) == End(g, p, d, None)
  {
    StopIsPrefix(g, t, p, d);
  }

  /** What a slide that stops on t reports: its last cell is its resting cell, it entered t
      exactly when the full slide touches t, and otherwise it rests where the full slide does. */
  lemma StoppedSlide(g: Cells, t: Pos, p: Pos, d: Direction)
    requires WellFormed(g)
    ensures var path := [p] + Path(g, p, d, Some(t));
      && path[|path| - 1] == End(g, p, d, Some(t))
      && (t in path[1..]) == Touches(g, t, p, d)
      && (t !in path[1..] ==> End(g, p, d, Some(t)) == End(g, p, d, None))
  {
    var path := [p] + Path(g, p, d, Some(t));
    assert path[1..] == Path(g, p, d, Some(t));
    StopIsPrefix(g, t, p, d);
    if t !in path[1..] {
      MissedStop(g, t, p, d);
    }
  }

  /** One cell entered by a slide loop that keeps the covered prefix in `path`: the prefix grows
      by that cell, and the rest of the slide is the slide from it, or nothing when it is the
      stop cell. */
  lemma EnterCell(g: Cells, s: Pos, d: Direction, stop: Option<Pos>, path: seq<Pos>, pos: Pos)
    requires WellFormed(g) && !Blocked(g, Step(pos, d))
    requires [s] + Path(g, s, d, stop) == path + Path(g, pos, d, stop)
    ensures stop != Some(Step(pos, d)) ==>
      [s] + Path(g, s, d, stop) == (path + [Step(pos, d)]) + Path(g, Step(pos, d), d, stop)
    ensures stop == Some(Step(pos, d)) ==> [s] + Path(g, s, d, stop) == path + [Step(pos, d)]
  {
    if stop != Some(Step(pos, d)) {
      SlideUnfold(g, pos, d, stop);
      assert path + ([Step(pos, d)] + Path(g, Step(pos, d), d, stop)) == (path + [Step(pos, d)]) + Path(g, Step(pos, d), d, stop);
    }
  }
}
