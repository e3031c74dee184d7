/** Breadth-first search over a move graph, the shape shared by checkSolvable and
    checkAllCellsReachable in both revisions of mapCreator.js. A graph maps each cell to the
    cells one move leads to. The search state is described by predicates and each step of
    the search (start, dequeue, enqueue, finish a cell, stop) by one lemma, so that the search
    methods only have to supply the facts about slides. */
module Search {
  import opened Constants

  type Graph = map<Pos, set<Pos>>

  /** Every move leads to a cell of the graph. */
  ghost predicate Complete(G: Graph)
  {
    forall p :: p in G ==> G[p] <= G.Keys
  }

  /** The cells one move from a cell of S. */
  ghost function Successors(G: Graph, S: set<Pos>): set<Pos>
  {
    set p, x | p in S && p in G && x in G[p] :: x
  }

  /** The cells reachable from start in at most k moves. */
  ghost function Level(G: Graph, start: Pos, k: int): set<Pos>
    decreases k
  {
    if k < 0 then {}
    else if k == 0 then {start}
    else Level(G, start, k - 1) + Successors(G, Level(G, start, k - 1))
  }

  lemma {:induction false} LevelGrows(G: Graph, start: Pos, a: int, b: int)
    requires a <= b
    ensures Level(G, start, a) <= Level(G, start, b)
    decreases b - a
  {
    if a < b {
      LevelGrows(G, start, a, b - 1);
    }
  }

  /** Level k lies inside V when level k - 1 does and V holds every move from level k - 1. */
  lemma NextLevelInside(G: Graph, start: Pos, k: int, V: set<Pos>)
    requires start in V && Level(G, start, k - 1) <= V
    requires forall p :: p in Level(G, start, k - 1) && p in G ==> G[p] <= V
    ensures Level(G, start, k) <= V
  {
  }

  /** A set containing start and closed under moves contains every level. */
  lemma {:induction false} ClosedContainsLevel(G: Graph, start: Pos, V: set<Pos>, k: int)
    requires start in V && forall p :: p in V && p in G ==> G[p] <= V
    ensures Level(G, start, k) <= V
    decreases k
  {
    if k > 0 {
      ClosedContainsLevel(G, start, V, k - 1);
      NextLevelInside(G, start, k, V);
    }
  }

  lemma LevelInGraph(G: Graph, start: Pos, k: int)
    requires Complete(G) && start in G
    ensures Level(G, start, k) <= G.Keys
  {
    ClosedContainsLevel(G, start, G.Keys, k);
  }

  // ---------------------------------------------------------------------------------------
  // The search of checkSolvable: a queue of cells with move counts, a goal cell t, and a set
  // `hits` of cells from which one more move reaches the goal.

  /** A queue entry of checkSolvable: a resting cell and the number of moves (key presses)
      that reached it. */
  datatype Node = Node(pos: Pos, moves: int)

  ghost function Positions(q: seq<Node>): set<Pos>
  {
    set n | n in q :: n.pos
  }

  ghost predicate Distinct(q: seq<Node>)
  {
    forall i, j :: 0 <= i < j < |q| ==> q[i].pos != q[j].pos
  }

  /** Move counts are sorted and lie in [lo, lo + 1]. */
  ghost predicate Layered(q: seq<Node>, lo: int)
  {
    (forall i :: 0 <= i < |q| ==> lo <= q[i].moves <= lo + 1) &&
    (forall i, j :: 0 <= i < j < |q| ==> q[i].moves <= q[j].moves)
  }

  /** The sets of the search with the dequeued cells D, the visited cells V and the queue q:
      V is D and the queued cells, each queued once, and only the start entry may sit on the
      goal. */
  ghost predicate QueueBasics(G: Graph, t: Pos, start: Pos, D: set<Pos>, V: set<Pos>, q: seq<Node>)
  {
    Complete(G) && V <= G.Keys && start in V && (start != t ==> t !in V) &&
    V == D + Positions(q) && D !! Positions(q) && Distinct(q) &&
    (D == {} ==> q == [Node(start, 0)]) && (D != {} ==> start != t)
  }

  /** The layers of the queue whose head has move count lo: every cell within lo - 1 moves
      has been dequeued, and a queued cell is within its move count but not within fewer
      moves. */
  ghost predicate QueueLevels(G: Graph, start: Pos, D: set<Pos>, q: seq<Node>, lo: int)
  {
    Layered(q, lo) && Level(G, start, lo - 1) <= D &&
    (forall i :: 0 <= i < |q| && q[i].moves == lo ==> q[i].pos in Level(G, start, lo)) &&
    (forall i :: 0 <= i < |q| && q[i].moves != lo ==>
       q[i].pos in Level(G, start, lo + 1) && q[i].pos !in Level(G, start, lo))
  }

  ghost predicate Frontier(G: Graph, t: Pos, start: Pos, D: set<Pos>, V: set<Pos>, q: seq<Node>, lo: int)
  {
    QueueBasics(G, t, start, D, V, q) && QueueLevels(G, start, D, q, lo)
  }

  /** Every dequeued cell is not a hit and all its moves lead to visited cells. */
  ghost predicate Expanded(G: Graph, hits: set<Pos>, D: set<Pos>, V: set<Pos>)
  {
    forall p :: p in D ==> p !in hits && p in G && G[p] <= V
  }

  /** The state while the moves from the dequeued entry cur are tried. */
  ghost predicate InProgress(G: Graph, t: Pos, hits: set<Pos>, start: Pos, D: set<Pos>, V: set<Pos>, q: seq<Node>, cur: Node)
  {
    Frontier(G, t, start, D + {cur.pos}, V, q, cur.moves) && cur.pos !in D &&
    cur.pos in Level(G, start, cur.moves) && Level(G, start, cur.moves - 1) <= D &&
    Expanded(G, hits, D, V)
  }

  lemma SearchInit(G: Graph, t: Pos, hits: set<Pos>, start: Pos)
    requires Complete(G) && start in G
    ensures Frontier(G, t, start, {}, {start}, [Node(start, 0)], 0) && Expanded(G, hits, {}, {start})
  {
    assert Positions([Node(start, 0)]) == {start};
  }

  /** Only the start entry can be on the goal. */
  lemma TargetAtHead(G: Graph, t: Pos, start: Pos, D: set<Pos>, V: set<Pos>, q: seq<Node>, lo: int)
    requires Frontier(G, t, start, D, V, q, lo) && q != [] && q[0].pos == t
    ensures start == t && q[0].moves == 0
  {
    assert q[0].pos in Positions(q);
  }

  lemma {:induction false} Dequeue(G: Graph, t: Pos, hits: set<Pos>, start: Pos, D: set<Pos>, V: set<Pos>, q: seq<Node>, lo: int)
    requires Frontier(G, t, start, D, V, q, lo) && Expanded(G, hits, D, V)
    requires q != [] && lo == q[0].moves && q[0].pos != t
    ensures InProgress(G, t, hits, start, D, V, q[1..], q[0])
  {
    PopFront(q, lo);
  }

  /** Shifting a queue of distinct, layered entries leaves the rest distinct and layered, and
      removes exactly the head's cell. */
  lemma PopFront(q: seq<Node>, lo: int)
    requires q != [] && Distinct(q) && Layered(q, lo)
    ensures Positions(q) == {q[0].pos} + Positions(q[1..]) && q[0].pos !in Positions(q[1..])
    ensures Distinct(q[1..]) && Layered(q[1..], lo)
  {
    assert Positions(q) == {q[0].pos} + Positions(q[1..]) by {
      assert forall n :: n in q <==> n == q[0] || n in q[1..];
    }
    forall nd | nd in q[1..]
      ensures nd.pos != q[0].pos
    {
      var i :| 0 <= i < |q[1..]| && q[1..][i] == nd;
      assert q[i + 1] == nd;
    }
  }

  /** A cell one move from cur, not yet visited and not the goal, is queued with one more move. */
  lemma {:induction false} Enqueue(G: Graph, t: Pos, hits: set<Pos>, start: Pos, D: set<Pos>, V: set<Pos>, q: seq<Node>, cur: Node, e: Pos)
    requires InProgress(G, t, hits, start, D, V, q, cur)
    requires cur.pos in G && e in G[cur.pos] && e !in V && e != t
    ensures InProgress(G, t, hits, start, D, V + {e}, q + [Node(e, cur.moves + 1)], cur)
  {
    var m := cur.moves;
    LevelVisited(G, hits, start, D, V, m);
    SuccessorInNext(G, start, m, cur.pos, e);
    BasicsAppend(G, t, start, D + {cur.pos}, V, q, Node(e, m + 1));
    LevelsAppend(G, start, D + {cur.pos}, q, m, Node(e, m + 1));
    ExpandedGrows(G, hits, D, V, V + {e});
  }

  /** When level k - 1 has been dequeued and expanded, level k has been visited. */
  lemma LevelVisited(G: Graph, hits: set<Pos>, start: Pos, D: set<Pos>, V: set<Pos>, k: int)
    requires start in V && D <= V && Level(G, start, k - 1) <= D && Expanded(G, hits, D, V)
    ensures Level(G, start, k) <= V
  {
    NextLevelInside(G, start, k, V);
  }

  /** A move from a cell within k moves leads to a cell within k + 1 moves. */
  lemma SuccessorInNext(G: Graph, start: Pos, k: int, p: Pos, e: Pos)
    requires k >= 0 && p in Level(G, start, k) && p in G && e in G[p]
    ensures e in Level(G, start, k + 1)
  {
    assert e in Successors(G, Level(G, start, k));
  }

  lemma ExpandedGrows(G: Graph, hits: set<Pos>, D: set<Pos>, V: set<Pos>, W: set<Pos>)
    requires Expanded(G, hits, D, V) && V <= W
    ensures Expanded(G, hits, D, W)
  {
  }

  /** Appending an unvisited cell other than the goal keeps the sets of the search. */
  lemma BasicsAppend(G: Graph, t: Pos, start: Pos, D: set<Pos>, V: set<Pos>, q: seq<Node>, n: Node)
    requires QueueBasics(G, t, start, D, V, q) && D != {}
    requires n.pos in G && n.pos !in V && n.pos != t
    ensures QueueBasics(G, t, start, D, V + {n.pos}, q + [n])
  {
    var q' := q + [n];
    assert Positions(q') == Positions(q) + {n.pos};
    forall i, j | 0 <= i < j < |q'| ensures q'[i].pos != q'[j].pos {
      if j == |q| {
        assert q[i].pos in Positions(q);
      }
    }
  }

  /** Appending an entry of the next layer keeps the layers. */
  lemma LevelsAppend(G: Graph, start: Pos, D: set<Pos>, q: seq<Node>, lo: int, n: Node)
    requires QueueLevels(G, start, D, q, lo)
    requires n.moves == lo + 1 && n.pos in Level(G, start, lo + 1) && n.pos !in Level(G, start, lo)
    ensures QueueLevels(G, start, D, q + [n], lo)
  {
    var q' := q + [n];
    forall i | 0 <= i < |q'|
      ensures q'[i] == if i < |q| then q[i] else n
    {
    }
  }

  /** After all moves from cur are visited, cur is done; when the next head has one more move,
      every cell within cur's move count has been dequeued. */
  lemma {:induction false} Finish(G: Graph, t: Pos, hits: set<Pos>, start: Pos, D: set<Pos>, V: set<Pos>, q: seq<Node>, cur: Node)
    requires InProgress(G, t, hits, start, D, V, q, cur)
    requires cur.pos in G && G[cur.pos] <= V && cur.pos !in hits
    ensures Frontier(G, t, start, D + {cur.pos}, V, q, if q == [] then cur.moves else q[0].moves)
    ensures Expanded(G, hits, D + {cur.pos}, V)
    ensures D <= G.Keys && |G.Keys - (D + {cur.pos})| < |G.Keys - D|
  {
    var m := cur.moves;
    var D' := D + {cur.pos};
    assert G.Keys - D' == (G.Keys - D) - {cur.pos};
    assert Expanded(G, hits, D', V);
    if q != [] && q[0].moves == m + 1 {
      NextLevelInside(G, start, m, V);
      NextLayer(G, start, D', V, q, m);
    }
  }

  /** When the head of the queue has one more move than lo and level lo lies in the visited
      cells, the queue is the layer lo + 1 and level lo has been dequeued. */
  lemma NextLayer(G: Graph, start: Pos, D: set<Pos>, V: set<Pos>, q: seq<Node>, lo: int)
    requires QueueLevels(G, start, D, q, lo) && q != [] && q[0].moves == lo + 1
    requires V == D + Positions(q) && Level(G, start, lo) <= V
    ensures QueueLevels(G, start, D, q, lo + 1)
  {
    forall nd | nd in q
      ensures nd.pos !in Level(G, start, lo)
    {
      var i :| 0 <= i < |q| && q[i] == nd;
    }
  }

  /** A hit at cur: cur is within its move count, and no cell within fewer moves is a hit. */
  lemma {:induction false} Found(G: Graph, t: Pos, hits: set<Pos>, start: Pos, D: set<Pos>, V: set<Pos>, q: seq<Node>, cur: Node)
    requires InProgress(G, t, hits, start, D, V, q, cur) && cur.pos in hits
    ensures start != t && cur.moves >= 0 && cur.pos in Level(G, start, cur.moves)
    ensures forall k :: k < cur.moves ==> Level(G, start, k) !! hits
  {
    forall k | k < cur.moves
      ensures Level(G, start, k) !! hits
    {
      LevelGrows(G, start, k, cur.moves - 1);
    }
  }

  /** An empty queue: the visited cells are closed under moves and none is a hit. */
  lemma {:induction false} Exhausted(G: Graph, t: Pos, hits: set<Pos>, start: Pos, D: set<Pos>, V: set<Pos>, lo: int)
    requires Frontier(G, t, start, D, V, [], lo) && Expanded(G, hits, D, V)
    ensures start != t && forall k :: Level(G, start, k) !! hits
  {
    forall k
      ensures Level(G, start, k) !! hits
    {
      ClosedContainsLevel(G, start, V, k);
    }
  }

  // ---------------------------------------------------------------------------------------
  // The search of checkAllCellsReachable: a queue of cells and a set R of cells marked as
  // touched. C maps each cell to the cells its moves pass over.

  /** c is the start, or passed over by a move from a cell reachable from start. */
  ghost predicate Covered(G: Graph, C: Graph, start: Pos, c: Pos)
  {
    c == start || exists k, p :: p in Level(G, start, k) && p in C && c in C[p]
  }

  ghost predicate DistinctCells(q: seq<Pos>)
  {
    forall i, j :: 0 <= i < j < |q| ==> q[i] != q[j]
  }

  /** The search with dequeued cells D, visited cells V, pending cells `pending`, touched cells
      R and a depth for each visited cell: every visited cell is reachable within its depth and
      touched, every touched cell is covered, and each dequeued cell has its moves visited and the cells
      its moves pass over touched. */
  ghost predicate Sweep(G: Graph, C: Graph, start: Pos, D: set<Pos>, V: set<Pos>, pending: seq<Pos>, R: set<Pos>, depth: map<Pos, int>)
  {
    Complete(G) && V <= G.Keys && start in V && V <= R &&
    V == D + (set p | p in pending) && D !! (set p | p in pending) && DistinctCells(pending) &&
    V <= depth.Keys && (forall p :: p in V ==> p in Level(G, start, depth[p])) &&
    (forall c :: c in R ==> Covered(G, C, start, c)) &&
    (forall p :: p in D ==> G[p] <= V && p in C && C[p] <= R)
  }

  lemma HeadTail(q: seq<Pos>)
    requires q != []
    ensures q == [q[0]] + q[1..]
  {
  }

  lemma SweepInit(G: Graph, C: Graph, start: Pos)
    requires Complete(G) && start in G
    ensures Sweep(G, C, start, {}, {start}, [start], {start}, map[start := 0])
  {
    assert (set p | p in [start]) == {start};
  }

  /** Cells passed over by a move from a visited cell may be marked touched. */
  lemma SweepTouch(G: Graph, C: Graph, start: Pos, D: set<Pos>, V: set<Pos>, pending: seq<Pos>, R: set<Pos>, depth: map<Pos, int>, p: Pos, S: set<Pos>)
    requires Sweep(G, C, start, D, V, pending, R, depth) && p in V && p in C && S <= C[p]
    ensures Sweep(G, C, start, D, V, pending, R + S, depth)
  {
    forall c | c in S
      ensures Covered(G, C, start, c)
    {
      assert p in Level(G, start, depth[p]);
    }
  }

  /** A touched cell one move from the pending head, not yet visited, is visited and queued. */
  lemma {:induction false} SweepEnqueue(G: Graph, C: Graph, start: Pos, D: set<Pos>, V: set<Pos>, cur: Pos, q: seq<Pos>, R: set<Pos>, depth: map<Pos, int>, e: Pos)
    requires Sweep(G, C, start, D, V, [cur] + q, R, depth) && cur in G && e in G[cur] && e !in V && e in R
    ensures Sweep(G, C, start, D, V + {e}, [cur] + (q + [e]), R, depth[e := depth[cur] + 1])
  {
    assert (set p | p in [cur] + (q + [e])) == (set p | p in [cur] + q) + {e};
    assert [cur] + (q + [e]) == [cur] + q + [e];
    assert cur in V;
    assert e in Level(G, start, depth[cur] + 1);
  }

  /** The pending head whose moves are visited and whose passed cells are touched is done. */
  lemma {:induction false} SweepFinish(G: Graph, C: Graph, start: Pos, D: set<Pos>, V: set<Pos>, cur: Pos, q: seq<Pos>, R: set<Pos>, depth: map<Pos, int>)
    requires Sweep(G, C, start, D, V, [cur] + q, R, depth)
    requires cur in G && G[cur] <= V && cur in C && C[cur] <= R
    ensures Sweep(G, C, start, D + {cur}, V, q, R, depth)
    ensures D <= G.Keys && cur !in D && |G.Keys - (D + {cur})| < |G.Keys - D|
  {
    assert (set p | p in [cur] + q) == {cur} + (set p | p in q);
    forall i, j | 0 <= i < j < |q|
      ensures q[i] != q[j] && q[i] != cur
    {
      assert ([cur] + q)[i + 1] == q[i] && ([cur] + q)[j + 1] == q[j] && ([cur] + q)[0] == cur;
    }
    if |q| > 0 {
      assert ([cur] + q)[|q|] == q[|q| - 1];
    }
    assert G.Keys - (D + {cur}) == (G.Keys - D) - {cur};
  }

  /** With nothing pending, the touched cells are exactly the covered cells. */
  lemma {:induction false} SweepVerdict(G: Graph, C: Graph, start: Pos, D: set<Pos>, V: set<Pos>, R: set<Pos>, depth: map<Pos, int>)
    requires Sweep(G, C, start, D, V, [], R, depth)
    ensures forall c :: c in R <==> Covered(G, C, start, c)
  {
    forall c | Covered(G, C, start, c)
      ensures c in R
    {
      if c != start {
        var k, p :| p in Level(G, start, k) && p in C && c in C[p];
        ClosedContainsLevel(G, start, V, k);
      }
      assert start in V;
    }
  }
}
