/** Path finding: breadth-first search over 4-connected non-wall cells,
    each queue entry carrying the whole walk that reached its cell, cells
    marked visited when they are enqueued. */
module PathFinder {
  import opened MazeGrid

  /** A queue entry: a cell and the walk from the start that reached it. */
  datatype Item = Item(cell: Pos, path: seq<Pos>)

  ghost function QueueCells(queue: seq<Item>): set<Pos> {
    set i | 0 <= i < |queue| :: queue[i].cell
  }

  /** Every passable neighbour of `x` has been visited, with a recorded
      distance at most one more than that of `x`. */
  ghost predicate Closed(m: Maze, visited: set<Pos>, dist: map<Pos, nat>, x: Pos)
    requires m.Valid()
  {
    && x in dist
    && forall y :: Adjacent(x, y) && m.Passable(y) ==>
         y in visited && y in dist && dist[y] <= dist[x] + 1
  }

  /** Each queue entry carries a walk without repeated cells from the start
      to its cell, all of whose cells are visited; its length is the cell's
      recorded distance. Lengths never decrease along the queue and lie
      between `level` and `level + 1`. */
  ghost predicate QueueInv(m: Maze, queue: seq<Item>, visited: set<Pos>,
                           dist: map<Pos, nat>, level: nat)
    requires m.Valid()
  {
    && (forall i :: 0 <= i < |queue| ==>
          WalkBetween(m, queue[i].path, m.Start(), queue[i].cell) && Distinct(queue[i].path))
    && (forall i, k :: 0 <= i < |queue| && 0 <= k < |queue[i].path| ==> queue[i].path[k] in visited)
    && (forall i :: 0 <= i < |queue| ==>
          queue[i].cell in dist && dist[queue[i].cell] == |queue[i].path|)
    && (forall i :: 0 <= i < |queue| ==> level <= |queue[i].path| <= level + 1)
    && (forall i, j :: 0 <= i <= j < |queue| ==> |queue[i].path| <= |queue[j].path|)
  }

  /** The visited cells are the cells with a recorded distance, all inside
      the grid; the start is visited at distance 1 (one cell); every
      visited cell has been expanded or waits in the queue; expanded cells
      lie at distance at most `level` and never include the end. */
  ghost predicate VisitInv(m: Maze, queue: seq<Item>, visited: set<Pos>, expanded: set<Pos>,
                           dist: map<Pos, nat>, level: nat)
    requires m.Valid()
  {
    && visited == dist.Keys
    && visited <= Cells(m.size)
    && m.Start() in visited && dist[m.Start()] == 1
    && expanded <= visited
    && visited <= expanded + QueueCells(queue)
    && m.End() !in expanded
    && (forall x :: x in expanded ==> dist[x] <= level)
  }

  /** The first cell of `w` outside `s`, given that the last one is. */
  lemma FirstOutside(w: seq<Pos>, s: set<Pos>) returns (j: nat)
    requires |w| > 0 && w[|w| - 1] !in s
    ensures j < |w| && w[j] !in s
    ensures forall k :: 0 <= k < j ==> w[k] in s
  {
    j := 0;
    while w[j] in s
      invariant j < |w|
      invariant forall k :: 0 <= k < j ==> w[k] in s
      decreases |w| - j
    {
      j := j + 1;
    }
  }

  /** Along a walk from the start whose first `i` cells are expanded, the
      cell at index `i` is visited at distance at most `i + 1`. */
  lemma {:induction false} PrefixDist(m: Maze, visited: set<Pos>, expanded: set<Pos>,
                                      dist: map<Pos, nat>, w: seq<Pos>, i: nat)
    requires m.Valid() && Walk(m, w) && w[0] == m.Start()
    requires m.Start() in visited && m.Start() in dist && dist[m.Start()] == 1
    requires forall x :: x in expanded ==> Closed(m, visited, dist, x)
    requires i < |w|
    requires forall k :: 0 <= k < i ==> w[k] in expanded
    ensures w[i] in visited && w[i] in dist && dist[w[i]] <= i + 1
    decreases i
  {
    if i > 0 {
      PrefixDist(m, visited, expanded, dist, w, i - 1);
      assert Closed(m, visited, dist, w[i - 1]);
      assert Adjacent(w[i - 1], w[i]) && m.Passable(w[i]);
    }
  }

  /** When the end heads the queue, no route is shorter than its walk: a
      route leaves the expanded cells at some index j, where it meets a
      queued cell at distance at most j + 1, and no queued walk is shorter
      than the head's. */
  lemma HeadIsShortest(m: Maze, queue: seq<Item>, visited: set<Pos>, expanded: set<Pos>,
                       dist: map<Pos, nat>, level: nat, w: seq<Pos>)
    requires m.Valid()
    requires QueueInv(m, queue, visited, dist, level)
    requires VisitInv(m, queue, visited, expanded, dist, level)
    requires forall x :: x in expanded ==> Closed(m, visited, dist, x)
    requires |queue| > 0
    requires IsRoute(m, w)
    ensures |queue[0].path| <= |w|
  {
    var j := FirstOutside(w, expanded);
    PrefixDist(m, visited, expanded, dist, w, j);
    assert w[j] in QueueCells(queue);
    var i :| 0 <= i < |queue| && queue[i].cell == w[j];
    assert |queue[0].path| <= |queue[i].path|;
  }

  /** When nothing waits in the queue, every walk from the start stays
      among the expanded cells. */
  lemma {:induction false} WalkStaysExpanded(m: Maze, visited: set<Pos>, expanded: set<Pos>,
                                             dist: map<Pos, nat>, w: seq<Pos>, i: nat)
    requires m.Valid() && Walk(m, w) && w[0] in expanded
    requires visited <= expanded
    requires forall x :: x in expanded ==> Closed(m, visited, dist, x)
    requires i < |w|
    ensures w[i] in expanded
    decreases i
  {
    if i > 0 {
      WalkStaysExpanded(m, visited, expanded, dist, w, i - 1);
      assert Closed(m, visited, dist, w[i - 1]);
      assert Adjacent(w[i - 1], w[i]) && m.Passable(w[i]);
    }
  }

  /** Once every visited cell is expanded, every walk from the start ends
      at an expanded cell. */
  lemma WalksEndExpanded(m: Maze, visited: set<Pos>, expanded: set<Pos>, dist: map<Pos, nat>)
    requires m.Valid()
    requires m.Start() in visited && visited <= expanded
    requires forall x :: x in expanded ==> Closed(m, visited, dist, x)
    ensures forall w :: Walk(m, w) && w[0] == m.Start() ==> w[|w| - 1] in expanded
  {
    forall w | Walk(m, w) && w[0] == m.Start()
      ensures w[|w| - 1] in expanded
    {
      WalkStaysExpanded(m, visited, expanded, dist, w, |w| - 1);
    }
  }

  /** The end at the head of the queue: its walk is a shortest route
      without repeated cells. */
  lemma EndAtHead(m: Maze, queue: seq<Item>, visited: set<Pos>, expanded: set<Pos>,
                  dist: map<Pos, nat>, level: nat)
    requires m.Valid() && SearchInv(m, queue, visited, expanded, dist, level)
    requires |queue| > 0 && queue[0].cell == m.End()
    ensures IsRoute(m, queue[0].path) && Distinct(queue[0].path)
    ensures forall w :: IsRoute(m, w) ==> |queue[0].path| <= |w|
  {
    forall w | IsRoute(m, w)
      ensures |queue[0].path| <= |w|
    {
      HeadIsShortest(m, queue, visited, expanded, dist, level, w);
    }
  }

  /** An exhausted queue: no route exists. */
  lemma Exhausted(m: Maze, visited: set<Pos>, expanded: set<Pos>, dist: map<Pos, nat>, level: nat)
    requires m.Valid() && SearchInv(m, [], visited, expanded, dist, level)
    ensures forall w :: !IsRoute(m, w)
    ensures forall p :: Reachable(m, p) ==> p in visited
  {
    assert QueueCells([]) == {};
    WalksEndExpanded(m, visited, expanded, dist);
    forall p | Reachable(m, p)
      ensures p in visited
    {
      var w :| WalkBetween(m, w, m.Start(), p);
      assert w[|w| - 1] in expanded;
    }
  }

  /** The search measure drops when the visited set grows or stays and the
      queue shrinks. */
  lemma MeasureDrops(all: set<Pos>, v0: set<Pos>, v: set<Pos>, q0: nat, q: nat)
    requires v0 <= v <= all
    requires v == v0 ==> q < q0
    ensures |all - v| < |all - v0| || (|all - v| == |all - v0| && q < q0)
  {
    if v != v0 {
      SmallerRest(all, v0, v);
    }
  }

  lemma SmallerRest(all: set<Pos>, v0: set<Pos>, v: set<Pos>)
    requires v0 < v <= all
    ensures |all - v| < |all - v0|
  {
    var x :| x in v && x !in v0;
    assert all - v <= (all - v0) - {x};
    assert (all - v0) == (all - v0 - {x}) + {x};
    SubsetCard(all - v, (all - v0) - {x});
  }

  /** The state at the head of the search loop. */
  ghost predicate SearchInv(m: Maze, queue: seq<Item>, visited: set<Pos>, expanded: set<Pos>,
                            dist: map<Pos, nat>, level: nat)
    requires m.Valid()
  {
    && QueueInv(m, queue, visited, dist, level)
    && VisitInv(m, queue, visited, expanded, dist, level)
    && forall x :: x in expanded ==> Closed(m, visited, dist, x)
  }

  /** The state while the neighbours of `cur`, reached by the walk `p`,
      are offered: the first `k` unit moves from `cur` are settled. */
  ghost predicate ExpandInv(m: Maze, queue: seq<Item>, visited: set<Pos>, expanded: set<Pos>,
                            dist: map<Pos, nat>, level: nat, cur: Pos, p: seq<Pos>, k: nat)
    requires m.Valid()
  {
    && k <= 4
    && QueueInv(m, queue, visited, dist, level)
    && VisitInv(m, queue, visited, expanded, dist, level)
    && ClosedBut(m, visited, expanded, dist, cur)
    && Current(m, visited, expanded, dist, level, cur, p)
    && Settled(m, visited, dist, level, cur, k)
  }

  /** Every expanded cell other than `cur` is closed. */
  ghost predicate ClosedBut(m: Maze, visited: set<Pos>, expanded: set<Pos>,
                            dist: map<Pos, nat>, cur: Pos)
    requires m.Valid()
  {
    forall x :: x in expanded && x != cur ==> Closed(m, visited, dist, x)
  }

  /** `cur` is expanded at distance `level`, reached by the visited walk
      `p` without repeated cells. */
  ghost predicate Current(m: Maze, visited: set<Pos>, expanded: set<Pos>,
                          dist: map<Pos, nat>, level: nat, cur: Pos, p: seq<Pos>)
    requires m.Valid()
  {
    && cur in expanded && cur in dist && dist[cur] == level == |p|
    && WalkBetween(m, p, m.Start(), cur) && Distinct(p)
    && (forall t :: 0 <= t < |p| ==> p[t] in visited)
  }

  /** The first `k` unit moves from `cur` lead to visited cells at
      distance at most `level + 1`, unless they are not passable. */
  ghost predicate Settled(m: Maze, visited: set<Pos>, dist: map<Pos, nat>, level: nat,
                          cur: Pos, k: nat)
    requires m.Valid()
  {
    forall t :: 0 <= t < k && t < 4 && m.Passable(Shift(cur, Units[t])) ==>
      Shift(cur, Units[t]) in visited && Shift(cur, Units[t]) in dist &&
      dist[Shift(cur, Units[t])] <= level + 1
  }

  lemma SearchStarts(m: Maze)
    requires m.Valid()
    ensures SearchInv(m, [Item(m.Start(), [m.Start()])], {m.Start()}, {}, map[m.Start() := 1], 1)
  {
    var queue := [Item(m.Start(), [m.Start()])];
    assert queue[0].cell == m.Start();
    assert WalkBetween(m, [m.Start()], m.Start(), m.Start());
  }

  /** Taking the head off the queue, when it is not the end, moves its cell
      to the expanded cells and raises the level to its distance. */
  lemma DequeueStep(m: Maze, queue: seq<Item>, visited: set<Pos>, expanded: set<Pos>,
                    dist: map<Pos, nat>, level: nat)
    requires m.Valid() && SearchInv(m, queue, visited, expanded, dist, level)
    requires |queue| > 0 && queue[0].cell != m.End()
    ensures ExpandInv(m, queue[1..], visited, expanded + {queue[0].cell}, dist,
                      |queue[0].path|, queue[0].cell, queue[0].path, 0)
  {
    DequeueHead(m, queue, visited, expanded, dist, level);
    DequeueQueue(m, queue, visited, dist, level);
    DequeueVisit(m, queue, visited, expanded, dist, level);
    DequeueClosed(m, visited, expanded, dist, queue[0].cell);
  }

  /** The dequeued head becomes the current cell. */
  lemma DequeueHead(m: Maze, queue: seq<Item>, visited: set<Pos>, expanded: set<Pos>,
                    dist: map<Pos, nat>, level: nat)
    requires m.Valid() && QueueInv(m, queue, visited, dist, level)
    requires |queue| > 0
    ensures Current(m, visited, expanded + {queue[0].cell}, dist, |queue[0].path|,
                    queue[0].cell, queue[0].path)
    ensures level <= |queue[0].path|
    ensures queue[0].cell in dist && dist[queue[0].cell] == |queue[0].path|
  {
    forall t | 0 <= t < |queue[0].path|
      ensures queue[0].path[t] in visited
    {
    }
  }

  /** Expanded cells other than the new current one stay closed. */
  lemma DequeueClosed(m: Maze, visited: set<Pos>, expanded: set<Pos>, dist: map<Pos, nat>, c: Pos)
    requires m.Valid() && forall x :: x in expanded ==> Closed(m, visited, dist, x)
    ensures ClosedBut(m, visited, expanded + {c}, dist, c)
  {
  }

  lemma DequeueQueue(m: Maze, queue: seq<Item>, visited: set<Pos>, dist: map<Pos, nat>, level: nat)
    requires m.Valid() && QueueInv(m, queue, visited, dist, level)
    requires |queue| > 0
    ensures QueueInv(m, queue[1..], visited, dist, |queue[0].path|)
  {
  }

  lemma DequeueVisit(m: Maze, queue: seq<Item>, visited: set<Pos>, expanded: set<Pos>,
                     dist: map<Pos, nat>, level: nat)
    requires m.Valid() && VisitInv(m, queue, visited, expanded, dist, level)
    requires |queue| > 0 && queue[0].cell != m.End()
    requires level <= |queue[0].path|
    requires queue[0].cell in dist && dist[queue[0].cell] == |queue[0].path|
    ensures VisitInv(m, queue[1..], visited, expanded + {queue[0].cell}, dist, |queue[0].path|)
  {
    var queue' := queue[1..];
    var expanded' := expanded + {queue[0].cell};
    forall x | x in visited
      ensures x in expanded' + QueueCells(queue')
    {
      if x !in expanded' {
        var i :| 0 <= i < |queue| && queue[i].cell == x;
        assert queue[i] == queue'[i - 1];
      }
    }
  }

  /** Offering the `k`-th neighbour of `cur`: a passable, unvisited cell
      inside the grid is marked visited and queued with the walk extended
      by it. */
  lemma OfferStep(m: Maze, queue: seq<Item>, visited: set<Pos>, expanded: set<Pos>,
                  dist: map<Pos, nat>, level: nat, cur: Pos, p: seq<Pos>, k: nat)
    requires m.Valid() && ExpandInv(m, queue, visited, expanded, dist, level, cur, p, k)
    requires k < 4
    requires var nb := Shift(cur, Units[k]); m.InBounds(nb) && nb !in visited && m.At(nb) != WALL
    ensures var nb := Shift(cur, Units[k]);
            ExpandInv(m, queue + [Item(nb, p + [nb])], visited + {nb}, expanded,
                      dist[nb := level + 1], level, cur, p, k + 1)
  {
    var nb := Shift(cur, Units[k]);
    UnitShiftAdjacent(cur, k);
    WalkExtend(m, p, m.Start(), cur, nb);
    OfferQueue(m, queue, visited, dist, level, p, nb);
    OfferVisit(m, queue, visited, expanded, dist, level, p, nb);
    OfferClosed(m, visited, expanded, dist, cur, nb, level + 1);
    OfferSettles(m, visited, dist, level, cur, p, k);
  }

  /** After offering the `k`-th neighbour, the first `k + 1` moves from
      `cur` are settled and the walk to `cur` is still fully visited. */
  lemma OfferSettles(m: Maze, visited: set<Pos>, dist: map<Pos, nat>, level: nat,
                     cur: Pos, p: seq<Pos>, k: nat)
    requires m.Valid() && k < 4
    requires visited == dist.Keys && cur in dist && dist[cur] == level
    requires Shift(cur, Units[k]) !in visited
    requires forall t :: 0 <= t < |p| ==> p[t] in visited
    requires forall t :: 0 <= t < k && m.Passable(Shift(cur, Units[t])) ==>
               Shift(cur, Units[t]) in visited && dist[Shift(cur, Units[t])] <= level + 1
    ensures var nb := Shift(cur, Units[k]);
            var visited', dist' := visited + {nb}, dist[nb := level + 1];
            && cur in dist' && dist'[cur] == level
            && (forall t :: 0 <= t < |p| ==> p[t] in visited')
            && (forall t :: 0 <= t < k + 1 && m.Passable(Shift(cur, Units[t])) ==>
                  Shift(cur, Units[t]) in visited' && dist'[Shift(cur, Units[t])] <= level + 1)
  {
  }

  lemma OfferVisit(m: Maze, queue: seq<Item>, visited: set<Pos>, expanded: set<Pos>,
                   dist: map<Pos, nat>, level: nat, p: seq<Pos>, nb: Pos)
    requires m.Valid() && VisitInv(m, queue, visited, expanded, dist, level)
    requires m.InBounds(nb) && nb !in visited
    ensures VisitInv(m, queue + [Item(nb, p + [nb])], visited + {nb}, expanded,
                     dist[nb := level + 1], level)
  {
    var queue' := queue + [Item(nb, p + [nb])];
    assert QueueCells(queue') == QueueCells(queue) + {nb} by {
      assert queue'[|queue|].cell == nb;
      forall i | 0 <= i < |queue|
        ensures queue'[i] == queue[i]
      {
      }
    }
  }

  lemma OfferClosed(m: Maze, visited: set<Pos>, expanded: set<Pos>, dist: map<Pos, nat>,
                    cur: Pos, nb: Pos, d: nat)
    requires m.Valid()
    requires visited == dist.Keys && nb !in visited
    requires forall x :: x in expanded && x != cur ==> Closed(m, visited, dist, x)
    ensures forall x :: x in expanded && x != cur ==> Closed(m, visited + {nb}, dist[nb := d], x)
  {
    forall x | x in expanded && x != cur
      ensures Closed(m, visited + {nb}, dist[nb := d], x)
    {
      assert Closed(m, visited, dist, x);
    }
  }

  lemma OfferQueue(m: Maze, queue: seq<Item>, visited: set<Pos>, dist: map<Pos, nat>,
                   level: nat, p: seq<Pos>, nb: Pos)
    requires m.Valid() && QueueInv(m, queue, visited, dist, level)
    requires visited == dist.Keys && nb !in visited
    requires |p| == level && Distinct(p) && forall t :: 0 <= t < |p| ==> p[t] in visited
    requires WalkBetween(m, p + [nb], m.Start(), nb)
    ensures QueueInv(m, queue + [Item(nb, p + [nb])], visited + {nb}, dist[nb := level + 1], level)
  {
    var queue' := queue + [Item(nb, p + [nb])];
    forall i | 0 <= i < |queue|
      ensures queue[i].cell != nb
    {
    }
  }

  /** Skipping the `k`-th neighbour of `cur`, which is outside the grid, a
      wall or already visited. */
  lemma SkipStep(m: Maze, queue: seq<Item>, visited: set<Pos>, expanded: set<Pos>,
                 dist: map<Pos, nat>, level: nat, cur: Pos, p: seq<Pos>, k: nat)
    requires m.Valid() && ExpandInv(m, queue, visited, expanded, dist, level, cur, p, k)
    requires k < 4
    requires var nb := Shift(cur, Units[k]); !(m.InBounds(nb) && nb !in visited && m.At(nb) != WALL)
    ensures ExpandInv(m, queue, visited, expanded, dist, level, cur, p, k + 1)
  {
    var nb := Shift(cur, Units[k]);
    if m.Passable(nb) {
      assert nb in visited;
      if nb in expanded {
        assert dist[nb] <= level;
      } else {
        var i :| 0 <= i < |queue| && queue[i].cell == nb;
        assert dist[nb] == |queue[i].path| <= level + 1;
      }
    }
  }

  /** With all four neighbours settled, `cur` is closed and the loop state
      holds again. */
  lemma ExpandDone(m: Maze, queue: seq<Item>, visited: set<Pos>, expanded: set<Pos>,
                   dist: map<Pos, nat>, level: nat, cur: Pos, p: seq<Pos>)
    requires m.Valid() && ExpandInv(m, queue, visited, expanded, dist, level, cur, p, 4)
    ensures SearchInv(m, queue, visited, expanded, dist, level)
  {
    forall y | Adjacent(cur, y) && m.Passable(y)
      ensures y in visited && y in dist && dist[y] <= dist[cur] + 1
    {
      AdjacentIsUnitShift(cur, y);
    }
  }

  /** The log of enqueued cells: no cell twice, and its cells are exactly
      the visited ones. */
  ghost predicate LogInv(log: seq<Pos>, visited: set<Pos>) {
    && Distinct(log)
    && (forall x :: x in visited <==> x in log)
    && |log| == |visited|
  }

  /** Enqueuing an unvisited cell keeps the log in step with the visited
      set. */
  lemma LogAppend(log: seq<Pos>, visited: set<Pos>, nb: Pos)
    requires LogInv(log, visited) && nb !in visited
    ensures LogInv(log + [nb], visited + {nb})
  {
    var log' := log + [nb];
    forall i, j | 0 <= i < j < |log'|
      ensures log'[i] != log'[j]
    {
      if j < |log| {
        assert log'[i] == log[i] && log'[j] == log[j];
      } else {
        assert log[i] in log;
      }
    }
    forall x
      ensures x in visited + {nb} <==> x in log'
    {
      if x in log' && x != nb {
        var i :| 0 <= i < |log'| && log'[i] == x;
        assert log[i] == x;
      }
    }
  }

  /** What offering the neighbours of `cur` may do to the queue and the
      visited set: the old queue stays a prefix; each added entry is an
      unvisited passable neighbour of `cur`, carried by `p` extended by it;
      and every newly visited cell is a passable neighbour of `cur`. */
  ghost predicate OnlyNeighbours(m: Maze, queue: seq<Item>, queue': seq<Item>,
                                 visited: set<Pos>, visited': set<Pos>, cur: Pos, p: seq<Pos>)
    requires m.Valid()
  {
    && |queue| <= |queue'| && queue'[..|queue|] == queue
    && (forall i :: |queue| <= i < |queue'| ==>
          && queue'[i].cell !in visited && queue'[i].cell in visited'
          && Adjacent(cur, queue'[i].cell) && m.Passable(queue'[i].cell)
          && queue'[i].path == p + [queue'[i].cell])
    && (forall x :: x in visited' && x !in visited ==> Adjacent(cur, x) && m.Passable(x))
  }

  /** Queuing one more unvisited passable neighbour of `cur` keeps
      `OnlyNeighbours`. */
  lemma OnlyNeighboursStep(m: Maze, queue: seq<Item>, queue': seq<Item>,
                           visited: set<Pos>, visited': set<Pos>, cur: Pos, p: seq<Pos>, nb: Pos)
    requires m.Valid() && OnlyNeighbours(m, queue, queue', visited, visited', cur, p)
    requires visited <= visited' && nb !in visited' && Adjacent(cur, nb) && m.Passable(nb)
    ensures OnlyNeighbours(m, queue, queue' + [Item(nb, p + [nb])], visited, visited' + {nb}, cur, p)
  {
    var q := queue' + [Item(nb, p + [nb])];
    assert q[..|queue|] == queue'[..|queue|];
    forall i | |queue| <= i < |q|
      ensures q[i].cell !in visited && q[i].cell in visited' + {nb}
    {
      if i < |queue'| {
        assert q[i] == queue'[i];
      }
    }
  }

  /** Offers the four neighbours of `cur` in the fixed order column +1,
      row +1, column -1, row -1: each one inside the grid, unvisited and
      not a wall is marked visited and queued with `p` extended by it. The
      visited set only grows, and if it does not, the queue is unchanged. */
  method OfferNeighbours(m: Maze, cur: Pos, p: seq<Pos>, queue: seq<Item>, visited: set<Pos>,
                         ghost expanded: set<Pos>, ghost dist: map<Pos, nat>, ghost level: nat,
                         ghost log: seq<Pos>)
    returns (queue': seq<Item>, visited': set<Pos>, ghost dist': map<Pos, nat>,
             ghost log': seq<Pos>)
    requires m.Valid() && ExpandInv(m, queue, visited, expanded, dist, level, cur, p, 0)
    requires LogInv(log, visited)
    ensures SearchInv(m, queue', visited', expanded, dist', level)
    ensures LogInv(log', visited') && |log'| - |log| == |queue'| - |queue|
    ensures log <= log'
    ensures visited <= visited'
    ensures visited' == visited ==> queue' == queue
    ensures forall y :: Adjacent(cur, y) && m.Passable(y) ==> y in visited'
    ensures OnlyNeighbours(m, queue, queue', visited, visited', cur, p)
  {
    queue', visited', dist', log' := queue, visited, dist, log;
    var k := 0;
    while k < 4
      invariant ExpandInv(m, queue', visited', expanded, dist', level, cur, p, k)
      invariant LogInv(log', visited') && |log'| - |log| == |queue'| - |queue|
      invariant log <= log'
      invariant visited <= visited'
      invariant visited' == visited ==> queue' == queue
      invariant OnlyNeighbours(m, queue, queue', visited, visited', cur, p)
      decreases 4 - k
    {
      var nb := Shift(cur, Units[k]);
      if m.InBounds(nb) && nb !in visited' && m.At(nb) != WALL {
        OfferStep(m, queue', visited', expanded, dist', level, cur, p, k);
        UnitShiftAdjacent(cur, k);
        OnlyNeighboursStep(m, queue, queue', visited, visited', cur, p, nb);
        LogAppend(log', visited', nb);
        log' := log' + [nb];
        visited' := visited' + {nb};
        queue' := queue' + [Item(nb, p + [nb])];
        dist' := dist'[nb := level + 1];
      } else {
        SkipStep(m, queue', visited', expanded, dist', level, cur, p, k);
      }
      k := k + 1;
    }
    ExpandDone(m, queue', visited', expanded, dist', level, cur, p);
  }

  /** One round of the search when the head of the queue is not the end:
      take the head off the queue and offer its neighbours. Either more
      cells are visited or the queue is shorter. */
  method Advance(m: Maze, queue: seq<Item>, visited: set<Pos>, ghost expanded: set<Pos>,
                 ghost dist: map<Pos, nat>, ghost level: nat, ghost log: seq<Pos>)
    returns (queue': seq<Item>, visited': set<Pos>, ghost expanded': set<Pos>,
             ghost dist': map<Pos, nat>, ghost level': nat, ghost log': seq<Pos>)
    requires m.Valid() && SearchInv(m, queue, visited, expanded, dist, level)
    requires |queue| > 0 && queue[0].cell != m.End()
    requires LogInv(log, visited)
    ensures SearchInv(m, queue', visited', expanded', dist', level')
    ensures LogInv(log', visited') && |log'| - |log| == |queue'| - |queue| + 1
    ensures log <= log'
    ensures OnlyNeighbours(m, queue[1..], queue', visited, visited', queue[0].cell, queue[0].path)
    ensures |Cells(m.size) - visited'| < |Cells(m.size) - visited| ||
            (|Cells(m.size) - visited'| == |Cells(m.size) - visited| && |queue'| < |queue|)
  {
    var head := queue[0];
    DequeueStep(m, queue, visited, expanded, dist, level);
    expanded' := expanded + {head.cell};
    level' := |head.path|;
    queue', visited', dist', log' :=
      OfferNeighbours(m, head.cell, head.path, queue[1..], visited, expanded', dist, level', log);
    MeasureDrops(Cells(m.size), visited, visited', |queue|, |queue'|);
  }

  /** Breadth-first search from the start to the end of `m`. A non-empty
      result is a route without repeated cells that is no longer than any
      other route; the empty result means that no route exists. The maze
      is a value: the search cannot change it. Because cells are marked
      when they are enqueued, `enqueued` (every cell in the order it was
      queued) has no cell twice, so the number of dequeues `rounds` is at
      most the number of cells in the grid. */
  method FindPath(m: Maze) returns (path: seq<Pos>, ghost enqueued: seq<Pos>, ghost rounds: nat)
    requires m.Valid()
    ensures path != [] ==> IsRoute(m, path) && Distinct(path)
    ensures path != [] ==> forall w :: IsRoute(m, w) ==> |path| <= |w|
    ensures path == [] ==> forall w :: !IsRoute(m, w)
    ensures Distinct(enqueued) && |enqueued| > 0 && enqueued[0] == m.Start()
    ensures forall i :: 0 <= i < |enqueued| ==> m.InBounds(enqueued[i])
    ensures 0 < rounds <= |enqueued| <= m.size * m.size
    ensures path == [] ==> rounds == |enqueued|
    ensures path == [] ==> forall p :: Reachable(m, p) ==> p in enqueued
  {
    var queue := [Item(m.Start(), [m.Start()])];
    var visited := {m.Start()};
    ghost var expanded: set<Pos> := {};
    ghost var dist: map<Pos, nat> := map[m.Start() := 1];
    ghost var level: nat := 1;
    enqueued, rounds := [m.Start()], 0;
    SearchStarts(m);

    while |queue| > 0
      invariant SearchInv(m, queue, visited, expanded, dist, level)
      invariant LogInv(enqueued, visited) && rounds + |queue| == |enqueued|
      invariant |enqueued| > 0 && enqueued[0] == m.Start()
      decreases |Cells(m.size) - visited|, |queue|
    {
      rounds := rounds + 1;
      if queue[0].cell == m.End() {
        EndAtHead(m, queue, visited, expanded, dist, level);
        LogBound(m, enqueued, visited);
        return queue[0].path, enqueued, rounds;
      }
      queue, visited, expanded, dist, level, enqueued :=
        Advance(m, queue, visited, expanded, dist, level, enqueued);
    }
    Exhausted(m, visited, expanded, dist, level);
    LogBound(m, enqueued, visited);
    return [], enqueued, rounds;
  }

  /** The log lists in-bounds cells and is no longer than the grid. */
  lemma LogBound(m: Maze, log: seq<Pos>, visited: set<Pos>)
    requires m.Valid() && LogInv(log, visited) && visited <= Cells(m.size)
    ensures |log| <= m.size * m.size
    ensures forall i :: 0 <= i < |log| ==> m.InBounds(log[i])
  {
    SubsetCard(visited, Cells(m.size));
    CellsCount(m.size);
    forall i | 0 <= i < |log|
      ensures m.InBounds(log[i])
    {
      assert log[i] in visited;
    }
  }
}
