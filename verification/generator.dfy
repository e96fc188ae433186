/** Maze generation: a depth-first backtracker with an explicit stack that
    carves a step-2 lattice of odd-coordinate "nodes" and the "doors"
    between them into a grid that starts as solid wall. */
module Generator {
  import opened MazeGrid

  predicate Odd(x: int) { x % 2 == 1 }

  /** Strictly inside the outer ring of an `n × n` grid. */
  predicate Interior(n: int, p: Pos) {
    0 < p.r < n - 1 && 0 < p.c < n - 1
  }

  /** A lattice node: an interior cell with both coordinates odd. */
  predicate Node(n: int, p: Pos) {
    Interior(n, p) && Odd(p.r) && Odd(p.c)
  }

  /** A door: the cell between two lattice nodes that are two apart in a
      row (odd row, even column) or in a column (even row, odd column). */
  predicate Door(n: int, p: Pos) {
    || (Odd(p.r) && !Odd(p.c) && 0 < p.r < n - 1 && 1 < p.c < n - 2)
    || (!Odd(p.r) && Odd(p.c) && 1 < p.r < n - 2 && 0 < p.c < n - 1)
  }

  /** The two nodes a door connects. */
  function Sides(d: Pos): (Pos, Pos) {
    if Odd(d.r) then (Pos(d.r, d.c - 1), Pos(d.r, d.c + 1))
    else (Pos(d.r - 1, d.c), Pos(d.r + 1, d.c))
  }

  /** `q` is two cells from `p` along one axis. */
  predicate NodeStep(p: Pos, q: Pos) {
    || (p.r == q.r && (q.c == p.c + 2 || q.c == p.c - 2))
    || (p.c == q.c && (q.r == p.r + 2 || q.r == p.r - 2))
  }

  function Midpoint(p: Pos, q: Pos): Pos {
    Pos((p.r + q.r) / 2, (p.c + q.c) / 2)
  }

  /** A possible move of the backtracker: the node to carve and the door
      between it and the current node. */
  datatype Carve = Carve(cell: Pos, between: Pos)

  /** The move by (dr, dc) from `cur` if its target is interior and still a
      wall, as one probe of the direction loop. */
  function Probe(m: Maze, cur: Pos, dr: int, dc: int): seq<Carve>
    requires m.Valid()
  {
    var nb := Pos(cur.r + dr, cur.c + dc);
    if Interior(m.size, nb) && m.At(nb) == WALL
    then [Carve(nb, Pos(cur.r + dr / 2, cur.c + dc / 2))]
    else []
  }

  /** The moves available from `cur`, probing column +2, row +2,
      column -2, row -2 in that order. Every listed move targets an
      interior wall two cells away and carves the cell in between; the list
      is empty exactly when every interior cell two away is already open. */
  function Candidates(m: Maze, cur: Pos): (cs: seq<Carve>)
    requires m.Valid()
    ensures forall k :: 0 <= k < |cs| ==>
              && NodeStep(cur, cs[k].cell)
              && Interior(m.size, cs[k].cell)
              && m.At(cs[k].cell) == WALL
              && cs[k].between == Midpoint(cur, cs[k].cell)
    ensures |cs| == 0 <==>
              forall q :: NodeStep(cur, q) && Interior(m.size, q) ==> m.At(q) != WALL
  {
    Probe(m, cur, 0, 2) + Probe(m, cur, 2, 0) + Probe(m, cur, 0, -2) + Probe(m, cur, -2, 0)
  }

  /** Every interior wall cell two away from `cur` is listed, so a random
      choice among the candidates can pick any of them. */
  lemma CandidatesComplete(m: Maze, cur: Pos, q: Pos)
    requires m.Valid() && NodeStep(cur, q) && Interior(m.size, q) && m.At(q) == WALL
    ensures exists k :: 0 <= k < |Candidates(m, cur)| && Candidates(m, cur)[k].cell == q
  {
    var p0, p1, p2 := Probe(m, cur, 0, 2), Probe(m, cur, 2, 0), Probe(m, cur, 0, -2);
    var cs := Candidates(m, cur);
    assert cs == p0 + p1 + p2 + Probe(m, cur, -2, 0);
    if q == Pos(cur.r, cur.c + 2) {
      assert cs[0].cell == q;
    } else if q == Pos(cur.r + 2, cur.c) {
      assert cs[|p0|].cell == q;
    } else if q == Pos(cur.r, cur.c - 2) {
      assert cs[|p0| + |p1|].cell == q;
    } else {
      assert cs[|p0| + |p1| + |p2|].cell == q;
    }
  }

  ghost function NodesOf(n: int, s: set<Pos>): set<Pos> {
    set p | p in s && Node(n, p)
  }

  ghost function DoorsOf(n: int, s: set<Pos>): set<Pos> {
    set p | p in s && Door(n, p)
  }

  /** The cells of `m` that are not walls. */
  ghost function PassableCells(m: Maze): (s: set<Pos>)
    requires m.Valid()
    ensures forall p :: p in s <==> m.Passable(p)
  {
    set p | p in Cells(m.size) && m.At(p) != WALL
  }

  /** Every interior node two cells from `p` is already carved. */
  ghost predicate Explored(n: int, open: set<Pos>, p: Pos) {
    forall q :: NodeStep(p, q) && Interior(n, q) ==> q in open
  }

  /** Cells hold only OPEN or WALL, and `open` is exactly the OPEN cells. */
  ghost predicate CellsInv(m: Maze, open: set<Pos>)
    requires m.Valid()
  {
    && (forall p :: m.InBounds(p) ==> m.At(p) == OPEN || m.At(p) == WALL)
    && (forall p :: m.InBounds(p) ==> (m.At(p) == OPEN <==> p in open))
  }

  /** Only nodes and doors are carved, the start is carved, and a carved
      door has both of its nodes carved. */
  ghost predicate ShapeInv(n: int, open: set<Pos>) {
    && (forall p :: p in open ==> Node(n, p) || Door(n, p))
    && (forall p :: p in open && Door(n, p) ==> Sides(p).0 in open && Sides(p).1 in open)
    && Pos(1, 1) in open
  }

  /** The stack holds distinct carved nodes, and a carved node that has
      left the stack has no wall node two cells away. */
  ghost predicate StackInv(n: int, stack: seq<Pos>, open: set<Pos>) {
    && (forall i :: 0 <= i < |stack| ==> Node(n, stack[i]) && stack[i] in open)
    && Distinct(stack)
    && (forall p :: p in open && Node(n, p) && p !in stack ==> Explored(n, open, p))
  }

  /** Each push carved one node and one door. */
  ghost predicate CountInv(n: int, open: set<Pos>, pushes: nat) {
    |NodesOf(n, open)| == pushes + 1 && |DoorsOf(n, open)| == pushes
  }

  /** Every carved cell is reached from the start by its recorded walk. */
  ghost predicate RouteInv(m: Maze, open: set<Pos>, route: map<Pos, seq<Pos>>)
    requires m.Valid()
  {
    forall p :: p in open ==> p in route && WalkBetween(m, route[p], m.Start(), p)
  }

  /** The state of the carving loop. */
  ghost predicate GenInv(n: int, m: Maze, stack: seq<Pos>, open: set<Pos>,
                         route: map<Pos, seq<Pos>>, pushes: nat)
  {
    && m.Valid() && m.size == n
    && CellsInv(m, open)
    && ShapeInv(n, open)
    && StackInv(n, stack, open)
    && CountInv(n, open, pushes)
    && RouteInv(m, open, route)
  }

  /** A step of two from a node to an interior cell lands on a node, and
      the cell in between is a door adjacent to both whose sides are the
      two nodes. */
  lemma StepGeometry(n: int, cur: Pos, nb: Pos)
    requires Node(n, cur) && NodeStep(cur, nb) && Interior(n, nb)
    ensures Node(n, nb)
    ensures Door(n, Midpoint(cur, nb))
    ensures Adjacent(cur, Midpoint(cur, nb)) && Adjacent(Midpoint(cur, nb), nb)
    ensures Sides(Midpoint(cur, nb)) == (cur, nb) || Sides(Midpoint(cur, nb)) == (nb, cur)
  {
  }

  lemma InitEstablishes(n: int, m: Maze)
    requires n >= 3
    requires m.Valid() && m.size == n
    requires forall p :: m.InBounds(p) && p != m.Start() ==> m.At(p) == WALL
    requires m.At(m.Start()) == OPEN
    ensures GenInv(n, m, [m.Start()], {m.Start()}, map[m.Start() := [m.Start()]], 0)
  {
    var s := m.Start();
    assert NodesOf(n, {s}) == {s};
    assert DoorsOf(n, {s}) == {};
    assert WalkBetween(m, [s], s, s);
  }

  /** The door between the top of the stack and a wall node two away is
      itself still a wall. */
  lemma DoorStillWall(n: int, m: Maze, stack: seq<Pos>, open: set<Pos>,
                      route: map<Pos, seq<Pos>>, pushes: nat, nb: Pos)
    requires GenInv(n, m, stack, open, route, pushes)
    requires |stack| > 0
    requires NodeStep(stack[|stack| - 1], nb) && Interior(n, nb) && m.At(nb) == WALL
    ensures Node(n, nb) && Door(n, Midpoint(stack[|stack| - 1], nb))
    ensures nb !in open && Midpoint(stack[|stack| - 1], nb) !in open
    ensures m.At(Midpoint(stack[|stack| - 1], nb)) == WALL
  {
    var cur := stack[|stack| - 1];
    var mid := Midpoint(cur, nb);
    StepGeometry(n, cur, nb);
    assert mid in open ==> nb in open;
  }

  lemma PushCells(m: Maze, open: set<Pos>, nb: Pos, mid: Pos)
    requires m.Valid() && CellsInv(m, open)
    requires m.InBounds(nb) && m.InBounds(mid)
    ensures CellsInv(m.With(nb, OPEN).With(mid, OPEN), open + {nb, mid})
  {
    var m' := m.With(nb, OPEN).With(mid, OPEN);
    forall p | m'.InBounds(p)
      ensures m'.At(p) == OPEN || m'.At(p) == WALL
      ensures m'.At(p) == OPEN <==> p in open + {nb, mid}
    {
      if p != nb && p != mid {
        assert m'.At(p) == m.At(p);
      }
    }
  }

  lemma PushShape(n: int, open: set<Pos>, cur: Pos, nb: Pos)
    requires ShapeInv(n, open)
    requires Node(n, cur) && cur in open
    requires NodeStep(cur, nb) && Interior(n, nb)
    ensures ShapeInv(n, open + {nb, Midpoint(cur, nb)})
  {
    StepGeometry(n, cur, nb);
  }

  lemma PushStack(n: int, stack: seq<Pos>, open: set<Pos>, nb: Pos, mid: Pos)
    requires StackInv(n, stack, open)
    requires Node(n, nb) && !Node(n, mid) && nb !in open
    ensures StackInv(n, stack + [nb], open + {nb, mid})
  {
    var stack' := stack + [nb];
    var open' := open + {nb, mid};
    forall i, j | 0 <= i < j < |stack'|
      ensures stack'[i] != stack'[j]
    {
      if j == |stack| {
        assert stack[i] in open;
      } else {
        assert stack'[i] == stack[i] && stack'[j] == stack[j];
      }
    }
    forall p | p in open' && Node(n, p) && p !in stack'
      ensures Explored(n, open', p)
    {
      assert p in open && p !in stack;
    }
  }

  lemma PushCount(n: int, open: set<Pos>, pushes: nat, nb: Pos, mid: Pos)
    requires CountInv(n, open, pushes)
    requires Node(n, nb) && Door(n, mid) && nb !in open && mid !in open
    ensures CountInv(n, open + {nb, mid}, pushes + 1)
  {
    assert NodesOf(n, open + {nb, mid}) == NodesOf(n, open) + {nb};
    assert DoorsOf(n, open + {nb, mid}) == DoorsOf(n, open) + {mid};
  }

  lemma PushRoute(m: Maze, open: set<Pos>, route: map<Pos, seq<Pos>>, cur: Pos, nb: Pos, mid: Pos)
    requires m.Valid() && RouteInv(m, open, route)
    requires cur in open
    requires m.InBounds(nb) && m.InBounds(mid)
    requires Adjacent(cur, mid) && Adjacent(mid, nb)
    ensures RouteInv(m.With(nb, OPEN).With(mid, OPEN), open + {nb, mid},
                     route[nb := route[cur] + [mid, nb]][mid := route[cur] + [mid]])
  {
    var m' := m.With(nb, OPEN).With(mid, OPEN);
    var route' := route[nb := route[cur] + [mid, nb]][mid := route[cur] + [mid]];
    forall q | m.InBounds(q) && m.At(q) != WALL
      ensures m'.At(q) != WALL
    {
      if q != nb && q != mid {
        assert m'.At(q) == m.At(q);
      }
    }
    WalkMonotone(m, m', route[cur]);
    forall p | p in open + {nb, mid}
      ensures p in route' && WalkBetween(m', route'[p], m'.Start(), p)
    {
      if p == mid {
        WalkExtend(m', route[cur], m'.Start(), cur, mid);
      } else if p == nb {
        WalkExtend(m', route[cur], m'.Start(), cur, mid);
        WalkExtend(m', route[cur] + [mid], m'.Start(), mid, nb);
        assert route[cur] + [mid] + [nb] == route[cur] + [mid, nb];
      } else {
        WalkMonotone(m, m', route[p]);
      }
    }
  }

  /** Carving a wall node two cells from the top of the stack, together
      with the door in between, keeps the loop state; the door was a wall
      too, so the push turns exactly two walls into open cells. */
  lemma PushPreserves(n: int, m: Maze, stack: seq<Pos>, open: set<Pos>,
                      route: map<Pos, seq<Pos>>, pushes: nat, cur: Pos, nb: Pos, mid: Pos)
    requires GenInv(n, m, stack, open, route, pushes)
    requires |stack| > 0 && cur == stack[|stack| - 1]
    requires NodeStep(cur, nb) && Interior(n, nb) && m.At(nb) == WALL
    requires mid == Midpoint(cur, nb)
    ensures m.At(mid) == WALL
    ensures GenInv(n, m.With(nb, OPEN).With(mid, OPEN), stack + [nb], open + {nb, mid},
                   route[nb := route[cur] + [mid, nb]][mid := route[cur] + [mid]], pushes + 1)
  {
    DoorStillWall(n, m, stack, open, route, pushes, nb);
    StepGeometry(n, cur, nb);
    PushCells(m, open, nb, mid);
    PushShape(n, open, cur, nb);
    PushStack(n, stack, open, nb, mid);
    PushCount(n, open, pushes, nb, mid);
    PushRoute(m, open, route, cur, nb, mid);
  }

  /** Popping a node none of whose neighbours two away is a wall keeps the
      loop state: the popped node is explored. */
  lemma PopPreserves(n: int, m: Maze, stack: seq<Pos>, open: set<Pos>,
                     route: map<Pos, seq<Pos>>, pushes: nat)
    requires GenInv(n, m, stack, open, route, pushes)
    requires |stack| > 0
    requires forall q :: NodeStep(stack[|stack| - 1], q) && Interior(n, q) ==> m.At(q) != WALL
    ensures GenInv(n, m, stack[..|stack| - 1], open, route, pushes)
  {
    PopStack(n, m, stack, open);
  }

  /** Popping a node with no wall node two away keeps the stack invariant. */
  lemma PopStack(n: int, m: Maze, stack: seq<Pos>, open: set<Pos>)
    requires m.Valid() && m.size == n && CellsInv(m, open) && StackInv(n, stack, open)
    requires |stack| > 0
    requires forall q :: NodeStep(stack[|stack| - 1], q) && Interior(n, q) ==> m.At(q) != WALL
    ensures StackInv(n, stack[..|stack| - 1], open)
  {
    var cur := stack[|stack| - 1];
    var stack' := stack[..|stack| - 1];
    assert stack == stack' + [cur];
    forall p | p in open && Node(n, p) && p !in stack'
      ensures Explored(n, open, p)
    {
      if p == cur {
        forall q | NodeStep(cur, q) && Interior(n, q)
          ensures q in open
        {
          assert m.At(q) != WALL;
        }
      } else {
        assert p !in stack;
      }
    }
  }

  /** Once every carved node is explored, every node is carved: the
      lattice is connected through steps of two, so the carving reached all
      of it from (1, 1). */
  lemma {:induction false} AllNodesOpen(n: int, open: set<Pos>, p: Pos)
    requires Pos(1, 1) in open
    requires forall q :: q in open && Node(n, q) ==> Explored(n, open, q)
    requires Node(n, p)
    ensures p in open
    decreases p.r + p.c
  {
    if p.c >= 3 {
      var q := Pos(p.r, p.c - 2);
      AllNodesOpen(n, open, q);
      assert NodeStep(q, p);
    } else if p.r >= 3 {
      var q := Pos(p.r - 2, p.c);
      AllNodesOpen(n, open, q);
      assert NodeStep(q, p);
    } else {
      assert p == Pos(1, 1);
    }
  }

  /** One iteration of the backtracker: carve towards a randomly chosen
      uncarved neighbour of the top of the stack and push it, or pop when
      there is none. Either fewer cells remain uncarved, or as many remain
      and the stack is shorter. */
  method Step(n: int, pick: nat -> nat, m: Maze, stack: seq<Pos>, ghost open: set<Pos>,
              ghost route: map<Pos, seq<Pos>>, pushes: nat)
    returns (m': Maze, stack': seq<Pos>, ghost open': set<Pos>,
             ghost route': map<Pos, seq<Pos>>, pushes': nat)
    requires GenInv(n, m, stack, open, route, pushes) && |stack| > 0
    ensures GenInv(n, m', stack', open', route', pushes')
    ensures pushes' == pushes || pushes' == pushes + 1
    ensures pushes' == pushes <==>
              forall q :: NodeStep(stack[|stack| - 1], q) && Interior(n, q) ==> m.At(q) != WALL
    ensures pushes' == pushes ==> m' == m && stack' == stack[..|stack| - 1]
    ensures pushes' == pushes + 1 ==>
              && |stack'| == |stack| + 1 && stack'[..|stack|] == stack
              && var nb := stack'[|stack|];
                 var mid := Midpoint(stack[|stack| - 1], nb);
                 && NodeStep(stack[|stack| - 1], nb) && Interior(n, nb)
                 && m.At(nb) == WALL && m.At(mid) == WALL
                 && m' == m.With(nb, OPEN).With(mid, OPEN)
    ensures || |Cells(n) - open'| < |Cells(n) - open|
            || (|Cells(n) - open'| == |Cells(n) - open| && |stack'| < |stack|)
  {
    var cur := stack[|stack| - 1];
    var cs := Candidates(m, cur);
    if |cs| > 0 {
      var choice := cs[pick(pushes) % |cs|];
      var nb, mid := choice.cell, choice.between;
      PushPreserves(n, m, stack, open, route, pushes, cur, nb, mid);
      CarveShrinks(n, open, nb, mid);
      m' := m.With(nb, OPEN).With(mid, OPEN);
      stack' := stack + [nb];
      open' := open + {nb, mid};
      route' := route[nb := route[cur] + [mid, nb]][mid := route[cur] + [mid]];
      pushes' := pushes + 1;
    } else {
      PopPreserves(n, m, stack, open, route, pushes);
      m', stack', open', route', pushes' := m, stack[..|stack| - 1], open, route, pushes;
    }
  }

  /** Builds a maze of the given side length. `pick(k) % |candidates|` is
      the candidate taken by the k-th random choice; any sequence of
      random outcomes is some `pick`. Returns the maze and the number of
      carving steps (pushes).

      The outer ring stays wall; the start is labelled START and the end
      END (END wins when they coincide, at size 3); every other cell is
      OPEN or WALL. Only nodes and doors are carved, every node is
      carved, every carved door joins two carved nodes, there is one more
      carved node than carved door, and every passable cell except an
      even-size end is reached from the start. For odd sizes the end is
      reached too. */
  method Generate(size: int, pick: nat -> nat) returns (m: Maze, pushes: nat)
    requires size >= 3
    ensures m.Valid() && m.size == size
    ensures forall p :: m.InBounds(p) && !Interior(size, p) ==> m.At(p) == WALL
    ensures m.At(m.End()) == END
    ensures m.Start() != m.End() ==> m.At(m.Start()) == START
    ensures forall p :: m.InBounds(p) && p != m.Start() && p != m.End() ==>
              m.At(p) == OPEN || m.At(p) == WALL
    ensures forall p :: m.Passable(p) ==> Node(size, p) || Door(size, p) || p == m.End()
    ensures forall p :: Node(size, p) ==> m.At(p) != WALL
    ensures forall p :: m.Passable(p) && Door(size, p) ==>
              m.Passable(Sides(p).0) && m.Passable(Sides(p).1)
    ensures |NodesOf(size, PassableCells(m))| == pushes + 1
    ensures |DoorsOf(size, PassableCells(m))| == pushes
    ensures forall p :: m.Passable(p) && p != m.End() ==> Reachable(m, p)
    ensures Odd(size) ==> Reachable(m, m.End())
  {
    m := AllWalls(size);
    m := m.With(m.Start(), OPEN);
    var stack := [m.Start()];
    pushes := 0;
    ghost var open := {m.Start()};
    ghost var route := map[m.Start() := [m.Start()]];
    InitEstablishes(size, m);

    while |stack| > 0
      invariant GenInv(size, m, stack, open, route, pushes)
      decreases |Cells(size) - open|, |stack|
    {
      m, stack, open, route, pushes := Step(size, pick, m, stack, open, route, pushes);
    }

    forall p | Node(size, p)
      ensures p in open
    {
      AllNodesOpen(size, open, p);
    }
    ghost var carved := m;
    m := m.With(m.Start(), START);
    m := m.With(m.End(), END);
    Finish(size, carved, m, open, route, pushes);
  }

  /** Carving an interior wall cell leaves fewer uncarved cells. */
  lemma CarveShrinks(n: int, open: set<Pos>, nb: Pos, mid: Pos)
    requires forall p :: p in open ==> Node(n, p) || Door(n, p)
    requires Interior(n, nb) && nb !in open
    ensures |Cells(n) - (open + {nb, mid})| < |Cells(n) - open|
  {
    var left := Cells(n) - open;
    assert nb in left;
    assert Cells(n) - (open + {nb, mid}) <= left - {nb};
    SubsetCard(Cells(n) - (open + {nb, mid}), left - {nb});
  }

  /** What labelling the start and the end of a fully carved maze keeps:
      the cells other than those two, and passability. */
  lemma LabelFacts(n: int, carved: Maze, m: Maze, open: set<Pos>)
    requires carved.Valid() && carved.size == n && CellsInv(carved, open) && ShapeInv(n, open)
    requires m == carved.With(carved.Start(), START).With(carved.End(), END)
    ensures m.Valid() && m.size == n
    ensures m.At(m.End()) == END
    ensures m.Start() != m.End() ==> m.At(m.Start()) == START
    ensures forall p :: m.InBounds(p) && p != m.Start() && p != m.End() ==> m.At(p) == carved.At(p)
    ensures forall p :: m.Passable(p) <==> p in open || p == m.Start() || p == m.End()
  {
    forall p | m.InBounds(p) && p != m.Start() && p != m.End()
      ensures m.At(p) == carved.At(p)
    {
    }
    forall p
      ensures m.Passable(p) <==> p in open || p == m.Start() || p == m.End()
    {
      if p in open {
        assert carved.InBounds(p);
      }
    }
  }

  /** Labelling the start and the end of a fully carved maze gives the
      promised final maze. */
  lemma Finish(n: int, carved: Maze, m: Maze, open: set<Pos>,
               route: map<Pos, seq<Pos>>, pushes: nat)
    requires GenInv(n, carved, [], open, route, pushes)
    requires forall p :: Node(n, p) ==> p in open
    requires m == carved.With(carved.Start(), START).With(carved.End(), END)
    ensures m.Valid() && m.size == n
    ensures forall p :: m.InBounds(p) && !Interior(n, p) ==> m.At(p) == WALL
    ensures m.At(m.End()) == END
    ensures m.Start() != m.End() ==> m.At(m.Start()) == START
    ensures forall p :: m.InBounds(p) && p != m.Start() && p != m.End() ==>
              m.At(p) == OPEN || m.At(p) == WALL
    ensures forall p :: m.Passable(p) ==> Node(n, p) || Door(n, p) || p == m.End()
    ensures forall p :: Node(n, p) ==> m.At(p) != WALL
    ensures forall p :: m.Passable(p) && Door(n, p) ==>
              m.Passable(Sides(p).0) && m.Passable(Sides(p).1)
    ensures |NodesOf(n, PassableCells(m))| == pushes + 1
    ensures |DoorsOf(n, PassableCells(m))| == pushes
    ensures forall p :: m.Passable(p) && p != m.End() ==> Reachable(m, p)
    ensures Odd(n) ==> Reachable(m, m.End())
  {
    LabelFacts(n, carved, m, open);
    FinishShape(n, carved, m, open);
    FinishCounts(n, m, open, pushes);
    FinishReach(n, carved, m, open, route);
  }

  lemma FinishShape(n: int, carved: Maze, m: Maze, open: set<Pos>)
    requires carved.Valid() && carved.size == n && m.Valid() && m.size == n
    requires CellsInv(carved, open) && ShapeInv(n, open)
    requires forall p :: Node(n, p) ==> p in open
    requires m.At(m.End()) == END
    requires m.Start() != m.End() ==> m.At(m.Start()) == START
    requires forall p :: m.InBounds(p) && p != m.Start() && p != m.End() ==> m.At(p) == carved.At(p)
    requires forall p :: m.Passable(p) <==> p in open || p == m.Start() || p == m.End()
    ensures forall p :: m.InBounds(p) && !Interior(n, p) ==> m.At(p) == WALL
    ensures forall p :: m.InBounds(p) && p != m.Start() && p != m.End() ==>
              m.At(p) == OPEN || m.At(p) == WALL
    ensures forall p :: m.Passable(p) ==> Node(n, p) || Door(n, p) || p == m.End()
    ensures forall p :: Node(n, p) ==> m.At(p) != WALL
    ensures forall p :: m.Passable(p) && Door(n, p) ==>
              m.Passable(Sides(p).0) && m.Passable(Sides(p).1)
  {
    forall p | m.InBounds(p) && !Interior(n, p)
      ensures m.At(p) == WALL
    {
      assert p !in open;
    }
    forall p | m.InBounds(p) && p != m.Start() && p != m.End()
      ensures m.At(p) == OPEN || m.At(p) == WALL
    {
      assert carved.InBounds(p);
    }
  }

  lemma FinishCounts(n: int, m: Maze, open: set<Pos>, pushes: nat)
    requires m.Valid() && m.size == n
    requires CountInv(n, open, pushes) && ShapeInv(n, open)
    requires forall p :: Node(n, p) ==> p in open
    requires forall p :: m.Passable(p) <==> p in open || p == m.Start() || p == m.End()
    ensures |NodesOf(n, PassableCells(m))| == pushes + 1
    ensures |DoorsOf(n, PassableCells(m))| == pushes
  {
    assert PassableCells(m) == open + {m.End()};
    assert NodesOf(n, PassableCells(m)) == NodesOf(n, open);
    assert DoorsOf(n, PassableCells(m)) == DoorsOf(n, open);
  }

  lemma FinishReach(n: int, carved: Maze, m: Maze, open: set<Pos>, route: map<Pos, seq<Pos>>)
    requires carved.Valid() && carved.size == n && m.Valid() && m.size == n
    requires CellsInv(carved, open) && RouteInv(carved, open, route) && ShapeInv(n, open)
    requires forall p :: Node(n, p) ==> p in open
    requires forall p :: p in open ==> m.Passable(p)
    requires forall p :: m.Passable(p) <==> p in open || p == m.Start() || p == m.End()
    ensures forall p :: m.Passable(p) && p != m.End() ==> Reachable(m, p)
    ensures Odd(n) ==> Reachable(m, m.End())
  {
    var s, e := m.Start(), m.End();
    forall q | carved.InBounds(q) && carved.At(q) != WALL
      ensures m.At(q) != WALL
    {
      assert q in open;
    }
    forall p | m.Passable(p) && p != e
      ensures Reachable(m, p)
    {
      assert p in open;
      WalkMonotone(carved, m, route[p]);
      assert WalkBetween(m, route[p], s, p);
    }
    if Odd(n) {
      assert Node(n, e);
      WalkMonotone(carved, m, route[e]);
      assert WalkBetween(m, route[e], s, e);
    }
  }

  /** With an even side length the end cell has even coordinates, so it
      is neither a node nor a door, and neither is any of its four
      neighbours: in a maze of the shape generation produces, no passable
      cell touches the end. */
  lemma EvenSizeEndWalledIn(m: Maze)
    requires m.Valid() && !Odd(m.size)
    requires forall p :: m.Passable(p) ==> Node(m.size, p) || Door(m.size, p) || p == m.End()
    ensures forall q :: m.Passable(q) ==> !Adjacent(q, m.End())
  {
  }

  /** Consequently no walk from the start reaches the end: the maze has no
      route. */
  lemma EvenSizeUnsolvable(m: Maze)
    requires m.Valid() && !Odd(m.size)
    requires forall p :: m.Passable(p) ==> Node(m.size, p) || Door(m.size, p) || p == m.End()
    ensures forall w :: !IsRoute(m, w)
  {
    EvenSizeEndWalledIn(m);
    forall w | Walk(m, w) && w[0] == m.Start()
      ensures forall i :: 0 <= i < |w| ==> w[i] != m.End()
    {
      forall i | 1 <= i < |w|
        ensures w[i] != m.End()
      {
        assert Adjacent(w[i - 1], w[i]);
        if i > 1 {
          assert m.Passable(w[i - 1]);
        }
      }
    }
  }
}
