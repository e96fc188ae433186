/** The maze grid shared by the generator, the path finder and the player:
    a square matrix of cell codes, the two designated cells, 4-adjacency
    and walks through passable cells. */
module MazeGrid {

  /** Cell codes as stored in the grid. */
  const OPEN := 0
  const WALL := 1
  const START := 2
  const END := 3

  /** The only size the game ever builds. */
  const MAZE_SIZE := 15

  /** A (row, column) coordinate; components may leave the grid while a
      neighbour is being computed, so they are unbounded integers. */
  datatype Pos = Pos(r: int, c: int)

  /** A maze: its side length and the `size × size` matrix of cell codes.
      The start is always (1, 1) and the end (size-2, size-2). */
  datatype Maze = Maze(size: int, grid: seq<seq<int>>)
  {
    /** The grid is a `size × size` matrix and large enough to hold a
        border and one interior cell. */
    predicate Valid() {
      && size >= 3
      && |grid| == size
      && forall i :: 0 <= i < |grid| ==> |grid[i]| == size
    }

    function Start(): Pos { Pos(1, 1) }

    function End(): Pos { Pos(size - 2, size - 2) }

    predicate InBounds(p: Pos) {
      0 <= p.r < size && 0 <= p.c < size
    }

    function At(p: Pos): int
      requires Valid() && InBounds(p)
    {
      grid[p.r][p.c]
    }

    /** A cell a walk may enter: inside the grid and not a wall. */
    predicate Passable(p: Pos)
      requires Valid()
    {
      InBounds(p) && At(p) != WALL
    }

    /** The maze with one cell overwritten. */
    function With(p: Pos, v: int): (m': Maze)
      requires Valid() && InBounds(p)
      ensures m'.Valid() && m'.size == size
      ensures m'.At(p) == v
      ensures forall q :: m'.InBounds(q) && q != p ==> m'.At(q) == At(q)
    {
      Maze(size, grid[p.r := grid[p.r][p.c := v]])
    }
  }

  /** A grid of the given size with every cell a wall. */
  function AllWalls(size: int): (m: Maze)
    requires size >= 3
    ensures m.Valid() && m.size == size
    ensures forall p :: m.InBounds(p) ==> m.At(p) == WALL
  {
    Maze(size, seq(size, _ => seq(size, _ => WALL)))
  }

  /** Every coordinate of an `n × n` grid. */
  function Cells(n: int): (s: set<Pos>)
    ensures forall p :: p in s <==> 0 <= p.r < n && 0 <= p.c < n
  {
    set r, c | 0 <= r < n && 0 <= c < n :: Pos(r, c)
  }

  /** The first `h` rows, `w` cells wide. */
  function Rect(h: int, w: int): (s: set<Pos>)
    ensures forall p :: p in s <==> 0 <= p.r < h && 0 <= p.c < w
  {
    set r, c | 0 <= r < h && 0 <= c < w :: Pos(r, c)
  }

  /** The first `w` cells of row `r`. */
  function Row(r: int, w: int): (s: set<Pos>)
    ensures forall p :: p in s <==> p.r == r && 0 <= p.c < w
  {
    set c | 0 <= c < w :: Pos(r, c)
  }

  lemma {:induction false} RowCount(r: int, w: nat)
    ensures |Row(r, w)| == w
  {
    if w > 0 {
      RowCount(r, w - 1);
      assert Row(r, w) == Row(r, w - 1) + {Pos(r, w - 1)};
    }
  }

  lemma {:induction false} RectCount(h: nat, w: nat)
    ensures |Rect(h, w)| == h * w
  {
    if h > 0 {
      RectCount(h - 1, w);
      RowCount(h - 1, w);
      RectSplit(h, w);
      MulStep(h, w);
    }
  }

  /** The first `h` rows are the first `h - 1` rows plus row `h - 1`, and
      the two parts do not overlap. */
  lemma RectSplit(h: int, w: int)
    requires h > 0
    ensures Rect(h, w) == Rect(h - 1, w) + Row(h - 1, w)
    ensures Rect(h - 1, w) * Row(h - 1, w) == {}
  {
  }

  lemma MulStep(h: int, w: int)
    ensures (h - 1) * w + w == h * w
  {
  }

  /** An `n × n` grid has `n * n` cells. */
  lemma CellsCount(n: nat)
    ensures |Cells(n)| == n * n
  {
    assert Cells(n) == Rect(n, n);
    RectCount(n, n);
  }

  /** The two cells differ by one in exactly one coordinate. */
  predicate Adjacent(p: Pos, q: Pos) {
    || (p.r == q.r && (p.c - q.c == 1 || q.c - p.c == 1))
    || (p.c == q.c && (p.r - q.r == 1 || q.r - p.r == 1))
  }

  /** The four unit moves in the order the path finder tries them:
      column +1, row +1, column -1, row -1. */
  const Units: seq<Pos> := [Pos(0, 1), Pos(1, 0), Pos(0, -1), Pos(-1, 0)]

  function Shift(p: Pos, d: Pos): Pos {
    Pos(p.r + d.r, p.c + d.c)
  }

  lemma UnitShiftAdjacent(p: Pos, k: int)
    requires 0 <= k < 4
    ensures Adjacent(p, Shift(p, Units[k]))
  {
  }

  /** Adjacency is exactly "one of the four unit moves". */
  lemma AdjacentIsUnitShift(p: Pos, q: Pos)
    ensures Adjacent(p, q) <==> exists k :: 0 <= k < 4 && q == Shift(p, Units[k])
  {
    if Adjacent(p, q) {
      if q == Shift(p, Units[0]) {
      } else if q == Shift(p, Units[1]) {
      } else if q == Shift(p, Units[2]) {
      } else {
        assert q == Shift(p, Units[3]);
      }
    }
  }

  /** A walk: a non-empty sequence of in-bounds cells, each adjacent to the
      next, every one after the first passable. The first cell is exempt
      because neither the path finder nor a player move ever inspects the
      cell it starts from. */
  predicate Walk(m: Maze, w: seq<Pos>)
    requires m.Valid()
  {
    && |w| > 0
    && (forall i :: 0 <= i < |w| ==> m.InBounds(w[i]))
    && (forall i :: 1 <= i < |w| ==> m.At(w[i]) != WALL)
    && (forall i :: 0 <= i < |w| - 1 ==> Adjacent(w[i], w[i + 1]))
  }

  /** A walk from `from` to `to`. */
  predicate WalkBetween(m: Maze, w: seq<Pos>, from: Pos, to: Pos)
    requires m.Valid()
  {
    Walk(m, w) && w[0] == from && w[|w| - 1] == to
  }

  /** A route: a walk from the start cell to the end cell. */
  predicate IsRoute(m: Maze, w: seq<Pos>)
    requires m.Valid()
  {
    WalkBetween(m, w, m.Start(), m.End())
  }

  /** Some walk leads from the start cell to `p`. */
  ghost predicate Reachable(m: Maze, p: Pos)
    requires m.Valid()
  {
    exists w :: WalkBetween(m, w, m.Start(), p)
  }

  /** No cell occurs twice. */
  predicate Distinct(w: seq<Pos>) {
    forall i, j :: 0 <= i < j < |w| ==> w[i] != w[j]
  }

  /** Appending a passable neighbour of its last cell extends a walk. */
  lemma WalkExtend(m: Maze, w: seq<Pos>, from: Pos, to: Pos, next: Pos)
    requires m.Valid()
    requires WalkBetween(m, w, from, to)
    requires Adjacent(to, next) && m.Passable(next)
    ensures WalkBetween(m, w + [next], from, next)
  {
  }

  /** A walk stays a walk when no passable cell becomes a wall. */
  lemma WalkMonotone(m: Maze, m': Maze, w: seq<Pos>)
    requires m.Valid() && m'.Valid() && m'.size == m.size
    requires forall q :: m.InBounds(q) && m.At(q) != WALL ==> m'.At(q) != WALL
    requires Walk(m, w)
    ensures Walk(m', w)
  {
    forall i | 1 <= i < |w|
      ensures m'.At(w[i]) != WALL
    {
      assert m.At(w[i]) != WALL;
    }
  }

  /** A subset is no larger than its superset. */
  lemma SubsetCard(a: set<Pos>, b: set<Pos>)
    requires a <= b
    ensures |a| <= |b|
  {
    assert b == a + (b - a);
  }
}
