/** The player's side of the game: moving a marker one cell at a time
    through a finished maze, counting accepted moves and noticing arrival
    at the end cell. Drawing and messages are not part of the model; only
    the position, the move counter and the won flag are. */
module Player {
  import opened MazeGrid

  datatype Direction = Up | Down | Left | Right

  /** The state a move reads and writes. */
  datatype Game = Game(pos: Pos, moves: nat, won: bool)

  /** A fresh game: the marker on the start cell, no moves, not won. */
  function Initial(m: Maze): (g: Game)
    requires m.Valid()
    ensures g.pos == m.Start() && g.moves == 0 && !g.won
  {
    Game(m.Start(), 0, false)
  }

  /** The cell a direction points at; rows grow downwards. */
  function Target(p: Pos, d: Direction): (q: Pos)
    ensures Adjacent(p, q)
  {
    match d
    case Up => Pos(p.r - 1, p.c)
    case Down => Pos(p.r + 1, p.c)
    case Left => Pos(p.r, p.c - 1)
    case Right => Pos(p.r, p.c + 1)
  }

  /** The four directions reach exactly the four neighbours of a cell. */
  lemma TargetsAreNeighbours(p: Pos, q: Pos)
    ensures Adjacent(p, q) <==> exists d :: Target(p, d) == q
  {
    if Adjacent(p, q) {
      if q.r == p.r - 1 {
        assert Target(p, Up) == q;
      } else if q.r == p.r + 1 {
        assert Target(p, Down) == q;
      } else if q.c == p.c - 1 {
        assert Target(p, Left) == q;
      } else {
        assert Target(p, Right) == q;
      }
    }
  }

  /** One key press. A won game ignores it. Otherwise the move is taken
      only onto an in-bounds cell that is not a wall; a taken move counts
      one and wins when it lands on the end cell. A refused move changes
      nothing. */
  function TryMove(m: Maze, g: Game, d: Direction): (g': Game)
    requires m.Valid()
    ensures g.won ==> g' == g
    ensures !g.won && !m.Passable(Target(g.pos, d)) ==> g' == g
    ensures !g.won && m.Passable(Target(g.pos, d)) ==>
              && g'.pos == Target(g.pos, d)
              && g'.moves == g.moves + 1
              && (g'.won <==> g'.pos == m.End())
  {
    if g.won then g
    else
      var q := Target(g.pos, d);
      if m.InBounds(q) && m.At(q) != WALL
      then Game(q, g.moves + 1, q == m.End())
      else g
  }

  /** A sequence of key presses, applied in order. */
  function Play(m: Maze, g: Game, ds: seq<Direction>): (g': Game)
    requires m.Valid()
    ensures g'.moves >= g.moves
    ensures g.won ==> g' == g
    decreases |ds|
  {
    if ds == [] then g else Play(m, TryMove(m, g, ds[0]), ds[1..])
  }

  /** The cells the marker occupies during a sequence of key presses: the
      cell it starts on, then the target of every accepted move. */
  function Trail(m: Maze, g: Game, ds: seq<Direction>): (t: seq<Pos>)
    requires m.Valid()
    ensures |t| > 0 && t[0] == g.pos
    decreases |ds|
  {
    if ds == [] then [g.pos]
    else
      var g1 := TryMove(m, g, ds[0]);
      if g1.moves == g.moves then Trail(m, g1, ds[1..])
      else [g.pos] + Trail(m, g1, ds[1..])
  }

  /** The marker is on the grid, and a won game has it on the end cell. */
  predicate Consistent(m: Maze, g: Game)
    requires m.Valid()
  {
    m.InBounds(g.pos) && (g.won ==> g.pos == m.End())
  }

  /** Key presses keep the state consistent, and the trail they leave is
      a walk from the old position to the new one with exactly one step
      per counted move. */
  lemma {:induction false} PlayTrail(m: Maze, g: Game, ds: seq<Direction>)
    requires m.Valid() && Consistent(m, g)
    ensures Consistent(m, Play(m, g, ds))
    ensures WalkBetween(m, Trail(m, g, ds), g.pos, Play(m, g, ds).pos)
    ensures |Trail(m, g, ds)| == Play(m, g, ds).moves - g.moves + 1
    decreases |ds|
  {
    if ds != [] {
      var g1 := TryMove(m, g, ds[0]);
      PlayTrail(m, g1, ds[1..]);
      var t1 := Trail(m, g1, ds[1..]);
      if g1.moves != g.moves {
        var t := [g.pos] + t1;
        assert t == Trail(m, g, ds);
        assert Adjacent(g.pos, t1[0]);
        assert m.At(t1[0]) != WALL;
        forall i | 1 <= i < |t|
          ensures m.At(t[i]) != WALL
        {
          assert t[i] == t1[i - 1];
        }
        forall i | 0 <= i < |t| - 1
          ensures Adjacent(t[i], t[i + 1])
        {
          if i > 0 {
            assert t[i] == t1[i - 1] && t[i + 1] == t1[i];
          }
        }
      }
    }
  }

  /** A game not yet won becomes won exactly when some accepted move
      lands the marker on the end cell. */
  lemma {:induction false} WonIffReachedEnd(m: Maze, g: Game, ds: seq<Direction>)
    requires m.Valid() && !g.won
    ensures Play(m, g, ds).won <==> m.End() in Trail(m, g, ds)[1..]
    decreases |ds|
  {
    if ds != [] {
      var g1 := TryMove(m, g, ds[0]);
      var t1 := Trail(m, g1, ds[1..]);
      if g1.moves == g.moves {
        WonIffReachedEnd(m, g1, ds[1..]);
      } else if g1.won {
        assert Trail(m, g, ds)[1..] == t1;
        assert t1[0] == m.End();
      } else {
        WonIffReachedEnd(m, g1, ds[1..]);
        assert Trail(m, g, ds)[1..] == t1;
        assert t1 == [t1[0]] + t1[1..];
      }
    }
  }

  /** Winning from a fresh game walks a route from the start to the end
      whose length is one more than the move count. */
  lemma WinIsRoute(m: Maze, ds: seq<Direction>)
    requires m.Valid()
    ensures Play(m, Initial(m), ds).won ==>
              && IsRoute(m, Trail(m, Initial(m), ds))
              && |Trail(m, Initial(m), ds)| == Play(m, Initial(m), ds).moves + 1
  {
    PlayTrail(m, Initial(m), ds);
  }
}
