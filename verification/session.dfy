/** A game session: build a maze, ask the path finder for its solution,
    and compare a player's winning moves with that solution. */
module Session {
  import opened MazeGrid
  import opened Generator
  import opened PathFinder
  import opened Player

  /** Generates a maze of the given size and solves it. The solution is
      found exactly when the size is odd; it is then a shortest route
      without repeated cells. With an even size the end cell is walled in
      and the path finder reports no path. */
  method NewGame(size: int, pick: nat -> nat) returns (m: Maze, path: seq<Pos>)
    requires size >= 3
    ensures m.Valid() && m.size == size
    ensures path != [] <==> Odd(size)
    ensures path != [] ==> IsRoute(m, path) && Distinct(path)
    ensures forall w :: IsRoute(m, w) ==> |path| <= |w|
  {
    var pushes;
    m, pushes := Generate(size, pick);
    ghost var enqueued, rounds;
    path, enqueued, rounds := FindPath(m);
    if Odd(size) {
      if path == [] {
        ghost var w :| WalkBetween(m, w, m.Start(), m.End());
        assert IsRoute(m, w);
      }
    } else {
      EvenSizeUnsolvable(m);
    }
  }

  /** The game as shipped: a maze of side MAZE_SIZE, whatever the random
      choices, always has a solution, and the path finder returns a
      shortest route without repeated cells. */
  method StandardGame(pick: nat -> nat) returns (m: Maze, path: seq<Pos>)
    ensures m.Valid() && m.size == MAZE_SIZE
    ensures path != [] && IsRoute(m, path) && Distinct(path)
    ensures forall w :: IsRoute(m, w) ==> |path| <= |w|
  {
    assert Odd(MAZE_SIZE);
    m, path := NewGame(MAZE_SIZE, pick);
  }

  /** The move counter of a won game is never below the number of steps
      in the path finder's solution: a win implies that a solution exists
      and is at most as long as the player's own trail. */
  method WinNeedsSolution(m: Maze, ds: seq<Direction>) returns (path: seq<Pos>, g: Game)
    requires m.Valid()
    ensures g == Play(m, Initial(m), ds)
    ensures g.won ==> path != [] && |path| - 1 <= g.moves
  {
    ghost var enqueued, rounds;
    path, enqueued, rounds := FindPath(m);
    g := Play(m, Initial(m), ds);
    WinIsRoute(m, ds);
  }
}
