# Maze engine of the Python maze game, in Dafny

This project models the algorithmic core of a small turtle-graphics maze
game:

- **Generation** (`Maze.__init__`, `Maze.generate_maze`). Each maze starts as
  a square grid of walls. A randomised depth-first backtracker with an
  explicit stack then carves passages. It steps two cells at a time across a
  lattice of odd-coordinate "nodes", and opens the "door" cell between two
  nodes when it moves from one to the other. Finally the start (1, 1) is
  labelled 2 and the end (size-2, size-2) is labelled 3.
- **Path finding** (`Maze.find_path`). A breadth-first search carries the
  whole walk with every queue entry. It marks cells visited when they are
  enqueued, returns the walk of the first entry it dequeues at the end cell,
  and returns the empty list when the queue runs dry.
- **Player moves** (`MazeDrawer.try_move` and the flag set by `win_game`).
  This is a small state machine over the position, the move counter and the
  won flag.

The grid is an immutable value `Maze(size, grid)`: a sequence of rows of
cell codes (0 open, 1 wall, 2 start, 3 end). Generation and search are
methods over such values. Because of that, the search visibly cannot change
the maze.

`random.choice` becomes a parameter `pick: nat -> nat`. The k-th choice takes
candidate `pick(k) % |candidates|`, so every sequence of random outcomes is
some `pick`.

Modules:

- `MazeGrid` (grid.dfy) holds the cell codes, positions, adjacency, and the
  four unit moves in the search's order. It also defines walks: non-empty
  chains of adjacent in-bounds cells in which every cell after the first is
  not a wall. A route is a walk from the start to the end.
  - The first cell of a walk is exempt from the wall check, because neither
    the search nor a player move ever looks at the cell it starts from.
- `Generator` (generator.dfy) holds the backtracker, its loop invariant, and
  the facts about the finished maze:
  - the border stays walled;
  - every open cell is a node or a door between two open nodes;
  - every node is open;
  - there is one door fewer than there are open nodes;
  - every open cell is reachable from the start.

  For odd sizes these facts imply that the result is a spanning tree of the
  lattice, i.e. a "perfect" maze. That conclusion (acyclicity) is not itself
  stated or proved here.
- `PathFinder` (pathfinder.dfy) holds the breadth-first search. It proves:
  - a non-empty answer is a route without repeated cells and no longer than
    any other route;
  - an empty answer means there is no route at all.

  The proof keeps a ghost distance map and a BFS level beside the real queue
  and visited set.
- `Player` (player.dfy) holds one move, sequences of moves, and the trail of
  cells a player occupies.
- `Session` (session.dfy) ties the modules together:
  - it generates a maze, solves it, and states when a solution exists;
  - it compares a player's winning move count with the search's answer.

An even size puts the end cell at even coordinates. That cell is neither a
node nor a door, and none of its neighbours can be carved. The program
accepts such sizes without complaint and then yields a maze with no route.
The game itself always uses size 15. `Session.NewGame` states this exactly:
the search finds a path if and only if the size is odd. `Session.StandardGame`
draws the conclusion for size 15: every maze the game builds has a solution. The program performs
no size validation; the model follows it and does not reject even sizes.

## Model

| member | source | states |
|---|---|---|
| Generator.Generate | maze.py:15-47 | Result of generation:<br>• the border is all wall<br>• the end holds 3; the start holds 2 unless it is also the end (size 3)<br>• every other cell is 0 or 1<br>• open cells are nodes, doors or the end; every node is open; an open door has both its nodes open<br>• the number of doors is the number of pushes and one less than the number of open nodes<br>• every open cell is reachable from the start, and so is the end when the size is odd |
| Generator.Step | maze.py:29-44 | One loop iteration keeps the loop invariant, which includes that the stack holds distinct open nodes. It pops exactly when no interior cell two away from the top of the stack is still a wall. Otherwise it pushes a wall node two cells from the top of the stack, turning exactly that node and the door between from 1 to 0, or pops the stack and leaves the grid unchanged. Either fewer cells stay uncarved, or the stack shrinks. |
| Generator.Candidates | maze.py:29-36 | Each candidate is a wall cell strictly inside the border, two cells from the current one, paired with the cell in between. The list is empty exactly when no interior cell two away is still a wall. |
| Generator.CandidatesComplete | maze.py:32-39 | Every interior wall cell two away from the current cell is in the list, so the random choice can pick any of them. |
| Generator.InitEstablishes | maze.py:16-24 | The all-wall grid with only the start opened, the one-entry stack and zero pushes satisfy the loop invariant. |
| Generator.PushPreserves | maze.py:38-42 | Carving a chosen candidate and pushing it keeps the invariant:<br>• the door was still a wall<br>• stack entries are open nodes<br>• each push adds one node and one door<br>• every carved cell has a walk from the start |
| Generator.PopPreserves | maze.py:43-44 | Popping a node with no wall node two away keeps the invariant; every open node off the stack has all its lattice neighbours open. |
| Generator.AllNodesOpen | maze.py:28-44 | When the stack is empty, every lattice node has been carved, because the open nodes are closed under steps of two and contain (1, 1). |
| Generator.Finish | maze.py:46-47 | Labelling the start 2 and then the end 3 turns the carved grid into the maze Generate promises (counts, shape and reachability as listed there). |
| Generator.EvenSizeUnsolvable | maze.py:17-19 | With an even size, a maze of the generated shape has no route from the start to the end. |
| PathFinder.FindPath | maze.py:49-68 | A non-empty result is a route from the start to the end without repeated cells, and no route is shorter. An empty result means no route exists. The log of enqueued cells starts with the start and holds no cell twice, because cells are marked at enqueue time. The number of dequeues is at least one, at most the length of that log, and at most size². When the result is empty, every cell was dequeued once, and every cell reachable from the start was enqueued. |
| PathFinder.LogAppend | maze.py:64-66 | Enqueuing a cell that is not yet visited, and marking it, keeps the log of enqueued cells free of repeats and equal, as a set, to the visited cells. |
| PathFinder.Advance | maze.py:55-66 | Dequeuing a non-end head and offering its neighbours keeps the search invariant. The rest of the queue is kept in order as a prefix of the new one. Every added entry is an unvisited passable neighbour of the head, carried by the head's walk extended by it, and only such neighbours become visited. Either the visited set grows or the queue shrinks, so the loop terminates. |
| PathFinder.OfferNeighbours | maze.py:61-66 | Afterwards every passable neighbour of the dequeued cell is visited. The old queue stays a prefix. Each added entry is an unvisited passable neighbour `nb` carried by `p + [nb]`, and the newly visited cells are only such neighbours. Visited only grows, the queue changes only if a cell was newly visited, and the search invariant holds again. |
| PathFinder.HeadIsShortest | maze.py:55-59 | No route is shorter than the walk at the head of the queue: BFS level order. |
| PathFinder.EndAtHead | maze.py:58-59 | When the end is dequeued, its walk is a shortest route without repeated cells. |
| PathFinder.Exhausted | maze.py:68 | With the queue empty, no route exists, and every cell reachable from the start has been visited. |
| PathFinder.WalksEndExpanded | maze.py:55-66 | Once every visited cell is expanded, every walk from the start ends at an expanded cell, so the search has seen every reachable cell. |
| MazeGrid.AdjacentIsUnitShift | maze.py:53 | The four search directions reach exactly the cells adjacent to a cell. |
| Player.Target | maze.py:158-168 | Each direction names a cell adjacent to the current position. |
| Player.TargetsAreNeighbours | maze.py:161-168 | The four directions reach exactly the four neighbours of a cell. |
| Player.TryMove | maze.py:154-180 | The four cases of a move:<br>• a won game is unchanged<br>• a target out of bounds or a wall changes nothing<br>• otherwise the marker moves to the target and the count rises by one<br>• the game is won exactly when the target is the end |
| Player.PlayTrail | maze.py:170-178 | Any sequence of moves keeps the marker on the grid, and a won game has it on the end. The occupied cells form a walk from the old to the new position, with one step per counted move. |
| Player.WonIffReachedEnd | maze.py:176-193 | A game that is not yet won becomes won exactly when some accepted move lands on the end cell. |
| Player.WinIsRoute | maze.py:154-193 | Winning a fresh game traces a route from the start to the end that is one cell longer than the move count. |
| Session.NewGame | maze.py:219-241 | For a generated maze, the search finds a path exactly when the size is odd. The path is then a shortest route with no repeated cells. |
| Session.StandardGame | maze.py:219-220 | A maze of side MAZE_SIZE (15) always has a solution for every sequence of random choices, and the path finder returns a shortest route without repeated cells. |
| Session.WinNeedsSolution | maze.py:234-241 | If a player has won, the search's path exists and has at most as many steps as the player's move count. |

## Left out

- Drawing, the screen, colours and messages are not modelled. This covers screen setup, `MazeDrawer` rendering, `show_path`, the pixel coordinates in `move_player`, `update_stats`, `show_temp_message`, and the text and bonus line of `win_game`. All of this is presentation. Only the position, move count and won flag are kept.
- `main`'s key bindings and `restart_game` are event-loop plumbing. `Session` stands in for what `main` does with the engine: it builds a maze and asks the search for a path.
- `random.choice` is modelled by the `pick` oracle. The distribution of the choices is not modelled.
- `collections.deque` is modelled as a sequence that is consumed from the front.
- Player.TryMove: direction strings other than the four names are not modelled. The key bindings only ever send those four. For any other string the program would count a move onto the current cell.
- Generator.Generate: requires size >= 3, a grid with a border and an interior. The program never validates the size. With size 2 it would label the border cell (0, 0) as the end, and with smaller sizes it fails on an index.
- PathFinder.FindPath: requires a valid maze of size at least 3, the only mazes generation produces.
- The guard in `solve_maze` that ignores the solve key after a win, and the `auto_solve_used` flag it sets, only affect what is displayed and are not modelled.
