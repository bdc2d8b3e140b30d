# A* grid search, modelled in Dafny

This project models the path search `astar` of `src/pathfinding.py` and the
`Node` record it works on, and proves what the search guarantees.

The search runs over a maze, a list of rows of integers, where 0 is a free
cell and anything else is a wall. It keeps an open list and a closed list of
nodes. Each node has a position, a parent, the step count `g`, the heuristic
`h` (the squared Euclidean distance to the goal) and the priority
`f = g + h`. The search starts with the start node alone in the open list and
then repeats one iteration:

1. A linear scan picks the first entry of least `f`.
2. That entry is popped from the open list and appended to the closed list.
3. If it stands on the goal cell, the search follows parent links back to
   the start and returns those positions in start-to-goal order.
4. Otherwise it tries the eight moves in a fixed order: left, right, up,
   down, then the four diagonals. Every target that is in range and holds 0
   becomes a child. Each child gets its costs and is appended to the open
   list.

The search returns `[]` only when the open list runs out.

The project has four modules:

- `Grid` (`grid.dfy`) holds positions, the maze, the eight moves, the range
  and wall tests, and the heuristic.
- `Nodes` (`nodes.dfy`) holds the node record and the parent-link walk. A
  parent link is an index into the closed list, which serves as the arena of
  expanded nodes. A node only gets children right after it is appended there,
  so that index is fixed.
- `Search` (`search.dfy`) is the reference model. One iteration is a pair of
  functions on the two lists (`PopMin`, then `Grow`), and `Run` repeats them
  for at most `fuel` iterations. `OutOfFuel` means the search was still
  running after that many iterations. The lemmas prove that the search
  invariant holds, that the results are sound, and exactly when `[]` is
  returned.
- `AStar` (`astar.dfy`) is the search as the source runs it. The lists are
  updated step by step, the scan and the child generation are loops, and the
  path is rebuilt by walking parent links. Each method is proved to compute
  what the reference model says.

## Model

| member | source | states |
|---|---|---|
| Grid.ShiftMoves | src/pathfinding.py:68-79 | each of the eight moves leads to a different cell that touches the current one, and `DirectionOf` gives back the move |
| Grid.DirectionOf | src/pathfinding.py:68-77 | for two touching cells, the index (below 8) of the move that leads from the first to the second |
| Grid.SqDist | src/pathfinding.py:100 | the heuristic is never negative and is 0 exactly on the goal cell |
| Grid.DirectionsExact | src/pathfinding.py:68-87 | of the moves tried, exactly those whose target is in range and holds 0 are kept, each once, in the order tried |
| Grid.NeighbourCellsSound | src/pathfinding.py:82-87 | every child cell touches the parent's cell, is in range and holds 0 |
| Grid.NeighbourCellsExact | src/pathfinding.py:68-90 | the child cells are exactly the walkable cells touching the parent's, listed in the order of the moves |
| Nodes.PathTo | src/pathfinding.py:59-63 | the parent-link walk from a node ends at that node's position and is never empty |
| Nodes.Reverse | src/pathfinding.py:64 | `path[::-1]` has the same length, and its entry `i` is entry `len - 1 - i` of the original |
| Search.FirstMinIndexIsFirstMin | src/pathfinding.py:47-52 | the scan picks an entry of least `f`, and every earlier entry has a strictly larger `f`, so ties go to the earliest |
| Search.RemoveAtKeepsOrder | src/pathfinding.py:55 | `pop(i)` removes exactly entry `i`, keeps the others in order, and leaves the rest of the multiset unchanged |
| Search.PopMin | src/pathfinding.py:55-56 | moving the pick to the closed list keeps every parent link pointing to an earlier closed entry |
| Search.Grow | src/pathfinding.py:93-109 | appending the children keeps every parent link pointing into the closed list |
| Search.InitialConsistent | src/pathfinding.py:33-43 | the start node alone in the open list satisfies the search invariant |
| Search.PopMinConsistent | src/pathfinding.py:46-56 | picking, popping and closing the first minimum keeps the search invariant |
| Search.GrowConsistent | src/pathfinding.py:93-109 | every appended child stands on a walkable cell touching its parent's, with `g` one more than the parent's, `h` the squared distance to the goal and `f = g + h` |
| Search.PathToValid | src/pathfinding.py:58-64 | the walk from any closed node starts at the start, moves one touching walkable cell at a time, ends at the node, and has `g + 1` cells |
| Search.RunSound | src/pathfinding.py:30-116 | every non-empty result starts at `start`, ends at `end`, and moves one touching walkable cell at a time |
| Search.ExhaustedGivesEmpty | src/pathfinding.py:46-116 | if the open list runs out within the iterations allowed, with no closed node on the goal, the result is `[]` |
| Search.EmptyMeansExhausted | src/pathfinding.py:46-116 | if the result is `[]`, the open list ran out within the iterations allowed, with no closed node on the goal |
| Search.EmptyResultExactly | src/pathfinding.py:46-116 | the result is `[]` if and only if the open list runs out, without the goal being closed, within the iterations allowed |
| Search.IterationShape | src/pathfinding.py:46-109 | one iteration removes exactly the first minimum and appends it to the closed list; the open list then grows by one entry per walkable neighbour, in move order, with the closed node as parent, whatever the lists already hold |
| Search.StartIsGoal | src/pathfinding.py:58-64 | when start and goal coincide, the result is `[start]`, whether or not that cell is in range or free |
| Search.IsolatedStart | src/pathfinding.py:46-116 | a start other than the goal with no walkable neighbour gives `[]` |
| Search.GrowKeepsWalkable | src/pathfinding.py:66-109 | in a maze where every free cell has a free neighbour, closing a node on a free cell leaves a non-empty open list on free cells |
| Search.NeverExhausted | src/pathfinding.py:46-116 | in such a maze, an open list on free cells never runs out, so the result is never `[]` |
| Search.NoEmptyResultWithoutDeadEnds | src/pathfinding.py:30-116 | in such a maze, a search from a free start never returns `[]` |
| AStar.SelectMin | src/pathfinding.py:47-52 | the scan loop returns the first entry of least `f` |
| AStar.GenerateChildren | src/pathfinding.py:67-90 | the move loop builds one child per in-range free target, in move order, with the current node as parent and zero costs |
| AStar.Reconstruct | src/pathfinding.py:59-64 | the parent-link loop followed by the reversal yields the walk from the start to the node |
| AStar.AddChildren | src/pathfinding.py:93-109 | the child loop appends every child, costed, in order; the duplicate scans keep none out |
| AStar.Iterate | src/pathfinding.py:47-109 | one pass of the main loop returns the path when the node it closes is on the goal, and otherwise leaves the lists as the reference iteration does |
| AStar.FindPath | src/pathfinding.py:30-116 | the search returns what the reference model returns; a non-empty result is a path from `start` to `end`; `[]` comes back exactly when the open list runs out first |

## Left out

- The drawing callback, the screen update and the pause at the end of each iteration (lines 112-114) are left out. They are I/O and change neither list.
- `plot_maze_with_path`, `draw_grid`, `generate_random_maze` and `main` are left out. They draw, generate random mazes or drive the program, and are not part of the search.
- The display constants at the top of the file are left out.
- The scans of the closed list and the open list for a child's cell (lines 94-96 and 104-106) are not modelled as loops. Their `continue` only ends an iteration of the scan itself, so they never keep a child out. The model appends every child, which is what the code does.
- Mazes whose rows have different lengths are excluded (`Rectangular`). On such a maze the source's indexing can raise an exception, which is not modelled. The empty maze is allowed.
- The search does not terminate on every maze. `Search.Run` and `AStar.FindPath` run for at most `fuel` iterations and return `OutOfFuel` after that.
- AStar.FindPath: does not claim that a found path is shortest. With the squared distance as heuristic, the search is not guaranteed to find the shortest path.
- Node objects and their parent references are modelled as values, with the parent given as an index into the closed list. Node identity and aliasing between the lists are not modelled; every access the search makes goes through a position or a parent.
- The start and goal positions are not checked. The source does not check them either: the model lets the start be out of range or a wall, as the source does.
- Python integers are unbounded, like Dafny's `int`, so costs never overflow.
