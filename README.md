# Maze solver search core, modelled and verified in Dafny

This project models the search core of a grid maze solver. That core has
four parts:

- The grid: a list of rows in which 0 is an open cell and anything else is
  a wall. The searches are modelled on rectangular grids, where every row
  has `cols` entries; the source does not check this.
- The four-neighbour relation on the grid, tried in the fixed order Up,
  Down, Left, Right.
- The shared search node and path reconstruction. A node has a position, a
  parent link and the costs `g`, `h` and `f = g + h`.
- Four searches: breadth-first (BFS), depth-first (DFS), greedy best-first
  and A\* with the Manhattan heuristic.

Every search is a `while` loop over a frontier with a nested `for` loop over
the neighbours of the node it takes out. Each one is modelled the same way,
as a Dafny `method` with those two loops:

- BFS uses a FIFO queue and DFS a LIFO stack, both `seq<Node>`.
- Greedy uses a heap of `(h, node)` entries, modelled as a `seq` from which
  some entry with minimal key is popped. A\* uses a heap of nodes keyed on
  `f`, modelled the same way.
- BFS, DFS and Greedy keep a visited set (`set<Position>`), marked when a
  position is pushed. A\* keeps a map from positions to the lowest cost
  found so far (`map<Position, nat>`).
- Every search counts the nodes it takes out of the frontier.

Proved about every search:

- On success the path runs from the start to the goal through walkable
  four-neighbours and repeats no position.
- The reported depth is the path's length in moves.
- The result is `None` exactly when no path exists.
- When the start is the goal, the result is the one-cell path, with one
  expansion and depth 0.
- BFS and A\* return shortest paths.
- For DFS and Greedy the depth is at least the shortest distance.
- BFS, DFS and Greedy expand at most as many nodes as there are open cells
  plus the start, so at most `rows * cols`.
- Every loop terminates.

The modules are:

- `Wrappers`: `Option`.
- `MazeEngine`: the grid, moves, neighbours, walks and paths.
- `Base`: the node, path reconstruction, the result record, and the facts
  the searches share.
- `Frontier`: the priority-queue pop.
- `Heuristic`: the Manhattan heuristic.
- `Bfs`, `Dfs`, `Greedy`, `AStar`: the four searches.

With no path, every `solve` returns `None` (algorithms/bfs.py:32,
algorithms/dfs.py:28, algorithms/greedy.py:37, algorithms/astar.py:50). The
algorithm labels are the plain strings "BFS", "DFS", "Greedy" and "A*".

## Model

| member | source | states |
|---|---|---|
| MazeEngine.NewMaze | maze_engine.py:2-9 | The maze stores the grid with `rows = len(grid)` and `cols = len(grid[0])`. It needs a non-empty grid, and it is usable by the searches exactly when the grid is rectangular. |
| MazeEngine.IsValidMove | maze_engine.py:11-18 | A valid move is inside the grid; a position outside the grid is simply not a valid move, and there is no error. |
| MazeEngine.WalkableIsValidMove | maze_engine.py:11-18 | A position is a valid move exactly when it is in the set of in-bounds open cells. A position outside the grid is simply not valid, and there is no error. |
| MazeEngine.GetNeighbors | maze_engine.py:20-31 | The loop over the four directions returns the candidates Up, Down, Left, Right that are valid moves, in that order. |
| MazeEngine.KeepValidMembership | maze_engine.py:27-30 | Filtering keeps exactly the candidates that are valid moves, never adds elements, and keeps a duplicate-free list duplicate-free. |
| MazeEngine.StepsAreManhattanOne | maze_engine.py:26-28 | The four candidates are exactly the positions at Manhattan distance 1. |
| MazeEngine.NeighborsCharacterization | maze_engine.py:27-30 | `q` is a neighbour of `p` exactly when `q` is a valid move at Manhattan distance 1 from `p`. |
| MazeEngine.NeighborsShape | maze_engine.py:24-31 | There are at most four neighbours, none repeated, and a cell is never its own neighbour. |
| MazeEngine.NeighborsSymmetric | maze_engine.py:27-29 | If `p` is walkable and `q` is a neighbour of `p`, then `p` is a neighbour of `q`. |
| MazeEngine.WalkStaysInside | maze_engine.py:20-31 | A walk that starts inside a region closed under the neighbour relation stays inside it. |
| MazeEngine.NoPathOut | maze_engine.py:20-31 | No path leads from inside such a region to a position outside it. |
| MazeEngine.CellsCount | maze_engine.py:7-9 | A valid maze has exactly `rows * cols` cells, so no set of cells has more. |
| Base.Node.Less | algorithms/base.py:18-20 | One node comes before another exactly when its total cost `g + h` is smaller. |
| Base.NodeOrder | algorithms/base.py:11-20 | A default node has no parent and zero costs, and `f = g + h`. The heap order is irreflexive and transitive, and two nodes tie exactly when their `f` values are equal, since there is no secondary key. |
| Base.Root | algorithms/base.py:42-44 | Following parent links always ends at a node without a parent. |
| Base.PathToShape | algorithms/base.py:40-45 | The reconstructed path has one entry per node on the chain. It starts at the root's position and ends at the node's own position, and entry `i` is the position of the node `depth - i` links above. |
| Base.ParentPrecedes | algorithms/base.py:42-45 | Entry `i` of the path is the position of the parent of the node whose position is entry `i + 1`. |
| Base.AncestorStep | algorithms/base.py:42-44 | One link above the `k`-th ancestor is the `(k + 1)`-th ancestor. |
| Base.Reversed | algorithms/base.py:45 | Reversal keeps the length and maps entry `i` to entry `len - 1 - i`. |
| Base.ReconstructPath | algorithms/base.py:35-45 | The loop that collects positions up the parent chain and reverses them returns the chain's path from the root to the node. |
| Base.ExtendChain | algorithms/bfs.py:28-30 | A child made for a neighbour of a sound node, at a position not on the node's chain, is itself sound and one link deeper. Its path is the parent's path plus its own position. The same child creation appears at algorithms/dfs.py:26, algorithms/greedy.py:33-35 and algorithms/astar.py:45-47. |
| Base.RootChain | algorithms/bfs.py:12 | The start node has the path `[start]` and depth 0. |
| Base.ExhaustedMeansUnreachable | algorithms/bfs.py:15-32 | When every visited position has been expanded and the goal was not among them, no path leads from the start to the goal. |
| Base.ProgressDecreases | algorithms/bfs.py:15-30 | One loop pass either marks a new open cell visited or leaves the frontier shorter by the popped node. |
| Base.ExpansionBound | algorithms/bfs.py:15-17 | The visited positions number at most the open cells plus the start, and at most `rows * cols` when the start is inside the grid. |
| Frontier.MinimalIndex | algorithms/greedy.py:22 | Some index holds an entry whose key is not above any other entry's key. |
| Frontier.PopMinimal | algorithms/greedy.py:22 | The pop returns an entry whose key is minimal, and the remaining entries are the others, each as often as before. Greedy's loop pops through it on `h` and A\*'s on `f` (algorithms/astar.py:31), so each pop of either search takes an entry with minimal key. |
| Heuristic.GetH | algorithms/greedy.py:7-8 | The Manhattan heuristic is a natural number, and it is 0 exactly at the goal. |
| Heuristic.Consistent | algorithms/astar.py:10-15 | One move changes the heuristic by at most 1 in either direction. |
| Heuristic.Admissible | algorithms/astar.py:10-15 | At any point of a path to the goal, the heuristic is at most the number of moves still to go. |
| Bfs.ReconstructMetrics | algorithms/bfs.py:34-43 | The record is labelled "BFS" and holds the reconstructed path, the expansion count, and depth `len(path) - 1`. |
| Bfs.BelowFrontIsClosed | algorithms/bfs.py:11-17 | Every visited position shallower than the front of the queue has been expanded, with its neighbours visited at most one level deeper. |
| Bfs.ShallowPositionsVisited | algorithms/bfs.py:15-30 | A position that a walk from the start reaches in `j` moves, with `j` below the front's depth, is visited at a level of at most `j`. |
| Bfs.NoShorterPath | algorithms/bfs.py:15-30 | No path reaches the goal in fewer moves than the goal's level. |
| Bfs.FrontIsShortest | algorithms/bfs.py:15-24 | When the node taken from the queue is at the goal, its chain is a shortest path. |
| Bfs.Initially | algorithms/bfs.py:12-13 | The queue holding only the start node, with only the start visited at level 0, satisfies the BFS loop invariant. |
| Bfs.StartEnqueuing | algorithms/bfs.py:16 | After the front is taken, the queue is the rest of the old queue, and nothing has been added yet. |
| Bfs.EnqueueChild | algorithms/bfs.py:28-30 | An unvisited neighbour is marked visited, one level deeper than the current node, and its child node is appended to the queue. |
| Bfs.SkipVisited | algorithms/bfs.py:27-28 | A neighbour that is already visited changes nothing. |
| Bfs.UnvisitedWithin | algorithms/bfs.py:27-28 | The neighbours that get a child are neighbours that were not visited before the loop. |
| Bfs.ChildrenPositions | algorithms/bfs.py:30 | Every child node is `Node(w, parent=current)` for one of the chosen positions `w`, so it has `g == h == 0`. |
| Bfs.NotYetChild | algorithms/bfs.py:27-30 | Since the neighbours are distinct, no child made before neighbour `i` is at neighbour `i`'s position. |
| Bfs.OrderAfterPush | algorithms/bfs.py:28-30 | Appending the child of an unvisited neighbour keeps the added nodes equal to the children of the unvisited neighbours so far, in neighbour order. |
| Bfs.OrderAfterSkip | algorithms/bfs.py:27-28 | Skipping a neighbour that is already visited keeps that equality: the neighbour was visited before the loop, not added during it. |
| Bfs.NeighborsVisited | algorithms/bfs.py:27-30 | After the neighbour loop, the visited set is the old one plus exactly the current node's neighbours. |
| Bfs.AddedRecorded | algorithms/bfs.py:28-30 | Every child enqueued is sound, at an open cell, at its level, and has its whole chain visited. |
| Bfs.FinishBookkeeping | algorithms/bfs.py:27-30 | After the neighbour loop, every queued node is sound and recorded at its depth, and only open cells besides the start are visited. |
| Bfs.FinishClosed | algorithms/bfs.py:27-30 | After the loop, the expanded position is not the goal and all its neighbours are visited at most one level deeper. |
| Bfs.FinishLevels | algorithms/bfs.py:27-30 | After the loop, no visited position is more than one level deeper than the expanded node. |
| Bfs.FinishLayered | algorithms/bfs.py:16-30 | Queue depths still never decrease from front to back and span at most two levels. |
| Bfs.FinishCovered | algorithms/bfs.py:15-30 | Every visited position is expanded or queued. Visiting nothing new leaves the queue at its remainder. |
| Bfs.FinishExpanding | algorithms/bfs.py:15-30 | One loop pass preserves the BFS loop invariant, with the expanded position now closed, and makes progress. |
| Bfs.GoalAtFront | algorithms/bfs.py:20-24 | The dequeued goal node's chain is a shortest path that repeats no position, with depth `len(path) - 1`. When the start is the goal, the path is `[start]`. |
| Bfs.EnqueueNeighbors | algorithms/bfs.py:27-30 | The neighbour loop appends `Node(w, parent=current)`, with `g == h == 0`, for each neighbour `w` not visited before, in neighbour order. The queue grows by as much as the visited set. |
| Bfs.ExploreNeighbors | algorithms/bfs.py:26-30 | Expanding a non-goal node leaves the rest of the queue followed by the children of its unvisited neighbours in neighbour order. The visited set gains exactly its neighbours. The BFS loop invariant holds with the node closed, and the loop makes progress. |
| Bfs.GoalReport | algorithms/bfs.py:20-24 | A goal node at the front of the queue yields a record labelled "BFS" and optimal, whose path is a shortest path repeating no position, with depth `len(path) - 1` and expansions between 1 and the open cells plus the start. |
| Bfs.Solve | algorithms/bfs.py:7-32 | Returns `None` exactly when no path exists. Otherwise it returns a shortest path that repeats no position, labelled optimal, with depth `len(path) - 1` and at least one expansion. Expansions are at most the open cells plus the start, so at most `rows * cols`. When the start is the goal, it returns `[start]` with one expansion and depth 0. |
| Dfs.ReconstructMetrics | algorithms/dfs.py:30-39 | The record is labelled "DFS" and holds the reconstructed path, the expansion count, and depth `len(path) - 1`. |
| Dfs.StartExpanding | algorithms/dfs.py:15 | Popping the top of the stack leaves every visited position expanded, stacked, or being expanded. |
| Dfs.BookkeepingAfterPush | algorithms/dfs.py:24-26 | Pushing a child for an unvisited neighbour, and marking it visited, keeps every stacked node sound with its chain visited. |
| Dfs.PushChild | algorithms/dfs.py:24-26 | The push keeps the state of the neighbour loop, with one more neighbour visited. |
| Dfs.SkipVisited | algorithms/dfs.py:23-24 | A neighbour that is already visited changes nothing. |
| Dfs.FinishExpanding | algorithms/dfs.py:23-26 | After the loop, the expanded position is closed: it is not the goal and all its neighbours are visited. |
| Dfs.GoalOnTop | algorithms/dfs.py:18-21 | The popped goal node's chain is a path from the start that repeats no position, with depth `len(path) - 1`. |
| Dfs.Solve | algorithms/dfs.py:6-28 | Returns `None` exactly when no path exists. Otherwise it returns a path that repeats no position, labelled not optimal, whose depth `len(path) - 1` is at least the shortest distance. Expansions are at least 1 and at most the open cells plus the start, so at most `rows * cols`. When the start is the goal, it returns `[start]` with one expansion and depth 0. |
| Greedy.ReconstructMetrics | algorithms/greedy.py:39-48 | The record is labelled "Greedy" and holds the reconstructed path, the expansion count, and depth `len(path) - 1`. |
| Greedy.TupleOrderIsHeuristicOrder | algorithms/greedy.py:18-22 | On entries as pushed, the tuple order is the order on `h`. Equal keys fall through to the node order, which ties them, since `f == h`. |
| Greedy.StartExpanding | algorithms/greedy.py:22 | After the pop, every visited position is expanded, queued, or being expanded. |
| Greedy.BookkeepingAfterPush | algorithms/greedy.py:31-35 | Pushing `(h, node)` for an unvisited neighbour keeps every entry keyed by its heuristic, with `g == 0`, and its node sound. |
| Greedy.PushChild | algorithms/greedy.py:31-35 | The push keeps the state of the neighbour loop, with one more neighbour visited. |
| Greedy.SkipVisited | algorithms/greedy.py:30-31 | A neighbour that is already visited changes nothing. |
| Greedy.FinishExpanding | algorithms/greedy.py:30-35 | After the loop, the expanded position is closed: it is not the goal and all its neighbours are visited. |
| Greedy.GoalPopped | algorithms/greedy.py:25-28 | The popped goal node's chain is a path from the start that repeats no position, with depth `len(path) - 1`. |
| Greedy.Solve | algorithms/greedy.py:10-37 | Returns `None` exactly when no path exists. Otherwise it returns a path that repeats no position, labelled not optimal, whose depth is at least the shortest distance. Expansions are at most the open cells plus the start, so at most `rows * cols`. When the start is the goal, it returns `[start]` with one expansion and depth 0. |
| AStar.ReconstructMetrics | algorithms/astar.py:52-61 | The record is labelled "A*" and holds the reconstructed path, the expansion count, and depth `len(path) - 1`. |
| AStar.FrontierMeetsPath | algorithms/astar.py:30-48 | Along any path from the start to the goal, either some queued node has `f` at most the path's length, or the `i`-th position is recorded at a cost of at most `i`. |
| AStar.QueueUndercutsEveryPath | algorithms/astar.py:30-31 | For every path to the goal, some queued node has `f` at most that path's length in moves. |
| AStar.GoalPopped | algorithms/astar.py:31-37 | A goal node popped with minimal `f` has a chain that is a shortest path and repeats no position, and its `g` is its depth `len(path) - 1`. |
| AStar.ExhaustedMeansUnreachableCosts | algorithms/astar.py:30-50 | With the open list empty, no path from the start reaches the goal. |
| AStar.StartExpanding | algorithms/astar.py:31 | After the pop, every recorded position is pending, settled, or the popped node's own position at its cost. |
| AStar.NotOnOwnChain | algorithms/astar.py:43-47 | A neighbour that is new, or strictly cheaper through the current node, is not on the current node's chain. |
| AStar.ChildTracked | algorithms/astar.py:41-47 | The child pushed has `g = parent.g + 1` equal to its depth, `h` the heuristic, a sound chain, and chain costs within the updated map. |
| AStar.TrackedRefined | algorithms/astar.py:43-44 | Lowering recorded costs keeps a queued node's chain within the costs. |
| AStar.CoveredAfterPush | algorithms/astar.py:43-48 | After `visited_costs[w] = new_g` and the push, `w` is pending at its new cost and every other position keeps its status. |
| AStar.TrackedAfterPush | algorithms/astar.py:43-48 | After the update, every queued node, old or new, is tracked under the new costs. |
| AStar.RecordNeighbor | algorithms/astar.py:43-44 | The update only adds a key or lowers a cost, and changes the map. The start stays at 0. |
| AStar.PushChild | algorithms/astar.py:39-48 | The relaxation keeps the state of the neighbour loop, with one more neighbour recorded at most one move dearer. |
| AStar.SkipRecorded | algorithms/astar.py:43 | A neighbour already recorded at a cost no greater than `new_g` changes nothing. |
| AStar.FinishExpanding | algorithms/astar.py:39-48 | After the loop, the A\* loop invariant holds again. |
| AStar.RefinementDecreases | algorithms/astar.py:43-44 | A changed cost map either records a new open cell or keeps the same keys and lowers some cost, so the termination measure drops. |
| AStar.Solve | algorithms/astar.py:17-50 | Returns `None` exactly when no path exists. Otherwise it returns a shortest path that repeats no position, labelled optimal, with depth `len(path) - 1` and at least one expansion. When the start is the goal, it returns `[start]` with one expansion and depth 0. |

## Left out

- The wall-clock `execution_time` field and `time.perf_counter()` are not modelled. The result record has the other five fields.
- The heap's exact tie-breaking is not modelled. Which of several entries with an equal minimal key `heapq` pops depends on the heap's layout, so `Frontier.PopMinimal` may return any such entry. Every proved property holds for all of them.
- A\* does not model `heuristic_type`. The constructor stores it and nothing reads it, so the model always uses the Manhattan heuristic, as the code does.
- AStar.Solve: states no upper bound on `expanded_nodes`. A\* has no closed set, so an outdated node can be popped and expanded again. Termination is proved, but a numeric bound on expansions is not.
- AStar.Solve: does not state the bound `g <= rows * cols - 1`. The chains are proved free of repeated positions, and termination is proved with a different measure.
- MazeEngine.NewMaze: takes a non-empty grid as a precondition. The source raises an exception on an empty grid, and the model does not represent exceptions.
- Start and goal are not validated by the source, and the model adds no precondition on them. For a start outside the grid or on a wall, the searches behave as the code does; only the `rows * cols` expansion bound assumes the start is inside the grid.
- Some structure of the source is not modelled:
  - The abstract `SearchAlgorithm` base class and its `solve` declaration are not modelled. Each search is its own module.
  - The algorithm objects hold no mutable state, so they are not classes.
- Bfs.EnqueueNeighbors and Bfs.ExploreNeighbors: are separate methods that hold BFS's neighbour expansion, which the source writes inline in `solve`. The behaviour is unchanged.
- MazeEngine.IsValidMove and every Solve: require a rectangular grid (`Maze.Valid`). The file reader at utils/input_handler.py:13-18 never checks row lengths, and on a ragged grid the source can raise IndexError at maze_engine.py:18. The model does not represent that exception.
- Reading mazes from files, the interactive prompts, plotting, the analyzer and `main.py` are I/O and orchestration. utils/input_handler.py, utils/analyzer.py and main.py are not part of this model.
