/**
 * Breadth-first search: a FIFO queue of nodes, a visited set marked when a
 * position is enqueued, and a count of dequeued nodes. The first dequeued
 * node at the goal is reported as optimal.
 */
module Bfs {
  import opened Wrappers
  import opened MazeEngine
  import opened Base

  /** The success record, labelled "BFS"; the depth is the chain's depth. */
  method ReconstructMetrics(node: Node, expanded: nat, isOptimal: bool) returns (r: SearchResult)
    ensures r == SearchResult("BFS", PathTo(node), expanded, Depth(node), isOptimal)
  {
    var path := ReconstructPath(node);
    PathToShape(node);
    r := SearchResult("BFS", path, expanded, |path| - 1, isOptimal);
  }

  /**
   * What the visited set and the ghost bookkeeping say at the head of the
   * loop: every visited position has a level (the depth of the node enqueued
   * for it), every queued node is sound with its whole chain visited, and a
   * visited position is either closed (dequeued and expanded) or queued.
   */
  ghost predicate Bookkeeping(m: Maze, start: Position, goal: Position, queue: seq<Node>,
                              visited: set<Position>, closed: set<Position>, level: map<Position, nat>)
    requires m.Valid()
  {
    start in visited && level.Keys == visited && level[start] == 0 &&
    visited <= Walkable(m) + {start} &&
    (forall n :: n in queue ==>
      SoundChain(m, start, n) && n.position in visited && level[n.position] == Depth(n) &&
      forall p :: p in PathTo(n) ==> p in visited) &&
    closed <= visited
  }

  /** A closed position is not the goal, and its neighbours are visited at most one level deeper. */
  ghost predicate ClosedNeighborhoods(m: Maze, goal: Position, visited: set<Position>,
                                      closed: set<Position>, level: map<Position, nat>)
    requires m.Valid() && level.Keys == visited && closed <= visited
  {
    forall u :: u in closed ==>
      u != goal && forall w :: w in Neighbors(m, u) ==> w in visited && level[w] <= level[u] + 1
  }

  /** Queue depths never decrease from front to back and span at most two levels. */
  ghost predicate Layered(queue: seq<Node>) {
    forall i, j :: 0 <= i <= j < |queue| ==> Depth(queue[i]) <= Depth(queue[j]) <= Depth(queue[i]) + 1
  }

  ghost predicate Invariant(m: Maze, start: Position, goal: Position, queue: seq<Node>,
                            visited: set<Position>, closed: set<Position>, level: map<Position, nat>)
    requires m.Valid()
  {
    Bookkeeping(m, start, goal, queue, visited, closed, level) &&
    ClosedNeighborhoods(m, goal, visited, closed, level) &&
    visited <= closed + Positions(queue) &&
    Layered(queue) &&
    (queue != [] ==> forall v :: v in visited ==> level[v] <= Depth(queue[0]) + 1)
  }

  /**
   * Every visited position below level `d` has been expanded: it is not the
   * goal and its neighbours are visited at most one level deeper.
   */
  ghost predicate ShallowClosed(m: Maze, start: Position, goal: Position, visited: set<Position>,
                                level: map<Position, nat>, d: nat)
    requires m.Valid()
  {
    start in visited && level.Keys == visited && level[start] == 0 &&
    forall u :: u in visited && level[u] < d ==>
      u != goal && forall w :: w in Neighbors(m, u) ==> w in visited && level[w] <= level[u] + 1
  }

  /** Nothing queued is shallower than the front, so everything below its depth is closed. */
  lemma BelowFrontIsClosed(m: Maze, start: Position, goal: Position, queue: seq<Node>,
                           visited: set<Position>, closed: set<Position>, level: map<Position, nat>)
    requires m.Valid() && Invariant(m, start, goal, queue, visited, closed, level) && queue != []
    ensures ShallowClosed(m, start, goal, visited, level, Depth(queue[0]))
  {
  }

  /**
   * Every position that some walk from the start reaches in `j` moves, with
   * `j` below `d`, is visited at a level of at most `j`.
   */
  lemma {:induction false} ShallowPositionsVisited(m: Maze, start: Position, goal: Position,
                                                   visited: set<Position>, level: map<Position, nat>, d: nat,
                                                   path: seq<Position>, j: nat)
    requires m.Valid() && ShallowClosed(m, start, goal, visited, level, d)
    requires IsWalk(m, path) && 0 < |path| && path[0] == start
    requires j < |path| && j < d
    ensures path[j] in visited && level[path[j]] <= j
  {
    if j > 0 {
      ShallowPositionsVisited(m, start, goal, visited, level, d, path, j - 1);
      assert path[j] in Neighbors(m, path[j - 1]);
    }
  }

  /** No walk from the start reaches the goal in fewer moves than the goal's level. */
  lemma NoShorterPath(m: Maze, start: Position, goal: Position, visited: set<Position>,
                      level: map<Position, nat>, d: nat, path: seq<Position>)
    requires m.Valid() && ShallowClosed(m, start, goal, visited, level, d)
    requires goal in visited && level[goal] == d && IsPath(m, path, start, goal)
    ensures d < |path|
  {
    if |path| - 1 < d {
      ShallowPositionsVisited(m, start, goal, visited, level, d, path, |path| - 1);
    }
  }

  /** When the queue's front sits at the goal, no path to the goal is shorter than its chain. */
  lemma FrontIsShortest(m: Maze, start: Position, goal: Position, queue: seq<Node>,
                        visited: set<Position>, closed: set<Position>, level: map<Position, nat>)
    requires m.Valid() && Invariant(m, start, goal, queue, visited, closed, level)
    requires queue != [] && queue[0].position == goal
    ensures IsShortestPath(m, PathTo(queue[0]), start, goal)
  {
    var front := queue[0];
    assert front in queue;
    assert SoundChain(m, start, front);
    assert level[goal] == Depth(front);
    PathToShape(front);
    BelowFrontIsClosed(m, start, goal, queue, visited, closed, level);
    forall path | IsPath(m, path, start, goal)
      ensures |PathTo(front)| <= |path|
    {
      NoShorterPath(m, start, goal, visited, level, Depth(front), path);
    }
  }

  /** The positions of `s`, in order, that are not in `seen`. */
  function Unvisited(s: seq<Position>, seen: set<Position>): seq<Position> {
    if s == [] then []
    else Unvisited(s[..|s| - 1], seen) + (if s[|s| - 1] in seen then [] else [s[|s| - 1]])
  }

  /** One child of `current` per position, in order, with the default (zero) costs. */
  function ChildrenOf(current: Node, ps: seq<Position>): seq<Node> {
    seq(|ps|, k requires 0 <= k < |ps| => Node(ps[k], parent := Some(current)))
  }

  lemma {:induction false} UnvisitedWithin(s: seq<Position>, seen: set<Position>)
    ensures forall x :: x in Unvisited(s, seen) ==> x in s && x !in seen
  {
    if s != [] {
      UnvisitedWithin(s[..|s| - 1], seen);
    }
  }

  lemma ChildrenPositions(current: Node, ps: seq<Position>)
    ensures forall n :: n in ChildrenOf(current, ps) ==>
      n.position in ps && n == Node(n.position, parent := Some(current))
  {
  }

  /** A neighbour not among the earlier ones has no child yet. */
  lemma NotYetChild(current: Node, neighbors: seq<Position>, seen: set<Position>, i: nat)
    requires Distinct(neighbors) && i < |neighbors|
    ensures forall n :: n in ChildrenOf(current, Unvisited(neighbors[..i], seen)) ==> n.position != neighbors[i]
  {
    UnvisitedWithin(neighbors[..i], seen);
    ChildrenPositions(current, Unvisited(neighbors[..i], seen));
  }

  /**
   * The state while the neighbours of `current` are examined: the queue is
   * `rest` followed by `added`, one child of `current` for each neighbour
   * newly marked visited, recorded one level deeper than `current`; levels
   * of positions visited before are unchanged, and the first `i`
   * neighbours are visited.
   */
  ghost predicate Enqueuing(m: Maze, rest: seq<Node>, added: seq<Node>, queue: seq<Node>,
                            visited0: set<Position>, visited: set<Position>,
                            level0: map<Position, nat>, level: map<Position, nat>,
                            current: Node, neighbors: seq<Position>, i: nat)
    requires m.Valid()
  {
    i <= |neighbors| && neighbors == Neighbors(m, current.position) &&
    queue == rest + added &&
    visited == visited0 + Positions(added) && level.Keys == visited &&
    (forall v :: v in visited0 && v in level0 ==> level[v] == level0[v]) &&
    (forall n :: n in added ==>
      n.parent == Some(current) && n.position in neighbors && n.position !in visited0 &&
      n.position in level && level[n.position] == Depth(current) + 1) &&
    (forall k :: 0 <= k < i ==> neighbors[k] in visited)
  }

  /**
   * The children queued so far are exactly those of the first `i`
   * neighbours not visited before the loop, in neighbour order, each with
   * the default (zero) costs.
   */
  ghost predicate InNeighborOrder(added: seq<Node>, current: Node, neighbors: seq<Position>,
                                  visited0: set<Position>, i: nat)
  {
    i <= |neighbors| && added == ChildrenOf(current, Unvisited(neighbors[..i], visited0))
  }

  lemma StartEnqueuing(m: Maze, start: Position, goal: Position, queue: seq<Node>,
                       visited: set<Position>, closed: set<Position>, level: map<Position, nat>)
    requires m.Valid() && Invariant(m, start, goal, queue, visited, closed, level) && queue != []
    ensures Enqueuing(m, queue[1..], [], queue[1..], visited, visited, level, level,
                      queue[0], Neighbors(m, queue[0].position), 0)
  {
    assert queue[1..] + [] == queue[1..];
    assert Positions([]) == {};
  }

  lemma EnqueueChild(m: Maze, rest: seq<Node>, added: seq<Node>, queue: seq<Node>,
                     visited0: set<Position>, visited: set<Position>,
                     level0: map<Position, nat>, level: map<Position, nat>,
                     current: Node, neighbors: seq<Position>, i: nat)
    requires m.Valid()
    requires Enqueuing(m, rest, added, queue, visited0, visited, level0, level, current, neighbors, i)
    requires i < |neighbors| && neighbors[i] !in visited
    ensures var child := Node(neighbors[i], parent := Some(current));
      Enqueuing(m, rest, added + [child], queue + [child], visited0, visited + {neighbors[i]},
                level0, level[neighbors[i] := Depth(current) + 1], current, neighbors, i + 1)
  {
    var child := Node(neighbors[i], parent := Some(current));
    assert queue + [child] == rest + (added + [child]);
    assert Positions(added + [child]) == Positions(added) + {child.position};
  }

  lemma SkipVisited(m: Maze, rest: seq<Node>, added: seq<Node>, queue: seq<Node>,
                    visited0: set<Position>, visited: set<Position>,
                    level0: map<Position, nat>, level: map<Position, nat>,
                    current: Node, neighbors: seq<Position>, i: nat)
    requires m.Valid()
    requires Enqueuing(m, rest, added, queue, visited0, visited, level0, level, current, neighbors, i)
    requires i < |neighbors| && neighbors[i] in visited
    ensures Enqueuing(m, rest, added, queue, visited0, visited, level0, level, current, neighbors, i + 1)
  {
  }

  /** After the loop the visited set is the old one plus every neighbour of `current`. */
  lemma NeighborsVisited(m: Maze, rest: seq<Node>, added: seq<Node>, queue: seq<Node>,
                         visited0: set<Position>, visited: set<Position>,
                         level0: map<Position, nat>, level: map<Position, nat>,
                         current: Node, neighbors: seq<Position>)
    requires m.Valid()
    requires Enqueuing(m, rest, added, queue, visited0, visited, level0, level, current, neighbors, |neighbors|)
    ensures visited == visited0 + set w | w in Neighbors(m, current.position)
  {
    forall w | w in neighbors
      ensures w in visited
    {
      var k :| 0 <= k < |neighbors| && neighbors[k] == w;
    }
  }

  /** Queuing the child of a neighbour not visited before keeps the children in neighbour order. */
  lemma OrderAfterPush(added: seq<Node>, current: Node, neighbors: seq<Position>,
                       visited0: set<Position>, i: nat)
    requires InNeighborOrder(added, current, neighbors, visited0, i) && i < |neighbors|
    requires neighbors[i] !in visited0
    ensures InNeighborOrder(added + [Node(neighbors[i], parent := Some(current))], current, neighbors, visited0, i + 1)
  {
    assert neighbors[..i + 1][..i] == neighbors[..i];
  }

  /**
   * A neighbour found already visited was visited before the loop, since
   * neighbours are distinct, so the children stay in neighbour order.
   */
  lemma OrderAfterSkip(m: Maze, rest: seq<Node>, added: seq<Node>, queue: seq<Node>,
                       visited0: set<Position>, visited: set<Position>,
                       level0: map<Position, nat>, level: map<Position, nat>,
                       current: Node, neighbors: seq<Position>, i: nat)
    requires m.Valid()
    requires Enqueuing(m, rest, added, queue, visited0, visited, level0, level, current, neighbors, i)
    requires InNeighborOrder(added, current, neighbors, visited0, i)
    requires i < |neighbors| && neighbors[i] in visited
    ensures InNeighborOrder(added, current, neighbors, visited0, i + 1)
  {
    NeighborsShape(m, current.position);
    NotYetChild(current, neighbors, visited0, i);
    assert neighbors[i] in visited0;
    assert neighbors[..i + 1][..i] == neighbors[..i];
  }

  /** A child of `current` at a position not visited before is sound, visited, and at its level. */
  lemma AddedRecorded(m: Maze, start: Position, goal: Position, queue0: seq<Node>, added: seq<Node>,
                      visited0: set<Position>, visited: set<Position>, closed: set<Position>,
                      level0: map<Position, nat>, level: map<Position, nat>, neighbors: seq<Position>, n: Node)
    requires m.Valid() && Invariant(m, start, goal, queue0, visited0, closed, level0) && queue0 != []
    requires Enqueuing(m, queue0[1..], added, queue0[1..] + added, visited0, visited, level0, level,
                       queue0[0], neighbors, |neighbors|)
    requires n in added
    ensures SoundChain(m, start, n) && n.position in visited && level[n.position] == Depth(n)
    ensures (forall p :: p in PathTo(n) ==> p in visited) && n.position in Walkable(m)
  {
    var current := queue0[0];
    assert current in queue0;
    NeighborsCharacterization(m, current.position, n.position);
    WalkableIsValidMove(m, n.position);
    ExtendChain(m, start, current, n);
  }

  /** After the loop over the neighbours the queue and the visited set satisfy the bookkeeping. */
  lemma FinishBookkeeping(m: Maze, start: Position, goal: Position, queue0: seq<Node>, added: seq<Node>,
                          visited0: set<Position>, visited: set<Position>, closed: set<Position>,
                          level0: map<Position, nat>, level: map<Position, nat>, neighbors: seq<Position>)
    requires m.Valid() && Invariant(m, start, goal, queue0, visited0, closed, level0) && queue0 != []
    requires Enqueuing(m, queue0[1..], added, queue0[1..] + added, visited0, visited, level0, level,
                       queue0[0], neighbors, |neighbors|)
    ensures Bookkeeping(m, start, goal, queue0[1..] + added, visited, closed + {queue0[0].position}, level)
  {
    var queue := queue0[1..] + added;
    assert queue0[0] in queue0;
    forall n | n in added
      ensures SoundChain(m, start, n) && n.position in visited && level[n.position] == Depth(n) &&
              (forall p :: p in PathTo(n) ==> p in visited) && n.position in Walkable(m)
    {
      AddedRecorded(m, start, goal, queue0, added, visited0, visited, closed, level0, level, neighbors, n);
    }
    forall n | n in queue
      ensures SoundChain(m, start, n) && n.position in visited && level[n.position] == Depth(n) &&
              (forall p :: p in PathTo(n) ==> p in visited)
    {
      if n !in added {
        assert n in queue0[1..];
        assert n in queue0;
      }
    }
    forall v | v in visited
      ensures v in Walkable(m) + {start}
    {
      if v !in visited0 {
        var n :| n in added && n.position == v;
      }
    }
  }

  /** After the loop the expanded position's neighbours are visited at most one level deeper. */
  lemma FinishClosed(m: Maze, goal: Position, added: seq<Node>,
                     visited0: set<Position>, visited: set<Position>, closed: set<Position>,
                     level0: map<Position, nat>, level: map<Position, nat>, current: Node,
                     neighbors: seq<Position>)
    requires m.Valid() && level0.Keys == visited0 && closed <= visited0
    requires ClosedNeighborhoods(m, goal, visited0, closed, level0)
    requires current.position in visited0 && current.position != goal
    requires level0[current.position] == Depth(current)
    requires forall v :: v in visited0 ==> level0[v] <= Depth(current) + 1
    requires Enqueuing(m, [], added, added, visited0, visited, level0, level, current, neighbors, |neighbors|)
    ensures closed + {current.position} <= visited
    ensures ClosedNeighborhoods(m, goal, visited, closed + {current.position}, level)
  {
    forall w | w in Neighbors(m, current.position)
      ensures w in visited && level[w] <= level[current.position] + 1
    {
      var k :| 0 <= k < |neighbors| && neighbors[k] == w;
    }
  }

  /** After the loop no visited position is more than one level deeper than the expanded node. */
  lemma FinishLevels(m: Maze, start: Position, goal: Position, queue0: seq<Node>, added: seq<Node>,
                     visited0: set<Position>, visited: set<Position>, closed: set<Position>,
                     level0: map<Position, nat>, level: map<Position, nat>, neighbors: seq<Position>)
    requires m.Valid() && Invariant(m, start, goal, queue0, visited0, closed, level0) && queue0 != []
    requires Enqueuing(m, queue0[1..], added, queue0[1..] + added, visited0, visited, level0, level,
                       queue0[0], neighbors, |neighbors|)
    ensures forall v :: v in visited ==> level[v] <= Depth(queue0[0]) + 1
  {
    forall v | v in visited
      ensures level[v] <= Depth(queue0[0]) + 1
    {
      if v !in visited0 {
        var n :| n in added && n.position == v;
      }
    }
  }

  /** After the loop the queue is still sorted by depth, spanning at most two levels. */
  lemma FinishLayered(m: Maze, queue0: seq<Node>, added: seq<Node>, current: Node)
    requires queue0 != [] && Layered(queue0) && current == queue0[0]
    requires forall n :: n in added ==> n.parent == Some(current)
    ensures Layered(queue0[1..] + added)
    ensures forall k :: 0 <= k < |queue0[1..] + added| ==> Depth(current) <= Depth((queue0[1..] + added)[k])
  {
    var rest, queue := queue0[1..], queue0[1..] + added;
    forall k | 0 <= k < |queue|
      ensures Depth(current) <= Depth(queue[k]) <= Depth(current) + 1
    {
      if k < |rest| {
        assert queue[k] == queue0[k + 1];
      } else {
        assert queue[k] in added;
      }
    }
    forall i, j | 0 <= i <= j < |queue|
      ensures Depth(queue[i]) <= Depth(queue[j]) <= Depth(queue[i]) + 1
    {
      if j < |rest| {
        assert queue[i] == queue0[i + 1] && queue[j] == queue0[j + 1];
      } else {
        assert queue[j] in added;
      }
    }
  }

  /**
   * Expanding the front restores the invariant with the front's position
   * closed, and leaves the queue at its remainder when nothing new was
   * visited.
   */
  lemma FinishExpanding(m: Maze, start: Position, goal: Position, queue0: seq<Node>, added: seq<Node>,
                        visited0: set<Position>, visited: set<Position>, closed: set<Position>,
                        level0: map<Position, nat>, level: map<Position, nat>, neighbors: seq<Position>)
    requires m.Valid() && Invariant(m, start, goal, queue0, visited0, closed, level0) && queue0 != []
    requires queue0[0].position != goal
    requires Enqueuing(m, queue0[1..], added, queue0[1..] + added, visited0, visited, level0, level,
                       queue0[0], neighbors, |neighbors|)
    ensures Invariant(m, start, goal, queue0[1..] + added, visited, closed + {queue0[0].position}, level)
    ensures Progress(m, queue0[1..], queue0[1..] + added, visited0, visited)
  {
    var current, queue := queue0[0], queue0[1..] + added;
    FinishBookkeeping(m, start, goal, queue0, added, visited0, visited, closed, level0, level, neighbors);
    assert current in queue0;
    assert Enqueuing(m, [], added, added, visited0, visited, level0, level, current, neighbors, |neighbors|);
    FinishClosed(m, goal, added, visited0, visited, closed, level0, level, current, neighbors);
    FinishLevels(m, start, goal, queue0, added, visited0, visited, closed, level0, level, neighbors);
    FinishLayered(m, queue0, added, current);
    FinishCovered(m, queue0, added, visited0, visited, closed);
    if queue != [] {
      assert Depth(current) <= Depth(queue[0]);
    }
  }

  /** After the loop every visited position is closed or queued, and the loop made progress. */
  lemma FinishCovered(m: Maze, queue0: seq<Node>, added: seq<Node>,
                      visited0: set<Position>, visited: set<Position>, closed: set<Position>)
    requires m.Valid() && queue0 != [] && visited0 <= closed + Positions(queue0)
    requires visited == visited0 + Positions(added) && visited - visited0 <= Walkable(m)
    requires forall n :: n in added ==> n.position !in visited0
    ensures visited <= closed + {queue0[0].position} + Positions(queue0[1..] + added)
    ensures Progress(m, queue0[1..], queue0[1..] + added, visited0, visited)
  {
    var queue := queue0[1..] + added;
    forall v | v in visited
      ensures v in closed + {queue0[0].position} + Positions(queue)
    {
      if v in visited0 && v !in closed && v != queue0[0].position {
        var n :| n in queue0 && n.position == v;
        var k :| 0 <= k < |queue0| && queue0[k] == n;
        assert n == queue[k - 1];
      } else if v !in visited0 {
        var n :| n in added && n.position == v;
        assert n in queue;
      }
    }
    if added != [] {
      assert added[0] in added;
    }
    assert added == [] ==> queue == queue0[1..];
  }

  /**
   * What the search reports when the goal is at the front: its chain is a
   * shortest path with no repeated position, of length `Depth + 1`, and when
   * the start is the goal it is the start alone.
   */
  lemma GoalAtFront(m: Maze, start: Position, goal: Position, queue: seq<Node>,
                    visited: set<Position>, closed: set<Position>, level: map<Position, nat>)
    requires m.Valid() && Invariant(m, start, goal, queue, visited, closed, level)
    requires queue != [] && queue[0].position == goal
    ensures IsShortestPath(m, PathTo(queue[0]), start, goal) && Distinct(PathTo(queue[0]))
    ensures Depth(queue[0]) == |PathTo(queue[0])| - 1
    ensures start == goal ==> PathTo(queue[0]) == [start] && Depth(queue[0]) == 0
  {
    FrontIsShortest(m, start, goal, queue, visited, closed, level);
    assert SoundChain(m, start, queue[0]);
    PathToShape(queue[0]);
    if start == goal {
      assert IsPath(m, [start], start, goal);
    }
  }

  /**
   * The inner loop of BFS.solve: each neighbour of `current` not yet visited
   * is marked visited, recorded one level deeper than `current`, and its
   * child node appended to the queue.
   */
  method EnqueueNeighbors(m: Maze, current: Node, neighbors: seq<Position>, queue0: seq<Node>,
                          visited0: set<Position>, ghost level0: map<Position, nat>)
    returns (queue: seq<Node>, visited: set<Position>, ghost added: seq<Node>, ghost level: map<Position, nat>)
    requires m.Valid()
    requires Enqueuing(m, queue0, [], queue0, visited0, visited0, level0, level0, current, neighbors, 0)
    ensures Enqueuing(m, queue0, added, queue, visited0, visited, level0, level, current, neighbors, |neighbors|)
    ensures |queue| - |queue0| == |visited| - |visited0|
    ensures added == ChildrenOf(current, Unvisited(neighbors, visited0))
  {
    queue, visited, added, level := queue0, visited0, [], level0;
    assert neighbors[..0] == [];
    for i := 0 to |neighbors|
      invariant Enqueuing(m, queue0, added, queue, visited0, visited, level0, level, current, neighbors, i)
      invariant InNeighborOrder(added, current, neighbors, visited0, i)
      invariant |queue| - |queue0| == |visited| - |visited0|
    {
      var neighborPos := neighbors[i];
      if neighborPos !in visited {
        EnqueueChild(m, queue0, added, queue, visited0, visited, level0, level, current, neighbors, i);
        OrderAfterPush(added, current, neighbors, visited0, i);
        MarkOne(visited, neighborPos);
        visited := visited + {neighborPos};
        var child := Node(neighborPos, parent := Some(current));
        queue := queue + [child];
        level := level[neighborPos := Depth(current) + 1];
        added := added + [child];
      } else {
        OrderAfterSkip(m, queue0, added, queue, visited0, visited, level0, level, current, neighbors, i);
        SkipVisited(m, queue0, added, queue, visited0, visited, level0, level, current, neighbors, i);
      }
    }
    assert neighbors[..|neighbors|] == neighbors;
  }

  /** The queue holding the start node alone, with only the start visited at level 0, satisfies the invariant. */
  lemma Initially(m: Maze, start: Position, goal: Position)
    requires m.Valid()
    ensures Invariant(m, start, goal, [Node(start)], {start}, {}, map[start := 0])
  {
    RootChain(m, start, Node(start));
    assert start in Positions([Node(start)]);
  }

  /**
   * What a success record of BFS promises: a shortest path from the start
   * to the goal with no repeated position, labelled optimal, its depth, and
   * an expansion count between 1 and the number of positions that can be
   * visited; when the start is the goal, the one-cell path.
   */
  ghost predicate Reports(m: Maze, start: Position, goal: Position, res: SearchResult)
    requires m.Valid()
  {
    res.algorithm == "BFS" && res.isOptimal &&
    IsShortestPath(m, res.path, start, goal) && Distinct(res.path) &&
    res.solutionDepth == |res.path| - 1 &&
    1 <= res.expandedNodes <= |Walkable(m) + {start}| &&
    (InBounds(m, start) ==> res.expandedNodes <= m.rows * m.cols) &&
    (start == goal ==> res == SearchResult("BFS", [start], 1, 0, true))
  }

  /** The record built for a goal at the front of the queue keeps every promise of a success. */
  lemma GoalReport(m: Maze, start: Position, goal: Position, queue: seq<Node>, visited: set<Position>,
                   closed: set<Position>, level: map<Position, nat>, expanded: nat, res: SearchResult)
    requires m.Valid() && Invariant(m, start, goal, queue, visited, closed, level)
    requires queue != [] && queue[0].position == goal
    requires 1 <= expanded <= |visited| && (start == goal ==> expanded == 1)
    requires res == SearchResult("BFS", PathTo(queue[0]), expanded, Depth(queue[0]), true)
    ensures Reports(m, start, goal, res)
  {
    GoalAtFront(m, start, goal, queue, visited, closed, level);
    ExpansionBound(m, start, visited);
  }

  /**
   * The expansion step of BFS.solve for the dequeued node `current`: the
   * children of its neighbours not yet visited are appended in neighbour
   * order and every neighbour ends up visited. The loop invariant holds
   * again with `current`'s position closed, and the step makes progress.
   */
  method ExploreNeighbors(m: Maze, start: Position, goal: Position, ghost queue0: seq<Node>, current: Node,
                          rest: seq<Node>, visited0: set<Position>, ghost closed: set<Position>,
                          ghost level0: map<Position, nat>)
    returns (queue: seq<Node>, visited: set<Position>, ghost level: map<Position, nat>)
    requires m.Valid() && Invariant(m, start, goal, queue0, visited0, closed, level0)
    requires queue0 != [] && current == queue0[0] && rest == queue0[1..] && current.position != goal
    ensures queue == rest + ChildrenOf(current, Unvisited(Neighbors(m, current.position), visited0))
    ensures visited == visited0 + set w | w in Neighbors(m, current.position)
    ensures Invariant(m, start, goal, queue, visited, closed + {current.position}, level)
    ensures |queue| - |rest| == |visited| - |visited0|
    ensures Walkable(m) - visited < Walkable(m) - visited0 || (visited == visited0 && queue == rest)
  {
    var neighbors := GetNeighbors(m, current.position);
    StartEnqueuing(m, start, goal, queue0, visited0, closed, level0);
    ghost var added;
    queue, visited, added, level := EnqueueNeighbors(m, current, neighbors, rest, visited0, level0);
    FinishExpanding(m, start, goal, queue0, added, visited0, visited, closed, level0, level, neighbors);
    ProgressDecreases(m, rest, queue, visited0, visited);
    NeighborsVisited(m, rest, added, queue, visited0, visited, level0, level, current, neighbors);
  }

  /**
   * BFS.solve. On success the path is a shortest path from the start to the
   * goal that repeats no position, reported as optimal; the result is
   * `None` exactly when no path exists. The number of dequeued nodes is
   * bounded by the number of distinct positions ever enqueued.
   */
  method Solve(m: Maze, start: Position, goal: Position) returns (r: Option<SearchResult>)
    requires m.Valid()
    ensures r.None? <==> forall path :: !IsPath(m, path, start, goal)
    ensures r.Some? ==> r.value.algorithm == "BFS" && r.value.isOptimal
    ensures r.Some? ==> IsShortestPath(m, r.value.path, start, goal) && Distinct(r.value.path)
    ensures r.Some? ==> r.value.solutionDepth == |r.value.path| - 1
    ensures r.Some? ==> 1 <= r.value.expandedNodes <= |Walkable(m) + {start}|
    ensures r.Some? && InBounds(m, start) ==> r.value.expandedNodes <= m.rows * m.cols
    ensures start == goal ==> r == Some(SearchResult("BFS", [start], 1, 0, true))
  {
    var expanded: nat := 0;
    var queue := [Node(start)];
    var visited := {start};
    ghost var closed: set<Position> := {};
    ghost var level: map<Position, nat> := map[start := 0];
    Initially(m, start, goal);

    while queue != []
      invariant Invariant(m, start, goal, queue, visited, closed, level)
      invariant expanded + |queue| == |visited|
      invariant start == goal ==> expanded == 0 && queue == [Node(start)]
      decreases Walkable(m) - visited, |queue|
    {
      ghost var queue0, visited0 := queue, visited;
      var current := queue[0];
      queue := queue[1..];
      expanded := expanded + 1;

      if current.position == goal {
        var metrics := ReconstructMetrics(current, expanded, true);
        GoalReport(m, start, goal, queue0, visited, closed, level, expanded, metrics);
        assert IsPath(m, metrics.path, start, goal);
        r := Some(metrics);
        return;
      }
      assert start != goal;

      queue, visited, level := ExploreNeighbors(m, start, goal, queue0, current, queue, visited, closed, level);
      closed := closed + {current.position};
    }
    r := None;
    assert visited == closed;
    ExhaustedMeansUnreachable(m, start, goal, visited);
  }
}
