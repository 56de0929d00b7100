/**
 * Depth-first search: a LIFO stack of nodes (popped from and pushed onto
 * its end), a visited set marked when a position is pushed, and a count of
 * popped nodes. The first popped node at the goal is reported, labelled as
 * not optimal.
 */
module Dfs {
  import opened Wrappers
  import opened MazeEngine
  import opened Base

  /** The success record, labelled "DFS"; the depth is the chain's depth. */
  method ReconstructMetrics(node: Node, expanded: nat, isOptimal: bool) returns (r: SearchResult)
    ensures r == SearchResult("DFS", PathTo(node), expanded, Depth(node), isOptimal)
  {
    var path := ReconstructPath(node);
    PathToShape(node);
    r := SearchResult("DFS", path, expanded, |path| - 1, isOptimal);
  }

  /** Every stacked node is sound with its whole chain visited, and only walkable cells besides the start are visited. */
  ghost predicate Bookkeeping(m: Maze, start: Position, stack: seq<Node>, visited: set<Position>)
    requires m.Valid()
  {
    start in visited && visited <= Walkable(m) + {start} &&
    forall n :: n in stack ==> Recorded(m, start, n, visited)
  }

  /** A visited position is closed (popped and expanded) or still on the stack. */
  ghost predicate Invariant(m: Maze, start: Position, goal: Position, stack: seq<Node>,
                            visited: set<Position>, closed: set<Position>)
    requires m.Valid()
  {
    Bookkeeping(m, start, stack, visited) &&
    ClosedSafe(m, goal, visited, closed) &&
    visited <= closed + Positions(stack)
  }

  /**
   * The state while the neighbours of `current` (just popped, not the goal)
   * are being examined: the first `i` of them are visited.
   */
  ghost predicate Expanding(m: Maze, start: Position, goal: Position, rest: seq<Node>, stack: seq<Node>,
                            visited0: set<Position>, visited: set<Position>, closed: set<Position>,
                            current: Node, neighbors: seq<Position>, i: nat)
    requires m.Valid()
  {
    i <= |neighbors| && neighbors == Neighbors(m, current.position) &&
    Bookkeeping(m, start, stack, visited) &&
    ClosedSafe(m, goal, visited, closed) &&
    Recorded(m, start, current, visited) && current.position != goal &&
    visited <= closed + {current.position} + Positions(stack) &&
    (forall k :: 0 <= k < i ==> neighbors[k] in visited) &&
    Progress(m, rest, stack, visited0, visited)
  }

  lemma StartExpanding(m: Maze, start: Position, goal: Position, stack: seq<Node>,
                       visited: set<Position>, closed: set<Position>)
    requires m.Valid() && Invariant(m, start, goal, stack, visited, closed)
    requires stack != [] && stack[|stack| - 1].position != goal
    ensures var rest := stack[..|stack| - 1];
      Expanding(m, start, goal, rest, rest, visited, visited, closed,
                stack[|stack| - 1], Neighbors(m, stack[|stack| - 1].position), 0)
  {
    var current, rest := stack[|stack| - 1], stack[..|stack| - 1];
    assert stack == rest + [current];
    forall v | v in visited
      ensures v in closed + {current.position} + Positions(rest)
    {
      if v !in closed && v != current.position {
        var n :| n in stack && n.position == v;
        assert n in rest;
      }
    }
  }

  /** Stacking a child of a recorded node at a fresh walkable position keeps the bookkeeping. */
  lemma BookkeepingAfterPush(m: Maze, start: Position, stack: seq<Node>, visited: set<Position>,
                             current: Node, w: Position)
    requires m.Valid() && Bookkeeping(m, start, stack, visited)
    requires Recorded(m, start, current, visited) && w in Neighbors(m, current.position) && w !in visited
    ensures Bookkeeping(m, start, stack + [Node(w, parent := Some(current))], visited + {w})
  {
    var child := Node(w, parent := Some(current));
    NeighborsCharacterization(m, current.position, w);
    WalkableIsValidMove(m, w);
    ExtendChain(m, start, current, child);
    var stack', visited' := stack + [child], visited + {w};
    forall n | n in stack'
      ensures Recorded(m, start, n, visited')
    {
      if n != child {
        assert n in stack;
      }
    }
  }

  lemma PushChild(m: Maze, start: Position, goal: Position, rest: seq<Node>, stack: seq<Node>,
                  visited0: set<Position>, visited: set<Position>, closed: set<Position>,
                  current: Node, neighbors: seq<Position>, i: nat)
    requires m.Valid()
    requires Expanding(m, start, goal, rest, stack, visited0, visited, closed, current, neighbors, i)
    requires i < |neighbors| && neighbors[i] !in visited
    ensures var child := Node(neighbors[i], parent := Some(current));
      Expanding(m, start, goal, rest, stack + [child], visited0, visited + {neighbors[i]}, closed,
                current, neighbors, i + 1)
  {
    var child := Node(neighbors[i], parent := Some(current));
    BookkeepingAfterPush(m, start, stack, visited, current, neighbors[i]);
    assert child.position in Positions(stack + [child]);
  }

  lemma SkipVisited(m: Maze, start: Position, goal: Position, rest: seq<Node>, stack: seq<Node>,
                    visited0: set<Position>, visited: set<Position>, closed: set<Position>,
                    current: Node, neighbors: seq<Position>, i: nat)
    requires m.Valid()
    requires Expanding(m, start, goal, rest, stack, visited0, visited, closed, current, neighbors, i)
    requires i < |neighbors| && neighbors[i] in visited
    ensures Expanding(m, start, goal, rest, stack, visited0, visited, closed, current, neighbors, i + 1)
  {
  }

  lemma FinishExpanding(m: Maze, start: Position, goal: Position, rest: seq<Node>, stack: seq<Node>,
                        visited0: set<Position>, visited: set<Position>, closed: set<Position>,
                        current: Node, neighbors: seq<Position>)
    requires m.Valid()
    requires Expanding(m, start, goal, rest, stack, visited0, visited, closed, current, neighbors, |neighbors|)
    ensures Invariant(m, start, goal, stack, visited, closed + {current.position})
  {
  }

  /**
   * What the search reports when it pops a node at the goal: its chain is a
   * path from the start that repeats no position, of length `Depth + 1`, and
   * when the start is the goal it is the start alone.
   */
  lemma GoalOnTop(m: Maze, start: Position, goal: Position, stack: seq<Node>,
                  visited: set<Position>, closed: set<Position>)
    requires m.Valid() && Invariant(m, start, goal, stack, visited, closed)
    requires stack != [] && stack[|stack| - 1].position == goal
    ensures IsPath(m, PathTo(stack[|stack| - 1]), start, goal) && Distinct(PathTo(stack[|stack| - 1]))
    ensures Depth(stack[|stack| - 1]) == |PathTo(stack[|stack| - 1])| - 1
    ensures start == goal && stack == [Node(start)] ==>
      PathTo(stack[|stack| - 1]) == [start] && Depth(stack[|stack| - 1]) == 0
  {
    var top := stack[|stack| - 1];
    assert Recorded(m, start, top, visited);
    PathToShape(top);
  }

  /**
   * DFS.solve. On success the path runs from the start to the goal through
   * walkable neighbours and repeats no position, and is reported as not
   * optimal; the result is `None` exactly when no path exists. The number
   * of popped nodes is bounded by the number of distinct positions pushed.
   */
  method Solve(m: Maze, start: Position, goal: Position) returns (r: Option<SearchResult>)
    requires m.Valid()
    ensures r.None? <==> forall path :: !IsPath(m, path, start, goal)
    ensures r.Some? ==> r.value.algorithm == "DFS" && !r.value.isOptimal
    ensures r.Some? ==> IsPath(m, r.value.path, start, goal) && Distinct(r.value.path)
    ensures r.Some? ==> r.value.solutionDepth == |r.value.path| - 1
    ensures r.Some? ==> forall q :: IsShortestPath(m, q, start, goal) ==> |q| - 1 <= r.value.solutionDepth
    ensures r.Some? ==> 1 <= r.value.expandedNodes <= |Walkable(m) + {start}|
    ensures r.Some? && InBounds(m, start) ==> r.value.expandedNodes <= m.rows * m.cols
    ensures start == goal ==> r == Some(SearchResult("DFS", [start], 1, 0, false))
  {
    var expanded: nat := 0;
    var stack := [Node(start)];
    var visited := {start};
    ghost var closed: set<Position> := {};
    RootChain(m, start, Node(start));
    assert start in Positions(stack);

    while stack != []
      invariant Invariant(m, start, goal, stack, visited, closed)
      invariant expanded + |stack| == |visited|
      invariant start == goal ==> expanded == 0 && stack == [Node(start)]
      decreases Walkable(m) - visited, |stack|
    {
      ghost var stack0, visited0 := stack, visited;
      var current := stack[|stack| - 1];
      stack := stack[..|stack| - 1];
      ghost var rest := stack;
      expanded := expanded + 1;

      if current.position == goal {
        GoalOnTop(m, start, goal, stack0, visited, closed);
        assert start == goal ==> current == Node(start) && expanded == 1;
        ExpansionBound(m, start, visited);
        var metrics := ReconstructMetrics(current, expanded, false);
        r := Some(metrics);
        return;
      }
      assert start != goal;

      var neighbors := GetNeighbors(m, current.position);
      StartExpanding(m, start, goal, stack0, visited, closed);
      for i := 0 to |neighbors|
        invariant Expanding(m, start, goal, rest, stack, visited0, visited, closed,
                            current, neighbors, i)
        invariant expanded + |stack| == |visited|
      {
        var neighborPos := neighbors[i];
        if neighborPos !in visited {
          var child := Node(neighborPos, parent := Some(current));
          PushChild(m, start, goal, rest, stack, visited0, visited, closed, current, neighbors, i);
          MarkOne(visited, neighborPos);
          visited := visited + {neighborPos};
          stack := stack + [child];
        } else {
          SkipVisited(m, start, goal, rest, stack, visited0, visited, closed, current, neighbors, i);
        }
      }
      FinishExpanding(m, start, goal, rest, stack, visited0, visited, closed, current, neighbors);
      ProgressDecreases(m, rest, stack, visited0, visited);
      closed := closed + {current.position};
    }
    r := None;
    assert visited == closed;
    ExhaustedMeansUnreachable(m, start, goal, visited);
  }
}
