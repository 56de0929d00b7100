/**
 * Greedy best-first search: a priority queue of `(h, node)` entries ordered
 * by the heuristic alone, a visited set marked when a position is pushed,
 * and a count of popped entries. Nodes carry `g == 0`, so `f == h` and
 * the node comparison that breaks ties between equal `h` never prefers one
 * of them. The first popped node at the goal is reported as not optimal.
 */
module Greedy {
  import opened Wrappers
  import opened MazeEngine
  import opened Base
  import opened Frontier
  import opened Heuristic

  type Entry = (int, Node)

  /** The success record, labelled "Greedy"; the depth is the chain's depth. */
  method ReconstructMetrics(node: Node, expanded: nat, isOptimal: bool) returns (r: SearchResult)
    ensures r == SearchResult("Greedy", PathTo(node), expanded, Depth(node), isOptimal)
  {
    var path := ReconstructPath(node);
    PathToShape(node);
    r := SearchResult("Greedy", path, expanded, |path| - 1, isOptimal);
  }

  /** The queue's sort key. */
  function Key(e: Entry): int {
    e.0
  }

  /**
   * An entry as the search pushes it: keyed by the node's heuristic value,
   * which is the Manhattan distance to the goal, with no path cost.
   */
  ghost predicate WellKeyed(goal: Position, e: Entry) {
    e.0 == e.1.h == GetH(e.1.position, goal) && e.1.g == 0
  }

  /**
   * On well-keyed entries the tuple order the heap uses (key first, then
   * the node's `f`) is the order on `h` alone: equal keys are ties.
   */
  lemma TupleOrderIsHeuristicOrder(goal: Position, a: Entry, b: Entry)
    requires WellKeyed(goal, a) && WellKeyed(goal, b)
    ensures a.0 < b.0 <==> a.1.h < b.1.h
    ensures a.0 == b.0 ==> !a.1.Less(b.1) && !b.1.Less(a.1)
    ensures a.1.f == GetH(a.1.position, goal)
  {
  }

  ghost function Positions(open: seq<Entry>): set<Position> {
    set e | e in open :: e.1.position
  }

  /** Every queued entry is well keyed and its node sound with its whole chain visited. */
  ghost predicate Bookkeeping(m: Maze, start: Position, goal: Position, open: seq<Entry>, visited: set<Position>)
    requires m.Valid()
  {
    start in visited && visited <= Walkable(m) + {start} &&
    forall e :: e in open ==> WellKeyed(goal, e) && Recorded(m, start, e.1, visited)
  }

  /** A visited position is closed (popped and expanded) or still queued. */
  ghost predicate Invariant(m: Maze, start: Position, goal: Position, open: seq<Entry>,
                            visited: set<Position>, closed: set<Position>)
    requires m.Valid()
  {
    Bookkeeping(m, start, goal, open, visited) &&
    ClosedSafe(m, goal, visited, closed) &&
    visited <= closed + Positions(open)
  }

  /**
   * The state while the neighbours of `current` (just popped, not the goal)
   * are being examined: the first `i` of them are visited.
   */
  ghost predicate Expanding(m: Maze, start: Position, goal: Position, rest: seq<Entry>, open: seq<Entry>,
                            visited0: set<Position>, visited: set<Position>, closed: set<Position>,
                            current: Node, neighbors: seq<Position>, i: nat)
    requires m.Valid()
  {
    i <= |neighbors| && neighbors == Neighbors(m, current.position) &&
    Bookkeeping(m, start, goal, open, visited) &&
    ClosedSafe(m, goal, visited, closed) &&
    Recorded(m, start, current, visited) && current.position != goal &&
    visited <= closed + {current.position} + Positions(open) &&
    (forall k :: 0 <= k < i ==> neighbors[k] in visited) &&
    Progress(m, rest, open, visited0, visited)
  }

  lemma StartExpanding(m: Maze, start: Position, goal: Position, open: seq<Entry>, x: Entry, rest: seq<Entry>,
                       visited: set<Position>, closed: set<Position>)
    requires m.Valid() && Invariant(m, start, goal, open, visited, closed)
    requires x in open && x.1.position != goal
    requires forall y :: y in rest ==> y in open
    requires forall y :: y in open && y != x ==> y in rest
    ensures Expanding(m, start, goal, rest, rest, visited, visited, closed, x.1,
                      Neighbors(m, x.1.position), 0)
  {
    forall v | v in visited
      ensures v in closed + {x.1.position} + Positions(rest)
    {
      if v !in closed && v != x.1.position {
        var e :| e in open && e.1.position == v;
        assert e in rest;
      }
    }
  }

  /** Queuing a well-keyed child of a recorded node at a fresh walkable position keeps the bookkeeping. */
  lemma BookkeepingAfterPush(m: Maze, start: Position, goal: Position, open: seq<Entry>,
                             visited: set<Position>, current: Node, w: Position)
    requires m.Valid() && Bookkeeping(m, start, goal, open, visited)
    requires Recorded(m, start, current, visited) && w in Neighbors(m, current.position) && w !in visited
    ensures var h := GetH(w, goal);
      Bookkeeping(m, start, goal, open + [(h, Node(w, Some(current), h := h))], visited + {w})
  {
    var h := GetH(w, goal);
    var child := Node(w, Some(current), h := h);
    NeighborsCharacterization(m, current.position, w);
    WalkableIsValidMove(m, w);
    ExtendChain(m, start, current, child);
    var open', visited' := open + [(h, child)], visited + {w};
    forall e | e in open'
      ensures WellKeyed(goal, e) && Recorded(m, start, e.1, visited')
    {
      if e != (h, child) {
        assert e in open;
      }
    }
  }

  lemma PushChild(m: Maze, start: Position, goal: Position, rest: seq<Entry>, open: seq<Entry>,
                  visited0: set<Position>, visited: set<Position>, closed: set<Position>,
                  current: Node, neighbors: seq<Position>, i: nat)
    requires m.Valid()
    requires Expanding(m, start, goal, rest, open, visited0, visited, closed, current, neighbors, i)
    requires i < |neighbors| && neighbors[i] !in visited
    ensures var h := GetH(neighbors[i], goal);
      Expanding(m, start, goal, rest, open + [(h, Node(neighbors[i], Some(current), h := h))], visited0,
                visited + {neighbors[i]}, closed, current, neighbors, i + 1)
  {
    var w := neighbors[i];
    var h := GetH(w, goal);
    BookkeepingAfterPush(m, start, goal, open, visited, current, w);
    assert (h, Node(w, Some(current), h := h)).1.position in Positions(open + [(h, Node(w, Some(current), h := h))]);
  }

  lemma SkipVisited(m: Maze, start: Position, goal: Position, rest: seq<Entry>, open: seq<Entry>,
                    visited0: set<Position>, visited: set<Position>, closed: set<Position>,
                    current: Node, neighbors: seq<Position>, i: nat)
    requires m.Valid()
    requires Expanding(m, start, goal, rest, open, visited0, visited, closed, current, neighbors, i)
    requires i < |neighbors| && neighbors[i] in visited
    ensures Expanding(m, start, goal, rest, open, visited0, visited, closed, current, neighbors, i + 1)
  {
  }

  lemma FinishExpanding(m: Maze, start: Position, goal: Position, rest: seq<Entry>, open: seq<Entry>,
                        visited0: set<Position>, visited: set<Position>, closed: set<Position>,
                        current: Node, neighbors: seq<Position>)
    requires m.Valid()
    requires Expanding(m, start, goal, rest, open, visited0, visited, closed, current, neighbors, |neighbors|)
    ensures Invariant(m, start, goal, open, visited, closed + {current.position})
  {
  }

  /**
   * What the search reports when it pops an entry at the goal: its chain is
   * a path from the start that repeats no position, of length `Depth + 1`,
   * and when the start is the goal it is the start alone.
   */
  lemma GoalPopped(m: Maze, start: Position, goal: Position, open: seq<Entry>, x: Entry,
                   visited: set<Position>, closed: set<Position>)
    requires m.Valid() && Invariant(m, start, goal, open, visited, closed)
    requires x in open && x.1.position == goal
    ensures IsPath(m, PathTo(x.1), start, goal) && Distinct(PathTo(x.1))
    ensures Depth(x.1) == |PathTo(x.1)| - 1
    ensures start == goal && open == [(0, Node(start))] ==> PathTo(x.1) == [start] && Depth(x.1) == 0
  {
    assert Recorded(m, start, x.1, visited);
    PathToShape(x.1);
  }

  /**
   * Greedy.solve. Each pop takes an entry with the smallest heuristic value
   * in the queue. On success the path runs from the start to the goal
   * through walkable neighbours and repeats no position, and is reported as
   * not optimal; the result is `None` exactly when no path exists. The
   * number of popped entries is bounded by the number of positions pushed.
   */
  method Solve(m: Maze, start: Position, goal: Position) returns (r: Option<SearchResult>)
    requires m.Valid()
    ensures r.None? <==> forall path :: !IsPath(m, path, start, goal)
    ensures r.Some? ==> r.value.algorithm == "Greedy" && !r.value.isOptimal
    ensures r.Some? ==> IsPath(m, r.value.path, start, goal) && Distinct(r.value.path)
    ensures r.Some? ==> r.value.solutionDepth == |r.value.path| - 1
    ensures r.Some? ==> forall q :: IsShortestPath(m, q, start, goal) ==> |q| - 1 <= r.value.solutionDepth
    ensures r.Some? ==> 1 <= r.value.expandedNodes <= |Walkable(m) + {start}|
    ensures r.Some? && InBounds(m, start) ==> r.value.expandedNodes <= m.rows * m.cols
    ensures start == goal ==> r == Some(SearchResult("Greedy", [start], 1, 0, false))
  {
    var expanded: nat := 0;
    var hStart := GetH(start, goal);
    var open: seq<Entry> := [(hStart, Node(start, h := hStart))];
    var visited := {start};
    ghost var closed: set<Position> := {};
    RootChain(m, start, Node(start, h := hStart));
    assert Node(start, h := hStart).position in Positions(open);

    while open != []
      invariant Invariant(m, start, goal, open, visited, closed)
      invariant expanded + |open| == |visited|
      invariant start == goal ==> expanded == 0 && open == [(0, Node(start))]
      decreases Walkable(m) - visited, |open|
    {
      ghost var open0, visited0 := open, visited;
      var x, rest := PopMinimal(open, Key);
      var current := x.1;
      open := rest;
      expanded := expanded + 1;

      if current.position == goal {
        GoalPopped(m, start, goal, open0, x, visited, closed);
        assert start == goal ==> x == (0, Node(start)) && expanded == 1;
        ExpansionBound(m, start, visited);
        var metrics := ReconstructMetrics(current, expanded, false);
        r := Some(metrics);
        return;
      }
      assert start != goal;

      var neighbors := GetNeighbors(m, current.position);
      StartExpanding(m, start, goal, open0, x, rest, visited, closed);
      for i := 0 to |neighbors|
        invariant Expanding(m, start, goal, rest, open, visited0, visited, closed, current, neighbors, i)
        invariant expanded + |open| == |visited|
      {
        var neighborPos := neighbors[i];
        if neighborPos !in visited {
          PushChild(m, start, goal, rest, open, visited0, visited, closed, current, neighbors, i);
          MarkOne(visited, neighborPos);
          visited := visited + {neighborPos};
          var h := GetH(neighborPos, goal);
          open := open + [(h, Node(neighborPos, Some(current), h := h))];
        } else {
          SkipVisited(m, start, goal, rest, open, visited0, visited, closed, current, neighbors, i);
        }
      }
      FinishExpanding(m, start, goal, rest, open, visited0, visited, closed, current, neighbors);
      ProgressDecreases(m, rest, open, visited0, visited);
      closed := closed + {current.position};
    }
    r := None;
    assert visited == closed;
    ExhaustedMeansUnreachable(m, start, goal, visited);
  }
}
