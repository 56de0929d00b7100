/**
 * A* search: a priority queue of nodes ordered by `f = g + h` with the
 * Manhattan heuristic, and a map from each position to the lowest path
 * cost `g` found for it so far. A neighbour is pushed whenever it is new or
 * reached more cheaply than before; nothing is ever marked closed, so an
 * outdated node for a position may still be popped and expanded. The first
 * popped node at the goal is reported as optimal.
 */
module AStar {
  import opened Wrappers
  import opened MazeEngine
  import opened Base
  import opened Frontier
  import opened Heuristic

  /** The success record, labelled "A*"; the depth is the chain's depth. */
  method ReconstructMetrics(node: Node, expanded: nat, isOptimal: bool) returns (r: SearchResult)
    ensures r == SearchResult("A*", PathTo(node), expanded, Depth(node), isOptimal)
  {
    var path := ReconstructPath(node);
    PathToShape(node);
    r := SearchResult("A*", path, expanded, |path| - 1, isOptimal);
  }

  /** The queue's sort key: the node order compares `f` alone. */
  function F(n: Node): int {
    n.f
  }

  /** `costs` only gains positions and lowers recorded costs relative to `costs0`. */
  ghost predicate Refines(costs0: map<Position, nat>, costs: map<Position, nat>) {
    costs0.Keys <= costs.Keys && forall v :: v in costs0 ==> costs[v] <= costs0[v]
  }

  /** Every position on the chain of `n` is recorded at a cost no larger than its index on the chain. */
  ghost predicate CostsWithin(n: Node, costs: map<Position, nat>) {
    forall i :: 0 <= i < |PathTo(n)| ==> PathTo(n)[i] in costs && costs[PathTo(n)[i]] <= i
  }

  /**
   * A queued node: a sound chain from the start, `g` its length in moves,
   * `h` the heuristic at its position, and no recorded cost on its chain
   * above the chain's own.
   */
  ghost predicate Tracked(m: Maze, start: Position, goal: Position, n: Node, costs: map<Position, nat>)
    requires m.Valid()
  {
    SoundChain(m, start, n) && n.g == Depth(n) && n.h == GetH(n.position, goal) && CostsWithin(n, costs)
  }

  /** A node for `v` at its recorded cost is still queued. */
  ghost predicate Pending(open: seq<Node>, costs: map<Position, nat>, v: Position)
    requires v in costs
  {
    exists n :: n in open && n.position == v && n.g == costs[v]
  }

  /** `v` is not the goal and every neighbour is recorded at most one move dearer. */
  ghost predicate Settled(m: Maze, goal: Position, costs: map<Position, nat>, v: Position)
    requires m.Valid() && v in costs
  {
    v != goal && forall w :: w in Neighbors(m, v) ==> w in costs && costs[w] <= costs[v] + 1
  }

  /**
   * The loop invariant: the start is recorded at cost 0, only walkable cells
   * besides it are recorded, every queued node is tracked, and every
   * recorded position is pending or settled.
   */
  ghost predicate Invariant(m: Maze, start: Position, goal: Position, open: seq<Node>,
                            costs: map<Position, nat>)
    requires m.Valid()
  {
    start in costs && costs[start] == 0 && costs.Keys <= Walkable(m) + {start} &&
    AllTracked(m, start, goal, open, costs) &&
    forall v :: v in costs ==> Pending(open, costs, v) || Settled(m, goal, costs, v)
  }

  ghost predicate AllTracked(m: Maze, start: Position, goal: Position, open: seq<Node>,
                             costs: map<Position, nat>)
    requires m.Valid()
  {
    forall n :: n in open ==> Tracked(m, start, goal, n, costs)
  }

  /**
   * Walking along a path from the start to the goal: either some queued node
   * has `f` at most the path's length in moves, or the `i`th position of the
   * path is recorded at a cost of at most `i`.
   */
  lemma {:induction false} FrontierMeetsPath(m: Maze, start: Position, goal: Position, open: seq<Node>,
                                             costs: map<Position, nat>, path: seq<Position>, i: nat)
    requires m.Valid() && Invariant(m, start, goal, open, costs)
    requires IsPath(m, path, start, goal) && i < |path|
    ensures (exists n :: n in open && n.f <= |path| - 1) || (path[i] in costs && costs[path[i]] <= i)
  {
    if i > 0 {
      FrontierMeetsPath(m, start, goal, open, costs, path, i - 1);
      var v := path[i - 1];
      if v in costs && costs[v] <= i - 1 {
        if Pending(open, costs, v) {
          var n :| n in open && n.position == v && n.g == costs[v];
          Admissible(m, path, i - 1, goal);
          assert n.f <= |path| - 1;
        } else {
          assert path[i] in Neighbors(m, v);
        }
      }
    }
  }

  /** For every path from the start to the goal some queued node has `f` at most its length in moves. */
  lemma QueueUndercutsEveryPath(m: Maze, start: Position, goal: Position, open: seq<Node>,
                                costs: map<Position, nat>, path: seq<Position>)
    requires m.Valid() && Invariant(m, start, goal, open, costs)
    requires IsPath(m, path, start, goal)
    ensures exists n :: n in open && n.f <= |path| - 1
  {
    FrontierMeetsPath(m, start, goal, open, costs, path, |path| - 1);
    if path[|path| - 1] in costs && costs[path[|path| - 1]] <= |path| - 1 {
      if Pending(open, costs, goal) {
        var n :| n in open && n.position == goal && n.g == costs[goal];
        assert n.f <= |path| - 1;
      }
    }
  }

  /**
   * What the search reports when it pops a node at the goal with `f`
   * minimal in the queue: its chain is a shortest path that repeats no
   * position, of length `Depth + 1`, and when the start is the goal it is
   * the start alone.
   */
  lemma GoalPopped(m: Maze, start: Position, goal: Position, open: seq<Node>, x: Node,
                   costs: map<Position, nat>)
    requires m.Valid() && Invariant(m, start, goal, open, costs)
    requires x in open && x.position == goal && forall y :: y in open ==> x.f <= y.f
    ensures IsShortestPath(m, PathTo(x), start, goal) && Distinct(PathTo(x))
    ensures Depth(x) == |PathTo(x)| - 1 && x.g == Depth(x)
    ensures start == goal && open == [Node(start)] ==> PathTo(x) == [start] && Depth(x) == 0
  {
    assert Tracked(m, start, goal, x, costs);
    PathToShape(x);
    forall path | IsPath(m, path, start, goal)
      ensures |PathTo(x)| <= |path|
    {
      QueueUndercutsEveryPath(m, start, goal, open, costs, path);
    }
  }

  /**
   * With the queue empty every recorded position is settled: the recorded
   * positions form a region no path leaves, so the goal is unreachable.
   */
  lemma ExhaustedMeansUnreachableCosts(m: Maze, start: Position, goal: Position, costs: map<Position, nat>)
    requires m.Valid() && Invariant(m, start, goal, [], costs)
    ensures forall path :: !IsPath(m, path, start, goal)
  {
    ExhaustedMeansUnreachable(m, start, goal, costs.Keys);
  }

  /**
   * The state while the neighbours of `x` (just popped, not the goal) are
   * examined: as in the invariant, except that `x`'s own position may be
   * neither pending nor settled yet when `x` carries its recorded cost; the
   * first `i` neighbours are recorded at most one move dearer than `x`.
   */
  ghost predicate Expanding(m: Maze, start: Position, goal: Position, rest: seq<Node>, open: seq<Node>,
                            costs0: map<Position, nat>, costs: map<Position, nat>, x: Node,
                            neighbors: seq<Position>, i: nat)
    requires m.Valid()
  {
    i <= |neighbors| && neighbors == Neighbors(m, x.position) &&
    x.position != goal && Tracked(m, start, goal, x, costs) &&
    x.position in costs0 && x.position in costs && costs[x.position] == costs0[x.position] &&
    start in costs && costs[start] == 0 && costs.Keys <= Walkable(m) + {start} &&
    AllTracked(m, start, goal, open, costs) &&
    CoveredExcept(m, goal, open, costs, x) &&
    NeighborsRecorded(costs, x, neighbors, i) &&
    Refines(costs0, costs) && (costs == costs0 ==> open == rest)
  }

  /** Every recorded position is pending, settled, or `x`'s own position at `x`'s cost. */
  ghost predicate CoveredExcept(m: Maze, goal: Position, open: seq<Node>, costs: map<Position, nat>, x: Node)
    requires m.Valid()
  {
    forall v :: v in costs ==>
      Pending(open, costs, v) || Settled(m, goal, costs, v) || (v == x.position && costs[v] == x.g)
  }

  /** The first `i` neighbours are recorded at most one move dearer than `x`. */
  ghost predicate NeighborsRecorded(costs: map<Position, nat>, x: Node, neighbors: seq<Position>, i: nat) {
    i <= |neighbors| && forall k :: 0 <= k < i ==> neighbors[k] in costs && costs[neighbors[k]] <= x.g + 1
  }

  lemma StartExpanding(m: Maze, start: Position, goal: Position, open: seq<Node>, x: Node, rest: seq<Node>,
                       costs: map<Position, nat>)
    requires m.Valid() && Invariant(m, start, goal, open, costs)
    requires x in open && x.position != goal
    requires forall y :: y in rest ==> y in open
    requires forall y :: y in open && y != x ==> y in rest
    ensures Expanding(m, start, goal, rest, rest, costs, costs, x, Neighbors(m, x.position), 0)
  {
    assert Tracked(m, start, goal, x, costs);
    PathToShape(x);
    assert PathTo(x)[Depth(x)] in costs;
    forall v | v in costs
      ensures Pending(rest, costs, v) || Settled(m, goal, costs, v) || (v == x.position && costs[v] == x.g)
    {
      if !Settled(m, goal, costs, v) {
        var n :| n in open && n.position == v && n.g == costs[v];
        if n != x {
          assert n in rest;
        }
      }
    }
  }

  /** No position on `x`'s chain can be new or reachable more cheaply through `x`. */
  lemma NotOnOwnChain(x: Node, costs: map<Position, nat>, w: Position)
    requires CostsWithin(x, costs) && x.g == Depth(x)
    requires w !in costs || x.g + 1 < costs[w]
    ensures w !in PathTo(x)
  {
    PathToShape(x);
    forall j | 0 <= j < |PathTo(x)|
      ensures PathTo(x)[j] != w
    {
    }
  }

  /** The child pushed for `w` is tracked under the updated costs. */
  lemma ChildTracked(m: Maze, start: Position, goal: Position, x: Node, costs: map<Position, nat>, w: Position)
    requires m.Valid() && Tracked(m, start, goal, x, costs) && w in Neighbors(m, x.position)
    requires w !in costs || x.g + 1 < costs[w]
    ensures Tracked(m, start, goal, Node(w, Some(x), x.g + 1, GetH(w, goal)), costs[w := x.g + 1])
  {
    var child := Node(w, Some(x), x.g + 1, GetH(w, goal));
    var costs' := costs[w := x.g + 1];
    NotOnOwnChain(x, costs, w);
    ExtendChain(m, start, x, child);
    PathToShape(x);
    forall j | 0 <= j < |PathTo(child)|
      ensures PathTo(child)[j] in costs' && costs'[PathTo(child)[j]] <= j
    {
      if j < |PathTo(x)| {
        assert PathTo(child)[j] == PathTo(x)[j];
        assert PathTo(x)[j] != w;
      } else {
        assert PathTo(child)[j] == w;
      }
    }
  }

  /** Lowering costs keeps a node tracked. */
  lemma TrackedRefined(m: Maze, start: Position, goal: Position, n: Node,
                       costs: map<Position, nat>, costs': map<Position, nat>)
    requires m.Valid() && Tracked(m, start, goal, n, costs) && Refines(costs, costs')
    ensures Tracked(m, start, goal, n, costs')
  {
  }

  /**
   * After recording `w` at `x.g + 1` and queuing its node, every recorded
   * position is still pending, settled, or `x`'s own position at `x`'s cost.
   */
  lemma CoveredAfterPush(m: Maze, goal: Position, open: seq<Node>, costs: map<Position, nat>,
                         x: Node, w: Position, child: Node)
    requires m.Valid() && x.g + 1 >= 0 && w != x.position
    requires w !in costs || x.g + 1 < costs[w]
    requires child.position == w && child.g == x.g + 1
    requires CoveredExcept(m, goal, open, costs, x)
    ensures CoveredExcept(m, goal, open + [child], costs[w := x.g + 1], x)
  {
    var costs', open' := costs[w := x.g + 1], open + [child];
    forall v | v in costs'
      ensures Pending(open', costs', v) || Settled(m, goal, costs', v) || (v == x.position && costs'[v] == x.g)
    {
      if v == w {
        assert child in open';
      } else if Pending(open, costs, v) {
        var n :| n in open && n.position == v && n.g == costs[v];
        assert n in open';
      }
    }
  }

  /** After a push every queued node, old or new, is tracked under the updated costs. */
  lemma TrackedAfterPush(m: Maze, start: Position, goal: Position, open: seq<Node>,
                         costs: map<Position, nat>, x: Node, w: Position)
    requires m.Valid() && Tracked(m, start, goal, x, costs) && w in Neighbors(m, x.position)
    requires w !in costs || x.g + 1 < costs[w]
    requires AllTracked(m, start, goal, open, costs)
    ensures x.g + 1 >= 0
    ensures Tracked(m, start, goal, x, costs[w := x.g + 1])
    ensures AllTracked(m, start, goal, open + [Node(w, Some(x), x.g + 1, GetH(w, goal))], costs[w := x.g + 1])
  {
    var costs' := costs[w := x.g + 1];
    var child := Node(w, Some(x), x.g + 1, GetH(w, goal));
    assert Refines(costs, costs');
    ChildTracked(m, start, goal, x, costs, w);
    TrackedRefined(m, start, goal, x, costs, costs');
    forall n | n in open + [child]
      ensures Tracked(m, start, goal, n, costs')
    {
      if n != child {
        assert n in open;
        TrackedRefined(m, start, goal, n, costs, costs');
      }
    }
  }

  /**
   * Recording `w` at `x.g + 1`, below any earlier cost, refines the costs,
   * changes them, records the `i`-th neighbour, and leaves the start and
   * `x`'s own position as they were.
   */
  lemma RecordNeighbor(m: Maze, start: Position, costs0: map<Position, nat>, costs: map<Position, nat>,
                       x: Node, neighbors: seq<Position>, i: nat)
    requires m.Valid() && x.g >= 0 && Refines(costs0, costs) && NeighborsRecorded(costs, x, neighbors, i)
    requires i < |neighbors| && neighbors == Neighbors(m, x.position)
    requires neighbors[i] !in costs || x.g + 1 < costs[neighbors[i]]
    requires start in costs && costs[start] == 0 && costs.Keys <= Walkable(m) + {start}
    ensures var costs' := costs[neighbors[i] := x.g + 1];
      Refines(costs0, costs') && costs' != costs0 && NeighborsRecorded(costs', x, neighbors, i + 1) &&
      start in costs' && costs'[start] == 0 && costs'.Keys <= Walkable(m) + {start} &&
      neighbors[i] != x.position
  {
    var w := neighbors[i];
    var costs' := costs[w := x.g + 1];
    NeighborsCharacterization(m, x.position, w);
    WalkableIsValidMove(m, w);
    NeighborsShape(m, x.position);
    assert w in costs0 ==> costs'[w] < costs0[w];
    assert costs' != costs0 by {
      if w !in costs0 {
        assert w in costs'.Keys - costs0.Keys;
      }
    }
  }

  lemma PushChild(m: Maze, start: Position, goal: Position, rest: seq<Node>, open: seq<Node>,
                  costs0: map<Position, nat>, costs: map<Position, nat>, x: Node,
                  neighbors: seq<Position>, i: nat)
    requires m.Valid()
    requires Expanding(m, start, goal, rest, open, costs0, costs, x, neighbors, i)
    requires i < |neighbors| && (neighbors[i] !in costs || x.g + 1 < costs[neighbors[i]])
    ensures x.g + 1 >= 0
    ensures var w := neighbors[i];
      Expanding(m, start, goal, rest, open + [Node(w, Some(x), x.g + 1, GetH(w, goal))], costs0,
                costs[w := x.g + 1], x, neighbors, i + 1)
  {
    var w := neighbors[i];
    var child := Node(w, Some(x), x.g + 1, GetH(w, goal));
    RecordNeighbor(m, start, costs0, costs, x, neighbors, i);
    TrackedAfterPush(m, start, goal, open, costs, x, w);
    CoveredAfterPush(m, goal, open, costs, x, w, child);
  }

  lemma SkipRecorded(m: Maze, start: Position, goal: Position, rest: seq<Node>, open: seq<Node>,
                     costs0: map<Position, nat>, costs: map<Position, nat>, x: Node,
                     neighbors: seq<Position>, i: nat)
    requires m.Valid()
    requires Expanding(m, start, goal, rest, open, costs0, costs, x, neighbors, i)
    requires i < |neighbors| && neighbors[i] in costs && costs[neighbors[i]] <= x.g + 1
    ensures Expanding(m, start, goal, rest, open, costs0, costs, x, neighbors, i + 1)
  {
  }

  lemma FinishExpanding(m: Maze, start: Position, goal: Position, rest: seq<Node>, open: seq<Node>,
                        costs0: map<Position, nat>, costs: map<Position, nat>, x: Node,
                        neighbors: seq<Position>)
    requires m.Valid()
    requires Expanding(m, start, goal, rest, open, costs0, costs, x, neighbors, |neighbors|)
    ensures Invariant(m, start, goal, open, costs)
  {
  }

  /** One unit of cost per recorded position and per unit of its recorded cost. */
  ghost function CostUnits(costs: map<Position, nat>): set<(Position, nat)> {
    set v, k | v in costs && 0 <= k < costs[v] :: (v, k)
  }

  /**
   * A refinement that changes anything either records a new walkable
   * position or, with the same positions, lowers some cost.
   */
  lemma RefinementDecreases(m: Maze, start: Position, costs0: map<Position, nat>, costs: map<Position, nat>)
    requires m.Valid() && Refines(costs0, costs) && costs != costs0
    requires start in costs0 && costs.Keys <= Walkable(m) + {start}
    ensures Walkable(m) - costs.Keys < Walkable(m) - costs0.Keys ||
            (costs.Keys == costs0.Keys && CostUnits(costs) < CostUnits(costs0))
  {
    if costs.Keys != costs0.Keys {
      assert costs.Keys - costs0.Keys != {} by {
        if costs.Keys - costs0.Keys == {} {
          forall v | v in costs.Keys
            ensures v in costs0.Keys
          {
            assert v !in costs.Keys - costs0.Keys;
          }
        }
      }
      var w :| w in costs.Keys - costs0.Keys;
      assert w in Walkable(m) - costs0.Keys;
    } else {
      var v :| v in costs && costs[v] != costs0[v];
      assert (v, costs[v]) in CostUnits(costs0) - CostUnits(costs);
    }
  }

  /**
   * AStar.solve. Each pop takes a node with the smallest `f` in the queue.
   * On success the path is a shortest path from the start to the goal that
   * repeats no position, reported as optimal; the result is `None` exactly
   * when no path exists.
   */
  method Solve(m: Maze, start: Position, goal: Position) returns (r: Option<SearchResult>)
    requires m.Valid()
    ensures r.None? <==> forall path :: !IsPath(m, path, start, goal)
    ensures r.Some? ==> r.value.algorithm == "A*" && r.value.isOptimal
    ensures r.Some? ==> IsShortestPath(m, r.value.path, start, goal) && Distinct(r.value.path)
    ensures r.Some? ==> r.value.solutionDepth == |r.value.path| - 1 && 1 <= r.value.expandedNodes
    ensures start == goal ==> r == Some(SearchResult("A*", [start], 1, 0, true))
  {
    var expanded: nat := 0;
    var startNode := Node(start, None, g := 0, h := GetH(start, goal));
    var open := [startNode];
    var visitedCosts: map<Position, nat> := map[start := 0];
    RootChain(m, start, startNode);
    assert startNode in open;

    while open != []
      invariant Invariant(m, start, goal, open, visitedCosts)
      invariant start == goal ==> expanded == 0 && open == [Node(start)]
      decreases Walkable(m) - visitedCosts.Keys, CostUnits(visitedCosts), |open|
    {
      ghost var open0, costs0 := open, visitedCosts;
      var current, rest := PopMinimal(open, F);
      open := rest;
      expanded := expanded + 1;

      if current.position == goal {
        GoalPopped(m, start, goal, open0, current, visitedCosts);
        assert start == goal ==> current == Node(start) && expanded == 1;
        var metrics := ReconstructMetrics(current, expanded, true);
        r := Some(metrics);
        return;
      }
      assert start != goal;

      var neighbors := GetNeighbors(m, current.position);
      StartExpanding(m, start, goal, open0, current, rest, visitedCosts);
      for i := 0 to |neighbors|
        invariant Expanding(m, start, goal, rest, open, costs0, visitedCosts, current, neighbors, i)
      {
        var neighborPos := neighbors[i];
        var newG := current.g + 1;
        if neighborPos !in visitedCosts || newG < visitedCosts[neighborPos] {
          PushChild(m, start, goal, rest, open, costs0, visitedCosts, current, neighbors, i);
          visitedCosts := visitedCosts[neighborPos := newG];
          var h := GetH(neighborPos, goal);
          open := open + [Node(neighborPos, Some(current), g := newG, h := h)];
        } else {
          SkipRecorded(m, start, goal, rest, open, costs0, visitedCosts, current, neighbors, i);
        }
      }
      FinishExpanding(m, start, goal, rest, open, costs0, visitedCosts, current, neighbors);
      if visitedCosts != costs0 {
        RefinementDecreases(m, start, costs0, visitedCosts);
      }
    }
    r := None;
    ExhaustedMeansUnreachableCosts(m, start, goal, visitedCosts);
  }
}
