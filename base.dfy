/**
 * What the four searches share: the search node with its parent link and
 * costs, the heap order on nodes, path reconstruction from a node, and the
 * result record every search returns.
 */
module Base {
  import opened Wrappers
  import opened MazeEngine

  /**
   * A search node. The parent link is an inductive value, so every chain of
   * parents is finite and ends at a root whose parent is `None`; `f` is
   * computed once, at construction, from `g` and `h`.
   */
  datatype Node = Node(position: Position, parent: Option<Node> := None, g: int := 0, h: int := 0)
  {
    const f: int := g + h

    /** The order the priority queues use: `f` alone, no secondary key. */
    predicate Less(other: Node): (b: bool)
      ensures b <==> g + h < other.g + other.h
    {
      f < other.f
    }
  }

  /**
   * A fresh node has `f == g + h`, and the defaults give a root with zero
   * costs. `Less` is a strict weak order whose ties are exactly equal `f`.
   */
  lemma NodeOrder(p: Position, a: Node, b: Node, c: Node)
    ensures Node(p).parent == None && Node(p).g == 0 && Node(p).h == 0 && Node(p).f == 0
    ensures a.f == a.g + a.h
    ensures !a.Less(a)
    ensures a.Less(b) && b.Less(c) ==> a.Less(c)
    ensures !a.Less(b) && !b.Less(a) <==> a.f == b.f
  {
  }

  /** Number of parent links from `n` to its root. */
  function Depth(n: Node): nat {
    match n.parent
    case None => 0
    case Some(p) => 1 + Depth(p)
  }

  /** The node at the end of the parent chain. */
  function Root(n: Node): (r: Node)
    ensures r.parent == None
  {
    match n.parent
    case None => n
    case Some(p) => Root(p)
  }

  /** The node `k` parent links above `n`. */
  function Ancestor(n: Node, k: nat): Node
    requires k <= Depth(n)
  {
    if k == 0 then n else Ancestor(n.parent.value, k - 1)
  }

  /** The positions of the parent chain of `n`, root first and `n` last. */
  function PathTo(n: Node): seq<Position> {
    match n.parent
    case None => [n.position]
    case Some(p) => PathTo(p) + [n.position]
  }

  /**
   * The reconstructed path runs from the root to `n`, has one entry per
   * node on the chain, and its `i`th entry is the position of the node
   * `Depth(n) - i` links above `n`: the chain read backwards.
   */
  lemma {:induction false} PathToShape(n: Node)
    ensures |PathTo(n)| == Depth(n) + 1
    ensures PathTo(n)[0] == Root(n).position && PathTo(n)[Depth(n)] == n.position
    ensures forall i :: 0 <= i <= Depth(n) ==> PathTo(n)[i] == Ancestor(n, Depth(n) - i).position
  {
    match n.parent
    case None =>
    case Some(p) =>
      PathToShape(p);
      forall i | 0 <= i <= Depth(n)
        ensures PathTo(n)[i] == Ancestor(n, Depth(n) - i).position
      {
        if i < Depth(n) {
          assert PathTo(n)[i] == PathTo(p)[i];
        }
      }
  }

  /**
   * Entry `i` of the path is the position of the parent of the node whose
   * position is entry `i + 1`.
   */
  lemma ParentPrecedes(n: Node, i: nat)
    requires i < Depth(n)
    ensures |PathTo(n)| == Depth(n) + 1
    ensures Ancestor(n, Depth(n) - i - 1).parent == Some(Ancestor(n, Depth(n) - i))
    ensures PathTo(n)[i] == Ancestor(n, Depth(n) - i).position
    ensures PathTo(n)[i + 1] == Ancestor(n, Depth(n) - i - 1).position
  {
    PathToShape(n);
    AncestorStep(n, Depth(n) - i - 1);
  }

  lemma {:induction false} AncestorStep(n: Node, k: nat)
    requires k < Depth(n)
    ensures Ancestor(n, k).parent == Some(Ancestor(n, k + 1))
  {
    if k > 0 {
      AncestorStep(n.parent.value, k - 1);
    }
  }

  function Reversed<T>(s: seq<T>): (r: seq<T>)
    ensures |r| == |s|
    ensures forall i :: 0 <= i < |s| ==> r[i] == s[|s| - 1 - i]
  {
    if s == [] then [] else [s[|s| - 1]] + Reversed(s[..|s| - 1])
  }

  /** `PathTo` of an optional node; empty past the root. */
  function PathToOpt(o: Option<Node>): seq<Position> {
    match o
    case None => []
    case Some(n) => PathTo(n)
  }

  /**
   * Follow the parent links from `node`, collecting positions, then reverse
   * the collected list so that it runs from the root to `node`.
   */
  method ReconstructPath(node: Node) returns (path: seq<Position>)
    ensures path == PathTo(node)
  {
    var collected: seq<Position> := [];
    var current := Some(node);
    while current.Some?
      invariant PathTo(node) == PathToOpt(current) + Reversed(collected)
      decreases current
    {
      var c := current.value;
      assert Reversed(collected + [c.position]) == [c.position] + Reversed(collected);
      collected := collected + [c.position];
      current := c.parent;
    }
    path := Reversed(collected);
  }

  /**
   * The record a search returns on success. The wall-clock time the
   * source also records is not part of the model.
   */
  datatype SearchResult = SearchResult(
    algorithm: string,
    path: seq<Position>,
    expandedNodes: nat,
    solutionDepth: int,
    isOptimal: bool)

  /** The chain of `n` is a path from `start` to `n`'s position that repeats no position. */
  ghost predicate SoundChain(m: Maze, start: Position, n: Node)
    requires m.Valid()
  {
    IsPath(m, PathTo(n), start, n.position) && Distinct(PathTo(n))
  }

  /**
   * A child created for an unvisited neighbour of a sound node is sound, one
   * link deeper, and its path is its parent's path plus its own position.
   */
  lemma ExtendChain(m: Maze, start: Position, cur: Node, child: Node)
    requires m.Valid() && SoundChain(m, start, cur)
    requires child.parent == Some(cur) && child.position in Neighbors(m, cur.position)
    requires child.position !in PathTo(cur)
    ensures SoundChain(m, start, child)
    ensures PathTo(child) == PathTo(cur) + [child.position] && Depth(child) == Depth(cur) + 1
  {
    var p, q := PathTo(cur), PathTo(child);
    assert q == p + [child.position];
    forall i | 0 <= i < |q| - 1
      ensures q[i + 1] in Neighbors(m, q[i])
    {
      if i < |p| - 1 {
        assert q[i] == p[i] && q[i + 1] == p[i + 1];
      }
    }
  }

  /** A root at `start` is sound. */
  lemma RootChain(m: Maze, start: Position, n: Node)
    requires m.Valid() && n.parent == None && n.position == start
    ensures SoundChain(m, start, n) && PathTo(n) == [start] && Depth(n) == 0
  {
  }

  /** Positions held by the nodes of a frontier. */
  ghost function Positions(frontier: seq<Node>): set<Position> {
    set n | n in frontier :: n.position
  }

  /** `n` is sound and its position and whole chain are marked visited. */
  ghost predicate Recorded(m: Maze, start: Position, n: Node, visited: set<Position>)
    requires m.Valid()
  {
    SoundChain(m, start, n) && n.position in visited && forall p :: p in PathTo(n) ==> p in visited
  }

  /**
   * Closed positions (dequeued and expanded) are visited, none is the goal,
   * and all their neighbours are visited.
   */
  ghost predicate ClosedSafe(m: Maze, goal: Position, visited: set<Position>, closed: set<Position>)
    requires m.Valid()
  {
    closed <= visited &&
    forall u :: u in closed ==> u != goal && forall w :: w in Neighbors(m, u) ==> w in visited
  }

  /**
   * Once every visited position is closed, the visited set is a region no
   * path leaves: the goal, which is not in it, is unreachable from the start.
   */
  lemma ExhaustedMeansUnreachable(m: Maze, start: Position, goal: Position, visited: set<Position>)
    requires m.Valid() && start in visited && ClosedSafe(m, goal, visited, visited)
    ensures forall path :: !IsPath(m, path, start, goal)
  {
    forall path
      ensures !IsPath(m, path, start, goal)
    {
      NoPathOut(m, visited, start, goal, path);
    }
  }

  /** Visiting only grows, by walkable positions, and the frontier grows only when it does. */
  ghost predicate Progress<T>(m: Maze, rest: seq<T>, frontier: seq<T>, visited0: set<Position>,
                              visited: set<Position>)
    requires m.Valid()
  {
    visited0 <= visited && visited - visited0 <= Walkable(m) && (visited == visited0 ==> frontier == rest)
  }

  /** One pass of a search loop either visits a new walkable position or shortens the frontier. */
  lemma ProgressDecreases<T>(m: Maze, rest: seq<T>, frontier: seq<T>, visited0: set<Position>,
                             visited: set<Position>)
    requires m.Valid() && Progress(m, rest, frontier, visited0, visited)
    ensures Walkable(m) - visited < Walkable(m) - visited0 || (visited == visited0 && frontier == rest)
  {
    if visited != visited0 {
      assert visited - visited0 != {} by {
        if visited - visited0 == {} {
          forall v | v in visited
            ensures v in visited0
          {
            assert v !in visited - visited0;
          }
        }
      }
      var w :| w in visited - visited0;
      assert w in Walkable(m) - visited0;
    }
  }

  /** Marking a new position visited adds exactly one to the count. */
  lemma MarkOne(visited: set<Position>, p: Position)
    requires p !in visited
    ensures |visited + {p}| == |visited| + 1
  {
  }

  /**
   * The visited positions (start plus walkable cells) bound the expansions;
   * with the start inside the grid they number at most rows * cols.
   */
  lemma ExpansionBound(m: Maze, start: Position, visited: set<Position>)
    requires m.Valid() && visited <= Walkable(m) + {start}
    ensures |visited| <= |Walkable(m) + {start}|
    ensures InBounds(m, start) ==> |visited| <= m.rows * m.cols
  {
    SubsetCount(visited, Walkable(m) + {start});
    if InBounds(m, start) {
      WalkableIsValidMove(m, start);
      assert start in Cells(m);
      CellsCount(m, visited);
    }
  }
}
