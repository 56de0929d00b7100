/**
 * The Manhattan-distance heuristic that Greedy and A* both compute (each
 * class carries its own identical copy). It is zero exactly at the goal,
 * never overestimates the number of moves left, and changes by at most one
 * per move, which is what makes A*'s first goal expansion optimal.
 */
module Heuristic {
  import opened MazeEngine

  /** |row difference| + |column difference|, for any two positions. */
  function GetH(pos: Position, goal: Position): (h: nat)
    ensures h == 0 <==> pos == goal
  {
    Abs(pos.0 - goal.0) + Abs(pos.1 - goal.1)
  }

  /** One move changes the heuristic by at most one, in either direction. */
  lemma Consistent(m: Maze, p: Position, q: Position, goal: Position)
    requires m.Valid() && q in Neighbors(m, p)
    ensures GetH(p, goal) <= 1 + GetH(q, goal)
    ensures GetH(q, goal) <= 1 + GetH(p, goal)
  {
    NeighborsCharacterization(m, p, q);
  }

  /**
   * No path from `p` to the goal has fewer moves than the heuristic at `p`;
   * more generally, at entry `i` of a path ending at the goal, the
   * heuristic is at most the number of moves still to go.
   */
  lemma {:induction false} Admissible(m: Maze, path: seq<Position>, i: nat, goal: Position)
    requires m.Valid() && IsWalk(m, path) && i < |path| && path[|path| - 1] == goal
    ensures GetH(path[i], goal) <= |path| - 1 - i
    decreases |path| - i
  {
    if i < |path| - 1 {
      Admissible(m, path, i + 1, goal);
      Consistent(m, path[i], path[i + 1], goal);
    }
  }
}
