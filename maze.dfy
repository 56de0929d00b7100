/**
 * The grid adjacency model: a rectangular grid of cells, where a cell holding
 * 0 is open and any other value is a wall, with the four-neighbour relation
 * the searches walk on, and the notions of walk, path and shortest path.
 */
module MazeEngine {

  /** A (row, column) pair; positions outside the grid are legal values. */
  type Position = (int, int)

  datatype Maze = Maze(grid: seq<seq<int>>, rows: int, cols: int)
  {
    /** Non-empty, rectangular, with `rows` and `cols` the grid's dimensions. */
    predicate Valid() {
      rows == |grid| && 0 < rows && cols == |grid[0]| &&
      forall x :: 0 <= x < rows ==> |grid[x]| == cols
    }
  }

  /** Every row as long as the first one. */
  predicate Rectangular(grid: seq<seq<int>>)
    requires 0 < |grid|
  {
    forall x :: 0 <= x < |grid| ==> |grid[x]| == |grid[0]|
  }

  /**
   * The constructor records the grid and caches its dimensions; reading
   * `grid[0]` fails on an empty grid, hence the precondition. The maze is
   * usable by the searches exactly when the grid is rectangular.
   */
  function NewMaze(grid: seq<seq<int>>): (m: Maze)
    requires 0 < |grid|
    ensures m.grid == grid && m.rows == |grid| && m.cols == |grid[0]|
    ensures m.Valid() <==> Rectangular(grid)
  {
    Maze(grid, |grid|, |grid[0]|)
  }

  predicate InBounds(m: Maze, p: Position) {
    0 <= p.0 < m.rows && 0 <= p.1 < m.cols
  }

  /** Inside the grid and on an open cell; outside the grid is simply false. */
  predicate IsValidMove(m: Maze, p: Position): (b: bool)
    requires m.Valid()
    ensures b ==> InBounds(m, p)
  {
    0 <= p.0 < m.rows && 0 <= p.1 < m.cols && m.grid[p.0][p.1] == 0
  }

  /** All cells of the grid. */
  ghost function Cells(m: Maze): set<Position> {
    set x, y | 0 <= x < m.rows && 0 <= y < m.cols :: (x, y)
  }

  /** All open cells of the grid, as an independent set description. */
  ghost function Walkable(m: Maze): set<Position>
    requires m.Valid()
  {
    set x, y | 0 <= x < m.rows && 0 <= y < m.cols && m.grid[x][y] == 0 :: (x, y)
  }

  lemma WalkableIsValidMove(m: Maze, p: Position)
    requires m.Valid()
    ensures p in Walkable(m) <==> IsValidMove(m, p)
    ensures Walkable(m) <= Cells(m)
  {
    if IsValidMove(m, p) {
      var (x, y) := p;
      assert (x, y) in Walkable(m);
    }
  }

  function Abs(x: int): nat {
    if x < 0 then -x else x
  }

  function Manhattan(p: Position, q: Position): nat {
    Abs(p.0 - q.0) + Abs(p.1 - q.1)
  }

  /** The four candidate cells in the fixed order Up, Down, Left, Right. */
  function Steps(p: Position): seq<Position> {
    [(p.0 - 1, p.1), (p.0 + 1, p.1), (p.0, p.1 - 1), (p.0, p.1 + 1)]
  }

  /** The elements of `s` that are valid moves, in their order in `s`. */
  function KeepValid(m: Maze, s: seq<Position>): seq<Position>
    requires m.Valid()
  {
    if s == [] then []
    else KeepValid(m, s[..|s| - 1]) + (if IsValidMove(m, s[|s| - 1]) then [s[|s| - 1]] else [])
  }

  /** The walkable four-neighbours of `p`, in the order Up, Down, Left, Right. */
  function Neighbors(m: Maze, p: Position): seq<Position>
    requires m.Valid()
  {
    KeepValid(m, Steps(p))
  }

  /** The loop over the four directions, appending each valid move. */
  method GetNeighbors(m: Maze, p: Position) returns (neighbors: seq<Position>)
    requires m.Valid()
    ensures neighbors == Neighbors(m, p)
  {
    var (x, y) := p;
    var directions := [(-1, 0), (1, 0), (0, -1), (0, 1)];
    neighbors := [];
    for i := 0 to |directions|
      invariant neighbors == KeepValid(m, Steps(p)[..i])
    {
      var (dx, dy) := directions[i];
      var newPos := (x + dx, y + dy);
      assert Steps(p)[..i + 1][..i] == Steps(p)[..i];
      assert Steps(p)[..i + 1][i] == newPos;
      if IsValidMove(m, newPos) {
        neighbors := neighbors + [newPos];
      }
    }
    assert Steps(p)[..4] == Steps(p);
  }

  lemma {:induction false} KeepValidMembership(m: Maze, s: seq<Position>, q: Position)
    requires m.Valid()
    ensures q in KeepValid(m, s) <==> q in s && IsValidMove(m, q)
    ensures |KeepValid(m, s)| <= |s|
    ensures Distinct(s) ==> Distinct(KeepValid(m, s))
  {
    if s != [] {
      var init := s[..|s| - 1];
      assert s == init + [s[|s| - 1]];
      KeepValidMembership(m, init, q);
      KeepValidMembership(m, init, s[|s| - 1]);
    }
  }

  lemma StepsAreManhattanOne(p: Position, q: Position)
    ensures q in Steps(p) <==> Manhattan(p, q) == 1
  {
  }

  /**
   * The neighbour relation, characterised without the direction list: the
   * valid moves at Manhattan distance exactly 1.
   */
  lemma NeighborsCharacterization(m: Maze, p: Position, q: Position)
    requires m.Valid()
    ensures q in Neighbors(m, p) <==> IsValidMove(m, q) && Manhattan(p, q) == 1
  {
    KeepValidMembership(m, Steps(p), q);
    StepsAreManhattanOne(p, q);
  }

  /** At most four neighbours, none repeated, and never the cell itself. */
  lemma NeighborsShape(m: Maze, p: Position)
    requires m.Valid()
    ensures |Neighbors(m, p)| <= 4 && Distinct(Neighbors(m, p))
    ensures p !in Neighbors(m, p)
  {
    KeepValidMembership(m, Steps(p), p);
  }

  /** Adjacency is symmetric between walkable cells. */
  lemma NeighborsSymmetric(m: Maze, p: Position, q: Position)
    requires m.Valid() && IsValidMove(m, p) && q in Neighbors(m, p)
    ensures p in Neighbors(m, q)
  {
    NeighborsCharacterization(m, p, q);
    NeighborsCharacterization(m, q, p);
  }

  predicate Distinct<T(==)>(s: seq<T>) {
    forall i, j :: 0 <= i < j < |s| ==> s[i] != s[j]
  }

  /** Each step of `path` moves to a neighbour of the previous position. */
  ghost predicate IsWalk(m: Maze, path: seq<Position>)
    requires m.Valid()
  {
    forall i :: 0 <= i < |path| - 1 ==> path[i + 1] in Neighbors(m, path[i])
  }

  /** A walk from `s` to `t`; its length in moves is `|path| - 1`. */
  ghost predicate IsPath(m: Maze, path: seq<Position>, s: Position, t: Position)
    requires m.Valid()
  {
    0 < |path| && path[0] == s && path[|path| - 1] == t && IsWalk(m, path)
  }

  /** A path from `s` to `t` that no other path from `s` to `t` is shorter than. */
  ghost predicate IsShortestPath(m: Maze, path: seq<Position>, s: Position, t: Position)
    requires m.Valid()
  {
    IsPath(m, path, s, t) && forall q :: IsPath(m, q, s, t) ==> |path| <= |q|
  }

  /** A set of positions that every neighbour of a member belongs to. */
  ghost predicate ClosedUnderNeighbors(m: Maze, region: set<Position>)
    requires m.Valid()
  {
    forall v, w :: v in region && w in Neighbors(m, v) ==> w in region
  }

  lemma {:induction false} WalkStaysInside(m: Maze, region: set<Position>, path: seq<Position>, i: nat)
    requires m.Valid() && ClosedUnderNeighbors(m, region) && IsWalk(m, path)
    requires 0 < |path| && path[0] in region && i < |path|
    ensures path[i] in region
  {
    if i > 0 {
      WalkStaysInside(m, region, path, i - 1);
    }
  }

  /**
   * No path leaves a region closed under the neighbour relation: when the
   * start is inside and the goal outside, the goal is unreachable.
   */
  lemma NoPathOut(m: Maze, region: set<Position>, s: Position, t: Position, path: seq<Position>)
    requires m.Valid() && ClosedUnderNeighbors(m, region)
    requires s in region && t !in region
    ensures !IsPath(m, path, s, t)
  {
    if IsPath(m, path, s, t) {
      WalkStaysInside(m, region, path, |path| - 1);
    }
  }

  ghost function RowCells(x: int, cols: int): set<Position> {
    set y | 0 <= y < cols :: (x, y)
  }

  ghost function RectCells(rows: int, cols: int): set<Position> {
    set x, y | 0 <= x < rows && 0 <= y < cols :: (x, y)
  }

  lemma {:induction false} RowCellsCount(x: int, cols: nat)
    ensures |RowCells(x, cols)| == cols
  {
    if cols > 0 {
      RowCellsCount(x, cols - 1);
      assert RowCells(x, cols) == RowCells(x, cols - 1) + {(x, cols - 1)};
    }
  }

  lemma RectCellsSplit(rows: nat, cols: nat)
    requires 0 < rows
    ensures RectCells(rows, cols) == RectCells(rows - 1, cols) + RowCells(rows - 1, cols)
    ensures RectCells(rows - 1, cols) * RowCells(rows - 1, cols) == {}
  {
    forall p | p in RectCells(rows, cols)
      ensures p in RectCells(rows - 1, cols) + RowCells(rows - 1, cols)
    {
      if p.0 < rows - 1 {
        assert p in RectCells(rows - 1, cols);
      } else {
        assert p in RowCells(rows - 1, cols);
      }
    }
  }

  lemma {:induction false} RectCellsCount(rows: nat, cols: nat)
    ensures |RectCells(rows, cols)| == rows * cols
  {
    if rows > 0 {
      RectCellsCount(rows - 1, cols);
      RowCellsCount(rows - 1, cols);
      RectCellsSplit(rows, cols);
      assert (rows - 1) * cols + cols == rows * cols;
    }
  }

  lemma SubsetCount<T>(a: set<T>, b: set<T>)
    requires a <= b
    ensures |a| <= |b|
  {
    assert b == a + (b - a);
    assert a * (b - a) == {};
  }

  /**
   * A valid maze has exactly rows * cols cells, so no set of positions
   * inside it (in particular its walkable cells) has more.
   */
  lemma CellsCount(m: Maze, s: set<Position>)
    requires m.Valid() && s <= Cells(m)
    ensures |Cells(m)| == m.rows * m.cols && |s| <= m.rows * m.cols
  {
    RectCellsCount(m.rows, m.cols);
    assert Cells(m) == RectCells(m.rows, m.cols);
    SubsetCount(s, Cells(m));
  }
}
