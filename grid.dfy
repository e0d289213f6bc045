/**
 * The grid the search runs on: coordinates, the four moves, the passability
 * test, Manhattan distance, and walks (the paths a search could return).
 */
module Grid {

  /** A cell (x, y): x indexes the first dimension of the grid, y the second. */
  type Coord = (int, int)

  /** The four moves, in the order in which the search tries them. */
  const Directions: seq<Coord> := [(0, 1), (1, 0), (0, -1), (-1, 0)]

  /** The cell reached from `c` by the move `d`. */
  function Step(c: Coord, d: Coord): Coord {
    (c.0 + d.0, c.1 + d.1)
  }

  /** `b` is one of the four moves away from `a`. */
  predicate Adjacent(a: Coord, b: Coord) {
    (b.0 - a.0, b.1 - a.1) in Directions
  }

  /** The move that leads from `a` to an adjacent `b`, by its position in `Directions`. */
  lemma AdjacentDirection(a: Coord, b: Coord) returns (j: nat)
    requires Adjacent(a, b)
    ensures j < |Directions| && Step(a, Directions[j]) == b
  {
    var d := (b.0 - a.0, b.1 - a.1);
    if d == (0, 1) {
      j := 0;
    } else if d == (1, 0) {
      j := 1;
    } else if d == (0, -1) {
      j := 2;
    } else {
      j := 3;
    }
  }

  /** A cell the search may step onto: inside the grid and holding 0. */
  predicate IsValid(grid: array2<int>, x: int, y: int)
    reads grid
  {
    x >= 0 && y >= 0 && x < grid.Length0 && y < grid.Length1 && grid[x, y] == 0
  }

  function Abs(n: int): nat {
    if n < 0 then -n else n
  }

  /** |a.x - b.x| + |a.y - b.y|: the heuristic H of the search. */
  function Manhattan(a: Coord, b: Coord): nat {
    Abs(a.0 - b.0) + Abs(a.1 - b.1)
  }

  /** The passable cells of the grid, enumerated by index. */
  ghost function ValidCells(grid: array2<int>): set<Coord>
    reads grid
  {
    set x, y | 0 <= x < grid.Length0 && 0 <= y < grid.Length1 && grid[x, y] == 0 :: (x, y)
  }

  /** Every cell a search from `start` can ever hold: the start and the passable cells. */
  ghost function Cells(grid: array2<int>, start: Coord): set<Coord>
    reads grid
  {
    ValidCells(grid) + {start}
  }

  lemma ValidCellsExact(grid: array2<int>, c: Coord)
    ensures c in ValidCells(grid) <==> IsValid(grid, c.0, c.1)
  {
  }

  /**
   * A walk: a sequence of cells, each one move from the one before, where
   * every cell after the first is passable (the first is where the search
   * starts, which it never tests).
   */
  ghost predicate IsWalk(grid: array2<int>, w: seq<Coord>)
    reads grid
  {
    && |w| >= 1
    && (forall i :: 1 <= i < |w| ==> IsValid(grid, w[i].0, w[i].1))
    && (forall i :: 0 <= i < |w| - 1 ==> Adjacent(w[i], w[i + 1]))
  }

  ghost predicate WalkTo(grid: array2<int>, from: Coord, to: Coord, w: seq<Coord>)
    reads grid
  {
    IsWalk(grid, w) && w[0] == from && w[|w| - 1] == to
  }

  ghost predicate Reachable(grid: array2<int>, from: Coord, to: Coord)
    reads grid
  {
    exists w :: WalkTo(grid, from, to, w)
  }

  lemma ManhattanTriangle(a: Coord, b: Coord, c: Coord)
    ensures Manhattan(a, c) <= Manhattan(a, b) + Manhattan(b, c)
  {
  }

  lemma ManhattanSymmetric(a: Coord, b: Coord)
    ensures Manhattan(a, b) == Manhattan(b, a)
  {
  }

  /** Each move changes the Manhattan distance to a fixed cell by exactly one. */
  lemma AdjacentManhattan(a: Coord, b: Coord, goal: Coord)
    requires Adjacent(a, b)
    ensures Manhattan(a, b) == 1
    ensures Manhattan(a, goal) <= Manhattan(b, goal) + 1
    ensures Manhattan(b, goal) <= Manhattan(a, goal) + 1
  {
  }

  /**
   * Manhattan distance never overestimates the number of moves: the
   * heuristic is admissible (and, with the previous lemma, consistent).
   */
  lemma {:induction false} WalkManhattan(grid: array2<int>, w: seq<Coord>, i: nat, j: nat)
    requires IsWalk(grid, w)
    requires i <= j < |w|
    ensures Manhattan(w[i], w[j]) <= j - i
  {
    if i < j {
      WalkManhattan(grid, w, i, j - 1);
      AdjacentManhattan(w[j - 1], w[j], w[i]);
    }
  }

  /** Any walk between two cells has at least their Manhattan distance plus one cells. */
  lemma WalkLength(grid: array2<int>, from: Coord, to: Coord, w: seq<Coord>)
    requires WalkTo(grid, from, to, w)
    ensures |w| >= Manhattan(from, to) + 1
  {
    WalkManhattan(grid, w, 0, |w| - 1);
  }

  lemma WalkPrefix(grid: array2<int>, w: seq<Coord>, n: nat)
    requires IsWalk(grid, w)
    requires 1 <= n <= |w|
    ensures IsWalk(grid, w[..n])
  {
  }

  lemma WalkExtend(grid: array2<int>, w: seq<Coord>, c: Coord)
    requires IsWalk(grid, w)
    requires IsValid(grid, c.0, c.1)
    requires Adjacent(w[|w| - 1], c)
    ensures IsWalk(grid, w + [c])
  {
  }

  lemma WalkPrepend(grid: array2<int>, c: Coord, w: seq<Coord>)
    requires IsWalk(grid, w)
    requires IsValid(grid, w[0].0, w[0].1)
    requires Adjacent(c, w[0])
    ensures IsWalk(grid, [c] + w)
  {
  }

  predicate InBounds(grid: array2<int>, c: Coord)
    reads grid
  {
    0 <= c.0 < grid.Length0 && 0 <= c.1 < grid.Length1
  }

  /** Every cell of the grid holds 0. */
  ghost predicate ObstacleFree(grid: array2<int>)
    reads grid
  {
    forall x, y :: 0 <= x < grid.Length0 && 0 <= y < grid.Length1 ==> grid[x, y] == 0
  }

  /** The move that brings `a` closer to `b`: along x while x differs, then along y. */
  function StraightDir(a: Coord, b: Coord): Coord {
    if a.0 < b.0 then (1, 0) else if a.0 > b.0 then (-1, 0) else if a.1 < b.1 then (0, 1) else (0, -1)
  }

  /** The walk from `a` to `b` that moves along x first, then along y. */
  function StraightWalk(a: Coord, b: Coord): seq<Coord>
    decreases Manhattan(a, b)
  {
    if a == b then [a] else [a] + StraightWalk(Step(a, StraightDir(a, b)), b)
  }

  /** The straight move is a move, lowers the distance to `b` by one and stays between `a` and `b`. */
  lemma StraightDirOk(grid: array2<int>, a: Coord, b: Coord)
    requires a != b
    ensures Adjacent(a, Step(a, StraightDir(a, b)))
    ensures Manhattan(Step(a, StraightDir(a, b)), b) + 1 == Manhattan(a, b)
    ensures InBounds(grid, a) && InBounds(grid, b) ==> InBounds(grid, Step(a, StraightDir(a, b)))
  {
  }

  /** On a grid without obstacles, the straight walk joins two cells in Manhattan distance plus one cells. */
  lemma {:induction false} StraightWalkOk(grid: array2<int>, a: Coord, b: Coord)
    requires ObstacleFree(grid)
    requires InBounds(grid, a) && InBounds(grid, b)
    ensures WalkTo(grid, a, b, StraightWalk(a, b))
    ensures |StraightWalk(a, b)| == Manhattan(a, b) + 1
    decreases Manhattan(a, b)
  {
    if a != b {
      var next := Step(a, StraightDir(a, b));
      StraightDirOk(grid, a, b);
      StraightWalkOk(grid, next, b);
      var rest := StraightWalk(next, b);
      assert grid[next.0, next.1] == 0;
      WalkPrepend(grid, a, rest);
    }
  }

  /**
   * On a grid without obstacles, a shortest walk between two cells inside
   * the grid has exactly their Manhattan distance plus one cells.
   */
  lemma ObstacleFreeShortest(grid: array2<int>, from: Coord, to: Coord, path: seq<Coord>)
    requires ObstacleFree(grid)
    requires InBounds(grid, from) && InBounds(grid, to)
    requires WalkTo(grid, from, to, path)
    requires forall w :: WalkTo(grid, from, to, w) ==> |path| <= |w|
    ensures |path| == Manhattan(from, to) + 1
  {
    StraightWalkOk(grid, from, to);
    WalkLength(grid, from, to, path);
  }
}
