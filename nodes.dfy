/**
 * Search nodes. Every node the search creates lives in an arena (a sequence
 * in creation order) and refers to its parent by arena index; a parent is
 * always created before its children, so parent indices strictly decrease.
 */
module Nodes {

  import opened Wrappers
  import opened Grid

  /** A node: its cell, cost so far G, heuristic H, and its parent's arena index. */
  datatype Node = Node(x: int, y: int, g: int, h: int, parent: Option<nat>) {

    /** The priority of the node. */
    function F(): int {
      g + h
    }

    /**
     * The node's cell. The source's `Equals` compares only this cell; the
     * model compares `Cell()` wherever the source calls `Equals`.
     */
    function Cell(): Coord {
      (x, y)
    }
  }

  /** Every parent link points to an earlier node, so following links ends. */
  ghost predicate ParentsBefore(arena: seq<Node>) {
    forall j :: 0 <= j < |arena| && arena[j].parent.Some? ==> arena[j].parent.value < j
  }

  /** What the search guarantees of a node other than the start node. */
  ghost predicate ChildOk(grid: array2<int>, end: Coord, arena: seq<Node>, j: nat)
    reads grid
    requires j < |arena|
  {
    var n := arena[j];
    && n.parent.Some?
    && n.parent.value < j
    && n.g == arena[n.parent.value].g + 1
    && Adjacent(arena[n.parent.value].Cell(), n.Cell())
    && IsValid(grid, n.x, n.y)
    && n.h == Manhattan(end, n.Cell())
  }

  /**
   * The arena of one search: node 0 is the start node (G = 0, H left at 0,
   * no parent), and every later node is a passable neighbour of its parent
   * with G one more than the parent's and H the Manhattan distance to `end`.
   */
  ghost predicate ArenaOk(grid: array2<int>, start: Coord, end: Coord, arena: seq<Node>)
    reads grid
  {
    && |arena| >= 1
    && arena[0] == Node(start.0, start.1, 0, 0, None)
    && ParentsBefore(arena)
    && (forall j :: 1 <= j < |arena| ==> ChildOk(grid, end, arena, j))
  }

  /** The cells from the root of `j`'s parent chain down to `j`. */
  ghost function ChainTo(arena: seq<Node>, j: nat): seq<Coord>
    requires ParentsBefore(arena)
    requires j < |arena|
    decreases j
  {
    match arena[j].parent
    case None => [arena[j].Cell()]
    case Some(p) => ChainTo(arena, p) + [arena[j].Cell()]
  }

  /**
   * Following parent links from any node leads back to the start: the chain
   * is a walk from `start` to the node's cell with exactly G + 1 cells.
   */
  lemma {:induction false} ChainWalk(grid: array2<int>, start: Coord, end: Coord, arena: seq<Node>, j: nat)
    requires ArenaOk(grid, start, end, arena)
    requires j < |arena|
    ensures WalkTo(grid, start, arena[j].Cell(), ChainTo(arena, j))
    ensures |ChainTo(arena, j)| == arena[j].g + 1
  {
    if j == 0 {
    } else {
      assert ChildOk(grid, end, arena, j);
      var p := arena[j].parent.value;
      ChainWalk(grid, start, end, arena, p);
      WalkExtend(grid, ChainTo(arena, p), arena[j].Cell());
    }
  }

  /** Appending a passable neighbour of an existing node, one move further, keeps the arena well formed. */
  lemma ArenaAppend(grid: array2<int>, start: Coord, end: Coord, arena: seq<Node>, n: Node)
    requires ArenaOk(grid, start, end, arena)
    requires n.parent.Some? && n.parent.value < |arena|
    requires n.g == arena[n.parent.value].g + 1
    requires Adjacent(arena[n.parent.value].Cell(), n.Cell())
    requires IsValid(grid, n.x, n.y)
    requires n.h == Manhattan(end, n.Cell())
    ensures ArenaOk(grid, start, end, arena + [n])
  {
    var arena' := arena + [n];
    forall j | 1 <= j < |arena'|
      ensures ChildOk(grid, end, arena', j)
    {
      if j < |arena| {
        assert ChildOk(grid, end, arena, j);
      }
    }
  }
}
