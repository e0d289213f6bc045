/**
 * Expanding one node: the loop over the four moves that creates the
 * neighbour nodes and appends the admitted ones to the open list.
 */
module Expansion {

  import opened Wrappers
  import opened Grid
  import opened Nodes
  import opened OpenList

  /** The node the search creates for the move `d` from node `cur`. */
  function Candidate(end: Coord, arena: seq<Node>, cur: nat, d: Coord): (n: Node)
    requires cur < |arena|
    ensures d in Directions ==> Adjacent(arena[cur].Cell(), n.Cell())
  {
    var c := Step(arena[cur].Cell(), d);
    Node(c.0, c.1, arena[cur].g + 1, Manhattan(end, c), Some(cur))
  }

  /**
   * A candidate on cell `n` with cost `g` joins the open list when the cell
   * is passable and not closed, and either no entry sits on it or the first
   * entry on it costs more. A costlier entry is not removed.
   */
  ghost predicate Admits(grid: array2<int>, arena: seq<Node>, open: seq<nat>, closed: set<Coord>, n: Coord, g: int)
    reads grid
    requires OpenOk(arena, open)
  {
    && IsValid(grid, n.0, n.1)
    && n !in closed
    && (AbsentAt(arena, open, n) || exists i: nat :: IsFirstAt(arena, open, n, i) && g < arena[open[i]].g)
  }

  /** The nodes that expanding `cur` appends, one per admitted move of `ds`, in order. */
  ghost function Successors(grid: array2<int>, end: Coord, arena: seq<Node>, open: seq<nat>, closed: set<Coord>,
                            cur: nat, ds: seq<Coord>): seq<Node>
    reads grid
    requires OpenOk(arena, open)
    requires cur < |arena|
  {
    if ds == [] then []
    else
      var n := Candidate(end, arena, cur, ds[|ds| - 1]);
      Successors(grid, end, arena, open, closed, cur, ds[..|ds| - 1])
        + (if Admits(grid, arena, open, closed, n.Cell(), n.g) then [n] else [])
  }

  /**
   * Entries appended for other cells do not change whether a candidate on
   * `n` is admitted: the first entry on `n` stays the same.
   */
  lemma AdmitsGrown(grid: array2<int>, arena0: seq<Node>, open0: seq<nat>, arena: seq<Node>, open: seq<nat>,
                    closed: set<Coord>, n: Coord, g: int)
    requires OpenOk(arena0, open0) && OpenOk(arena, open)
    requires arena0 <= arena && open0 <= open
    requires forall i :: |open0| <= i < |open| ==> arena[open[i]].Cell() != n
    ensures Admits(grid, arena0, open0, closed, n, g) == Admits(grid, arena, open, closed, n, g)
  {
    forall i | 0 <= i < |open0|
      ensures arena[open[i]] == arena0[open0[i]]
    {
      assert open[i] == open0[i];
    }
    if exists i: nat :: IsFirstAt(arena, open, n, i) && g < arena[open[i]].g {
      var i: nat :| IsFirstAt(arena, open, n, i) && g < arena[open[i]].g;
      assert IsFirstAt(arena0, open0, n, i);
    }
    if exists i: nat :: IsFirstAt(arena0, open0, n, i) && g < arena0[open0[i]].g {
      var i: nat :| IsFirstAt(arena0, open0, n, i) && g < arena0[open0[i]].g;
      assert IsFirstAt(arena, open, n, i);
    }
  }

  lemma SuccessorsStep(grid: array2<int>, end: Coord, arena: seq<Node>, open: seq<nat>, closed: set<Coord>,
                       cur: nat, k: nat)
    requires OpenOk(arena, open)
    requires cur < |arena|
    requires k < |Directions|
    ensures var n := Candidate(end, arena, cur, Directions[k]);
      Successors(grid, end, arena, open, closed, cur, Directions[..k + 1])
        == Successors(grid, end, arena, open, closed, cur, Directions[..k])
           + (if Admits(grid, arena, open, closed, n.Cell(), n.g) then [n] else [])
  {
    assert Directions[..k + 1][..k] == Directions[..k];
  }

  lemma DirectionsDistinct(c: Coord, j: nat, k: nat)
    requires j < |Directions| && k < |Directions| && j != k
    ensures Step(c, Directions[j]) != Step(c, Directions[k])
  {
  }

  /**
   * One move of an expansion: the neighbour of node `cur` in direction `d`
   * is skipped when blocked, outside the grid or closed; otherwise it is
   * appended unless the first open entry on its cell costs no more.
   */
  method TryMove(grid: array2<int>, start: Coord, end: Coord, arena0: seq<Node>, open0: seq<nat>,
                 closed: set<Coord>, cur: nat, d: Coord, arena: seq<Node>, open: seq<nat>)
    returns (arena': seq<Node>, open': seq<nat>)
    requires ArenaOk(grid, start, end, arena) && OpenOk(arena, open)
    requires OpenOk(arena0, open0) && arena0 <= arena && open0 <= open
    requires cur < |arena0|
    requires d in Directions
    requires forall i :: |open0| <= i < |open| ==> arena[open[i]].Cell() != Step(arena0[cur].Cell(), d)
    ensures var n := Candidate(end, arena0, cur, d);
      && arena' == arena + (if Admits(grid, arena0, open0, closed, n.Cell(), n.g) then [n] else [])
      && open' == open + (if Admits(grid, arena0, open0, closed, n.Cell(), n.g) then [|arena|] else [])
    ensures ArenaOk(grid, start, end, arena') && OpenOk(arena', open')
    ensures Covered(grid, arena', open', closed, Step(arena0[cur].Cell(), d), arena0[cur].g + 1)
  {
    var current := arena0[cur];
    var (dx, dy) := d;
    var newX, newY := current.x + dx, current.y + dy;
    ghost var cand := Candidate(end, arena0, cur, d);
    arena', open' := arena, open;
    if !IsValid(grid, newX, newY) || (newX, newY) in closed {
      return;
    }
    var neighbor := Node(newX, newY, current.g + 1, Abs(end.0 - newX) + Abs(end.1 - newY), Some(cur));
    assert neighbor == cand;
    AdmitsGrown(grid, arena0, open0, arena, open, closed, cand.Cell(), cand.g);
    var existing := FindFirst(arena, open, (newX, newY));
    if existing.None? || neighbor.g < arena[open[existing.value]].g {
      assert arena[cur] == current;
      ArenaAppend(grid, start, end, arena, neighbor);
      arena' := arena + [neighbor];
      open' := open + [|arena|];
      assert open'[|open|] < |arena'| && arena'[open'[|open|]] == neighbor;
    } else {
      var i := existing.value;
      assert open[i] < |arena| && arena[open[i]].Cell() == (newX, newY) && arena[open[i]].g <= current.g + 1;
    }
  }

  lemma CoveredGrow(grid: array2<int>, arena1: seq<Node>, open1: seq<nat>, arena: seq<Node>, open: seq<nat>,
                    closed: set<Coord>, c: Coord, g: int, k: nat)
    requires k <= |Directions|
    requires arena1 <= arena && open1 <= open
    requires forall j :: 0 <= j < k ==> Covered(grid, arena1, open1, closed, Step(c, Directions[j]), g + 1)
    ensures forall j :: 0 <= j < k ==> Covered(grid, arena, open, closed, Step(c, Directions[j]), g + 1)
  {
    forall j | 0 <= j < k
      ensures Covered(grid, arena, open, closed, Step(c, Directions[j]), g + 1)
    {
      var n := Step(c, Directions[j]);
      if IsValid(grid, n.0, n.1) && n !in closed {
        HasEntryGrow(arena1, open1, arena, open, n, g + 1);
      }
    }
  }

  /** After the move `k`, the appended entries all sit on cells of earlier moves. */
  lemma NewCellsAhead(arena1: seq<Node>, open1: seq<nat>, arena: seq<Node>, open: seq<nat>, open0: seq<nat>,
                      c: Coord, k: nat)
    requires OpenOk(arena1, open1) && OpenOk(arena, open)
    requires arena1 <= arena && open0 <= open1 <= open
    requires k < |Directions|
    requires forall i, j :: |open0| <= i < |open1| && k <= j < |Directions| ==>
               arena1[open1[i]].Cell() != Step(c, Directions[j])
    requires forall i :: |open1| <= i < |open| ==> arena[open[i]].Cell() == Step(c, Directions[k])
    ensures forall i, j :: |open0| <= i < |open| && k + 1 <= j < |Directions| ==>
              arena[open[i]].Cell() != Step(c, Directions[j])
  {
    forall i, j | |open0| <= i < |open| && k + 1 <= j < |Directions|
      ensures arena[open[i]].Cell() != Step(c, Directions[j])
    {
      if i >= |open1| {
        DirectionsDistinct(c, j, k);
      } else {
        assert open[i] == open1[i] && arena[open[i]] == arena1[open1[i]];
      }
    }
  }

  /**
   * The shape of an expansion of `cur` after the first `k` moves: the arena
   * gained the successors of those moves and the open list their indices.
   */
  ghost predicate ExpandShape(grid: array2<int>, start: Coord, end: Coord, arena0: seq<Node>, open0: seq<nat>,
                              closed: set<Coord>, cur: nat, k: nat, arena: seq<Node>, open: seq<nat>)
    reads grid
  {
    && OpenOk(arena0, open0)
    && cur < |arena0|
    && k <= |Directions|
    && arena == arena0 + Successors(grid, end, arena0, open0, closed, cur, Directions[..k])
    && open0 <= open && |open| - |open0| == |arena| - |arena0|
    && (forall i :: |open0| <= i < |open| ==> open[i] == |arena0| + (i - |open0|))
    && ArenaOk(grid, start, end, arena) && OpenOk(arena, open)
    && (forall i :: |open0| <= i < |open| ==> arena[open[i]].Cell() !in closed)
  }

  /**
   * What the first `k` moves of an expansion of `cur` reached: no appended
   * entry sits on a cell of a later move, and each earlier move's cell is
   * covered.
   */
  ghost predicate ExpandReach(grid: array2<int>, arena0: seq<Node>, open0: seq<nat>, closed: set<Coord>,
                              cur: nat, k: nat, arena: seq<Node>, open: seq<nat>)
    reads grid
    requires cur < |arena0| && OpenOk(arena, open)
  {
    && (forall i, j :: |open0| <= i < |open| && k <= j < |Directions| ==>
          arena[open[i]].Cell() != Step(arena0[cur].Cell(), Directions[j]))
    && (forall j :: 0 <= j < k && j < |Directions| ==>
          Covered(grid, arena, open, closed, Step(arena0[cur].Cell(), Directions[j]), arena0[cur].g + 1))
  }

  /** The state of an expansion of `cur` after the first `k` moves. */
  ghost predicate ExpandInv(grid: array2<int>, start: Coord, end: Coord, arena0: seq<Node>, open0: seq<nat>,
                            closed: set<Coord>, cur: nat, k: nat, arena: seq<Node>, open: seq<nat>)
    reads grid
  {
    && ExpandShape(grid, start, end, arena0, open0, closed, cur, k, arena, open)
    && ExpandReach(grid, arena0, open0, closed, cur, k, arena, open)
  }

  lemma ShapeStep(grid: array2<int>, start: Coord, end: Coord, arena0: seq<Node>, open0: seq<nat>,
                  closed: set<Coord>, cur: nat, k: nat, arena1: seq<Node>, open1: seq<nat>,
                  arena: seq<Node>, open: seq<nat>)
    requires ExpandShape(grid, start, end, arena0, open0, closed, cur, k, arena1, open1)
    requires k < |Directions|
    requires var n := Candidate(end, arena0, cur, Directions[k]);
      && arena == arena1 + (if Admits(grid, arena0, open0, closed, n.Cell(), n.g) then [n] else [])
      && open == open1 + (if Admits(grid, arena0, open0, closed, n.Cell(), n.g) then [|arena1|] else [])
    requires ArenaOk(grid, start, end, arena) && OpenOk(arena, open)
    ensures ExpandShape(grid, start, end, arena0, open0, closed, cur, k + 1, arena, open)
  {
    var n := Candidate(end, arena0, cur, Directions[k]);
    SuccessorsStep(grid, end, arena0, open0, closed, cur, k);
    if Admits(grid, arena0, open0, closed, n.Cell(), n.g) {
      assert open[|open1|] == |arena1| && arena[|arena1|] == n;
    } else {
      assert arena == arena1 && open == open1;
    }
  }

  lemma ReachStep(grid: array2<int>, start: Coord, end: Coord, arena0: seq<Node>, open0: seq<nat>,
                  closed: set<Coord>, cur: nat, k: nat, arena1: seq<Node>, open1: seq<nat>,
                  arena: seq<Node>, open: seq<nat>)
    requires ExpandInv(grid, start, end, arena0, open0, closed, cur, k, arena1, open1)
    requires k < |Directions|
    requires var n := Candidate(end, arena0, cur, Directions[k]);
      && arena == arena1 + (if Admits(grid, arena0, open0, closed, n.Cell(), n.g) then [n] else [])
      && open == open1 + (if Admits(grid, arena0, open0, closed, n.Cell(), n.g) then [|arena1|] else [])
    requires OpenOk(arena, open)
    requires Covered(grid, arena, open, closed, Step(arena0[cur].Cell(), Directions[k]), arena0[cur].g + 1)
    ensures ExpandReach(grid, arena0, open0, closed, cur, k + 1, arena, open)
  {
    var c, g := arena0[cur].Cell(), arena0[cur].g;
    var n := Candidate(end, arena0, cur, Directions[k]);
    CoveredGrow(grid, arena1, open1, arena, open, closed, c, g, k);
    if Admits(grid, arena0, open0, closed, n.Cell(), n.g) {
      assert arena[open[|open1|]] == n;
      NewCellsAhead(arena1, open1, arena, open, open0, c, k);
    } else {
      assert arena == arena1 && open == open1;
    }
  }

  /**
   * What expanding node `cur` produces from `arena0` and `open0`: the arena
   * gains exactly the successors, in move order, and the open list gains
   * their indices, in the same order. The arena stays well formed, no
   * appended entry sits on a closed cell, and every passable, unclosed
   * neighbour of `cur` now has an open entry costing at most G + 1.
   */
  ghost predicate Expanded(grid: array2<int>, start: Coord, end: Coord, arena0: seq<Node>, open0: seq<nat>,
                           closed: set<Coord>, cur: nat, arena: seq<Node>, open: seq<nat>)
    reads grid
    requires OpenOk(arena0, open0)
    requires cur < |arena0|
  {
    && arena == arena0 + Successors(grid, end, arena0, open0, closed, cur, Directions)
    && open0 <= open && |open| - |open0| == |arena| - |arena0|
    && (forall i :: |open0| <= i < |open| ==> open[i] == |arena0| + (i - |open0|))
    && ArenaOk(grid, start, end, arena) && OpenOk(arena, open)
    && (forall i :: |open0| <= i < |open| ==> arena[open[i]].Cell() !in closed)
    && Frontier(grid, arena, open, closed, arena0[cur].Cell(), arena0[cur].g)
  }

  /**
   * Expands node `cur`: tries the four moves in order and appends a node
   * for each admitted neighbour, to the arena and to the open list.
   */
  method Expand(grid: array2<int>, start: Coord, end: Coord, arena0: seq<Node>, open0: seq<nat>,
                closed: set<Coord>, cur: nat)
    returns (arena: seq<Node>, open: seq<nat>)
    requires ArenaOk(grid, start, end, arena0)
    requires OpenOk(arena0, open0)
    requires cur < |arena0|
    ensures Expanded(grid, start, end, arena0, open0, closed, cur, arena, open)
  {
    arena, open := arena0, open0;
    for k := 0 to |Directions|
      invariant ExpandInv(grid, start, end, arena0, open0, closed, cur, k, arena, open)
    {
      ghost var (arena1, open1) := (arena, open);
      arena, open := TryMove(grid, start, end, arena0, open0, closed, cur, Directions[k], arena, open);
      ShapeStep(grid, start, end, arena0, open0, closed, cur, k, arena1, open1, arena, open);
      ReachStep(grid, start, end, arena0, open0, closed, cur, k, arena1, open1, arena, open);
    }
    assert Directions[..|Directions|] == Directions;
  }
}
