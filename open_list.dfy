/**
 * The open list: the arena indices of the nodes waiting to be expanded, in
 * the order they were added. Entries are told apart by cell only, as node
 * equality compares cells only; several entries may share a cell.
 */
module OpenList {

  import opened Wrappers
  import opened Grid
  import opened Nodes

  /** Every entry names a node of the arena. */
  ghost predicate OpenOk(arena: seq<Node>, open: seq<nat>) {
    forall i :: 0 <= i < |open| ==> open[i] < |arena|
  }

  /** Entry `i` is the first entry whose node sits on cell `c`. */
  ghost predicate IsFirstAt(arena: seq<Node>, open: seq<nat>, c: Coord, i: nat)
    requires OpenOk(arena, open)
  {
    && i < |open|
    && arena[open[i]].Cell() == c
    && forall j :: 0 <= j < i ==> arena[open[j]].Cell() != c
  }

  /** No entry sits on cell `c`. */
  ghost predicate AbsentAt(arena: seq<Node>, open: seq<nat>, c: Coord)
    requires OpenOk(arena, open)
  {
    forall i :: 0 <= i < |open| ==> arena[open[i]].Cell() != c
  }

  /** Some entry sits on cell `c` with cost so far at most `bound`. */
  ghost predicate HasEntry(arena: seq<Node>, open: seq<nat>, c: Coord, bound: int) {
    exists i :: 0 <= i < |open| && open[i] < |arena| && arena[open[i]].Cell() == c && arena[open[i]].g <= bound
  }

  /** Entry `k` has the least F, and every entry before it a larger F. */
  ghost predicate IsFirstMin(arena: seq<Node>, open: seq<nat>, k: nat)
    requires OpenOk(arena, open)
  {
    && k < |open|
    && (forall i :: 0 <= i < |open| ==> arena[open[k]].F() <= arena[open[i]].F())
    && (forall i :: 0 <= i < k ==> arena[open[k]].F() < arena[open[i]].F())
  }

  /** The open list without entry `j`: the entries before it, then the entries after it, in order. */
  function RemoveAt(open: seq<nat>, j: nat): (r: seq<nat>)
    requires j < |open|
    ensures |r| == |open| - 1
    ensures forall i :: 0 <= i < j ==> r[i] == open[i]
    ensures forall i :: j <= i < |r| ==> r[i] == open[i + 1]
  {
    open[..j] + open[j + 1..]
  }

  /** The number of entries whose cell has already been closed. */
  ghost function StaleCount(arena: seq<Node>, open: seq<nat>, closed: set<Coord>): nat
    requires OpenOk(arena, open)
  {
    if open == [] then 0
    else
      var last := open[|open| - 1];
      StaleCount(arena, open[..|open| - 1], closed) + (if arena[last].Cell() in closed then 1 else 0)
  }

  /**
   * The node the search expands next: the first entry of least F, which is
   * the entry a stable sort by F puts first.
   */
  method SelectMin(arena: seq<Node>, open: seq<nat>) returns (k: nat)
    requires OpenOk(arena, open)
    requires |open| > 0
    ensures IsFirstMin(arena, open, k)
  {
    k := 0;
    var i := 1;
    while i < |open|
      invariant 1 <= i <= |open|
      invariant k < i
      invariant forall j :: 0 <= j < i ==> arena[open[k]].F() <= arena[open[j]].F()
      invariant forall j :: 0 <= j < k ==> arena[open[k]].F() < arena[open[j]].F()
    {
      if arena[open[i]].F() < arena[open[k]].F() {
        k := i;
      }
      i := i + 1;
    }
  }

  /**
   * The first entry on cell `c`, or None: what both the lookup of an existing
   * entry and the removal of the expanded node find, since both compare cells.
   */
  method FindFirst(arena: seq<Node>, open: seq<nat>, c: Coord) returns (r: Option<nat>)
    requires OpenOk(arena, open)
    ensures r.Some? ==> IsFirstAt(arena, open, c, r.value)
    ensures r.None? ==> AbsentAt(arena, open, c)
  {
    var i := 0;
    while i < |open|
      invariant 0 <= i <= |open|
      invariant forall j :: 0 <= j < i ==> arena[open[j]].Cell() != c
    {
      if arena[open[i]].Cell() == c {
        return Some(i);
      }
      i := i + 1;
    }
    return None;
  }

  lemma OpenOkRemove(arena: seq<Node>, open: seq<nat>, j: nat)
    requires OpenOk(arena, open)
    requires j < |open|
    ensures OpenOk(arena, RemoveAt(open, j))
  {
    var rest := RemoveAt(open, j);
    forall i | 0 <= i < |rest|
      ensures rest[i] < |arena|
    {
      if i < j {
        assert rest[i] == open[i];
      } else {
        assert rest[i] == open[i + 1];
      }
    }
  }

  /** Removing one entry keeps the entries on every other cell. */
  lemma HasEntryRemove(arena: seq<Node>, open: seq<nat>, j: nat, c: Coord, bound: int)
    requires j < |open|
    requires HasEntry(arena, open, c, bound)
    requires open[j] < |arena| && arena[open[j]].Cell() != c
    ensures HasEntry(arena, RemoveAt(open, j), c, bound)
  {
    var i :| 0 <= i < |open| && open[i] < |arena| && arena[open[i]].Cell() == c && arena[open[i]].g <= bound;
    var rest := RemoveAt(open, j);
    if i < j {
      assert rest[i] == open[i];
    } else {
      assert rest[i - 1] == open[i];
    }
  }

  /** Appending nodes to the arena and entries to the list keeps every entry. */
  lemma HasEntryGrow(arena: seq<Node>, open: seq<nat>, arena': seq<Node>, open': seq<nat>, c: Coord, bound: int)
    requires arena <= arena' && open <= open'
    requires HasEntry(arena, open, c, bound)
    ensures HasEntry(arena', open', c, bound)
  {
    var i :| 0 <= i < |open| && open[i] < |arena| && arena[open[i]].Cell() == c && arena[open[i]].g <= bound;
    assert open'[i] == open[i] && arena'[open[i]] == arena[open[i]];
  }

  lemma {:induction false} StaleCountAppend(arena: seq<Node>, s: seq<nat>, t: seq<nat>, closed: set<Coord>)
    requires OpenOk(arena, s) && OpenOk(arena, t)
    ensures OpenOk(arena, s + t)
    ensures StaleCount(arena, s + t, closed) == StaleCount(arena, s, closed) + StaleCount(arena, t, closed)
    decreases |t|
  {
    if t != [] {
      var t' := t[..|t| - 1];
      assert (s + t)[..|s + t| - 1] == s + t';
      StaleCountAppend(arena, s, t', closed);
    } else {
      assert s + t == s;
    }
  }

  /** Dropping an entry whose cell is closed lowers the stale count by one. */
  lemma StaleCountRemove(arena: seq<Node>, open: seq<nat>, j: nat, closed: set<Coord>)
    requires OpenOk(arena, open)
    requires j < |open|
    requires arena[open[j]].Cell() in closed
    ensures OpenOk(arena, RemoveAt(open, j))
    ensures StaleCount(arena, RemoveAt(open, j), closed) + 1 == StaleCount(arena, open, closed)
  {
    var a, b := open[..j], open[j + 1..];
    assert open == a + [open[j]] + b;
    StaleCountAppend(arena, a, [open[j]], closed);
    StaleCountAppend(arena, a + [open[j]], b, closed);
    StaleCountAppend(arena, a, b, closed);
    assert StaleCount(arena, [open[j]], closed) == 1 by {
      assert [open[j]][..0] == [];
    }
  }

  /** The stale count only reads the nodes the entries name. */
  lemma {:induction false} StaleCountGrow(arena: seq<Node>, arena': seq<Node>, open: seq<nat>, closed: set<Coord>)
    requires OpenOk(arena, open)
    requires arena <= arena'
    ensures OpenOk(arena', open)
    ensures StaleCount(arena', open, closed) == StaleCount(arena, open, closed)
    decreases |open|
  {
    if open != [] {
      StaleCountGrow(arena, arena', open[..|open| - 1], closed);
      assert arena'[open[|open| - 1]] == arena[open[|open| - 1]];
    }
  }

  /** Entries whose cells are not closed add nothing to the stale count. */
  lemma {:induction false} StaleCountFresh(arena: seq<Node>, t: seq<nat>, closed: set<Coord>)
    requires OpenOk(arena, t)
    requires forall i :: 0 <= i < |t| ==> arena[t[i]].Cell() !in closed
    ensures StaleCount(arena, t, closed) == 0
    decreases |t|
  {
    if t != [] {
      StaleCountFresh(arena, t[..|t| - 1], closed);
    }
  }

  /** Cell `n` is blocked, already closed, or waits in the open list with G at most `bound`. */
  ghost predicate Covered(grid: array2<int>, arena: seq<Node>, open: seq<nat>, closed: set<Coord>, n: Coord, bound: int)
    reads grid
  {
    IsValid(grid, n.0, n.1) && n !in closed ==> HasEntry(arena, open, n, bound)
  }

  /** Every neighbour of cell `c`, expanded with cost `g`, is covered with cost `g + 1`. */
  ghost predicate Frontier(grid: array2<int>, arena: seq<Node>, open: seq<nat>, closed: set<Coord>, c: Coord, g: int)
    reads grid
  {
    forall j :: 0 <= j < |Directions| ==> Covered(grid, arena, open, closed, Step(c, Directions[j]), g + 1)
  }
}
