/**
 * A* search on a grid of passable (0) and blocked (non-zero) cells, with
 * the four unit moves and the Manhattan heuristic.
 */
module AStar {

  import opened Wrappers
  import opened Grid
  import opened Nodes
  import opened OpenList
  import opened SearchInvariants
  import opened Expansion

  /** The elements of `s` in the opposite order. */
  function Reverse<T>(s: seq<T>): (r: seq<T>)
    ensures |r| == |s|
    ensures forall i :: 0 <= i < |s| ==> r[i] == s[|s| - 1 - i]
  {
    if s == [] then [] else Reverse(s[1..]) + [s[0]]
  }

  lemma {:induction false} ReverseAppend<T>(s: seq<T>, x: T)
    ensures Reverse(s + [x]) == [x] + Reverse(s)
    decreases |s|
  {
    if s == [] {
      assert Reverse([x]) == Reverse([]) + [x];
    } else {
      assert (s + [x])[1..] == s[1..] + [x];
      ReverseAppend(s[1..], x);
    }
  }

  /**
   * The path to node `idx`: collects the cells from the node up its parent
   * links to the root, then reverses them, so the path runs root first.
   */
  method ReconstructPath(arena: seq<Node>, idx: nat) returns (path: seq<Coord>)
    requires ParentsBefore(arena)
    requires idx < |arena|
    ensures path == ChainTo(arena, idx)
  {
    var back: seq<Coord> := [];
    var node: Option<nat> := Some(idx);
    while node.Some?
      invariant node.Some? ==> node.value < |arena|
      invariant (if node.Some? then ChainTo(arena, node.value) else []) + Reverse(back) == ChainTo(arena, idx)
      decreases if node.Some? then node.value + 1 else 0
    {
      var n := arena[node.value];
      ReverseAppend(back, n.Cell());
      back := back + [n.Cell()];
      node := n.parent;
    }
    path := Reverse(back);
  }

  /**
   * A* from `start` to `end` on `grid`. Returns the cells of a path from
   * `start` to `end`, or None when the open list runs empty first.
   */
  method FindPath(grid: array2<int>, start: Coord, end: Coord) returns (r: Option<seq<Coord>>)
    ensures r.Some? ==> WalkTo(grid, start, end, r.value)
    ensures r.Some? ==> forall w :: WalkTo(grid, start, end, w) ==> |r.value| <= |w|
    ensures r.None? <==> !Reachable(grid, start, end)
    ensures start == end ==> r == Some([start])
  {
    var arena := [Node(start.0, start.1, 0, 0, None)];
    var open: seq<nat> := [0];
    var closed: set<Coord> := {};
    ghost var gclosed: map<Coord, int> := map[];
    SearchInvInit(grid, start, end);
    while |open| > 0
      invariant SearchInv(grid, start, end, arena, open, closed, gclosed)
      decreases |Cells(grid, start) - closed|, StaleCount(arena, open, closed)
    {
      var k := SelectMin(arena, open);
      var cur := open[k];
      var current := arena[cur];
      if current.Cell() == end {
        var path := ReconstructPath(arena, cur);
        GoalChain(grid, start, end, arena, open, closed, gclosed, k);
        return Some(path);
      }
      var first := FindFirst(arena, open, current.Cell());
      assert first.Some?;
      var j := first.value;
      ghost var (arena0, open0, closed0, gclosed0) := (arena, open, closed, gclosed);
      OpenOkRemove(arena, open, j);
      open := RemoveAt(open, j);
      closed := closed + {current.Cell()};
      gclosed := Record(gclosed, current.Cell(), current.g);
      arena, open := Expand(grid, start, end, arena, open, closed, cur);
      IterationStep(grid, start, end, arena0, open0, closed0, gclosed0, k, j, arena, open);
    }
    assert open == [];
    ExhaustedUnreachable(grid, start, end, arena, closed, gclosed);
    return None;
  }
}
