/**
 * What holds of the search state (arena, open list, closed set) between two
 * iterations of the main loop, and why it gives a shortest path.
 */
module SearchInvariants {

  import opened Wrappers
  import opened Grid
  import opened Nodes
  import opened OpenList
  import opened Expansion

  /** No walk from `start` reaches `c` in fewer than `g` moves. */
  ghost predicate NoShorterWalk(grid: array2<int>, start: Coord, c: Coord, g: int)
    reads grid
  {
    forall w :: WalkTo(grid, start, c, w) ==> g <= |w| - 1
  }

  /** The closed costs after closing cell `c` with cost `g`: a cell keeps the cost it was first closed with. */
  function Record(gclosed: map<Coord, int>, c: Coord, g: int): map<Coord, int> {
    if c in gclosed then gclosed else gclosed[c := g]
  }

  /**
   * The loop invariant of the search. `gclosed` maps each closed cell to the
   * G of the node that closed it first.
   */
  ghost predicate SearchInv(grid: array2<int>, start: Coord, end: Coord, arena: seq<Node>, open: seq<nat>,
                            closed: set<Coord>, gclosed: map<Coord, int>)
    reads grid
  {
    && ArenaOk(grid, start, end, arena)
    && OpenOk(arena, open)
    && closed <= Cells(grid, start)
    && end !in closed
    && (closed == {} ==> open == [0])
    && (closed != {} ==> start in closed && forall i :: 0 <= i < |open| ==> open[i] != 0)
    && gclosed.Keys == closed
    && (forall c :: c in closed ==> NoShorterWalk(grid, start, c, gclosed[c]))
    && (forall c :: c in closed ==> Frontier(grid, arena, open, closed, c, gclosed[c]))
  }

  lemma SearchInvInit(grid: array2<int>, start: Coord, end: Coord)
    ensures SearchInv(grid, start, end, [Node(start.0, start.1, 0, 0, None)], [0], {}, map[])
  {
  }

  /** Every node of the arena sits on a cell of the grid or on the start. */
  lemma NodeInCells(grid: array2<int>, start: Coord, end: Coord, arena: seq<Node>, i: nat)
    requires ArenaOk(grid, start, end, arena)
    requires i < |arena|
    ensures arena[i].Cell() in Cells(grid, start)
  {
    if i > 0 {
      assert ChildOk(grid, end, arena, i);
      ValidCellsExact(grid, arena[i].Cell());
    }
  }

  /** The first index of a walk that leaves a set the walk starts in. */
  lemma FirstOutside(w: seq<Coord>, s: set<Coord>) returns (i: nat)
    requires |w| > 0 && w[0] in s && w[|w| - 1] !in s
    ensures 0 < i < |w| && w[i] !in s && w[i - 1] in s
  {
    i := 1;
    while w[i] in s
      invariant 1 <= i < |w| && w[i - 1] in s
      decreases |w| - i
    {
      i := i + 1;
    }
  }

  /**
   * A walk from the start to a cell that is not closed leaves the closed
   * cells at some index `i`; the cell there waits in the open list, in entry
   * `e`, with G at most `i`.
   */
  lemma WalkMeetsOpen(grid: array2<int>, start: Coord, end: Coord, arena: seq<Node>, open: seq<nat>,
                      closed: set<Coord>, gclosed: map<Coord, int>, w: seq<Coord>)
    returns (i: nat, e: nat)
    requires SearchInv(grid, start, end, arena, open, closed, gclosed)
    requires closed != {}
    requires IsWalk(grid, w) && w[0] == start && w[|w| - 1] !in closed
    ensures 0 < i < |w| && e < |open| && open[e] < |arena|
    ensures arena[open[e]].Cell() == w[i] && arena[open[e]].g <= i
  {
    i := FirstOutside(w, closed);
    WalkPrefix(grid, w, i);
    assert WalkTo(grid, start, w[i - 1], w[..i]);
    var b := gclosed[w[i - 1]];
    assert b <= i - 1;
    assert Adjacent(w[i - 1], w[i]);
    var jd := AdjacentDirection(w[i - 1], w[i]);
    assert Frontier(grid, arena, open, closed, w[i - 1], b);
    assert Covered(grid, arena, open, closed, w[i], b + 1);
    e :| 0 <= e < |open| && open[e] < |arena| && arena[open[e]].Cell() == w[i] && arena[open[e]].g <= b + 1;
  }

  /**
   * The heart of A*: the node expanded next, if its cell is not closed yet,
   * costs no more than any walk to its cell. A walk from the start leaves the
   * closed cells somewhere; the cell where it does waits in the open list
   * with a cost that, plus its Manhattan distance to the goal, bounds the
   * least F, and Manhattan distance does not overestimate the rest of the walk.
   */
  lemma PopBeatsWalk(grid: array2<int>, start: Coord, end: Coord, arena: seq<Node>, open: seq<nat>,
                     closed: set<Coord>, gclosed: map<Coord, int>, k: nat, w: seq<Coord>)
    requires SearchInv(grid, start, end, arena, open, closed, gclosed)
    requires IsFirstMin(arena, open, k)
    requires arena[open[k]].Cell() !in closed
    requires WalkTo(grid, start, arena[open[k]].Cell(), w)
    ensures arena[open[k]].g <= |w| - 1
  {
    var cur := arena[open[k]];
    if closed == {} {
      assert open[k] == 0;
    } else {
      var i, e := WalkMeetsOpen(grid, start, end, arena, open, closed, gclosed, w);
      var other := arena[open[e]];
      assert ChildOk(grid, end, arena, open[e]);
      assert ChildOk(grid, end, arena, open[k]);
      assert cur.F() <= other.F();
      WalkCostBound(grid, end, w, i, cur.g, cur.h, other.g, other.h);
    }
  }

  /**
   * Consistency of the heuristic along a walk: a node on the last cell of
   * `w` whose F is at most that of a node on `w[i]` with G at most `i` has G
   * at most the number of moves of `w`.
   */
  lemma WalkCostBound(grid: array2<int>, end: Coord, w: seq<Coord>, i: nat, g: int, h: int, g': int, h': int)
    requires IsWalk(grid, w) && 0 < i < |w|
    requires h == Manhattan(end, w[|w| - 1]) && h' == Manhattan(end, w[i])
    requires g + h <= g' + h'
    requires g' <= i
    ensures g <= |w| - 1
  {
    WalkManhattan(grid, w, i, |w| - 1);
    ManhattanTriangle(end, w[|w| - 1], w[i]);
    ManhattanSymmetric(w[i], w[|w| - 1]);
  }

  /** The cost of the node expanded next is optimal for its cell, unless the cell is already closed. */
  lemma PopIsOptimal(grid: array2<int>, start: Coord, end: Coord, arena: seq<Node>, open: seq<nat>,
                     closed: set<Coord>, gclosed: map<Coord, int>, k: nat)
    requires SearchInv(grid, start, end, arena, open, closed, gclosed)
    requires IsFirstMin(arena, open, k)
    requires arena[open[k]].Cell() !in closed
    ensures NoShorterWalk(grid, start, arena[open[k]].Cell(), arena[open[k]].g)
  {
    forall w | WalkTo(grid, start, arena[open[k]].Cell(), w)
      ensures arena[open[k]].g <= |w| - 1
    {
      PopBeatsWalk(grid, start, end, arena, open, closed, gclosed, k, w);
    }
  }

  /** Closing `c` and replacing its first open entry keeps the frontier of every other closed cell. */
  lemma FrontierKept(grid: array2<int>, arena: seq<Node>, open: seq<nat>, closed: set<Coord>, c': Coord, b: int,
                     j: nat, c: Coord, arena': seq<Node>, open': seq<nat>)
    requires Frontier(grid, arena, open, closed, c', b)
    requires j < |open| && open[j] < |arena| && arena[open[j]].Cell() == c
    requires arena <= arena' && RemoveAt(open, j) <= open'
    ensures Frontier(grid, arena', open', closed + {c}, c', b)
  {
    forall jd | 0 <= jd < |Directions|
      ensures Covered(grid, arena', open', closed + {c}, Step(c', Directions[jd]), b + 1)
    {
      var n := Step(c', Directions[jd]);
      assert Covered(grid, arena, open, closed, n, b + 1);
      if IsValid(grid, n.0, n.1) && n !in closed + {c} {
        HasEntryRemove(arena, open, j, n, b + 1);
        HasEntryGrow(arena, RemoveAt(open, j), arena', open', n, b + 1);
      }
    }
  }

  /**
   * One iteration of the search (expand the first least-F entry, which is
   * not the goal; drop the first entry on its cell; close the cell; append
   * the admitted neighbours) keeps the loop invariant.
   */
  lemma StepPreserves(grid: array2<int>, start: Coord, end: Coord, arena: seq<Node>, open: seq<nat>,
                      closed: set<Coord>, gclosed: map<Coord, int>, k: nat, j: nat,
                      arena': seq<Node>, open': seq<nat>)
    requires SearchInv(grid, start, end, arena, open, closed, gclosed)
    requires IsFirstMin(arena, open, k)
    requires arena[open[k]].Cell() != end
    requires IsFirstAt(arena, open, arena[open[k]].Cell(), j)
    requires ArenaOk(grid, start, end, arena') && OpenOk(arena', open')
    requires arena <= arena' && RemoveAt(open, j) <= open'
    requires forall i :: |open| - 1 <= i < |open'| ==>
               open'[i] >= |arena| && arena'[open'[i]].Cell() !in closed + {arena[open[k]].Cell()}
    requires Frontier(grid, arena', open', closed + {arena[open[k]].Cell()}, arena[open[k]].Cell(), arena[open[k]].g)
    ensures SearchInv(grid, start, end, arena', open', closed + {arena[open[k]].Cell()},
                      Record(gclosed, arena[open[k]].Cell(), arena[open[k]].g))
  {
    var cur := arena[open[k]];
    var c := cur.Cell();
    var closed' := closed + {c};
    var gclosed' := Record(gclosed, c, cur.g);
    var open1 := RemoveAt(open, j);
    NodeInCells(grid, start, end, arena, open[k]);
    if closed == {} {
      assert open == [0] && j == 0 && open1 == [];
    }
    forall i | 0 <= i < |open1|
      ensures open1[i] == open[if i < j then i else i + 1]
    {
    }
    if c !in closed {
      PopIsOptimal(grid, start, end, arena, open, closed, gclosed, k);
    }
    forall c' | c' in closed'
      ensures NoShorterWalk(grid, start, c', gclosed'[c'])
      ensures Frontier(grid, arena', open', closed', c', gclosed'[c'])
    {
      if c' in closed {
        FrontierKept(grid, arena, open, closed, c', gclosed[c'], j, c, arena', open');
      }
    }
  }

  /** Closing a cell that was not closed shrinks the set of cells still open to closing. */
  lemma CloseShrinks(grid: array2<int>, start: Coord, end: Coord, arena: seq<Node>, closed: set<Coord>, i: nat)
    requires ArenaOk(grid, start, end, arena)
    requires i < |arena|
    requires arena[i].Cell() !in closed
    ensures |Cells(grid, start) - (closed + {arena[i].Cell()})| < |Cells(grid, start) - closed|
  {
    var c := arena[i].Cell();
    NodeInCells(grid, start, end, arena, i);
    assert Cells(grid, start) - (closed + {c}) == (Cells(grid, start) - closed) - {c};
  }

  /**
   * Dropping an entry whose cell is already closed, and appending only entries
   * on cells not closed, lowers the number of entries on closed cells.
   */
  lemma StaleShrinks(arena: seq<Node>, open: seq<nat>, closed: set<Coord>, j: nat,
                     arena': seq<Node>, open': seq<nat>)
    requires OpenOk(arena, open) && OpenOk(arena', open')
    requires j < |open| && arena[open[j]].Cell() in closed
    requires arena <= arena' && RemoveAt(open, j) <= open'
    requires forall i :: |open| - 1 <= i < |open'| ==> arena'[open'[i]].Cell() !in closed
    ensures StaleCount(arena', open', closed) < StaleCount(arena, open, closed)
  {
    var open1 := RemoveAt(open, j);
    var tail := open'[|open1|..];
    assert open' == open1 + tail;
    StaleCountRemove(arena, open, j, closed);
    StaleCountGrow(arena, arena', open1, closed);
    StaleCountFresh(arena', tail, closed);
    StaleCountAppend(arena', open1, tail, closed);
  }

  /** One iteration lowers the termination measure of the search loop, lexicographically. */
  lemma StepMeasure(grid: array2<int>, start: Coord, end: Coord, arena: seq<Node>, open: seq<nat>,
                    closed: set<Coord>, gclosed: map<Coord, int>, k: nat, j: nat,
                    arena': seq<Node>, open': seq<nat>)
    requires SearchInv(grid, start, end, arena, open, closed, gclosed)
    requires k < |open|
    requires IsFirstAt(arena, open, arena[open[k]].Cell(), j)
    requires OpenOk(arena', open')
    requires arena <= arena' && RemoveAt(open, j) <= open'
    requires forall i :: |open| - 1 <= i < |open'| ==> arena'[open'[i]].Cell() !in closed + {arena[open[k]].Cell()}
    ensures var closed' := closed + {arena[open[k]].Cell()};
      || |Cells(grid, start) - closed'| < |Cells(grid, start) - closed|
      || (closed' == closed && StaleCount(arena', open', closed') < StaleCount(arena, open, closed))
  {
    var c := arena[open[k]].Cell();
    if c in closed {
      StaleShrinks(arena, open, closed, j, arena', open');
      assert closed + {c} == closed;
    } else {
      CloseShrinks(grid, start, end, arena, closed, open[k]);
    }
  }

  /**
   * One iteration of the search keeps the loop invariant and lowers the
   * termination measure.
   */
  lemma IterationStep(grid: array2<int>, start: Coord, end: Coord, arena: seq<Node>, open: seq<nat>,
                      closed: set<Coord>, gclosed: map<Coord, int>, k: nat, j: nat,
                      arena': seq<Node>, open': seq<nat>)
    requires SearchInv(grid, start, end, arena, open, closed, gclosed)
    requires IsFirstMin(arena, open, k)
    requires arena[open[k]].Cell() != end
    requires IsFirstAt(arena, open, arena[open[k]].Cell(), j)
    requires Expanded(grid, start, end, arena, RemoveAt(open, j), closed + {arena[open[k]].Cell()}, open[k], arena', open')
    ensures var c := arena[open[k]].Cell();
      SearchInv(grid, start, end, arena', open', closed + {c}, Record(gclosed, c, arena[open[k]].g))
    ensures var closed' := closed + {arena[open[k]].Cell()};
      || |Cells(grid, start) - closed'| < |Cells(grid, start) - closed|
      || (closed' == closed && StaleCount(arena', open', closed') < StaleCount(arena, open, closed))
  {
    var open1 := RemoveAt(open, j);
    assert |open1| == |open| - 1;
    forall i | |open| - 1 <= i < |open'|
      ensures open'[i] >= |arena|
    {
      assert open'[i] == |arena| + (i - |open1|);
    }
    StepPreserves(grid, start, end, arena, open, closed, gclosed, k, j, arena', open');
    StepMeasure(grid, start, end, arena, open, closed, gclosed, k, j, arena', open');
  }

  /**
   * When the node expanded next sits on the goal, its parent chain is a
   * shortest walk from the start to the goal; it is the start node alone
   * when the start is the goal.
   */
  lemma GoalChain(grid: array2<int>, start: Coord, end: Coord, arena: seq<Node>, open: seq<nat>,
                  closed: set<Coord>, gclosed: map<Coord, int>, k: nat)
    requires SearchInv(grid, start, end, arena, open, closed, gclosed)
    requires IsFirstMin(arena, open, k)
    requires arena[open[k]].Cell() == end
    ensures WalkTo(grid, start, end, ChainTo(arena, open[k]))
    ensures forall w :: WalkTo(grid, start, end, w) ==> |ChainTo(arena, open[k])| <= |w|
    ensures start == end ==> ChainTo(arena, open[k]) == [start]
  {
    ChainWalk(grid, start, end, arena, open[k]);
    PopIsOptimal(grid, start, end, arena, open, closed, gclosed, k);
    if closed == {} {
      assert open[k] == 0;
    }
  }

  /** Every passable cell one move away from a cell of `s` is in `s`. */
  ghost predicate ClosedUnderMoves(grid: array2<int>, s: set<Coord>)
    reads grid
  {
    forall c, jd :: c in s && 0 <= jd < |Directions| && IsValid(grid, Step(c, Directions[jd]).0, Step(c, Directions[jd]).1)
      ==> Step(c, Directions[jd]) in s
  }

  /**
   * When the open list runs empty, the closed cells contain the start and
   * every passable neighbour of a closed cell, but not the goal: no walk
   * leads from the start to the goal.
   */
  lemma ExhaustedUnreachable(grid: array2<int>, start: Coord, end: Coord, arena: seq<Node>,
                             closed: set<Coord>, gclosed: map<Coord, int>)
    requires SearchInv(grid, start, end, arena, [], closed, gclosed)
    ensures !Reachable(grid, start, end)
  {
    forall c, jd | c in closed && 0 <= jd < |Directions| && IsValid(grid, Step(c, Directions[jd]).0, Step(c, Directions[jd]).1)
      ensures Step(c, Directions[jd]) in closed
    {
      assert Frontier(grid, arena, [], closed, c, gclosed[c]);
      assert Covered(grid, arena, [], closed, Step(c, Directions[jd]), gclosed[c] + 1);
    }
    forall w | WalkTo(grid, start, end, w)
      ensures false
    {
      WalkInside(grid, closed, w, |w| - 1);
    }
  }

  /** A walk that starts in a set closed under moves stays in it. */
  lemma {:induction false} WalkInside(grid: array2<int>, s: set<Coord>, w: seq<Coord>, i: nat)
    requires ClosedUnderMoves(grid, s)
    requires IsWalk(grid, w) && w[0] in s && i < |w|
    ensures w[i] in s
  {
    if i > 0 {
      WalkInside(grid, s, w, i - 1);
      assert Adjacent(w[i - 1], w[i]);
      var jd := AdjacentDirection(w[i - 1], w[i]);
    }
  }
}
