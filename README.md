# A* grid path finding, modelled in Dafny

This project models `AStar.FindPath` from `algorithms/Searching/A_star.cs`. It is an A* search on a
rectangular integer grid, where a cell holding 0 is passable and any other value is an obstacle. The
search moves in the four directions right, down, left and up. It returns the cells of a path from
`start` to `end`, or nothing when the open list runs empty.

The model keeps the shape of the C# code:

- **Grid** (`grid.dfy`):
  - The grid is an `array2<int>` that is only read.
  - `Directions` holds the four moves in the source's order.
  - `IsValid` is the source's bounds-and-passable test.
  - The heuristic is the Manhattan distance to the goal.
  - Walks over the grid and reachability are defined here. They are the reference the search is proved
    against.
- **Nodes** (`nodes.dfy`):
  - A `Node` carries X, Y, G, H and a parent.
  - `F()` is G + H.
  - The source's `Equals` compares only the cell. The model compares `Cell()` wherever the source calls
    `Equals`, while `==` on the `Node` datatype compares all five fields.
  - Nodes live in an arena (a sequence). A parent is the index of an earlier node, so following parents
    always ends at the start node.
- **Open list** (`open_list.dfy`):
  - The open list is a sequence of arena indices, in insertion order.
  - `SelectMin` picks the first entry of least F. That is the element `OrderBy(n => n.F).First()`
    yields, since the sort is stable.
  - `FindFirst` finds the first entry on a given cell. Both `FirstOrDefault(n => n.Equals(neighbor))` and
    `openSet.Remove(current)` do this, because both compare by coordinates only.
- **Expansion** (`expansion.dfy`): `TryMove` handles one move of the `foreach` loop, and `Expand` tries all
  four moves.
- **Search invariants** (`search_invariants.dfy`): the loop invariant of the search, and the lemmas that
  show it is kept, that the loop terminates and that its results are correct.
- **Search** (`astar.dfy`): `FindPath` and `ReconstructPath`.

What is proved about `FindPath`:

- every path it returns is a walk from `start` to `end` through passable cells;
- no walk from `start` to `end` is shorter than the returned path;
- it returns nothing exactly when no such walk exists;
- when `start == end`, it returns `[start]`;
- it terminates. The measure is the number of cells not yet closed, then the number of open entries whose
  cell is already closed.

Optimality rests on the Manhattan heuristic being consistent: one move changes it by at most one. The
proof also covers the source's duplicate open entries, which are appended rather than replaced.

The model follows the C# code in three places where one might expect otherwise:

- **The start cell is never tested.** The start node goes on the open list without a call to
  `IsValid`, and it is expanded unconditionally. So a start cell that is blocked or outside the grid
  can still yield a path. For that reason a walk's first cell need not be passable.
- **A cheaper neighbour is added as an extra entry.** It does not replace the existing entry for its
  cell. Removing the selected node removes the oldest entry on its cell, which need not be the selected
  entry: when the newer, cheaper entry is selected, the older, dearer one is removed and the cheaper one
  stays. An entry left on a cell that is already closed is not skipped when it is selected later. It is
  expanded again with its own G, and that expansion may append further entries. Closing a cell twice
  keeps the cell's first cost.
- **The start node's H is 0,** not the Manhattan distance to the goal. Only neighbours get an H.

## Model

| member | source | states |
|---|---|---|
| Grid.IsValid | algorithms/Searching/A_star.cs:79-82 | a cell may be entered exactly when both coordinates are non-negative, below the grid's two dimensions, and the cell holds 0 |
| Nodes.Node.F | algorithms/Searching/A_star.cs:11 | a node's priority is its cost so far plus its heuristic |
| Grid.ValidCellsExact | algorithms/Searching/A_star.cs:79-82 | a cell is among the passable cells exactly when `IsValid` accepts its coordinates |
| Grid.AdjacentManhattan | algorithms/Searching/A_star.cs:33-36 | one move of `Directions` is at Manhattan distance 1 and changes the distance to any goal by at most one (the heuristic is consistent) |
| Grid.WalkManhattan | algorithms/Searching/A_star.cs:66 | the Manhattan distance between two cells of a walk is at most the number of moves between them (the heuristic never overestimates) |
| Grid.WalkLength | algorithms/Searching/A_star.cs:66 | every walk between two cells has at least their Manhattan distance plus one cells |
| Grid.StraightWalkOk | algorithms/Searching/A_star.cs:33-36 | on a grid with no obstacles, moving along x and then along y joins two in-bounds cells with Manhattan distance plus one cells |
| Grid.ObstacleFreeShortest | algorithms/Searching/A_star.cs:57-67 | on a grid with no obstacles, a shortest walk between two in-bounds cells has exactly their Manhattan distance plus one cells |
| Nodes.ChainWalk | algorithms/Searching/A_star.cs:63-67 | following parent links from any created node gives a walk from the start to that node's cell with exactly G + 1 cells |
| Nodes.ArenaAppend | algorithms/Searching/A_star.cs:63-67 | a new node whose parent already exists, one move away, on a passable cell, with G one more than the parent's and H the Manhattan distance to the goal keeps every node well formed |
| OpenList.SelectMin | algorithms/Searching/A_star.cs:49 | the selected entry has the least F of the open list, and every entry before it has a strictly greater F (first minimum, as a stable sort gives) |
| OpenList.FindFirst | algorithms/Searching/A_star.cs:20-23 | the result is the first open entry whose cell equals the given cell, or None when no entry has that cell |
| OpenList.RemoveAt | algorithms/Searching/A_star.cs:54 | removing entry j shortens the list by one and keeps every other entry, in order: the entries before j stay in place and those after it move up by one |
| OpenList.OpenOkRemove | algorithms/Searching/A_star.cs:54 | removing an entry from the open list leaves every remaining entry a valid node index |
| OpenList.StaleCountRemove | algorithms/Searching/A_star.cs:54 | removing an entry on a closed cell lowers the number of open entries on closed cells by one |
| Expansion.Candidate | algorithms/Searching/A_star.cs:63-67 | the neighbour created for a move: one of the four moves away from the current node (when the move is one of `Directions`), with the current node as parent, G one more than the parent's and H the Manhattan distance to the goal |
| Expansion.Admits | algorithms/Searching/A_star.cs:60-73 | a neighbour joins the open list exactly when its cell is passable and not closed, and either no open entry is on its cell or the first entry on its cell has a greater G; an existing entry is never replaced |
| Expansion.TryMove | algorithms/Searching/A_star.cs:59-73 | the neighbour is appended exactly when it is passable, not closed, and has no open entry or only a first open entry of greater G; afterwards the neighbour, if passable and not closed, has an open entry of cost at most the current G + 1 |
| Expansion.Expand | algorithms/Searching/A_star.cs:57-74 | the nodes and open entries appended are the admitted neighbours in move order, none on a closed cell, and every passable unclosed neighbour of the expanded node has an open entry of cost at most G + 1 |
| SearchInvariants.SearchInvInit | algorithms/Searching/A_star.cs:40-45 | the initial state (the start node alone on the open list, nothing closed) satisfies the loop invariant |
| SearchInvariants.NodeInCells | algorithms/Searching/A_star.cs:60 | every node ever created sits on a passable cell or on the start cell |
| SearchInvariants.PopIsOptimal | algorithms/Searching/A_star.cs:49 | when the selected node's cell is not yet closed, no walk from the start reaches that cell in fewer moves than its G |
| SearchInvariants.StepPreserves | algorithms/Searching/A_star.cs:47-74 | one iteration that does not reach the goal keeps the loop invariant: every closed cell's first cost is optimal, and every passable neighbour of a closed cell is closed or has a cheap enough open entry |
| SearchInvariants.StepMeasure | algorithms/Searching/A_star.cs:54-55 | one iteration either closes a new cell or removes an open entry on an already-closed cell, so the loop terminates |
| SearchInvariants.IterationStep | algorithms/Searching/A_star.cs:47-74 | one full iteration (select, remove, close, expand) keeps the loop invariant and lowers the termination measure |
| SearchInvariants.GoalChain | algorithms/Searching/A_star.cs:51-52 | when the selected node is on the goal, its parent chain is a shortest walk from the start to the goal, and it is the start alone when the start is the goal |
| SearchInvariants.ExhaustedUnreachable | algorithms/Searching/A_star.cs:76 | when the open list is empty, no walk leads from the start to the goal |
| SearchInvariants.WalkInside | algorithms/Searching/A_star.cs:57-61 | a walk that starts in a set of cells containing every passable neighbour of its members stays in that set |
| AStar.Reverse | algorithms/Searching/A_star.cs:92 | the reversal has the same length, and its i-th element is the input's i-th element from the end |
| AStar.ReconstructPath | algorithms/Searching/A_star.cs:84-94 | the path is the chain of cells from the root to the node, following parent links, root first |
| AStar.FindPath | algorithms/Searching/A_star.cs:38-77 | a returned path is a walk from start to end and no walk is shorter; the result is empty exactly when the end is unreachable; start == end yields the start alone |

## Left out

- `Program.Main` and its console output: these are I/O around the algorithm.
- `Node.GetHashCode` and the hashing of `HashSet<Node>`: the closed set is a mathematical set of cells. This
  gives the same membership, because hash and equality both use the coordinates only.
- AStar.FindPath: does not model 32-bit wrap-around. Coordinates, G and H are unbounded integers. The
  source's `int` arithmetic (`current.X + dx`, `current.G + 1`, `Math.Abs` of `int.MinValue`) could
  overflow only on grids and coordinates near 2^31.
- AStar.FindPath: returns the cells of the path rather than the `Node` objects. The G of the i-th node on
  the returned path is i (see `Nodes.ChainWalk`), and its H is determined by its cell.
- `OrderBy(...).First()` is modelled as a linear scan for the first minimum. It yields the same element;
  the cost of sorting is not modelled.
- `List.Reverse` in `ReconstructPath` is modelled by a function on sequences, not an in-place reversal.
- Object identity: nodes are values in an arena and compared by cell, as the source's `Equals` does.
  Aliasing between `Node` objects is not modelled.
- Node objects that the source creates only to probe the closed set, or as neighbours that are then not
  added, leave no trace in the arena.
