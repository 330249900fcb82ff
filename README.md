# Maze generation and solving, modelled in Dafny

This project models the logic of a small Java desktop program. The program:
- builds an n-by-n grid of cells;
- carves a perfect maze into it with a randomized depth-first search (the "recursive backtracker"), driven by an explicit stack and advanced one step per timer tick;
- opens the outer walls of the entry corner (0, 0) and the exit corner (n - 1, n - 1);
- solves the maze with a stack-based depth-first search that records each cell's predecessor in `cameFrom`, then follows predecessors back from the exit and reverses the result.

The model has four modules.

- `Cells` (`cells.dfy`) holds the shared grid model:
  - positions;
  - the cell record (coordinates, visited flag, neighbour list, four wall flags);
  - the neighbour lists the construction produces;
  - `isWallBetween`, and `removeWall` and the boundary opening as functions on a `Board`, which maps every position to its cell record;
  - the shared-wall invariant and the lemmas that it is kept.
- `Paths` (`paths.dfy`) holds open paths and reachability along the solver's edge relation. It also holds two pieces of `findPath`'s proof:
  - the soundness of the `cameFrom` predecessor map;
  - the search invariant and the lemmas for one turn of its loop.
- `Generation` (`generation.dfy`) holds one generation step as a function `GenStep` over a `GenState` (board and stack). It also holds:
  - the generation invariant `GenInv` and the proof that every step keeps it;
  - the termination measure;
  - the facts that hold once the stack is empty.
- `MazeGen` (`maze.dfy`) holds the class `Maze`, which corresponds to `Main`:
  - Fields: `grid`, a mutable `array2` of cell records, and the generator's `stack`.
  - Constructor: `initializeGrid` followed by the start of `dfsGenerateMaze`.
  - `Step(pick)`: one timer tick.
  - The per-cell methods `setVisited` and `remove*Wall`; also `removeWall`, `getUnvisitedNeighbors` and `findPath`.

  Each method is proved against the value-level definitions. The ghost field `board` is the grid read as a `Board`, and `Synced()` ties the two together. For example, `RemoveWall` ensures `board == WallRemoved(old(board), current, next)`, and `Step` ensures the new state is `GenStep` of the old one.

The random choice `new Random().nextInt(k)` is a parameter `pick` of `Step`. Its precondition `PickInRange` says it is a value `nextInt(k)` may return.

The code does not guard a non-positive grid size, because it reads `grid[0][0]` right after construction. The model therefore requires `n >= 1` instead of inventing an error. Likewise, `findPath` returns an empty list when the exit cannot be reached, and the model does the same. It also proves that this never happens after generation.

## Model

| member | source | states |
|---|---|---|
| Cells.PositionsSize | src/Main.java:38-43 | The grid has exactly n * n cells. |
| Cells.NeighborsOf | src/Main.java:44-52 | The neighbour list of an in-bounds cell holds exactly the in-bounds cells at Manhattan distance 1. It has no repeats and at most four entries. |
| Cells.NeighborsSymmetric | src/Main.java:44-52 | q is a neighbour of p exactly when p is a neighbour of q. |
| Cells.Cleared | src/Main.java:198-216 | Clearing one side makes that wall absent. Every other wall, the coordinates, the visited flag and the neighbour list are unchanged. |
| Cells.IsWallBetween | src/Main.java:128-142 | For a neighbour across side s, the result is the current cell's flag on side s. When neither delta is one step, the result is true. |
| Cells.WallBetweenSymmetric | src/Main.java:128-142 | Under the shared-wall invariant, isWallBetween returns the same answer in both directions for adjacent cells. |
| Cells.WallRemoved | src/Main.java:150-167 | For next across side s of current, current's flag on s and next's opposite flag are cleared. No other cell changes, walls are only cleared, and the board is unchanged when neither delta is one step. |
| Cells.WallRemovedKeepsSymmetry | src/Main.java:150-167 | On an adjacent pair, removeWall keeps the shared-wall invariant, and the wall then reads as open from both sides. |
| Cells.BoundaryOpened | src/Main.java:79-83 | The entry loses its left and top walls and the exit its right and bottom walls. Their other walls, every other cell and every visited flag are unchanged. |
| Cells.BoundaryKeepsSymmetry | src/Main.java:79-83 | The boundary opening keeps the shared-wall invariant, because it touches only walls on the outer frame. |
| Paths.Reverse | src/Main.java:113 | Collections.reverse: the same length, with element i taken from position length - 1 - i. |
| Paths.RecordKeepsSound | src/Main.java:117-121 | Recording an unrecorded neighbour reached over an open wall, with the current cell as its predecessor, keeps the predecessor map sound. |
| Paths.GrownVisit | src/Main.java:117-121 | One turn of the neighbour loop keeps its promise. The map stays sound and only grows, the old frontier stays a prefix, and every newly recorded cell is pushed. |
| Paths.ReversedChainIsPath | src/Main.java:108-113 | Reversing a predecessor chain gives an open path that repeats no cell. |
| Paths.TracePath | src/Main.java:108-114 | Following cameFrom back from a recorded target, then reversing, gives an open path from the root to target that repeats no cell. |
| Paths.SearchStart | src/Main.java:101-102 | The search starts from the entry alone, recorded with no predecessor, and its invariant holds. |
| Paths.SearchStep | src/Main.java:105-122 | Popping a cell that is not the target and discovering its neighbours keeps the search invariant with that cell now expanded. Either fewer cells are unrecorded, or as many are and the frontier is shorter. |
| Paths.ClosedSetBlocks | src/Main.java:104-125 | When a set holds the start, lacks the target and is closed under the solver's edges, no open path joins the start to the target. |
| Paths.SearchExhausted | src/Main.java:104-125 | When the frontier empties, the exit is unreachable from the entry. |
| Cells.FreshCell | src/Main.java:171-181 | A cell as the constructor and the field initialisers leave it, once the second pass of initializeGrid has linked it. It has its own coordinates, is not visited and has all four walls. For an in-bounds cell, its neighbours are exactly the in-bounds cells adjacent to it. |
| Generation.UnvisitedAmong | src/Main.java:188-196 | The result holds exactly the listed neighbours that are unvisited, and is no longer than the list. |
| Generation.Choices | src/Main.java:65-67 | The candidates of a step are exactly the unvisited cells of the board in the top cell's neighbour list. There are at most four. |
| Generation.PickInRange | src/Main.java:69 | Every pick is allowed when there is no candidate. An allowed pick on a non-empty list indexes into it and names an unvisited neighbour of the top cell. |
| Generation.GenStep | src/Main.java:64-76 | A tick keeps the board's cells. With candidates, it pushes the picked one and leaves it visited. Without candidates, it pops the top and leaves the board unchanged. |
| Generation.FreshBoard | src/Main.java:37-53 | The grid after initializeGrid has exactly the n * n positions. Every cell is at its own position, unvisited and walled on all sides, with the construction's neighbour list. |
| Generation.InitialBoard | src/Main.java:57 | The fresh board with the entry marked visited and still fully walled. No other cell changes. |
| Generation.InitialState | src/Main.java:55-58 | Generation starts with the entry alone on the stack, already visited. |
| Generation.InitialMeasure | src/Main.java:55-58 | The starting measure is 2 * n * n - 1, so the stack empties within that many ticks. |
| Generation.InitialWellFormed | src/Main.java:171-173 | The board after construction is well formed and wall-symmetric. Every cell has all four walls, and only the entry is visited once generation starts. |
| Generation.InitialStateValid | src/Main.java:55-58 | With the entry visited and alone on the stack, the generation invariant holds. |
| Generation.PickedCell | src/Main.java:67-69 | The picked cell is a neighbour of the top cell and adjacent to it. It is unvisited, has all its walls, and is not on the stack. |
| Generation.CarvedCounts | src/Main.java:70-71 | Carving visits exactly one more cell and opens exactly one more internal wall. |
| Generation.CarveStep | src/Main.java:68-72 | A carving step keeps the invariant. It pushes the picked cell, changes only the two cells involved, opens the wall between them both ways, and adds one visited cell and one open wall. |
| Generation.BacktrackStep | src/Main.java:74-76 | When the top cell has no unvisited neighbour, the step pops it, leaves the board as it was and keeps the invariant. |
| Generation.StepKeepsInvariant | src/Main.java:64-76 | Every step keeps the invariant, only clears walls, never resets visited, and lowers 2 * unvisited + stack size. It either carves towards exactly one unvisited neighbour or pops with no board change. |
| Generation.CarveTick | src/Main.java:68-72 | The state after marking, opening and pushing is GenStep of the old one. It satisfies the invariant and has a smaller measure. |
| Generation.PopTick | src/Main.java:74-76 | The state after popping is GenStep of the old one. It satisfies the invariant and has a smaller measure. |
| Generation.AllVisited | src/Main.java:64-77 | With the invariant and an empty stack, every cell is visited. |
| Generation.GenerationComplete | src/Main.java:64-77 | When the stack is empty, all n * n cells are visited, exactly n * n - 1 internal walls are open, and the exit is reachable from the entry. |
| Generation.BoundaryKeepsInvariant | src/Main.java:79-83 | The boundary opening keeps the invariant and the number of open internal walls. |
| Generation.FinishTick | src/Main.java:77-87 | After the boundary opening, every cell is still visited, n * n - 1 internal walls are open, the invariant holds and the exit is reachable. |
| MazeGen.Blank | src/Main.java:171-181 | A cell straight after `new Cell(row, col)`: its coordinates, not visited, no neighbours and all four walls. |
| MazeGen.Maze.constructor | src/Main.java:16-27 | After construction and the start of generation, the grid is newly allocated, the state is the initial state and the invariant holds. |
| MazeGen.Maze.InitializeGrid | src/Main.java:37-53 | The grid holds the fresh board: every cell has its coordinates, its in-bounds up/down/left/right neighbours in that order, all walls, and is not visited. |
| MazeGen.Maze.LinkNeighbors | src/Main.java:44-52 | The second pass turns every blank cell into its fresh record with its neighbour list. |
| MazeGen.Maze.LinkRow | src/Main.java:45-51 | One row of the second pass links that row's cells and leaves the other rows alone. |
| MazeGen.Maze.LinkCell | src/Main.java:46-50 | One cell gets its neighbour list appended, and no other cell changes. |
| MazeGen.Maze.AddNeighbors | src/Main.java:47-50 | The appended neighbours are NeighborsOf the cell. |
| MazeGen.Maze.StartGeneration | src/Main.java:56-58 | The entry is marked visited and pushed. The state is the initial state, in which the invariant holds. |
| MazeGen.Maze.Step | src/Main.java:64-89 | On a non-empty stack, the tick performs GenStep, keeps the invariant, lowers the measure and reports a carve towards the picked neighbour or a backtrack. On an empty stack, it opens the boundary and returns a solution; by then every cell is visited and n * n - 1 internal walls are open. |
| MazeGen.Maze.Advance | src/Main.java:64-76 | The tick on a non-empty stack performs GenStep, keeps the invariant, lowers the measure and reports what it did. |
| MazeGen.Maze.Forward | src/Main.java:68-73 | The carving half of a tick performs GenStep and keeps the invariant. |
| MazeGen.Maze.Backtrack | src/Main.java:74-76 | The backtracking half of a tick performs GenStep and keeps the invariant. |
| MazeGen.Maze.Carve | src/Main.java:70-72 | Marks next visited, removes the wall towards it and pushes it. The board becomes WallRemoved of the marked board. |
| MazeGen.Maze.Pop | src/Main.java:75 | Pops the top of the stack and leaves the grid unchanged. |
| MazeGen.Maze.Finish | src/Main.java:77-88 | The boundary is opened and the invariant still holds. The returned path is a solution and every cell is visited. |
| MazeGen.Maze.SetVisited | src/Main.java:183-186 | Only the visited flag of the cell changes. |
| MazeGen.Maze.RemoveTopWall | src/Main.java:198-201 | Only the top wall of the cell is cleared. |
| MazeGen.Maze.RemoveRightWall | src/Main.java:203-206 | Only the right wall of the cell is cleared. |
| MazeGen.Maze.RemoveBottomWall | src/Main.java:208-211 | Only the bottom wall of the cell is cleared. |
| MazeGen.Maze.RemoveLeftWall | src/Main.java:213-216 | Only the left wall of the cell is cleared. |
| MazeGen.Maze.RemoveWall | src/Main.java:150-167 | The grid becomes WallRemoved of the old grid. |
| MazeGen.Maze.GetUnvisitedNeighbors | src/Main.java:188-196 | Returns the cell's unvisited neighbours in list order. |
| MazeGen.Maze.UnvisitedIn | src/Main.java:189-195 | The loop collects exactly the unvisited cells of the list, in order. |
| MazeGen.Maze.OpenBoundary | src/Main.java:79-83 | The grid becomes BoundaryOpened of the old grid. |
| MazeGen.Maze.Discover | src/Main.java:117-122 | The neighbour loop keeps the map sound and pushes what it records. Afterwards every cell one open wall away from the popped cell is recorded. |
| MazeGen.Maze.Expand | src/Main.java:105-122 | One turn of the search loop on a cell other than the exit keeps the search invariant and makes progress. |
| MazeGen.Maze.FindPath | src/Main.java:96-126 | The result is empty exactly when no open path joins the entry to the exit. Otherwise it is a solution: it starts at the entry, ends at the exit, every step crosses an open wall, and no cell repeats. When n = 1 it is [(0, 0)]. |

## Left out

The following are outside the model:
- Rendering. The window and panel setup, `gridPanel.add`, `repaint`, `revalidate`, `setBackground`, `setPreferredSize`, `updateWalls`/`setBorder` and `drawPath` only draw; the state they touch is not part of this model.
- Timing. The `javax.swing.Timer` scheduling is replaced by calls to `Step`. After the stack empties, the source stops its timer, so no further tick runs. In the model, a further `Step` on the empty stack would open the already-open boundary again and solve the maze again.
- Randomness. `java.util.Random` is a caller-supplied `pick`; its distribution is not modelled.
- Input. `main`, with its input dialog, `Integer.parseInt` and the error message for malformed input, is UI plumbing.
- Object identity and `HashMap` hashing. Cells are identified by their `(row, col)` position, so a neighbour list holds positions rather than cell references. `cameFrom` is a map keyed by position, and `None` stands for the `null` predecessor of the entry.
- Data layout. A cell is an immutable record stored in a mutable `array2` of the `Maze` class. An update to a cell replaces its record in place.
- Maze shape. The model proves that a finished maze has n * n - 1 open internal walls and that every cell is reachable from the entry. It does not prove that these two facts make the maze a tree with a unique path between any two cells.
- Diagonal pairs. `IsWallBetween` and `WallRemoved` follow the code: they look at the column delta first and the row delta second. A pair with a column delta of ±1 therefore reads or clears a flag even when it is not 4-adjacent. Their contracts promise "true" or "no change" only when neither delta is ±1. All callers pass 4-adjacent pairs only, and every property of generation and solving is proved for those.
- Error kinds. An `InvalidSizeError` or `UnreachableExitError` is something the code does not have. The model follows the code: it requires n >= 1 and returns an empty path when the exit is unreachable. It also proves that after generation the path is never empty.
