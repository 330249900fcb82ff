/**
 * The maze window's state and the code that changes it in place: the grid
 * of cell records, its construction, the per-cell wall and visited
 * updates, removeWall, getUnvisitedNeighbors, the timer tick that drives
 * generation, the boundary opening at its end and the path search.
 *
 * The ghost field `board` is the grid read as a map from positions to cell
 * records; Synced() ties the two together. Each method is proved against
 * the value-level definitions of the Cells, Paths and Generation modules:
 * its effect on `board` is the corresponding function of the old board.
 */
module MazeGen {
  import opened Cells
  import opened Paths
  import opened Generation

  /** What one timer tick did: carved from one cell into another, backtracked from a cell, or finished with a path. */
  datatype Event = Carved(from: Pos, to: Pos) | Backtracked(from: Pos) | Finished(path: seq<Pos>)

  /** A cell right after `new Cell(row, col)`: all walls present, not visited, no neighbours yet. */
  function Blank(row: int, col: int): (c: Cell)
    ensures At(c) == Pos(row, col) && !c.visited && c.neighbors == [] && AllWalls(c)
  {
    Cell(row, col, false, [], true, true, true, true)
  }

  class Maze {
    /** gridSize */
    const n: nat
    /** grid[row][col]: the cell records, updated in place */
    const grid: array2<Cell>
    /** The generator's stack, top last; `dfsGenerateMaze` keeps it in the timer's closure. */
    var stack: seq<Pos>
    /** The grid as a board: the record at each position. */
    ghost var board: Board

    ghost predicate Sized()
    {
      grid.Length0 == n && grid.Length1 == n
    }

    /** b records the grid: each of its positions is in the grid and holds the record there. */
    ghost predicate Mirrors(b: Board)
      reads grid
    {
      Sized() && forall p {:trigger p in b} :: p in b ==> InBounds(n, p) && b[p] == grid[p.row, p.col]
    }

    /** The board has exactly the grid's positions and records the grid. */
    ghost predicate Synced()
      reads this`board, grid
    {
      board.Keys == Positions(n) && Mirrors(board)
    }

    /** The grid is a well-formed n-by-n board with n at least 1. */
    ghost predicate Shaped()
      reads this`board, grid
    {
      Synced() && n >= 1 && WellFormed(n, board)
    }

    ghost function State(): GenState
      reads this
    {
      GenState(board, stack)
    }

    /** The generation invariant holds of the grid and the stack. */
    ghost predicate Valid()
      reads this, grid
    {
      Synced() && n >= 1 && GenInv(n, State())
    }

    /**
     * new Main(gridSize) up to the first timer tick: the grid is built, the
     * entry cell is marked visited and pushed.
     */
    constructor (size: nat)
      requires size >= 1
      ensures n == size
      ensures fresh(grid)
      ensures Valid()
      ensures State() == InitialState(n)
    {
      n := size;
      grid := new Cell[size, size];
      new;
      InitializeGrid();
      StartGeneration();
    }

    /**
     * dfsGenerateMaze(grid[0][0]) up to the start of the timer: the entry
     * cell is marked visited and becomes the only cell on the stack.
     */
    method StartGeneration()
      requires Synced() && n >= 1 && board == FreshBoard(n)
      modifies this, grid
      ensures Valid()
      ensures State() == InitialState(n)
    {
      stack := [Entry];
      SetVisited(Entry, true);
      assert InBounds(n, Entry) && State() == InitialState(n);
      InitialStateValid(n);
    }

    /**
     * One tick of the generation timer. On a non-empty stack it peeks the
     * top cell; when some neighbour is unvisited, the one at index pick of
     * getUnvisitedNeighbors (the value of nextInt) is marked visited, the
     * wall towards it removed and it is pushed; otherwise the top is
     * popped. Either way the step is GenStep, the invariant holds again and
     * the measure drops. On an empty stack the entry and exit corners are
     * opened and the solver runs; by then every cell is visited, n * n - 1
     * internal walls are open and the solver returns a solution.
     */
    method Step(pick: nat) returns (e: Event)
      requires Valid()
      requires stack != [] ==> PickInRange(n, State(), pick)
      modifies this, grid
      ensures Valid()
      ensures old(stack) != [] ==> State() == GenStep(n, old(State()), pick)
      ensures old(stack) != [] ==> Measure(State()) < Measure(old(State()))
      ensures old(stack) != [] ==>
                e == if Choices(n, old(State())) != []
                     then Carved(Peek(old(stack)), Choices(n, old(State()))[pick])
                     else Backtracked(Peek(old(stack)))
      ensures old(stack) == [] ==> stack == [] && board == BoundaryOpened(n, old(board))
      ensures old(stack) == [] ==>
                && e.Finished? && IsSolution(n, board, e.path)
                && (forall p :: p in board ==> board[p].visited)
                && OpenEdgeCount(board) == n * n - 1
    {
      if stack != [] {
        e := Advance(pick);
      } else {
        e := Finish();
      }
    }

    /** The tick on a non-empty stack: carve towards the picked unvisited neighbour of the top cell, or pop. */
    method Advance(pick: nat) returns (e: Event)
      requires Valid() && stack != [] && PickInRange(n, State(), pick)
      modifies this, grid
      ensures Valid()
      ensures State() == GenStep(n, old(State()), pick)
      ensures Measure(State()) < Measure(old(State()))
      ensures e == if Choices(n, old(State())) != []
                   then Carved(Peek(old(stack)), Choices(n, old(State()))[pick])
                   else Backtracked(Peek(old(stack)))
    {
      ghost var s := State();
      var current := stack[|stack| - 1];
      var unvisited := GetUnvisitedNeighbors(current);
      assert current == Peek(s.stack) && unvisited == Choices(n, s);
      if unvisited != [] {
        var next := unvisited[pick];
        Forward(pick, current, next);
        e := Carved(current, next);
      } else {
        Backtrack(pick);
        e := Backtracked(current);
      }
    }

    /** The carving half of a tick: next, the picked unvisited neighbour of the top cell current, is visited, opened towards and pushed. */
    method Forward(pick: nat, current: Pos, next: Pos)
      requires Valid() && stack != [] && PickInRange(n, State(), pick) && Choices(n, State()) != []
      requires current == Peek(stack) && next == Choices(n, State())[pick]
      modifies this, grid
      ensures Valid()
      ensures State() == GenStep(n, old(State()), pick)
      ensures Measure(State()) < Measure(old(State()))
    {
      ghost var s := State();
      PickedCell(n, s, pick);
      Carve(current, next);
      CarveTick(n, s, pick, State());
    }

    /** The backtracking half of a tick: the top cell has no unvisited neighbour and is popped. */
    method Backtrack(pick: nat)
      requires Valid() && stack != [] && PickInRange(n, State(), pick) && Choices(n, State()) == []
      modifies this
      ensures Valid()
      ensures State() == GenStep(n, old(State()), pick)
      ensures Measure(State()) < Measure(old(State()))
    {
      ghost var s := State();
      Pop();
      PopTick(n, s, pick, State());
    }

    /** next is marked visited, the wall between current and next removed, and next pushed. */
    method Carve(current: Pos, next: Pos)
      requires Synced() && InBounds(n, current) && InBounds(n, next)
      modifies this, grid
      ensures Synced() && stack == old(stack) + [next]
      ensures board == WallRemoved(old(board)[next := old(board)[next].(visited := true)], current, next)
    {
      SetVisited(next, true);
      RemoveWall(current, next);
      stack := stack + [next];
    }

    /** The top of the stack is popped; the grid is untouched. */
    method Pop()
      requires Synced() && stack != []
      modifies this
      ensures Synced() && board == old(board) && stack == old(stack)[..|old(stack)| - 1]
    {
      stack := stack[..|stack| - 1];
    }

    /** The tick on an empty stack: open the entry and exit corners, then solve. */
    method Finish() returns (e: Event)
      requires Valid() && stack == []
      modifies this, grid
      ensures Valid() && stack == [] && board == BoundaryOpened(n, old(board))
      ensures && e.Finished? && IsSolution(n, board, e.path)
              && (forall p :: p in board ==> board[p].visited)
              && OpenEdgeCount(board) == n * n - 1
    {
      ghost var s := State();
      OpenBoundary();
      FinishTick(n, s, State());
      var path := FindPath();
      e := Finished(path);
    }

    /** Overwrite the record at p. */
    method SetCell(p: Pos, c: Cell)
      requires Synced() && InBounds(n, p)
      modifies this, grid
      ensures Synced() && board == old(board)[p := c] && stack == old(stack)
    {
      grid[p.row, p.col] := c;
      board := board[p := c];
    }

    /**
     * initializeGrid: first every cell is created, then each is given its
     * up, down, left and right neighbours that lie in the grid, in that order.
     */
    method InitializeGrid()
      requires Sized()
      modifies this, grid
      ensures Synced() && board == FreshBoard(n) && stack == old(stack)
    {
      for row := 0 to n
        modifies grid
        invariant forall r, c :: 0 <= r < row && 0 <= c < n ==> grid[r, c] == Blank(r, c)
      {
        for col := 0 to n
          invariant forall r, c :: 0 <= r < row && 0 <= c < n ==> grid[r, c] == Blank(r, c)
          invariant forall c :: 0 <= c < col ==> grid[row, c] == Blank(row, c)
        {
          grid[row, col] := Blank(row, col);
        }
      }
      LinkNeighbors();
      board := FreshBoard(n);
      forall p | p in board
        ensures InBounds(n, p) && board[p] == grid[p.row, p.col]
      {
        assert p in Positions(n);
      }
    }

    /** The second pass of initializeGrid: every cell, row by row, gets its neighbour links. */
    method LinkNeighbors()
      requires Sized()
      requires forall r, c :: 0 <= r < n && 0 <= c < n ==> grid[r, c] == Blank(r, c)
      modifies grid
      ensures forall r, c :: 0 <= r < n && 0 <= c < n ==> grid[r, c] == FreshCell(n, Pos(r, c))
    {
      for row := 0 to n
        invariant forall r, c :: 0 <= r < row && 0 <= c < n ==> grid[r, c] == FreshCell(n, Pos(r, c))
        invariant forall r, c :: row <= r < n && 0 <= c < n ==> grid[r, c] == Blank(r, c)
      {
        LinkRow(row);
      }
    }

    /** One row of the second pass of initializeGrid, left to right. */
    method LinkRow(row: nat)
      requires Sized() && row < n
      requires forall c :: 0 <= c < n ==> grid[row, c] == Blank(row, c)
      modifies grid
      ensures forall c :: 0 <= c < n ==> grid[row, c] == FreshCell(n, Pos(row, c))
      ensures forall r, c :: 0 <= r < n && 0 <= c < n && r != row ==> grid[r, c] == old(grid[r, c])
    {
      for col := 0 to n
        invariant forall c :: 0 <= c < col ==> grid[row, c] == FreshCell(n, Pos(row, c))
        invariant forall c :: col <= c < n ==> grid[row, c] == Blank(row, c)
        invariant forall r, c :: 0 <= r < n && 0 <= c < n && r != row ==> grid[r, c] == old(grid[r, c])
      {
        LinkCell(row, col);
      }
    }

    /** The neighbour links of the cell at (row, col) are appended to its list. */
    method LinkCell(row: nat, col: nat)
      requires Sized() && row < n && col < n
      modifies grid
      ensures grid[row, col] == old(grid[row, col]).(neighbors := old(grid[row, col]).neighbors + NeighborsOf(n, Pos(row, col)))
      ensures forall r, c :: 0 <= r < n && 0 <= c < n && (r != row || c != col) ==> grid[r, c] == old(grid[r, c])
    {
      var current := grid[row, col];
      var neighbors := AddNeighbors(current.neighbors, row, col);
      grid[row, col] := current.(neighbors := neighbors);
    }

    /** The neighbour links added to the cell at (row, col): up, down, left, right, those inside the grid. */
    method AddNeighbors(neighbors: seq<Pos>, row: int, col: int) returns (r: seq<Pos>)
      ensures r == neighbors + NeighborsOf(n, Pos(row, col))
    {
      r := neighbors;
      if row > 0 { r := r + [Pos(row - 1, col)]; }
      if row < n - 1 { r := r + [Pos(row + 1, col)]; }
      if col > 0 { r := r + [Pos(row, col - 1)]; }
      if col < n - 1 { r := r + [Pos(row, col + 1)]; }
    }

    /** Cell.setVisited */
    method SetVisited(p: Pos, v: bool)
      requires Synced() && InBounds(n, p)
      modifies this, grid
      ensures Synced() && board == old(board)[p := old(board)[p].(visited := v)] && stack == old(stack)
    {
      SetCell(p, grid[p.row, p.col].(visited := v));
    }

    /** Cell.removeTopWall */
    method RemoveTopWall(p: Pos)
      requires Synced() && InBounds(n, p)
      modifies this, grid
      ensures Synced() && board == old(board)[p := Cleared(old(board)[p], Side.Top)] && stack == old(stack)
    {
      SetCell(p, grid[p.row, p.col].(topWall := false));
    }

    /** Cell.removeRightWall */
    method RemoveRightWall(p: Pos)
      requires Synced() && InBounds(n, p)
      modifies this, grid
      ensures Synced() && board == old(board)[p := Cleared(old(board)[p], Right)] && stack == old(stack)
    {
      SetCell(p, grid[p.row, p.col].(rightWall := false));
    }

    /** Cell.removeBottomWall */
    method RemoveBottomWall(p: Pos)
      requires Synced() && InBounds(n, p)
      modifies this, grid
      ensures Synced() && board == old(board)[p := Cleared(old(board)[p], Bottom)] && stack == old(stack)
    {
      SetCell(p, grid[p.row, p.col].(bottomWall := false));
    }

    /** Cell.removeLeftWall */
    method RemoveLeftWall(p: Pos)
      requires Synced() && InBounds(n, p)
      modifies this, grid
      ensures Synced() && board == old(board)[p := Cleared(old(board)[p], Left)] && stack == old(stack)
    {
      SetCell(p, grid[p.row, p.col].(leftWall := false));
    }

    /**
     * removeWall: by the column delta first and the row delta second,
     * clears the wall of current facing next and the opposite wall of next.
     */
    method RemoveWall(current: Pos, next: Pos)
      requires Synced() && InBounds(n, current) && InBounds(n, next)
      modifies this, grid
      ensures Synced() && board == WallRemoved(old(board), current, next) && stack == old(stack)
    {
      var dx := next.col - current.col;
      var dy := next.row - current.row;
      if dx == 1 {
        RemoveRightWall(current);
        RemoveLeftWall(next);
      } else if dx == -1 {
        RemoveLeftWall(current);
        RemoveRightWall(next);
      } else if dy == 1 {
        RemoveBottomWall(current);
        RemoveTopWall(next);
      } else if dy == -1 {
        RemoveTopWall(current);
        RemoveBottomWall(next);
      }
    }

    /** Cell.getUnvisitedNeighbors: the neighbours of the cell at p not yet visited, in neighbour order. */
    method GetUnvisitedNeighbors(p: Pos) returns (r: seq<Pos>)
      requires Shaped() && p in board
      ensures r == UnvisitedAmong(board, board[p].neighbors)
    {
      NeighborsInBoard(n, board, p);
      assert forall x :: x in board[p].neighbors ==> x in board;
      r := UnvisitedIn(board, grid[p.row, p.col].neighbors);
    }

    /** The loop of getUnvisitedNeighbors: the cells of the list, in order, whose record says not visited. */
    method UnvisitedIn(ghost b: Board, neighbors: seq<Pos>) returns (r: seq<Pos>)
      requires Mirrors(b) && forall x :: x in neighbors ==> x in b
      ensures r == UnvisitedAmong(b, neighbors)
    {
      r := [];
      for i := 0 to |neighbors|
        invariant r == UnvisitedAmong(b, neighbors[..i])
      {
        var neighbor := neighbors[i];
        assert neighbor in b;
        var cell := grid[neighbor.row, neighbor.col];
        UnvisitedAmongSnoc(b, neighbors, i);
        if !cell.visited {
          r := r + [neighbor];
        }
      }
      assert neighbors[..|neighbors|] == neighbors;
    }

    /**
     * The boundary opening when the stack is empty: the entry cell loses
     * its left and top walls, the exit cell its right and bottom walls.
     */
    method OpenBoundary()
      requires Synced() && n >= 1
      modifies this, grid
      ensures Synced() && board == BoundaryOpened(n, old(board)) && stack == old(stack)
    {
      RemoveLeftWall(Entry);
      RemoveTopWall(Entry);
      RemoveRightWall(Exit(n));
      RemoveBottomWall(Exit(n));
    }

    /**
     * The neighbour loop of findPath for the popped cell current: every
     * neighbour not yet recorded and not walled off from current is pushed
     * and recorded with current as its predecessor, stamped with the next
     * clock value.
     */
    method Discover(ghost b: Board, current: Pos, frontier: seq<Pos>, cameFrom: map<Pos, Option<Pos>>,
                    ghost order: map<Pos, nat>, ghost clock: nat)
      returns (frontier': seq<Pos>, cameFrom': map<Pos, Option<Pos>>, ghost order': map<Pos, nat>, ghost clock': nat)
      requires Mirrors(b) && current in b
      requires forall q {:trigger q in b[current].neighbors} :: q in b[current].neighbors ==> q in b
      requires PredecessorsSound(b, cameFrom, order, Entry) && current in cameFrom
      requires forall x :: x in order ==> order[x] < clock
      ensures Grown(b, frontier, cameFrom, frontier', cameFrom', order', clock', Entry)
      ensures forall y {:trigger Edge(b, current, y)} :: Edge(b, current, y) ==> y in cameFrom'
    {
      frontier', cameFrom', order', clock' := frontier, cameFrom, order, clock;
      GrownStart(b, frontier, cameFrom, order, clock, Entry);
      var neighbors := grid[current.row, current.col].neighbors;
      assert neighbors == b[current].neighbors;
      for i := 0 to |neighbors|
        invariant Grown(b, frontier, cameFrom, frontier', cameFrom', order', clock', Entry)
        invariant forall j :: 0 <= j < i && Edge(b, current, neighbors[j]) ==> neighbors[j] in cameFrom'
      {
        ghost var before := cameFrom'.Keys;
        var neighbor := neighbors[i];
        assert neighbor in b[current].neighbors;
        var here, there := grid[current.row, current.col], grid[neighbor.row, neighbor.col];
        assert here == b[current] && there == b[neighbor];
        if neighbor !in cameFrom' && !IsWallBetween(here, there) {
          GrownVisit(b, frontier, cameFrom, frontier', cameFrom', order', clock', Entry, current, neighbor);
          frontier' := frontier' + [neighbor];
          cameFrom' := cameFrom'[neighbor := Some(current)];
          order' := order'[neighbor := clock'];
          clock' := clock' + 1;
        }
        CoverageGrows(b, current, neighbors, i, before, cameFrom'.Keys);
      }
      NeighborsCovered(b, current, cameFrom'.Keys);
    }

    /**
     * One turn of findPath's loop when the popped cell is not the exit:
     * the top of the frontier is popped and its neighbours are discovered.
     * The search invariant is kept, with the popped cell now expanded, and
     * either fewer cells are unrecorded or the frontier is shorter.
     */
    method Expand(ghost b: Board, popped: seq<Pos>, cameFrom: map<Pos, Option<Pos>>,
                  ghost order: map<Pos, nat>, ghost clock: nat, ghost expanded: set<Pos>)
      returns (frontier': seq<Pos>, cameFrom': map<Pos, Option<Pos>>, ghost order': map<Pos, nat>, ghost clock': nat)
      requires Mirrors(b) && WellFormed(n, b)
      requires SearchInv(b, popped, cameFrom, order, clock, expanded, Entry, Exit(n))
      requires |popped| > 0 && popped[|popped| - 1] != Exit(n)
      ensures SearchInv(b, frontier', cameFrom', order', clock', expanded + {popped[|popped| - 1]}, Entry, Exit(n))
      ensures || |b.Keys - cameFrom'.Keys| < |b.Keys - cameFrom.Keys|
              || (|b.Keys - cameFrom'.Keys| == |b.Keys - cameFrom.Keys| && |frontier'| < |popped|)
    {
      var current := popped[|popped| - 1];
      var frontier := popped[..|popped| - 1];
      NeighborsInBoard(n, b, current);
      frontier', cameFrom', order', clock' := Discover(b, current, frontier, cameFrom, order, clock);
      SearchStep(b, popped, cameFrom, order, clock, expanded, Entry, Exit(n),
                 current, frontier', cameFrom', order', clock');
    }

    /**
     * findPath: depth-first search from the entry with an explicit stack,
     * recording for each discovered cell the cell it was discovered from.
     * A cell is discovered when it is a neighbour of the popped cell, not
     * yet recorded, and isWallBetween reads the wall between them as open.
     * When the exit is popped the predecessor chain is followed back and
     * reversed. The result is empty exactly when no open path joins the
     * entry to the exit; otherwise it is such a path, repeating no cell.
     */
    method FindPath() returns (path: seq<Pos>)
      requires Shaped()
      ensures path == [] <==> !Reachable(board, Entry, Exit(n))
      ensures path != [] ==> IsSolution(n, board, path)
      ensures Exit(n) == Entry ==> path == [Entry]
    {
      ghost var b := board;
      assert InBounds(n, Entry);
      var frontier: seq<Pos> := [Entry];
      var cameFrom: map<Pos, Option<Pos>> := map[Entry := None];
      ghost var order: map<Pos, nat> := map[Entry := 0];
      ghost var clock: nat := 1;
      ghost var expanded: set<Pos> := {};
      SearchStart(b, Entry, Exit(n));
      while frontier != []
        invariant Mirrors(b)
        invariant SearchInv(b, frontier, cameFrom, order, clock, expanded, Entry, Exit(n))
        decreases |b.Keys - cameFrom.Keys|, |frontier|
      {
        var current := frontier[|frontier| - 1];
        if current == Exit(n) {
          path := TracePath(b, cameFrom, order, Entry, current);
          assert |path| > 1 ==> path[0] != path[|path| - 1];
          return;
        }
        frontier, cameFrom, order, clock := Expand(b, frontier, cameFrom, order, clock, expanded);
        expanded := expanded + {current};
      }
      path := [];
      SearchExhausted(b, cameFrom, order, clock, expanded, Entry, Exit(n));
    }
  }
}
