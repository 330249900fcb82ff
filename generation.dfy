/**
 * Maze generation as a state machine: the randomized depth-first search
 * ("recursive backtracker") takes one step per timer tick on a board and an
 * explicit stack. This module gives the step as a function on values, the
 * invariants it keeps, and the facts that make the result a perfect maze.
 */
module Generation {
  import opened Cells
  import opened Paths

  /** The cells of qs that are not yet visited, in the order of qs (getUnvisitedNeighbors). */
  function UnvisitedAmong(b: Board, qs: seq<Pos>): (r: seq<Pos>)
    requires forall q :: q in qs ==> q in b
    ensures forall q :: q in r <==> q in qs && !b[q].visited
    ensures |r| <= |qs|
  {
    if qs == [] then []
    else
      var last := qs[|qs| - 1];
      assert qs == qs[..|qs| - 1] + [last];
      UnvisitedAmong(b, qs[..|qs| - 1]) + (if b[last].visited then [] else [last])
  }

  /** Scanning one more neighbour appends it to the result exactly when it is unvisited. */
  lemma UnvisitedAmongSnoc(b: Board, qs: seq<Pos>, i: nat)
    requires forall x :: x in qs ==> x in b
    requires i < |qs|
    ensures UnvisitedAmong(b, qs[..i + 1]) == UnvisitedAmong(b, qs[..i]) + (if b[qs[i]].visited then [] else [qs[i]])
  {
    assert qs[..i + 1][..i] == qs[..i];
  }

  /** The generator's state: the board and its stack, whose top is the last element. */
  datatype GenState = GenState(board: Board, stack: seq<Pos>)

  function Peek(stack: seq<Pos>): Pos
    requires stack != []
  {
    stack[|stack| - 1]
  }

  /** The board is a well-formed n-by-n grid and the stack holds cells of it. */
  ghost predicate Ready(n: nat, s: GenState)
  {
    WellFormed(n, s.board) && forall i :: 0 <= i < |s.stack| ==> s.stack[i] in s.board
  }

  /** The unvisited neighbours of the top cell: the candidates of the random choice. */
  ghost function Choices(n: nat, s: GenState): (r: seq<Pos>)
    requires Ready(n, s) && s.stack != []
    ensures forall q :: q in r <==> q in s.board[Peek(s.stack)].neighbors && q in s.board && !s.board[q].visited
    ensures |r| <= 4
  {
    NeighborsInBoard(n, s.board, Peek(s.stack));
    UnvisitedAmong(s.board, s.board[Peek(s.stack)].neighbors)
  }

  /** pick is a value nextInt(k) may return for the k candidates of this step. */
  ghost predicate PickInRange(n: nat, s: GenState, pick: nat): (r: bool)
    requires Ready(n, s) && s.stack != []
    ensures Choices(n, s) == [] ==> r
    ensures r && Choices(n, s) != [] ==>
              && pick < |Choices(n, s)|
              && var next := Choices(n, s)[pick];
                 next in s.board[Peek(s.stack)].neighbors && next in s.board && !s.board[next].visited
  {
    Choices(n, s) != [] ==> pick < |Choices(n, s)|
  }

  /**
   * One timer tick on a non-empty stack: when the top cell has unvisited
   * neighbours, the picked one is marked visited, the wall between it and
   * the top cell is removed and it is pushed; otherwise the top is popped.
   */
  ghost function GenStep(n: nat, s: GenState, pick: nat): (r: GenState)
    requires Ready(n, s) && s.stack != [] && PickInRange(n, s, pick)
    ensures r.board.Keys == s.board.Keys
    ensures Choices(n, s) != [] ==>
              && r.stack == s.stack + [Choices(n, s)[pick]]
              && r.board[Choices(n, s)[pick]].visited
    ensures Choices(n, s) == [] ==> r.board == s.board && r.stack == s.stack[..|s.stack| - 1]
  {
    var current := Peek(s.stack);
    var unvisited := Choices(n, s);
    if unvisited != [] then
      var next := unvisited[pick];
      assert next in unvisited;
      var marked := s.board[next := s.board[next].(visited := true)];
      GenState(WallRemoved(marked, current, next), s.stack + [next])
    else
      GenState(s.board, s.stack[..|s.stack| - 1])
  }

  function Visited(b: Board): set<Pos>
  {
    set p | p in b && b[p].visited
  }

  function Unvisited(b: Board): set<Pos>
  {
    set p | p in b && !b[p].visited
  }

  /** The internal walls that are open between a cell and its right-hand neighbour, named by the left cell. */
  function OpenRight(b: Board): set<Pos>
  {
    set p | p in b && Across(p, Right) in b && !b[p].rightWall
  }

  /** The internal walls that are open between a cell and the cell below, named by the upper cell. */
  function OpenDown(b: Board): set<Pos>
  {
    set p | p in b && Across(p, Bottom) in b && !b[p].bottomWall
  }

  /** The number of open internal walls (edges of the maze). */
  function OpenEdgeCount(b: Board): nat
  {
    |OpenRight(b)| + |OpenDown(b)|
  }

  /** The stack cells are visited and distinct, and each is one Edge from the cell below it. */
  ghost predicate StackSound(b: Board, stack: seq<Pos>)
  {
    && (forall i :: 0 <= i < |stack| ==> stack[i] in b && b[stack[i]].visited)
    && (forall i, j :: 0 <= i < j < |stack| ==> stack[i] != stack[j])
    && (forall i :: 0 < i < |stack| ==> Edge(b, stack[i - 1], stack[i]))
  }

  /** Every visited cell off the stack has no unvisited neighbour left. */
  ghost predicate DeadEndsDone(b: Board, stack: seq<Pos>)
  {
    forall p :: p in b && b[p].visited && p !in stack ==>
      forall q :: q in b[p].neighbors ==> q in b && b[q].visited
  }

  /** A cell not yet visited still has all four walls. */
  ghost predicate UntouchedIntact(b: Board)
  {
    forall p :: p in b && !b[p].visited ==> AllWalls(b[p])
  }

  /** The entry is visited and every visited cell is reachable from it. */
  ghost predicate ConnectedFromEntry(b: Board)
  {
    && Entry in b && b[Entry].visited
    && forall p :: p in b && b[p].visited ==> Reachable(b, Entry, p)
  }

  /** The invariant of generation, kept by every step. */
  ghost predicate GenInv(n: nat, s: GenState)
  {
    && Ready(n, s)
    && WallsSymmetric(s.board)
    && StackSound(s.board, s.stack)
    && DeadEndsDone(s.board, s.stack)
    && UntouchedIntact(s.board)
    && ConnectedFromEntry(s.board)
    && OpenEdgeCount(s.board) + 1 == |Visited(s.board)|
  }

  /** The board right after grid construction. */
  function FreshBoard(n: nat): (r: Board)
    ensures r.Keys == Positions(n) && |r| == n * n
    ensures forall p :: p in r ==> At(r[p]) == p && !r[p].visited && AllWalls(r[p])
    ensures forall p :: p in r ==> r[p].neighbors == NeighborsOf(n, p)
  {
    PositionsSize(n);
    assert (map p | p in Positions(n) :: FreshCell(n, p)).Keys == Positions(n);
    map p | p in Positions(n) :: FreshCell(n, p)
  }

  /** The fresh board with the entry marked visited by the start of generation. */
  function InitialBoard(n: nat): (r: Board)
    ensures r.Keys == FreshBoard(n).Keys + {Entry}
    ensures r[Entry].visited && AllWalls(r[Entry])
    ensures forall p :: p in r && p != Entry ==> r[p] == FreshBoard(n)[p]
  {
    FreshBoard(n)[Entry := FreshCell(n, Entry).(visited := true)]
  }

  /** The state generation starts from: the entry visited and alone on the stack. */
  function InitialState(n: nat): (r: GenState)
    ensures r.stack == [Entry] && Entry in r.board && r.board[Entry].visited
  {
    GenState(InitialBoard(n), [Entry])
  }

  /**
   * Every cell but the entry starts unvisited, so by the measure generation
   * takes at most 2 * n * n - 1 timer ticks before the stack is empty.
   */
  lemma InitialMeasure(n: nat)
    requires n >= 1
    ensures Measure(InitialState(n)) == 2 * (n * n) - 1
  {
    var b := InitialBoard(n);
    InitialWellFormed(n);
    assert InBounds(n, Entry);
    assert Unvisited(b) == Positions(n) - {Entry};
    PositionsSize(n);
    assert |Unvisited(b)| == n * n - 1;
    assert InitialState(n).stack == [Entry];
  }

  lemma InitialWellFormed(n: nat)
    requires n >= 1
    ensures WellFormed(n, InitialBoard(n)) && WallsSymmetric(InitialBoard(n))
    ensures forall p :: p in InitialBoard(n) ==> AllWalls(InitialBoard(n)[p])
    ensures forall p :: p in InitialBoard(n) ==> (InitialBoard(n)[p].visited <==> p == Entry)
  {
    var b := InitialBoard(n);
    assert InBounds(n, Entry);
    assert b.Keys == Positions(n);
  }

  lemma InitialCounts(n: nat)
    requires n >= 1
    ensures OpenEdgeCount(InitialBoard(n)) + 1 == |Visited(InitialBoard(n))|
  {
    var b := InitialBoard(n);
    InitialWellFormed(n);
    assert OpenRight(b) == {};
    assert OpenDown(b) == {};
    assert Visited(b) == {Entry};
  }

  /** Generation starts in a state that satisfies its invariant. */
  lemma InitialStateValid(n: nat)
    requires n >= 1
    ensures GenInv(n, InitialState(n))
  {
    var b := InitialBoard(n);
    InitialWellFormed(n);
    InitialCounts(n);
    ReachableSelf(b, Entry);
    assert ConnectedFromEntry(b);
    assert StackSound(b, [Entry]);
    assert DeadEndsDone(b, [Entry]);
    assert UntouchedIntact(b);
  }

  /** Marking a cell visited changes no wall and adds exactly that cell to the visited set. */
  lemma MarkVisited(b: Board, p: Pos)
    requires p in b && !b[p].visited
    ensures OpenRight(b[p := b[p].(visited := true)]) == OpenRight(b)
    ensures OpenDown(b[p := b[p].(visited := true)]) == OpenDown(b)
    ensures Visited(b[p := b[p].(visited := true)]) == Visited(b) + {p}
    ensures Unvisited(b[p := b[p].(visited := true)]) == Unvisited(b) - {p}
    ensures Monotone(b, b[p := b[p].(visited := true)])
  {
    var r := b[p := b[p].(visited := true)];
    assert OpenRight(r) == OpenRight(b);
    assert OpenDown(r) == OpenDown(b);
  }

  /** Clearing the right wall of cell c (and no other right wall) adds c to OpenRight. */
  lemma OpenRightGrows(b: Board, r: Board, c: Pos)
    requires r.Keys == b.Keys && c in b && Across(c, Right) in b && b[c].rightWall
    requires forall p :: p in b ==> r[p].rightWall == (b[p].rightWall && p != c)
    ensures OpenRight(r) == OpenRight(b) + {c} && c !in OpenRight(b)
    ensures |OpenRight(r)| == |OpenRight(b)| + 1
  {
    assert OpenRight(r) == OpenRight(b) + {c};
  }

  lemma OpenRightSame(b: Board, r: Board)
    requires r.Keys == b.Keys
    requires forall p :: p in b ==> r[p].rightWall == b[p].rightWall
    ensures OpenRight(r) == OpenRight(b)
  {
    assert OpenRight(r) == OpenRight(b);
  }

  /** Clearing the bottom wall of cell c (and no other bottom wall) adds c to OpenDown. */
  lemma OpenDownGrows(b: Board, r: Board, c: Pos)
    requires r.Keys == b.Keys && c in b && Across(c, Bottom) in b && b[c].bottomWall
    requires forall p :: p in b ==> r[p].bottomWall == (b[p].bottomWall && p != c)
    ensures OpenDown(r) == OpenDown(b) + {c} && c !in OpenDown(b)
    ensures |OpenDown(r)| == |OpenDown(b)| + 1
  {
    assert OpenDown(r) == OpenDown(b) + {c};
  }

  lemma OpenDownSame(b: Board, r: Board)
    requires r.Keys == b.Keys
    requires forall p :: p in b ==> r[p].bottomWall == b[p].bottomWall
    ensures OpenDown(r) == OpenDown(b)
  {
    assert OpenDown(r) == OpenDown(b);
  }

  lemma VisitedSame(b: Board, r: Board)
    requires r.Keys == b.Keys
    requires forall p :: p in b ==> r[p].visited == b[p].visited
    ensures Visited(r) == Visited(b) && Unvisited(r) == Unvisited(b)
  {
    assert Visited(r) == Visited(b);
    assert Unvisited(r) == Unvisited(b);
  }

  /**
   * Removing the wall between a cell and an untouched neighbour opens
   * exactly one internal wall that was closed.
   */
  lemma CarveOpensOneEdge(n: nat, b: Board, current: Pos, next: Pos)
    requires WellFormed(n, b) && WallsSymmetric(b)
    requires current in b && next in b && Adjacent(current, next) && AllWalls(b[next])
    ensures OpenEdgeCount(WallRemoved(b, current, next)) == OpenEdgeCount(b) + 1
    ensures Visited(WallRemoved(b, current, next)) == Visited(b)
    ensures Unvisited(WallRemoved(b, current, next)) == Unvisited(b)
  {
    var r := WallRemoved(b, current, next);
    var s := SideToward(current, next);
    forall p | p in b
      ensures r[p].rightWall == (b[p].rightWall && !((p == current && s == Right) || (p == next && s == Left)))
      ensures r[p].bottomWall == (b[p].bottomWall && !((p == current && s == Bottom) || (p == next && s == Side.Top)))
      ensures r[p].visited == b[p].visited
    {
      WallAfterRemoval(b, current, next, s, p, Right);
      WallAfterRemoval(b, current, next, s, p, Bottom);
    }
    assert Wall(b[current], s) == Wall(b[next], Opposite(s));
    VisitedSame(b, r);
    match s
    case Right =>
      OpenRightGrows(b, r, current);
      OpenDownSame(b, r);
    case Left =>
      assert Across(next, Right) == current;
      OpenRightGrows(b, r, next);
      OpenDownSame(b, r);
    case Bottom =>
      OpenRightSame(b, r);
      OpenDownGrows(b, r, current);
    case Top =>
      assert Across(next, Bottom) == current;
      OpenRightSame(b, r);
      OpenDownGrows(b, r, next);
  }

  /** Two boards with the same wall flags agree on the shared-wall invariant. */
  lemma SameWallsSymmetric(b: Board, r: Board)
    requires WallsSymmetric(b) && r.Keys == b.Keys
    requires forall p :: p in b ==>
               && r[p].topWall == b[p].topWall && r[p].rightWall == b[p].rightWall
               && r[p].bottomWall == b[p].bottomWall && r[p].leftWall == b[p].leftWall
    ensures WallsSymmetric(r)
  {
    forall p, t | p in r && Across(p, t) in r
      ensures Wall(r[p], t) == Wall(r[Across(p, t)], Opposite(t))
    {
      assert Wall(b[p], t) == Wall(b[Across(p, t)], Opposite(t));
    }
  }

  /** An Edge stays an Edge as the board evolves. */
  lemma EdgeMonotone(b: Board, r: Board, x: Pos, y: Pos)
    requires Monotone(b, r) && Edge(b, x, y)
    ensures Edge(r, x, y)
  {
    OpenStaysOpen(b[x], b[y], r[x], r[y]);
  }

  /** The facts about the cell a carving step picks. */
  lemma PickedCell(n: nat, s: GenState, pick: nat)
    requires Ready(n, s) && StackSound(s.board, s.stack) && UntouchedIntact(s.board)
    requires s.stack != [] && PickInRange(n, s, pick) && Choices(n, s) != []
    ensures var next := Choices(n, s)[pick];
      && next in s.board && next in s.board[Peek(s.stack)].neighbors
      && Adjacent(Peek(s.stack), next) && !s.board[next].visited && AllWalls(s.board[next])
      && next !in s.stack && next != Peek(s.stack)
  {
    NeighborsInBoard(n, s.board, Peek(s.stack));
    assert Choices(n, s)[pick] in Choices(n, s);
  }

  /** Pushing a neighbour reached through an open wall keeps the stack sound. */
  lemma PushKeepsStackSound(b: Board, r: Board, stack: seq<Pos>, next: Pos)
    requires StackSound(b, stack) && stack != [] && Monotone(b, r)
    requires next in r && r[next].visited && next !in stack && Edge(r, Peek(stack), next)
    ensures StackSound(r, stack + [next])
  {
    var st' := stack + [next];
    forall i | 0 < i < |st'|
      ensures Edge(r, st'[i - 1], st'[i])
    {
      if i < |stack| {
        EdgeMonotone(b, r, stack[i - 1], stack[i]);
      }
    }
  }

  /** Cells off the stack other than the two a carving step touches keep their records. */
  ghost predicate OthersKept(b: Board, r: Board, current: Pos, next: Pos)
  {
    forall p :: p in b && p != current && p != next ==> p in r && r[p] == b[p]
  }

  lemma PushKeepsDeadEnds(b: Board, r: Board, stack: seq<Pos>, next: Pos)
    requires DeadEndsDone(b, stack) && stack != [] && Monotone(b, r) && OthersKept(b, r, Peek(stack), next)
    ensures DeadEndsDone(r, stack + [next])
  {
    forall p | p in r && r[p].visited && p !in stack + [next]
      ensures forall q :: q in r[p].neighbors ==> q in r && r[q].visited
    {
      assert p != Peek(stack) && p != next;
      assert r[p] == b[p];
    }
  }

  lemma CarveKeepsUntouched(b: Board, r: Board, current: Pos, next: Pos)
    requires UntouchedIntact(b) && Monotone(b, r) && OthersKept(b, r, current, next)
    requires current in b && b[current].visited && next in r && r[next].visited
    ensures UntouchedIntact(r)
  {
    forall p | p in r && !r[p].visited
      ensures AllWalls(r[p])
    {
      assert p != current && p != next;
    }
  }

  lemma CarveKeepsConnected(b: Board, r: Board, current: Pos, next: Pos)
    requires ConnectedFromEntry(b) && Monotone(b, r) && OthersKept(b, r, current, next)
    requires current in b && b[current].visited && Edge(r, current, next)
    ensures ConnectedFromEntry(r)
  {
    forall p | p in r && r[p].visited
      ensures Reachable(r, Entry, p)
    {
      if p == next {
        ReachableMonotone(b, r, Entry, current);
        ReachableExtend(r, Entry, current, next);
      } else {
        assert b[p].visited;
        ReachableMonotone(b, r, Entry, p);
      }
    }
  }

  /** The board after a carving step, built from the picked cell. */
  lemma CarvedBoard(n: nat, b: Board, current: Pos, next: Pos)
    requires WellFormed(n, b) && WallsSymmetric(b)
    requires current in b && next in b && Adjacent(current, next) && b[current].visited
    requires !b[next].visited && AllWalls(b[next])
    ensures var r := WallRemoved(b[next := b[next].(visited := true)], current, next);
      && WellFormed(n, r) && WallsSymmetric(r) && Monotone(b, r) && OthersKept(b, r, current, next)
      && r[next].visited && Edge(r, current, next) && !IsWallBetween(r[next], r[current])
  {
    var m := b[next := b[next].(visited := true)];
    var r := WallRemoved(m, current, next);
    MarkVisited(b, next);
    MonotoneWellFormed(n, b, m);
    SameWallsSymmetric(b, m);
    WallRemovedKeepsSymmetry(n, m, current, next);
    MonotoneWellFormed(n, m, r);
    assert Monotone(b, r);
    assert r[next].visited;
    assert next in r[current].neighbors;
  }

  /** A carving step visits exactly one more cell and opens exactly one more internal wall. */
  lemma CarvedCounts(n: nat, b: Board, current: Pos, next: Pos)
    requires WellFormed(n, b) && WallsSymmetric(b)
    requires current in b && next in b && Adjacent(current, next)
    requires !b[next].visited && AllWalls(b[next])
    ensures var r := WallRemoved(b[next := b[next].(visited := true)], current, next);
      && Visited(r) == Visited(b) + {next} && |Visited(r)| == |Visited(b)| + 1
      && Unvisited(r) == Unvisited(b) - {next}
      && OpenEdgeCount(r) == OpenEdgeCount(b) + 1
  {
    var m := b[next := b[next].(visited := true)];
    MarkVisited(b, next);
    MonotoneWellFormed(n, b, m);
    SameWallsSymmetric(b, m);
    CarveOpensOneEdge(n, m, current, next);
    assert next !in Visited(b);
  }

  /** A carving step keeps the invariant, opens one wall and visits one new cell. */
  lemma CarveStep(n: nat, s: GenState, pick: nat)
    requires GenInv(n, s) && s.stack != [] && PickInRange(n, s, pick) && Choices(n, s) != []
    ensures GenInv(n, GenStep(n, s, pick))
    ensures var r, cur, next := GenStep(n, s, pick), Peek(s.stack), Choices(n, s)[pick];
      && next in s.board[cur].neighbors && !s.board[next].visited
      && r.stack == s.stack + [next]
      && Monotone(s.board, r.board)
      && OthersKept(s.board, r.board, cur, next)
      && !IsWallBetween(r.board[cur], r.board[next]) && !IsWallBetween(r.board[next], r.board[cur])
      && Visited(r.board) == Visited(s.board) + {next}
      && Unvisited(r.board) == Unvisited(s.board) - {next}
      && OpenEdgeCount(r.board) == OpenEdgeCount(s.board) + 1
  {
    var b, st, cur := s.board, s.stack, Peek(s.stack);
    var next := Choices(n, s)[pick];
    PickedCell(n, s, pick);
    var r := WallRemoved(b[next := b[next].(visited := true)], cur, next);
    assert GenStep(n, s, pick) == GenState(r, st + [next]);
    CarvedBoard(n, b, cur, next);
    CarvedCounts(n, b, cur, next);
    PushKeepsStackSound(b, r, st, next);
    PushKeepsDeadEnds(b, r, st, next);
    CarveKeepsUntouched(b, r, cur, next);
    CarveKeepsConnected(b, r, cur, next);
  }

  /** Popping a top cell whose neighbours are all visited keeps the dead-end property. */
  lemma PopKeepsDeadEnds(b: Board, stack: seq<Pos>)
    requires DeadEndsDone(b, stack) && stack != [] && Peek(stack) in b
    requires forall i, j :: 0 <= i < j < |stack| ==> stack[i] != stack[j]
    requires forall q :: q in b[Peek(stack)].neighbors ==> q in b && b[q].visited
    ensures DeadEndsDone(b, stack[..|stack| - 1])
  {
    var st' := stack[..|stack| - 1];
    forall p | p in b && b[p].visited && p !in st'
      ensures forall q :: q in b[p].neighbors ==> q in b && b[q].visited
    {
      if p != Peek(stack) {
        assert p !in stack;
      }
    }
  }

  /** Popping keeps the stack sound. */
  lemma PopKeepsStackSound(b: Board, stack: seq<Pos>)
    requires StackSound(b, stack) && stack != []
    ensures StackSound(b, stack[..|stack| - 1])
  {
  }

  /** The neighbours of the top cell are all visited when it has no unvisited neighbour. */
  lemma NoChoicesAllVisited(n: nat, s: GenState)
    requires Ready(n, s) && s.stack != [] && Choices(n, s) == []
    ensures forall q :: q in s.board[Peek(s.stack)].neighbors ==> q in s.board && s.board[q].visited
  {
    var b, cur := s.board, Peek(s.stack);
    NeighborsInBoard(n, b, cur);
    forall q | q in b[cur].neighbors
      ensures q in b && b[q].visited
    {
      assert q in b;
      assert q in Choices(n, s) <==> !b[q].visited;
    }
  }

  /** A backtracking step keeps the invariant: the popped cell has no unvisited neighbour. */
  lemma BacktrackStep(n: nat, s: GenState, pick: nat)
    requires GenInv(n, s) && s.stack != [] && PickInRange(n, s, pick) && Choices(n, s) == []
    ensures GenInv(n, GenStep(n, s, pick))
    ensures GenStep(n, s, pick) == GenState(s.board, s.stack[..|s.stack| - 1])
  {
    var b, st := s.board, s.stack;
    var st' := st[..|st| - 1];
    assert GenStep(n, s, pick) == GenState(b, st');
    NoChoicesAllVisited(n, s);
    PopKeepsDeadEnds(b, st);
    PopKeepsStackSound(b, st);
    assert Ready(n, GenState(b, st'));
  }

  /** The quantity that bounds the number of steps generation can take. */
  function Measure(s: GenState): nat
  {
    2 * |Unvisited(s.board)| + |s.stack|
  }

  /**
   * One generation step does exactly one of two things: it visits one
   * unvisited neighbour of the top cell, opens exactly one wall and pushes
   * that neighbour; or, when the top cell has none, it pops with no change
   * to the board. Either way the invariant is kept, walls are only cleared,
   * visited is never reset and the measure strictly decreases.
   */
  lemma StepKeepsInvariant(n: nat, s: GenState, pick: nat)
    requires GenInv(n, s) && s.stack != [] && PickInRange(n, s, pick)
    ensures GenInv(n, GenStep(n, s, pick))
    ensures Monotone(s.board, GenStep(n, s, pick).board)
    ensures Measure(GenStep(n, s, pick)) < Measure(s)
    ensures var r, cur := GenStep(n, s, pick), Peek(s.stack);
      || (&& Choices(n, s) != []
          && var next := Choices(n, s)[pick];
          && next in s.board[cur].neighbors && !s.board[next].visited
          && r.stack == s.stack + [next]
          && (forall p :: p in s.board && p != cur && p != next ==> r.board[p] == s.board[p])
          && !IsWallBetween(r.board[cur], r.board[next])
          && Visited(r.board) == Visited(s.board) + {next}
          && OpenEdgeCount(r.board) == OpenEdgeCount(s.board) + 1)
      || (&& Choices(n, s) == []
          && r.board == s.board
          && r.stack == s.stack[..|s.stack| - 1])
  {
    var r := GenStep(n, s, pick);
    if Choices(n, s) != [] {
      CarveStep(n, s, pick);
      var next := Choices(n, s)[pick];
      assert next in Unvisited(s.board);
      assert |Unvisited(r.board)| == |Unvisited(s.board)| - 1;
    } else {
      BacktrackStep(n, s, pick);
    }
  }

  /** A tick that marks, opens towards and pushes the picked cell performs the generation step, keeps the invariant and lowers the measure. */
  lemma CarveTick(n: nat, s: GenState, pick: nat, r: GenState)
    requires GenInv(n, s) && s.stack != [] && PickInRange(n, s, pick) && Choices(n, s) != []
    requires Choices(n, s)[pick] in s.board
    requires var next := Choices(n, s)[pick];
      r == GenState(WallRemoved(s.board[next := s.board[next].(visited := true)], Peek(s.stack), next), s.stack + [next])
    ensures r == GenStep(n, s, pick) && GenInv(n, r) && Measure(r) < Measure(s)
  {
    StepKeepsInvariant(n, s, pick);
  }

  /** A tick that pops a top cell without unvisited neighbours performs the generation step, keeps the invariant and lowers the measure. */
  lemma PopTick(n: nat, s: GenState, pick: nat, r: GenState)
    requires GenInv(n, s) && s.stack != [] && PickInRange(n, s, pick) && Choices(n, s) == []
    requires r == GenState(s.board, s.stack[..|s.stack| - 1])
    ensures r == GenStep(n, s, pick) && GenInv(n, r) && Measure(r) < Measure(s)
  {
    StepKeepsInvariant(n, s, pick);
  }

  /** With the invariant and an empty stack, the cell at (r, c) is visited. */
  lemma {:induction false} VisitedWhenDone(n: nat, b: Board, r: int, c: int)
    requires WellFormed(n, b) && DeadEndsDone(b, []) && Entry in b && b[Entry].visited
    requires InBounds(n, Pos(r, c))
    ensures b[Pos(r, c)].visited
    decreases r + c
  {
    if r == 0 && c == 0 {
    } else if c > 0 {
      VisitedWhenDone(n, b, r, c - 1);
      assert Pos(r, c) in b[Pos(r, c - 1)].neighbors;
    } else {
      VisitedWhenDone(n, b, r - 1, c);
      assert Pos(r, c) in b[Pos(r - 1, c)].neighbors;
    }
  }

  /**
   * When the stack is empty generation is complete: every one of the n * n
   * cells is visited, exactly n * n - 1 internal walls are open, and the
   * exit is reachable from the entry.
   */
  lemma GenerationComplete(n: nat, b: Board)
    requires WellFormed(n, b) && DeadEndsDone(b, []) && ConnectedFromEntry(b)
    requires OpenEdgeCount(b) + 1 == |Visited(b)|
    ensures n >= 1
    ensures forall p :: p in b ==> b[p].visited
    ensures Visited(b) == Positions(n) && Unvisited(b) == {}
    ensures OpenEdgeCount(b) == n * n - 1
    ensures Reachable(b, Entry, Exit(n))
  {
    assert InBounds(n, Entry);
    AllVisited(n, b);
    PositionsSize(n);
    assert Exit(n) in b;
  }

  /** Once every visited cell is a dead end, every cell of the board is visited. */
  lemma AllVisited(n: nat, b: Board)
    requires WellFormed(n, b) && DeadEndsDone(b, []) && Entry in b && b[Entry].visited
    ensures forall p :: p in b ==> b[p].visited
    ensures Visited(b) == Positions(n) && Unvisited(b) == {}
  {
    forall p | p in b
      ensures b[p].visited
    {
      VisitedWhenDone(n, b, p.row, p.col);
    }
    assert Visited(b) == Positions(n);
    assert Unvisited(b) == {};
  }

  /** On a board whose every cell is visited, dead ends and untouched cells hold trivially. */
  lemma AllVisitedCompletes(n: nat, b: Board)
    requires WellFormed(n, b) && forall p :: p in b ==> b[p].visited
    ensures DeadEndsDone(b, []) && UntouchedIntact(b)
  {
    forall p | p in b
      ensures forall q :: q in b[p].neighbors ==> q in b && b[q].visited
    {
      NeighborsInBoard(n, b, p);
    }
  }

  /** The boundary opening clears only walls on the outer frame, so no internal wall opens. */
  lemma BoundaryKeepsCounts(n: nat, b: Board)
    requires n >= 1 && WellFormed(n, b)
    ensures OpenRight(BoundaryOpened(n, b)) == OpenRight(b)
    ensures OpenDown(BoundaryOpened(n, b)) == OpenDown(b)
    ensures Visited(BoundaryOpened(n, b)) == Visited(b)
  {
    var r := BoundaryOpened(n, b);
    forall p | p in b
      ensures Across(p, Right) in b ==> r[p].rightWall == b[p].rightWall
      ensures Across(p, Bottom) in b ==> r[p].bottomWall == b[p].bottomWall
    {
      WallAfterOpening(n, b, p, Right);
      WallAfterOpening(n, b, p, Bottom);
    }
    assert OpenRight(r) == OpenRight(b);
    assert OpenDown(r) == OpenDown(b);
    VisitedSame(b, r);
  }

  /** Whatever was reachable from the entry before the boundary opening still is. */
  lemma BoundaryKeepsConnected(n: nat, b: Board)
    requires Entry in b && Exit(n) in b && ConnectedFromEntry(b)
    ensures ConnectedFromEntry(BoundaryOpened(n, b))
  {
    var r := BoundaryOpened(n, b);
    forall p | p in r && r[p].visited
      ensures Reachable(r, Entry, p)
    {
      ReachableMonotone(b, r, Entry, p);
    }
  }

  /** The boundary opening at the end of generation keeps the invariant and the count of open internal walls. */
  lemma BoundaryKeepsInvariant(n: nat, b: Board)
    requires GenInv(n, GenState(b, []))
    ensures GenInv(n, GenState(BoundaryOpened(n, b), []))
    ensures OpenEdgeCount(BoundaryOpened(n, b)) == OpenEdgeCount(b)
  {
    GenerationComplete(n, b);
    var r := BoundaryOpened(n, b);
    MonotoneWellFormed(n, b, r);
    BoundaryKeepsSymmetry(n, b);
    BoundaryKeepsCounts(n, b);
    BoundaryKeepsConnected(n, b);
    AllVisitedCompletes(n, r);
    assert StackSound(r, []);
  }
  /** The tick on an empty stack: after the boundary opening the invariant still holds, every cell is visited, n * n - 1 internal walls are open and the exit is reachable. */
  lemma FinishTick(n: nat, s: GenState, r: GenState)
    requires GenInv(n, s) && s.stack == [] && r == GenState(BoundaryOpened(n, s.board), [])
    ensures n >= 1 && GenInv(n, r)
    ensures forall p :: p in r.board ==> r.board[p].visited
    ensures OpenEdgeCount(r.board) == n * n - 1
    ensures Reachable(r.board, Entry, Exit(n))
  {
    BoundaryKeepsInvariant(n, s.board);
    GenerationComplete(n, r.board);
  }

}
