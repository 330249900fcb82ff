/**
 * The grid model shared by maze generation and maze solving: cell
 * positions, the record of one cell (its four wall flags, its visited flag
 * and its neighbour list), and the pure shared-wall operations.
 *
 * Cells are identified by their (row, col) position instead of by object
 * identity; a whole grid is a Board, the map from every position to the
 * record of the cell there.
 */
module Cells {

  /** The coordinates of a cell, 0-indexed. */
  datatype Pos = Pos(row: int, col: int)

  /** The four sides of a cell, one per wall flag. */
  datatype Side = Top | Right | Bottom | Left

  /** The state of one maze cell: coordinates, visited flag, neighbour list and four walls. */
  datatype Cell = Cell(row: int, col: int, visited: bool, neighbors: seq<Pos>,
                       topWall: bool, rightWall: bool, bottomWall: bool, leftWall: bool)

  /** A grid: the record of every cell, keyed by its position. */
  type Board = map<Pos, Cell>

  /** The entry cell of every maze. */
  const Entry: Pos := Pos(0, 0)

  /** The exit cell of an n-by-n maze. */
  function Exit(n: int): Pos { Pos(n - 1, n - 1) }

  /** The position a cell record claims for itself. */
  function At(c: Cell): Pos { Pos(c.row, c.col) }

  predicate InBounds(n: int, p: Pos) { 0 <= p.row < n && 0 <= p.col < n }

  /** Every position of an n-by-n grid. */
  function Positions(n: nat): (s: set<Pos>)
    ensures forall p {:trigger p in s} :: p in s <==> InBounds(n, p)
  {
    set r: int, c: int | 0 <= r < n && 0 <= c < n :: Pos(r, c)
  }

  /** The first m cells of row r. */
  function RowPrefix(r: int, m: nat): (s: set<Pos>)
    ensures forall p :: p in s <==> p.row == r && 0 <= p.col < m
  {
    set c: int | 0 <= c < m :: Pos(r, c)
  }

  /** The first k rows of a grid with n columns. */
  function Rows(k: nat, n: nat): (s: set<Pos>)
    ensures forall p :: p in s <==> 0 <= p.row < k && 0 <= p.col < n
  {
    set r: int, c: int | 0 <= r < k && 0 <= c < n :: Pos(r, c)
  }

  lemma {:induction false} RowPrefixSize(r: int, m: nat)
    ensures |RowPrefix(r, m)| == m
  {
    if m == 0 {
      assert RowPrefix(r, m) == {};
    } else {
      RowPrefixSize(r, m - 1);
      assert RowPrefix(r, m) == RowPrefix(r, m - 1) + {Pos(r, m - 1)};
    }
  }

  lemma {:induction false} RowsSize(k: nat, n: nat)
    ensures |Rows(k, n)| == k * n
  {
    if k == 0 {
      assert Rows(k, n) == {};
    } else {
      assert (k - 1) * n + n == k * n;
      var upper, last := Rows(k - 1, n), RowPrefix(k - 1, n);
      RowsSize(k - 1, n);
      RowPrefixSize(k - 1, n);
      assert Rows(k, n) == upper + last;
      assert upper !! last;
      assert |upper + last| == |upper| + |last|;
    }
  }

  /** An n-by-n grid has n * n cells. */
  lemma PositionsSize(n: nat)
    ensures |Positions(n)| == n * n
  {
    RowsSize(n, n);
    assert Positions(n) == Rows(n, n);
  }

  /** The cell on the other side of side s of p. */
  function Across(p: Pos, s: Side): Pos
  {
    match s
    case Top => Pos(p.row - 1, p.col)
    case Right => Pos(p.row, p.col + 1)
    case Bottom => Pos(p.row + 1, p.col)
    case Left => Pos(p.row, p.col - 1)
  }

  function Opposite(s: Side): Side
  {
    match s
    case Top => Bottom
    case Right => Left
    case Bottom => Top
    case Left => Right
  }

  function Abs(x: int): nat { if x < 0 then -x else x }

  /** p and q are 4-adjacent: at Manhattan distance 1. */
  predicate Adjacent(p: Pos, q: Pos)
  {
    Abs(p.row - q.row) + Abs(p.col - q.col) == 1
  }

  /** The side of p that faces the adjacent cell q. */
  function SideToward(p: Pos, q: Pos): (s: Side)
    requires Adjacent(p, q)
    ensures Across(p, s) == q && Across(q, Opposite(s)) == p
  {
    if q.col == p.col + 1 then Right
    else if q.col == p.col - 1 then Left
    else if q.row == p.row + 1 then Bottom
    else Top
  }

  /** Crossing a side and coming back through the opposite side returns to the start. */
  lemma AcrossFacts(p: Pos, s: Side, t: Side)
    ensures Adjacent(p, Across(p, s)) && Across(Across(p, s), Opposite(s)) == p
    ensures Across(p, s) == Across(p, t) ==> s == t
  {
  }

  /**
   * The neighbour list the grid construction gives the cell at p: the
   * cells above, below, to the left and to the right, in that order, each
   * only when it lies inside the grid.
   */
  function NeighborsOf(n: int, p: Pos): (r: seq<Pos>)
    ensures InBounds(n, p) ==> forall q {:trigger q in r} :: q in r <==> InBounds(n, q) && Adjacent(p, q)
    ensures forall i, j :: 0 <= i < j < |r| ==> r[i] != r[j]
    ensures |r| <= 4
  {
    (if p.row > 0 then [Pos(p.row - 1, p.col)] else [])
    + (if p.row < n - 1 then [Pos(p.row + 1, p.col)] else [])
    + (if p.col > 0 then [Pos(p.row, p.col - 1)] else [])
    + (if p.col < n - 1 then [Pos(p.row, p.col + 1)] else [])
  }

  /** The neighbour relation of the grid is symmetric. */
  lemma NeighborsSymmetric(n: int, p: Pos, q: Pos)
    requires InBounds(n, p) && InBounds(n, q)
    ensures q in NeighborsOf(n, p) <==> p in NeighborsOf(n, q)
  {
  }

  /** The record of the cell at p right after construction: all walls present, not visited. */
  function FreshCell(n: int, p: Pos): (c: Cell)
    ensures At(c) == p && !c.visited && AllWalls(c)
    ensures InBounds(n, p) ==> forall q :: q in c.neighbors <==> InBounds(n, q) && Adjacent(p, q)
  {
    Cell(p.row, p.col, false, NeighborsOf(n, p), true, true, true, true)
  }

  function Wall(c: Cell, s: Side): bool
  {
    match s
    case Top => c.topWall
    case Right => c.rightWall
    case Bottom => c.bottomWall
    case Left => c.leftWall
  }

  /** The cell with the wall on side s removed (removeTopWall, removeRightWall, ...). */
  function Cleared(c: Cell, s: Side): (d: Cell)
    ensures !Wall(d, s)
    ensures forall t :: t != s ==> Wall(d, t) == Wall(c, t)
    ensures d.row == c.row && d.col == c.col && d.visited == c.visited && d.neighbors == c.neighbors
  {
    match s
    case Top => c.(topWall := false)
    case Right => c.(rightWall := false)
    case Bottom => c.(bottomWall := false)
    case Left => c.(leftWall := false)
  }

  predicate AllWalls(c: Cell)
  {
    c.topWall && c.rightWall && c.bottomWall && c.leftWall
  }

  /**
   * Whether there is a wall between current and neighbor, as read from
   * current's flags: the column delta is looked at before the row delta, so
   * for a 4-adjacent neighbour it is current's flag on the side facing it,
   * and when neither delta is one step it is true.
   */
  function IsWallBetween(current: Cell, neighbor: Cell): (r: bool)
    ensures forall s :: At(neighbor) == Across(At(current), s) ==> r == Wall(current, s)
    ensures neighbor.col - current.col !in {1, -1} && neighbor.row - current.row !in {1, -1} ==> r
  {
    var dx := neighbor.col - current.col;
    var dy := neighbor.row - current.row;
    if dx == 1 then current.rightWall
    else if dx == -1 then current.leftWall
    else if dy == 1 then current.bottomWall
    else if dy == -1 then current.topWall
    else true
  }

  /**
   * d is c at a later point of generation: same coordinates and neighbours,
   * walls only ever cleared, visited never reset.
   */
  predicate Evolved(c: Cell, d: Cell)
  {
    && d.row == c.row && d.col == c.col && d.neighbors == c.neighbors
    && (c.visited ==> d.visited)
    && (d.topWall ==> c.topWall) && (d.rightWall ==> c.rightWall)
    && (d.bottomWall ==> c.bottomWall) && (d.leftWall ==> c.leftWall)
  }

  /** Board r evolved from board b cell by cell. */
  ghost predicate Monotone(b: Board, r: Board)
  {
    b.Keys == r.Keys && forall p :: p in b ==> Evolved(b[p], r[p])
  }

  /** A wall that is open stays open as the board evolves. */
  lemma OpenStaysOpen(c: Cell, d: Cell, c': Cell, d': Cell)
    requires Evolved(c, c') && Evolved(d, d')
    ensures IsWallBetween(c', d') ==> IsWallBetween(c, d)
  {
  }

  /**
   * removeWall on a board: by the column delta first and the row delta
   * second, clears the flag of current facing next and the opposite flag of
   * next; when neither delta is one step nothing changes.
   */
  function WallRemoved(b: Board, current: Pos, next: Pos): (r: Board)
    requires current in b && next in b
    ensures Monotone(b, r)
    ensures forall p :: p in b && p != current && p != next ==> r[p] == b[p]
    ensures forall s :: next == Across(current, s) ==>
              r[current] == Cleared(b[current], s) && r[next] == Cleared(b[next], Opposite(s))
    ensures next.col - current.col !in {1, -1} && next.row - current.row !in {1, -1} ==> r == b
  {
    var dx := next.col - current.col;
    var dy := next.row - current.row;
    if dx == 1 then b[current := Cleared(b[current], Right)][next := Cleared(b[next], Left)]
    else if dx == -1 then b[current := Cleared(b[current], Left)][next := Cleared(b[next], Right)]
    else if dy == 1 then b[current := Cleared(b[current], Bottom)][next := Cleared(b[next], Top)]
    else if dy == -1 then b[current := Cleared(b[current], Top)][next := Cleared(b[next], Bottom)]
    else b
  }

  /**
   * The boundary opening done once generation ends: the entry cell loses
   * its left and top walls, then the exit cell its right and bottom walls.
   */
  function BoundaryOpened(n: int, b: Board): (r: Board)
    requires Entry in b && Exit(n) in b
    ensures Monotone(b, r)
    ensures !r[Entry].leftWall && !r[Entry].topWall
    ensures !r[Exit(n)].rightWall && !r[Exit(n)].bottomWall
    ensures Entry != Exit(n) ==> r[Entry].rightWall == b[Entry].rightWall && r[Entry].bottomWall == b[Entry].bottomWall
    ensures Entry != Exit(n) ==> r[Exit(n)].topWall == b[Exit(n)].topWall && r[Exit(n)].leftWall == b[Exit(n)].leftWall
    ensures forall p :: p in b && p != Entry && p != Exit(n) ==> r[p] == b[p]
    ensures forall p :: p in b ==> r[p].visited == b[p].visited
  {
    var b1 := b[Entry := Cleared(b[Entry], Left)];
    var b2 := b1[Entry := Cleared(b1[Entry], Top)];
    var b3 := b2[Exit(n) := Cleared(b2[Exit(n)], Right)];
    b3[Exit(n) := Cleared(b3[Exit(n)], Bottom)]
  }

  /** b is a grid of size n: one record per position, carrying its own coordinates and neighbour list. */
  ghost predicate WellFormed(n: nat, b: Board)
  {
    && b.Keys == Positions(n)
    && forall p :: p in b ==> At(b[p]) == p && b[p].neighbors == NeighborsOf(n, p)
  }

  /** Every neighbour of a cell of a well-formed board is a cell of the board. */
  lemma NeighborsInBoard(n: nat, b: Board, p: Pos)
    requires WellFormed(n, b) && p in b
    ensures forall q {:trigger q in b[p].neighbors} :: q in b[p].neighbors ==> q in b && Adjacent(p, q)
  {
  }

  /** A board with the same cells, coordinates and neighbours as a well-formed one is well formed. */
  lemma MonotoneWellFormed(n: nat, b: Board, r: Board)
    requires WellFormed(n, b) && Monotone(b, r)
    ensures WellFormed(n, r)
  {
    forall p | p in r
      ensures At(r[p]) == p && r[p].neighbors == NeighborsOf(n, p)
    {
      assert Evolved(b[p], r[p]);
    }
  }

  /**
   * The shared-wall invariant: for every pair of adjacent cells of the
   * board, the flag of one facing the other equals the other's opposite flag.
   */
  ghost predicate WallsSymmetric(b: Board)
  {
    forall p, s :: p in b && Across(p, s) in b ==> Wall(b[p], s) == Wall(b[Across(p, s)], Opposite(s))
  }

  /** Under the shared-wall invariant, isWallBetween gives the same answer in both directions. */
  lemma WallBetweenSymmetric(n: nat, b: Board, p: Pos, q: Pos)
    requires WellFormed(n, b) && WallsSymmetric(b)
    requires p in b && q in b && Adjacent(p, q)
    ensures IsWallBetween(b[p], b[q]) == IsWallBetween(b[q], b[p])
  {
    var s := SideToward(p, q);
    assert IsWallBetween(b[p], b[q]) == Wall(b[p], s);
    assert IsWallBetween(b[q], b[p]) == Wall(b[q], Opposite(s));
  }

  /** After removeWall on cells next == Across(current, s), which flag of which cell changed. */
  lemma WallAfterRemoval(b: Board, current: Pos, next: Pos, s: Side, x: Pos, u: Side)
    requires current in b && next in b && x in b && next == Across(current, s)
    ensures Wall(WallRemoved(b, current, next)[x], u) ==
              if (x == current && u == s) || (x == next && u == Opposite(s)) then false else Wall(b[x], u)
  {
    var r := WallRemoved(b, current, next);
    AcrossFacts(current, s, s);
    assert r[current] == Cleared(b[current], s) && r[next] == Cleared(b[next], Opposite(s));
    if x == current {
    } else if x == next {
    } else {
      assert r[x] == b[x];
    }
  }

  /** removeWall on an adjacent pair keeps the shared-wall invariant and opens the wall both ways. */
  lemma WallRemovedKeepsSymmetry(n: nat, b: Board, current: Pos, next: Pos)
    requires WellFormed(n, b) && WallsSymmetric(b)
    requires current in b && next in b && Adjacent(current, next)
    ensures WallsSymmetric(WallRemoved(b, current, next))
    ensures !IsWallBetween(WallRemoved(b, current, next)[current], WallRemoved(b, current, next)[next])
    ensures !IsWallBetween(WallRemoved(b, current, next)[next], WallRemoved(b, current, next)[current])
  {
    var r := WallRemoved(b, current, next);
    var s := SideToward(current, next);
    forall p, t | p in r && Across(p, t) in r
      ensures Wall(r[p], t) == Wall(r[Across(p, t)], Opposite(t))
    {
      var q := Across(p, t);
      AcrossFacts(p, t, t);
      AcrossFacts(current, s, t);
      AcrossFacts(next, Opposite(s), Opposite(t));
      WallAfterRemoval(b, current, next, s, p, t);
      WallAfterRemoval(b, current, next, s, q, Opposite(t));
      assert (p == current && t == s) <==> (q == next && Opposite(t) == Opposite(s));
      assert (p == next && t == Opposite(s)) <==> (q == current && Opposite(t) == s);
    }
    MonotoneWellFormed(n, b, r);
    WallAfterRemoval(b, current, next, s, current, s);
    WallAfterRemoval(b, current, next, s, next, Opposite(s));
  }

  /** After the boundary opening, which flag of which cell changed. */
  lemma WallAfterOpening(n: int, b: Board, x: Pos, u: Side)
    requires Entry in b && Exit(n) in b && x in b
    ensures Wall(BoundaryOpened(n, b)[x], u) ==
              if (x == Entry && u in {Left, Top}) || (x == Exit(n) && u in {Right, Bottom}) then false
              else Wall(b[x], u)
  {
  }

  /** The boundary opening keeps the shared-wall invariant: it only touches walls on the outer frame. */
  lemma BoundaryKeepsSymmetry(n: nat, b: Board)
    requires n >= 1 && WellFormed(n, b) && WallsSymmetric(b)
    ensures WallsSymmetric(BoundaryOpened(n, b))
  {
    var r := BoundaryOpened(n, b);
    forall p, t | p in r && Across(p, t) in r
      ensures Wall(r[p], t) == Wall(r[Across(p, t)], Opposite(t))
    {
      var q := Across(p, t);
      AcrossFacts(p, t, t);
      WallAfterOpening(n, b, p, t);
      WallAfterOpening(n, b, q, Opposite(t));
      assert InBounds(n, p) && InBounds(n, q);
    }
  }
}
