/**
 * Paths through a maze: the traversable-edge relation the solver uses,
 * open paths, reachability, and the rebuilding of a path from the
 * solver's predecessor map.
 */
module Paths {
  import opened Cells

  datatype Option<T> = None | Some(value: T)

  /**
   * The solver may step from p to q: q is in p's neighbour list and
   * isWallBetween, read from p's side, says the wall is open.
   */
  ghost predicate Edge(b: Board, p: Pos, q: Pos)
  {
    p in b && q in b && q in b[p].neighbors && !IsWallBetween(b[p], b[q])
  }

  /** A non-empty sequence of cells, each consecutive pair joined by an Edge. */
  ghost predicate IsOpenPath(b: Board, path: seq<Pos>)
  {
    && |path| > 0
    && (forall i :: 0 <= i < |path| ==> path[i] in b)
    && (forall i :: 0 < i < |path| ==> Edge(b, path[i - 1], path[i]))
  }

  ghost predicate Distinct(path: seq<Pos>)
  {
    forall i, j :: 0 <= i < j < |path| ==> path[i] != path[j]
  }

  /** Some open path leads from `from` to `to`. */
  ghost predicate Reachable(b: Board, from: Pos, to: Pos)
  {
    exists path :: IsOpenPath(b, path) && path[0] == from && path[|path| - 1] == to
  }

  /** A solution of an n-by-n maze: an open path from the entry to the exit that repeats no cell. */
  ghost predicate IsSolution(n: int, b: Board, path: seq<Pos>)
  {
    IsOpenPath(b, path) && path[0] == Entry && path[|path| - 1] == Exit(n) && Distinct(path)
  }

  /** Collections.reverse, as a function on sequences. */
  function Reverse<T>(s: seq<T>): (r: seq<T>)
    ensures |r| == |s|
    ensures forall i :: 0 <= i < |s| ==> r[i] == s[|s| - 1 - i]
  {
    if s == [] then [] else Reverse(s[1..]) + [s[0]]
  }

  /** Each cell is reachable from itself. */
  lemma ReachableSelf(b: Board, p: Pos)
    requires p in b
    ensures Reachable(b, p, p)
  {
    assert IsOpenPath(b, [p]);
  }

  /** An open path extended by one Edge is an open path. */
  lemma ReachableExtend(b: Board, from: Pos, p: Pos, q: Pos)
    requires Reachable(b, from, p) && Edge(b, p, q)
    ensures Reachable(b, from, q)
  {
    var path :| IsOpenPath(b, path) && path[0] == from && path[|path| - 1] == p;
    var longer := path + [q];
    assert IsOpenPath(b, longer);
  }

  /** An open path stays open as the board evolves (walls are only cleared). */
  lemma OpenPathMonotone(b: Board, r: Board, path: seq<Pos>)
    requires Monotone(b, r) && IsOpenPath(b, path)
    ensures IsOpenPath(r, path)
  {
    forall i | 0 < i < |path|
      ensures Edge(r, path[i - 1], path[i])
    {
      var x, y := path[i - 1], path[i];
      assert Edge(b, x, y);
      OpenStaysOpen(b[x], b[y], r[x], r[y]);
    }
  }

  lemma ReachableMonotone(b: Board, r: Board, from: Pos, to: Pos)
    requires Monotone(b, r) && Reachable(b, from, to)
    ensures Reachable(r, from, to)
  {
    var path :| IsOpenPath(b, path) && path[0] == from && path[|path| - 1] == to;
    OpenPathMonotone(b, r, path);
  }

  /**
   * A set of cells that holds the start of an open path and is closed
   * under Edge holds every cell of the path.
   */
  lemma {:induction false} ClosedSetHoldsPath(b: Board, s: set<Pos>, path: seq<Pos>)
    requires IsOpenPath(b, path) && path[0] in s
    requires forall x, y {:trigger Edge(b, x, y)} :: x in s && Edge(b, x, y) ==> y in s
    ensures path[|path| - 1] in s
  {
    if |path| > 1 {
      var shorter := path[..|path| - 1];
      assert IsOpenPath(b, shorter);
      ClosedSetHoldsPath(b, s, shorter);
      assert Edge(b, path[|path| - 2], path[|path| - 1]);
    }
  }

  /** No open path leaves a set that holds `from`, is closed under Edge and lacks `to`. */
  lemma ClosedSetBlocks(b: Board, s: set<Pos>, from: Pos, to: Pos)
    requires from in s && to !in s
    requires forall x, y {:trigger Edge(b, x, y)} :: x in s && Edge(b, x, y) ==> y in s
    ensures !Reachable(b, from, to)
  {
    if Reachable(b, from, to) {
      var path :| IsOpenPath(b, path) && path[0] == from && path[|path| - 1] == to;
      ClosedSetHoldsPath(b, s, path);
    }
  }

  /**
   * The solver's predecessor map is sound: the root alone has no
   * predecessor; every other recorded cell has a recorded predecessor,
   * recorded earlier (by `order`), from which it is one Edge away.
   */
  ghost predicate PredecessorsSound(b: Board, cameFrom: map<Pos, Option<Pos>>, order: map<Pos, nat>, root: Pos)
  {
    && order.Keys == cameFrom.Keys && cameFrom.Keys <= b.Keys
    && root in cameFrom && cameFrom[root] == None
    && (forall x :: x in cameFrom && cameFrom[x] == None ==> x == root)
    && (forall x {:trigger cameFrom[x]} :: x in cameFrom && cameFrom[x].Some? ==>
          && cameFrom[x].value in cameFrom
          && order[cameFrom[x].value] < order[x]
          && Edge(b, cameFrom[x].value, x))
  }

  /** Recording y, one Edge from the recorded x, with a stamp later than every other keeps the map sound. */
  lemma RecordKeepsSound(b: Board, cameFrom: map<Pos, Option<Pos>>, order: map<Pos, nat>, root: Pos,
                         x: Pos, y: Pos, stamp: nat)
    requires PredecessorsSound(b, cameFrom, order, root)
    requires x in cameFrom && y !in cameFrom && Edge(b, x, y)
    requires forall z :: z in order ==> order[z] < stamp
    ensures PredecessorsSound(b, cameFrom[y := Some(x)], order[y := stamp], root)
  {
  }

  /**
   * What the neighbour loop of findPath keeps, from frontier and cameFrom
   * on entry to frontier' and cameFrom' now: the predecessor map stays
   * sound with stamps below clock', only grows, and every cell it gains
   * is on the frontier; the frontier keeps its old part as a prefix and
   * only pushes recorded cells, and stays as it was while nothing is
   * recorded.
   */
  ghost predicate Grown(b: Board, frontier: seq<Pos>, cameFrom: map<Pos, Option<Pos>>,
                        frontier': seq<Pos>, cameFrom': map<Pos, Option<Pos>>, order': map<Pos, nat>, clock': nat,
                        root: Pos)
  {
    PredecessorsSound(b, cameFrom', order', root) && Pushed(frontier, cameFrom, frontier', cameFrom', order', clock')
  }

  /** The bookkeeping half of Grown, which does not look at the board. */
  ghost predicate Pushed(frontier: seq<Pos>, cameFrom: map<Pos, Option<Pos>>,
                         frontier': seq<Pos>, cameFrom': map<Pos, Option<Pos>>, order': map<Pos, nat>, clock': nat)
  {
    && (forall x :: x in order' ==> order'[x] < clock')
    && cameFrom.Keys <= cameFrom'.Keys
    && (forall x :: x in cameFrom' && x !in cameFrom ==> x in frontier')
    && |frontier| <= |frontier'| && frontier'[..|frontier|] == frontier
    && (forall i :: |frontier| <= i < |frontier'| ==> frontier'[i] in cameFrom')
    && (cameFrom'.Keys == cameFrom.Keys ==> frontier' == frontier)
  }

  /** Before the neighbour loop nothing has grown. */
  lemma GrownStart(b: Board, frontier: seq<Pos>, cameFrom: map<Pos, Option<Pos>>, order: map<Pos, nat>,
                   clock: nat, root: Pos)
    requires PredecessorsSound(b, cameFrom, order, root)
    requires forall x :: x in order ==> order[x] < clock
    ensures Grown(b, frontier, cameFrom, frontier, cameFrom, order, clock, root)
  {
    assert frontier[..|frontier|] == frontier;
  }

  /**
   * One turn of the neighbour loop for the recorded cell x and its
   * neighbour y: when y is unrecorded and one Edge from x, pushing y,
   * recording x as its predecessor and stamping it with the clock keeps
   * the loop's promise.
   */
  lemma GrownVisit(b: Board, frontier: seq<Pos>, cameFrom: map<Pos, Option<Pos>>,
                   frontier': seq<Pos>, cameFrom': map<Pos, Option<Pos>>, order': map<Pos, nat>, clock': nat,
                   root: Pos, x: Pos, y: Pos)
    requires Grown(b, frontier, cameFrom, frontier', cameFrom', order', clock', root)
    requires x in cameFrom && y !in cameFrom' && Edge(b, x, y)
    ensures Grown(b, frontier, cameFrom, frontier' + [y], cameFrom'[y := Some(x)], order'[y := clock'], clock' + 1, root)
  {
    RecordKeepsSound(b, cameFrom', order', root, x, y, clock');
    PushedVisit(frontier, cameFrom, frontier', cameFrom', order', clock', x, y);
  }

  /** Pushing and recording an unrecorded cell with the current clock keeps the bookkeeping. */
  lemma PushedVisit(frontier: seq<Pos>, cameFrom: map<Pos, Option<Pos>>,
                    frontier': seq<Pos>, cameFrom': map<Pos, Option<Pos>>, order': map<Pos, nat>, clock': nat,
                    x: Pos, y: Pos)
    requires Pushed(frontier, cameFrom, frontier', cameFrom', order', clock') && y !in cameFrom'
    ensures Pushed(frontier, cameFrom, frontier' + [y], cameFrom'[y := Some(x)], order'[y := clock'], clock' + 1)
  {
    PushKeepsPrefix(frontier, frontier', y);
    assert y in cameFrom'[y := Some(x)].Keys && y !in cameFrom.Keys;
  }

  /** Pushing onto a sequence that starts with s leaves it starting with s. */
  lemma PushKeepsPrefix(s: seq<Pos>, t: seq<Pos>, y: Pos)
    requires |s| <= |t| && t[..|s|] == s
    ensures (t + [y])[..|s|] == s
    ensures forall i :: 0 <= i < |t| ==> (t + [y])[i] == t[i]
    ensures (t + [y])[|t|] == y
  {
    assert (t + [y])[..|s|] == t[..|s|];
  }

  /** Coverage of the first i neighbours of x extends to the first i + 1 once the next one is covered. */
  lemma CoverageGrows(b: Board, x: Pos, qs: seq<Pos>, i: nat, before: set<Pos>, after: set<Pos>)
    requires i < |qs| && before <= after
    requires forall j :: 0 <= j < i && Edge(b, x, qs[j]) ==> qs[j] in before
    requires Edge(b, x, qs[i]) ==> qs[i] in after
    ensures forall j :: 0 <= j < i + 1 && Edge(b, x, qs[j]) ==> qs[j] in after
  {
  }

  /** When every neighbour of x joined to it by an Edge is in s, every Edge from x leads into s. */
  lemma NeighborsCovered(b: Board, x: Pos, s: set<Pos>)
    requires x in b
    requires forall j :: 0 <= j < |b[x].neighbors| && Edge(b, x, b[x].neighbors[j]) ==> b[x].neighbors[j] in s
    ensures forall y {:trigger Edge(b, x, y)} :: Edge(b, x, y) ==> y in s
  {
    forall y | Edge(b, x, y)
      ensures y in s
    {
      var j :| 0 <= j < |b[x].neighbors| && b[x].neighbors[j] == y;
    }
  }

  /**
   * back is a predecessor chain read from its end: every cell but the
   * first is one Edge before the cell preceding it in back, and the cells
   * were recorded in strictly decreasing order.
   */
  ghost predicate BackChain(b: Board, order: map<Pos, nat>, back: seq<Pos>)
  {
    && (forall i :: 0 <= i < |back| ==> back[i] in b && back[i] in order)
    && (forall i :: 0 < i < |back| ==> Edge(b, back[i], back[i - 1]))
    && (forall i, j :: 0 <= i < j < |back| ==> order[back[i]] > order[back[j]])
  }

  /** A chain extended by an earlier-recorded cell one Edge before its last cell is a chain. */
  lemma ChainExtend(b: Board, order: map<Pos, nat>, back: seq<Pos>, x: Pos)
    requires BackChain(b, order, back) && x in b && x in order
    requires forall i :: 0 <= i < |back| ==> order[back[i]] > order[x]
    requires |back| > 0 ==> Edge(b, x, back[|back| - 1])
    ensures BackChain(b, order, back + [x])
  {
    var longer := back + [x];
    assert forall i :: 0 <= i < |back| ==> longer[i] == back[i];
  }

  /** Reversing a non-empty predecessor chain gives an open path that repeats no cell. */
  lemma ReversedChainIsPath(b: Board, order: map<Pos, nat>, back: seq<Pos>)
    requires BackChain(b, order, back) && |back| > 0
    ensures IsOpenPath(b, Reverse(back)) && Distinct(Reverse(back))
  {
    var path := Reverse(back);
    forall i | 0 < i < |path|
      ensures Edge(b, path[i - 1], path[i])
    {
      var k := |back| - 1 - i;
      assert path[i - 1] == back[k + 1] && path[i] == back[k];
    }
    forall i, j | 0 <= i < j < |path|
      ensures path[i] != path[j]
    {
      assert order[back[|back| - 1 - j]] > order[back[|back| - 1 - i]];
    }
  }

  /**
   * The path rebuilding of the solver: follow predecessors back from
   * target until the root, then reverse. The result leads from the root
   * to target and repeats no cell.
   */
  method TracePath(ghost b: Board, cameFrom: map<Pos, Option<Pos>>, ghost order: map<Pos, nat>,
                   ghost root: Pos, target: Pos) returns (path: seq<Pos>)
    requires PredecessorsSound(b, cameFrom, order, root) && target in cameFrom
    ensures IsOpenPath(b, path) && Distinct(path)
    ensures path[0] == root && path[|path| - 1] == target
  {
    var back: seq<Pos> := [];
    var step: Option<Pos> := Some(target);
    while step.Some?
      invariant step.Some? ==> step.value in cameFrom
      invariant BackChain(b, order, back)
      invariant |back| == 0 ==> step == Some(target)
      invariant |back| > 0 ==> back[0] == target
      invariant step.Some? ==> forall i :: 0 <= i < |back| ==> order[back[i]] > order[step.value]
      invariant step.Some? && |back| > 0 ==> Edge(b, step.value, back[|back| - 1])
      invariant step.None? ==> |back| > 0 && back[|back| - 1] == root
      decreases if step.Some? then order[step.value] + 1 else 0
    {
      var current := step.value;
      ChainExtend(b, order, back, current);
      back := back + [current];
      step := cameFrom[current];
    }
    ReversedChainIsPath(b, order, back);
    path := Reverse(back);
  }

  /**
   * The invariant of the solver's search from root for target: the
   * predecessor map is sound with stamps below clock; what waits on the
   * frontier is recorded; every recorded cell has been expanded or waits;
   * target was never expanded, and every Edge out of an expanded cell
   * leads to a recorded cell.
   */
  ghost predicate SearchInv(b: Board, frontier: seq<Pos>, cameFrom: map<Pos, Option<Pos>>, order: map<Pos, nat>,
                            clock: nat, expanded: set<Pos>, root: Pos, target: Pos)
  {
    && PredecessorsSound(b, cameFrom, order, root)
    && (forall x :: x in order ==> order[x] < clock)
    && (forall i :: 0 <= i < |frontier| ==> frontier[i] in cameFrom)
    && (forall x :: x in cameFrom ==> x in expanded || x in frontier)
    && expanded <= cameFrom.Keys && target !in expanded
    && (forall x, y {:trigger Edge(b, x, y)} :: x in expanded && Edge(b, x, y) ==> y in cameFrom)
  }

  /** The search starts with root alone recorded and waiting. */
  lemma SearchStart(b: Board, root: Pos, target: Pos)
    requires root in b
    ensures SearchInv(b, [root], map[root := None], map[root := 0], 1, {}, root, target)
  {
  }

  /**
   * Expanding the popped cell current, which is not target, keeps the
   * invariant when the result of the neighbour loop records every cell an
   * Edge from current leads to, pushes every cell it records, keeps the
   * rest of the frontier below the pushed cells and stamps below its clock.
   */
  lemma SearchStep(b: Board, popped: seq<Pos>, cameFrom: map<Pos, Option<Pos>>, order: map<Pos, nat>,
                   clock: nat, expanded: set<Pos>, root: Pos, target: Pos, current: Pos,
                   frontier': seq<Pos>, cameFrom': map<Pos, Option<Pos>>, order': map<Pos, nat>, clock': nat)
    requires SearchInv(b, popped, cameFrom, order, clock, expanded, root, target)
    requires |popped| > 0 && popped[|popped| - 1] == current && current != target
    requires Grown(b, popped[..|popped| - 1], cameFrom, frontier', cameFrom', order', clock', root)
    requires forall y {:trigger Edge(b, current, y)} :: Edge(b, current, y) ==> y in cameFrom'
    ensures SearchInv(b, frontier', cameFrom', order', clock', expanded + {current}, root, target)
    ensures || |b.Keys - cameFrom'.Keys| < |b.Keys - cameFrom.Keys|
            || (|b.Keys - cameFrom'.Keys| == |b.Keys - cameFrom.Keys| && |frontier'| < |popped|)
  {
    FrontierRecorded(popped, cameFrom, frontier', cameFrom', order', clock');
    FewerUnrecorded(b.Keys, cameFrom.Keys, cameFrom'.Keys);
    WaitingKept(popped, frontier', expanded, cameFrom, cameFrom');
  }

  /** After the pop and the pushes, the frontier still holds only recorded cells and keeps the rest of popped. */
  lemma FrontierRecorded(popped: seq<Pos>, cameFrom: map<Pos, Option<Pos>>,
                         frontier': seq<Pos>, cameFrom': map<Pos, Option<Pos>>, order': map<Pos, nat>, clock': nat)
    requires |popped| > 0 && forall i :: 0 <= i < |popped| ==> popped[i] in cameFrom
    requires Pushed(popped[..|popped| - 1], cameFrom, frontier', cameFrom', order', clock')
    ensures forall i :: 0 <= i < |popped| - 1 ==> i < |frontier'| && frontier'[i] == popped[i]
    ensures forall i :: 0 <= i < |frontier'| ==> frontier'[i] in cameFrom'
  {
    PrefixKept(popped, frontier');
  }

  /**
   * Every recorded cell that was expanded or waiting, or newly recorded
   * and pushed, is after the pop expanded, the popped cell, or still waiting.
   */
  lemma WaitingKept(popped: seq<Pos>, frontier': seq<Pos>, expanded: set<Pos>,
                    cameFrom: map<Pos, Option<Pos>>, cameFrom': map<Pos, Option<Pos>>)
    requires |popped| > 0
    requires forall i :: 0 <= i < |popped| - 1 ==> i < |frontier'| && frontier'[i] == popped[i]
    requires forall x :: x in cameFrom ==> x in expanded || x in popped
    requires forall x :: x in cameFrom' && x !in cameFrom ==> x in frontier'
    ensures forall x :: x in cameFrom' ==> x in expanded + {popped[|popped| - 1]} || x in frontier'
  {
    forall x | x in cameFrom'
      ensures x in expanded + {popped[|popped| - 1]} || x in frontier'
    {
      if x in cameFrom && x != popped[|popped| - 1] && x !in expanded {
        var k :| 0 <= k < |popped| && popped[k] == x;
        assert frontier'[k] == x;
      }
    }
  }

  /** A sequence that keeps all but the last element of popped as its prefix agrees with popped there. */
  lemma PrefixKept(popped: seq<Pos>, frontier': seq<Pos>)
    requires |popped| > 0 && |popped| - 1 <= |frontier'| && frontier'[..|popped| - 1] == popped[..|popped| - 1]
    ensures forall i :: 0 <= i < |popped| - 1 ==> i < |frontier'| && frontier'[i] == popped[i]
  {
    forall i | 0 <= i < |popped| - 1
      ensures frontier'[i] == popped[i]
    {
      assert frontier'[..|popped| - 1][i] == popped[..|popped| - 1][i];
    }
  }

  /** Recording more cells leaves fewer cells of the board unrecorded. */
  lemma FewerUnrecorded(all: set<Pos>, known: set<Pos>, known': set<Pos>)
    requires known <= known' <= all
    ensures known' == known || |all - known'| < |all - known|
  {
    if known' != known {
      var y :| y in known' && y !in known;
      assert all - known == (all - known') + (known' - known);
      assert (all - known') * (known' - known) == {};
      assert y in known' - known;
    }
  }

  /** A search whose frontier is empty has shown target unreachable from root. */
  lemma SearchExhausted(b: Board, cameFrom: map<Pos, Option<Pos>>, order: map<Pos, nat>,
                        clock: nat, expanded: set<Pos>, root: Pos, target: Pos)
    requires SearchInv(b, [], cameFrom, order, clock, expanded, root, target)
    ensures !Reachable(b, root, target)
  {
    ClosedSetBlocks(b, cameFrom.Keys, root, target);
  }
}
