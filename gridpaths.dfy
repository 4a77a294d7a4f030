/**
 * Positions on an integer grid, 4-adjacency, and walks over the open cells of a
 * rectangular board `g` (indexed `g[y][x]`).  A cell is open when it lies on the
 * board and does not hold the `blocked` kind.  Used by the maze's and Pac-Man's
 * breadth-first searches.
 */
module GridPaths {

  /** Column `x`, row `y`, both 0-indexed. */
  datatype Pos = Pos(x: int, y: int)

  /** One step up, down, left or right. */
  predicate Adjacent(a: Pos, b: Pos) {
    (a.x == b.x && (a.y == b.y + 1 || b.y == a.y + 1)) ||
    (a.y == b.y && (a.x == b.x + 1 || b.x == a.x + 1))
  }

  /** Every position of a w-column, h-row grid. */
  ghost function AllCells(w: int, h: int): (s: set<Pos>)
    ensures forall p :: p in s <==> 0 <= p.x < w && 0 <= p.y < h
  {
    var s := set x, y | 0 <= x < w && 0 <= y < h :: Pos(x, y);
    assert forall p: Pos :: 0 <= p.x < w && 0 <= p.y < h ==> Pos(p.x, p.y) in s;
    s
  }

  predicate OnBoard<T>(g: seq<seq<T>>, p: Pos) {
    0 <= p.y < |g| && 0 <= p.x < |g[p.y]|
  }

  predicate Open<T(==)>(g: seq<seq<T>>, blocked: T, p: Pos) {
    OnBoard(g, p) && g[p.y][p.x] != blocked
  }

  /** The four neighbours in the order up, right, down, left. */
  function Neighbour(c: Pos, d: nat): (n: Pos)
    requires d < 4
    ensures Adjacent(c, n)
  {
    if d == 0 then Pos(c.x, c.y - 1)
    else if d == 1 then Pos(c.x + 1, c.y)
    else if d == 2 then Pos(c.x, c.y + 1)
    else Pos(c.x - 1, c.y)
  }

  lemma AdjacentIsNeighbour(c: Pos, n: Pos)
    requires Adjacent(c, n)
    ensures n == Neighbour(c, 0) || n == Neighbour(c, 1) || n == Neighbour(c, 2) || n == Neighbour(c, 3)
  {
  }

  /**
   * `p` walks from `s` to `e`: every cell after the first is open and each cell
   * is adjacent to the one before.  The first cell (the search's start) is not
   * required to be open, exactly as a breadth-first search seeded with it.
   */
  ghost predicate IsPath<T>(g: seq<seq<T>>, blocked: T, p: seq<Pos>, s: Pos, e: Pos) {
    |p| >= 1 && p[0] == s && p[|p| - 1] == e &&
    forall i :: 1 <= i < |p| ==> Open(g, blocked, p[i]) && Adjacent(p[i - 1], p[i])
  }

  ghost predicate Reachable<T>(g: seq<seq<T>>, blocked: T, s: Pos, e: Pos) {
    exists p :: IsPath(g, blocked, p, s, e)
  }

  /** Every open neighbour of a member of `S` is in `S`. */
  ghost predicate Closed<T>(g: seq<seq<T>>, blocked: T, S: set<Pos>) {
    forall c, n :: c in S && Adjacent(c, n) && Open(g, blocked, n) ==> n in S
  }

  /** A walk that starts inside a closed set never leaves it. */
  lemma {:induction false} ClosedContainsEnd<T>(g: seq<seq<T>>, blocked: T, S: set<Pos>, p: seq<Pos>, s: Pos, e: Pos)
    requires Closed(g, blocked, S) && s in S
    requires IsPath(g, blocked, p, s, e)
    ensures e in S
  {
    if |p| > 1 {
      var q := p[..|p| - 1];
      assert IsPath(g, blocked, q, s, q[|q| - 1]) by {
        forall i | 1 <= i < |q| ensures Open(g, blocked, q[i]) && Adjacent(q[i - 1], q[i]) {
          assert q[i] == p[i] && q[i - 1] == p[i - 1];
        }
      }
      ClosedContainsEnd(g, blocked, S, q, s, q[|q| - 1]);
      assert Adjacent(p[|p| - 2], e) && Open(g, blocked, e);
    }
  }

  /** Whatever is reachable from a member of a closed set belongs to it. */
  lemma ReachableStaysIn<T>(g: seq<seq<T>>, blocked: T, S: set<Pos>, s: Pos, e: Pos)
    requires Closed(g, blocked, S) && s in S
    ensures Reachable(g, blocked, s, e) ==> e in S
  {
    if Reachable(g, blocked, s, e) {
      var p :| IsPath(g, blocked, p, s, e);
      ClosedContainsEnd(g, blocked, S, p, s, e);
    }
  }

  /** A walk extended by one step to an open neighbour of its end. */
  lemma PathExtend<T>(g: seq<seq<T>>, blocked: T, p: seq<Pos>, s: Pos, e: Pos, n: Pos)
    requires IsPath(g, blocked, p, s, e) && Adjacent(e, n) && Open(g, blocked, n)
    ensures IsPath(g, blocked, p + [n], s, n)
  {
    var q := p + [n];
    forall i | 1 <= i < |q| ensures Open(g, blocked, q[i]) && Adjacent(q[i - 1], q[i]) {
      if i < |p| { assert q[i] == p[i] && q[i - 1] == p[i - 1]; }
    }
  }

  /** A walk with one step prepended from a neighbour `n` of its (open) first cell. */
  lemma {:induction false} PathPrepend<T>(g: seq<seq<T>>, blocked: T, p: seq<Pos>, s: Pos, e: Pos, n: Pos)
    requires IsPath(g, blocked, p, s, e) && Adjacent(n, s) && Open(g, blocked, s)
    ensures IsPath(g, blocked, [n] + p, n, e)
  {
    var q := [n] + p;
    forall i | 1 <= i < |q| ensures Open(g, blocked, q[i]) && Adjacent(q[i - 1], q[i]) {
      assert q[i] == p[i - 1];
      if i > 1 { assert q[i - 1] == p[i - 2]; }
    }
  }

  /** Reachability extends by one step to an open neighbour. */
  lemma ReachableExtend<T>(g: seq<seq<T>>, blocked: T, s: Pos, e: Pos, n: Pos)
    requires Reachable(g, blocked, s, e) && Adjacent(e, n) && Open(g, blocked, n)
    ensures Reachable(g, blocked, s, n)
  {
    var p :| IsPath(g, blocked, p, s, e);
    PathExtend(g, blocked, p, s, e, n);
  }

  /** Every open neighbour of a finished cell has been seen. */
  ghost predicate ClosedOver<T>(g: seq<seq<T>>, blocked: T, done: set<Pos>, seen: set<Pos>) {
    forall c, n :: c in done && Adjacent(c, n) && Open(g, blocked, n) ==> n in seen
  }

  /** Every seen cell is either finished or still queued. */
  ghost predicate Covered(seen: set<Pos>, done: set<Pos>, queue: seq<Pos>) {
    forall c :: c in seen ==> c in done || c in queue
  }

  /** Finishing the dequeued cell keeps the search's bookkeeping. */
  lemma FinishCell<T>(g: seq<seq<T>>, blocked: T, done: set<Pos>, current: Pos, seen0: set<Pos>, seen: set<Pos>,
                      queue0: seq<Pos>, queue: seq<Pos>)
    requires ClosedOver(g, blocked, done, seen0) && Covered(seen0, done, [current] + queue0)
    requires seen0 <= seen && |queue0| <= |queue| && queue[..|queue0|] == queue0
    requires forall c :: c in seen ==> c in seen0 || c in queue
    requires forall n :: Adjacent(current, n) && Open(g, blocked, n) ==> n in seen
    ensures ClosedOver(g, blocked, done + {current}, seen) && Covered(seen, done + {current}, queue)
  {
    forall c | c in seen ensures c in done + {current} || c in queue {
      if c in seen0 && c !in done && c != current {
        assert c in queue0;
        var i :| 0 <= i < |queue0| && queue0[i] == c;
        assert queue[i] == c;
      }
    }
  }
}
