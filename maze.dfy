/**
 * The maze game (src/games/maze/index.tsx): a 15 x 20 grid carved by a randomised
 * depth-first search on the odd lattice, a breadth-first reachability check from
 * the start (1,1) to the exit (13,18), a repair corridor for a maze whose exit is
 * cut off, and the player's moves.
 *
 * The grid under construction and the search's `visited` matrix are arrays that
 * the methods update in place; reachability is stated on the grid's value
 * (`Snapshot`).  `Math.random` is replaced by oracle functions indexed by the step
 * counter of the loop that draws from them.
 */
module Maze {
  import opened GridPaths

  datatype Cell = Wall | Path | Exit

  const Width: int := 15
  const Height: int := 20
  const Start: Pos := Pos(1, 1)
  const ExitPos: Pos := Pos(Width - 2, Height - 2)

  type Board = seq<seq<Cell>>

  predicate InBounds(p: Pos) {
    0 <= p.x < Width && 0 <= p.y < Height
  }

  /** Strictly inside the outer ring of the grid. */
  predicate Interior(p: Pos) {
    0 < p.x < Width - 1 && 0 < p.y < Height - 1
  }

  predicate IsBoard(g: Board) {
    |g| == Height && forall y :: 0 <= y < Height ==> |g[y]| == Width
  }

  /** The grid's current contents as a value. */
  function Snapshot(m: array2<Cell>): (g: Board)
    reads m
    requires m.Length0 == Height && m.Length1 == Width
    ensures IsBoard(g)
    ensures forall y, x :: 0 <= y < Height && 0 <= x < Width ==> g[y][x] == m[y, x]
  {
    seq(Height, y reads m requires 0 <= y < Height =>
      seq(Width, x reads m requires 0 <= x < Width => m[y, x]))
  }

  // ---------------------------------------------------------------------------
  // Breadth-first reachability check (hasValidPath)
  // ---------------------------------------------------------------------------

  /** The `visited` matrix marks exactly the positions of `seen`. */
  ghost predicate Marks(visited: array2<bool>, seen: set<Pos>)
    reads visited
    requires visited.Length0 == Height && visited.Length1 == Width
  {
    forall y, x :: 0 <= y < Height && 0 <= x < Width ==> (visited[y, x] <==> Pos(x, y) in seen)
  }

  /**
   * The search's bookkeeping: `visited` marks exactly `seen`, every seen cell is
   * reachable from the start and every queued cell has been seen.
   */
  ghost predicate Searching(g: Board, visited: array2<bool>, queue: seq<Pos>, seen: set<Pos>, start: Pos)
    reads visited
    requires visited.Length0 == Height && visited.Length1 == Width
  {
    && Marks(visited, seen) && seen <= AllCells(Width, Height)
    && (forall i :: 0 <= i < |queue| ==> queue[i] in seen)
    && (forall c :: c in seen ==> Reachable(g, Wall, start, c))
  }

  /** `visited[y][x] = true`: the marked set grows by the one position. */
  method Mark(visited: array2<bool>, ghost seen: set<Pos>, n: Pos)
    requires visited.Length0 == Height && visited.Length1 == Width && InBounds(n)
    requires Marks(visited, seen)
    modifies visited
    ensures Marks(visited, seen + {n})
  {
    visited[n.y, n.x] := true;
  }

  /**
   * One direction of a dequeued cell's turn: an in-bounds, unvisited, non-wall
   * neighbour is marked and appended to the queue.
   */
  method VisitNeighbour(m: array2<Cell>, visited: array2<bool>, queue: seq<Pos>, current: Pos, n: Pos,
                        ghost g: Board, ghost start: Pos, ghost seen: set<Pos>)
    returns (queue': seq<Pos>, ghost seen': set<Pos>)
    requires m.Length0 == Height && m.Length1 == Width && g == Snapshot(m)
    requires visited.Length0 == Height && visited.Length1 == Width
    requires Searching(g, visited, queue, seen, start) && Reachable(g, Wall, start, current) && Adjacent(current, n)
    modifies visited
    ensures Searching(g, visited, queue', seen', start)
    ensures (seen' == seen && queue' == queue) || (n !in seen && seen' == seen + {n} && queue' == queue + [n])
    ensures Open(g, Wall, n) ==> n in seen'
  {
    queue', seen' := queue, seen;
    if 0 <= n.x < Width && 0 <= n.y < Height && !visited[n.y, n.x] && m[n.y, n.x] != Wall {
      ReachableExtend(g, Wall, start, current, n);
      queue' := queue + [n];
      Mark(visited, seen, n);
      seen' := seen + {n};
    } else if Open(g, Wall, n) {
      assert g[n.y][n.x] == m[n.y, n.x];
    }
  }

  /**
   * One dequeued cell's turn: every in-bounds, unvisited, non-wall neighbour is
   * marked and appended to the queue.
   */
  method VisitNeighbours(m: array2<Cell>, visited: array2<bool>, queue: seq<Pos>, current: Pos,
                         ghost g: Board, ghost start: Pos, ghost seen: set<Pos>)
    returns (queue': seq<Pos>, ghost seen': set<Pos>)
    requires m.Length0 == Height && m.Length1 == Width && g == Snapshot(m)
    requires visited.Length0 == Height && visited.Length1 == Width
    requires Searching(g, visited, queue, seen, start) && current in seen
    modifies visited
    ensures Searching(g, visited, queue', seen', start)
    ensures seen <= seen' && |queue| <= |queue'| && queue'[..|queue|] == queue
    ensures forall c :: c in seen' ==> c in seen || c in queue'
    ensures seen' == seen ==> queue' == queue
    ensures forall n :: Adjacent(current, n) && Open(g, Wall, n) ==> n in seen'
  {
    queue', seen' := queue, seen;
    for d := 0 to 4
      invariant Searching(g, visited, queue', seen', start)
      invariant seen <= seen' && |queue| <= |queue'| && queue'[..|queue|] == queue
      invariant forall c :: c in seen' ==> c in seen || c in queue'
      invariant seen' == seen ==> queue' == queue
      invariant forall k :: 0 <= k < d && Open(g, Wall, Neighbour(current, k)) ==> Neighbour(current, k) in seen'
    {
      ghost var q, s := queue', seen';
      queue', seen' := VisitNeighbour(m, visited, queue', current, Neighbour(current, d), g, start, seen');
      QueueExtends(queue, seen, q, s, queue', seen', Neighbour(current, d));
    }
    forall n | Adjacent(current, n) && Open(g, Wall, n) ensures n in seen' {
      AdjacentIsNeighbour(current, n);
    }
  }

  /** Visiting one more neighbour keeps the queue an extension of the original one. */
  lemma QueueExtends(queue: seq<Pos>, seen: set<Pos>, q: seq<Pos>, s: set<Pos>,
                     q': seq<Pos>, s': set<Pos>, n: Pos)
    requires seen <= s && |queue| <= |q| && q[..|queue|] == queue
    requires forall c :: c in s ==> c in seen || c in q
    requires s == seen ==> q == queue
    requires (s' == s && q' == q) || (n !in s && s' == s + {n} && q' == q + [n])
    ensures seen <= s' && |queue| <= |q'| && q'[..|queue|] == queue
    ensures forall c :: c in s' ==> c in seen || c in q'
    ensures s' == seen ==> q' == queue
  {
    if s' != s {
      assert q'[..|queue|] == q[..|queue|];
      assert n in q';
    }
  }

  /** The head of the queue, which is not the target, is dequeued and its neighbours visited. */
  method SearchStep(m: array2<Cell>, visited: array2<bool>, queue: seq<Pos>,
                    ghost g: Board, ghost start: Pos, ghost end: Pos, ghost seen: set<Pos>, ghost done: set<Pos>)
    returns (queue': seq<Pos>, ghost seen': set<Pos>, ghost done': set<Pos>)
    requires m.Length0 == Height && m.Length1 == Width && g == Snapshot(m)
    requires visited.Length0 == Height && visited.Length1 == Width
    requires |queue| > 0 && queue[0] != end
    requires Searching(g, visited, queue, seen, start)
    requires done <= seen && end !in done
    requires Covered(seen, done, queue) && ClosedOver(g, Wall, done, seen)
    modifies visited
    ensures Searching(g, visited, queue', seen', start)
    ensures done' <= seen' && end !in done'
    ensures Covered(seen', done', queue') && ClosedOver(g, Wall, done', seen')
    ensures AllCells(Width, Height) - seen' < AllCells(Width, Height) - seen || (seen' == seen && |queue'| < |queue|)
  {
    var current := queue[0];
    ghost var queue0 := queue[1..];
    assert queue == [current] + queue0;
    queue', seen' := VisitNeighbours(m, visited, queue[1..], current, g, start, seen);
    FinishCell(g, Wall, done, current, seen, seen', queue0, queue');
    done' := done + {current};
    if seen' != seen {
      var w :| w in seen' && w !in seen;
      assert w in AllCells(Width, Height) - seen;
    }
  }

  /**
   * Breadth-first search from `start` over in-bounds non-wall cells, stopping as
   * soon as `end` is taken off the queue.  The answer is exactly reachability;
   * in particular it is true at once when `start == end`.
   */
  method HasValidPath(m: array2<Cell>, start: Pos, end: Pos) returns (found: bool)
    requires m.Length0 == Height && m.Length1 == Width
    requires InBounds(start)
    ensures found <==> Reachable(Snapshot(m), Wall, start, end)
  {
    ghost var g := Snapshot(m);
    var visited := new bool[Height, Width]((_, _) => false);
    var queue := [start];
    visited[start.y, start.x] := true;
    ghost var seen := {start};
    ghost var done: set<Pos> := {};
    assert IsPath(g, Wall, [start], start, start);
    while |queue| > 0
      invariant Searching(g, visited, queue, seen, start)
      invariant done <= seen && end !in done
      invariant Covered(seen, done, queue) && ClosedOver(g, Wall, done, seen)
      decreases AllCells(Width, Height) - seen, |queue|
    {
      if queue[0].x == end.x && queue[0].y == end.y {
        return true;
      }
      queue, seen, done := SearchStep(m, visited, queue, g, start, end, seen, done);
    }
    ReachableStaysIn(g, Wall, seen, start, end);
    return false;
  }

  // ---------------------------------------------------------------------------
  // Depth-first carving (the first half of generateMaze)
  // ---------------------------------------------------------------------------

  /**
   * The random draws of one carving pass, at step k of the loop: the shuffle's
   * first and (among the rest) second candidate, and the 20% extra-carve coin.
   * The float-weighted comparator is not modelled: any order is allowed.
   */
  datatype CarveOracle = CarveOracle(first: nat -> nat, second: nat -> nat, extra: nat -> bool)

  /** A lattice neighbour two cells away and the cell between it and the current one. */
  datatype Candidate = Candidate(pos: Pos, between: Pos)

  /** The four lattice neighbours in the source's order: +x, -x, +y, -y. */
  function Lattice(c: Pos): seq<Candidate> {
    [Candidate(Pos(c.x + 2, c.y), Pos(c.x + 1, c.y)),
     Candidate(Pos(c.x - 2, c.y), Pos(c.x - 1, c.y)),
     Candidate(Pos(c.x, c.y + 2), Pos(c.x, c.y + 1)),
     Candidate(Pos(c.x, c.y - 2), Pos(c.x, c.y - 1))]
  }

  predicate Carvable(m: array2<Cell>, k: Candidate)
    reads m
    requires m.Length0 == Height && m.Length1 == Width
  {
    Interior(k.pos) && m[k.pos.y, k.pos.x] == Wall
  }

  function Keep(m: array2<Cell>, k: Candidate): seq<Candidate>
    reads m
    requires m.Length0 == Height && m.Length1 == Width
  {
    if Carvable(m, k) then [k] else []
  }

  /** Both the candidate and the cell between are strictly inside the border. */
  predicate InsideBorder(k: Candidate) {
    Interior(k.pos) && Interior(k.between)
  }

  /** The lattice neighbours that are strictly inside the border and still walls. */
  function Candidates(m: array2<Cell>, c: Pos): (r: seq<Candidate>)
    reads m
    requires m.Length0 == Height && m.Length1 == Width
    requires Interior(c)
    ensures forall i :: 0 <= i < |r| ==> r[i] in Lattice(c) && Carvable(m, r[i])
    ensures forall k :: k in Lattice(c) && Carvable(m, k) ==> k in r
    ensures forall i :: 0 <= i < |r| ==> InsideBorder(r[i]) && m[r[i].pos.y, r[i].pos.x] == Wall
  {
    var l := Lattice(c);
    Keep(m, l[0]) + Keep(m, l[1]) + Keep(m, l[2]) + Keep(m, l[3])
  }

  ghost predicate BorderIsWall(m: array2<Cell>)
    reads m
    requires m.Length0 == Height && m.Length1 == Width
  {
    forall y, x :: 0 <= y < Height && 0 <= x < Width && !Interior(Pos(x, y)) ==> m[y, x] == Wall
  }

  /** `walls` is exactly the set of wall cells. */
  ghost predicate WallsAre(m: array2<Cell>, walls: set<Pos>)
    reads m
    requires m.Length0 == Height && m.Length1 == Width
  {
    forall y, x :: 0 <= y < Height && 0 <= x < Width ==> (m[y, x] == Wall <==> Pos(x, y) in walls)
  }

  ghost predicate NoExitCell(m: array2<Cell>)
    reads m
    requires m.Length0 == Height && m.Length1 == Width
  {
    forall y, x :: 0 <= y < Height && 0 <= x < Width ==> m[y, x] != Exit
  }

  /** The carving loop's grid invariant, with `walls` the set of wall cells. */
  ghost predicate Carving(m: array2<Cell>, walls: set<Pos>)
    reads m
    requires m.Length0 == Height && m.Length1 == Width
  {
    WallsAre(m, walls) && walls <= AllCells(Width, Height) && BorderIsWall(m) && NoExitCell(m) && m[Start.y, Start.x] == Path
  }

  /** Turns a candidate and the cell between into paths. */
  method CarveCandidate(m: array2<Cell>, k: Candidate, ghost walls: set<Pos>) returns (ghost walls': set<Pos>)
    requires m.Length0 == Height && m.Length1 == Width
    requires Carving(m, walls) && InsideBorder(k)
    modifies m
    ensures Carving(m, walls') && walls' == walls - {k.pos, k.between}
  {
    m[k.pos.y, k.pos.x] := Path;
    m[k.between.y, k.between.x] := Path;
    walls' := walls - {k.pos, k.between};
  }

  /** An all-wall grid with the start opened, as the carving loop begins. */
  method StartGrid() returns (m: array2<Cell>, ghost walls: set<Pos>)
    ensures fresh(m) && m.Length0 == Height && m.Length1 == Width
    ensures Carving(m, walls)
  {
    m := new Cell[Height, Width]((_, _) => Wall);
    m[Start.y, Start.x] := Path;
    walls := AllCells(Width, Height) - {Start};
  }

  /** The shuffled order's first candidate, as an index into the n candidates. */
  function FirstPick(draw: nat, n: nat): (i: nat)
    requires n > 0
    ensures i < n
  {
    draw % n
  }

  /** The shuffled order's second candidate: one of the other n - 1, counted on from i. */
  function SecondPick(i: nat, draw: nat, n: nat): (j: nat)
    requires 1 < n && i < n
    ensures j < n && j != i
  {
    var s := i + 1 + draw % (n - 1);
    if s < n then s else s - n
  }

  /**
   * One turn of the depth-first loop at the top of the stack: carve towards a
   * chosen candidate (and perhaps a second one) and push it, or pop when none
   * is left.  A push removes the pushed cell from the walls.
   */
  method CarveStep(m: array2<Cell>, o: CarveOracle, k: nat, stack: seq<Pos>, ghost walls: set<Pos>)
    returns (stack': seq<Pos>, ghost walls': set<Pos>)
    requires m.Length0 == Height && m.Length1 == Width
    requires |stack| > 0 && forall i :: 0 <= i < |stack| ==> Interior(stack[i])
    requires Carving(m, walls)
    modifies m
    ensures forall i :: 0 <= i < |stack'| ==> Interior(stack'[i])
    ensures Carving(m, walls')
    ensures walls' < walls || (walls' == walls && stack' == stack[..|stack| - 1])
  {
    var current := stack[|stack| - 1];
    var cands := Candidates(m, current);
    if |cands| > 0 {
      var i := FirstPick(o.first(k), |cands|);
      var next := cands[i];
      assert InsideBorder(next) && next.pos in walls;
      walls' := walls;
      if o.extra(k) && |cands| > 1 {
        var j := SecondPick(i, o.second(k), |cands|);
        assert InsideBorder(cands[j]);
        walls' := CarveCandidate(m, cands[j], walls');
      }
      walls' := CarveCandidate(m, next, walls');
      assert next.pos !in walls';
      stack' := stack + [next.pos];
      assert stack'[|stack|] == next.pos;
    } else {
      stack', walls' := stack[..|stack| - 1], walls;
    }
  }

  /**
   * A fresh all-wall grid carved by depth-first search from (1,1): the carve
   * writes only `Path`, and only strictly inside the border.  The loop ends
   * because every push turns a wall into a path and every other step pops.
   */
  method CarveMaze(o: CarveOracle) returns (m: array2<Cell>)
    ensures fresh(m) && m.Length0 == Height && m.Length1 == Width
    ensures BorderIsWall(m) && NoExitCell(m)
    ensures m[Start.y, Start.x] == Path
  {
    ghost var walls;
    m, walls := StartGrid();
    var stack := [Start];
    var k: nat := 0;
    while |stack| > 0
      invariant fresh(m) && m.Length0 == Height && m.Length1 == Width
      invariant forall i :: 0 <= i < |stack| ==> Interior(stack[i])
      invariant Carving(m, walls)
      decreases walls, |stack|
    {
      stack, walls := CarveStep(m, o, k, stack, walls);
      k := k + 1;
    }
  }

  // ---------------------------------------------------------------------------
  // Repair corridor and the retry loop (the second half of generateMaze)
  // ---------------------------------------------------------------------------

  /**
   * The random draws of the repair, at step k: the 50% coin that tries x first,
   * and the 30% coin for a one-cell side branch.
   */
  datatype RepairOracle = RepairOracle(xFirst: nat -> bool, branch: nat -> bool)

  /** Everything a finished grid promises apart from reachability. */
  ghost predicate Shaped(m: array2<Cell>)
    reads m
    requires m.Length0 == Height && m.Length1 == Width
  {
    && BorderIsWall(m)
    && m[ExitPos.y, ExitPos.x] == Exit
    && (forall y, x :: 0 <= y < Height && 0 <= x < Width && Pos(x, y) != ExitPos ==> m[y, x] != Exit)
    && m[Start.y, Start.x] == Path
  }

  /** Opens one interior cell other than the exit; no open cell closes. */
  method OpenCell(m: array2<Cell>, p: Pos)
    requires m.Length0 == Height && m.Length1 == Width
    requires Shaped(m) && Interior(p) && p != ExitPos
    modifies m
    ensures Shaped(m) && m[p.y, p.x] == Path
    ensures forall y, x :: 0 <= y < Height && 0 <= x < Width && old(m[y, x]) != Wall ==> m[y, x] != Wall
    ensures forall y, x :: 0 <= y < Height && 0 <= x < Width && old(m[y, x]) == Path ==> m[y, x] == Path
  {
    m[p.y, p.x] := Path;
  }

  /**
   * `route` walks from its first cell to the exit through adjacent, in-bounds
   * cells, all of them paths except the exit itself.
   */
  ghost predicate Corridor(m: array2<Cell>, route: seq<Pos>)
    reads m
    requires m.Length0 == Height && m.Length1 == Width
  {
    && |route| >= 1 && route[|route| - 1] == ExitPos
    && (forall i :: 1 <= i < |route| ==> Adjacent(route[i - 1], route[i]))
    && (forall i :: 0 <= i < |route| ==> InBounds(route[i]) && m[route[i].y, route[i].x] != Wall)
    && (forall i :: 0 <= i < |route| - 1 ==> InBounds(route[i]) && m[route[i].y, route[i].x] == Path)
  }

  /** A corridor from the start is a path of the grid's value. */
  lemma CorridorReaches(m: array2<Cell>, route: seq<Pos>)
    requires m.Length0 == Height && m.Length1 == Width
    requires Corridor(m, route) && route[0] == Start
    ensures Reachable(Snapshot(m), Wall, Start, ExitPos)
  {
    assert IsPath(Snapshot(m), Wall, route, Start, ExitPos);
  }

  /** The repair loop's invariant: `current` is next to the head of a corridor to the exit. */
  ghost predicate Repairing(m: array2<Cell>, current: Pos, route: seq<Pos>)
    reads m
    requires m.Length0 == Height && m.Length1 == Width
  {
    1 <= current.x <= ExitPos.x - 1 && 1 <= current.y <= ExitPos.y &&
    Shaped(m) && Corridor(m, route) && Adjacent(current, route[0])
  }

  /**
   * One turn of the repair loop: open the current cell, then step one cell
   * along the axis the coin favours (the other axis when that one is already
   * at 1), possibly opening a side cell on the way.
   */
  method RepairStep(m: array2<Cell>, o: RepairOracle, k: nat, current: Pos, ghost route: seq<Pos>)
    returns (current': Pos, ghost route': seq<Pos>)
    requires m.Length0 == Height && m.Length1 == Width
    requires Repairing(m, current, route) && (current.x > 1 || current.y > 1)
    modifies m
    ensures Repairing(m, current', route')
    ensures forall y, x :: 0 <= y < Height && 0 <= x < Width && old(m[y, x]) != Wall ==> m[y, x] != Wall
    ensures current'.x + current'.y < current.x + current.y
  {
    OpenCell(m, current);
    route' := [current] + route;
    current' := current;
    if o.xFirst(k) {
      if current.x > 1 {
        current' := current.(x := current.x - 1);
        if o.branch(k) && current'.y > 2 {
          OpenCell(m, Pos(current'.x, current'.y - 1));
        }
      } else if current.y > 1 {
        current' := current.(y := current.y - 1);
      }
    } else {
      if current.y > 1 {
        current' := current.(y := current.y - 1);
        if o.branch(k) && current'.x > 2 {
          OpenCell(m, Pos(current'.x - 1, current'.y));
        }
      } else if current.x > 1 {
        current' := current.(x := current.x - 1);
      }
    }
  }

  /**
   * Carves a corridor from the cell left of the exit back to (1,1), one axis
   * step at a time, with occasional one-cell side branches.  `x + y` strictly
   * decreases, so the loop ends, and it ends exactly at (1,1), which is not
   * written again: the start is already a path cell.  The returned
   * (ghost) route lists the corridor from the start to the exit.
   */
  method RepairCorridor(m: array2<Cell>, o: RepairOracle) returns (ghost route: seq<Pos>)
    requires m.Length0 == Height && m.Length1 == Width
    requires Shaped(m)
    modifies m
    ensures Shaped(m)
    ensures forall y, x :: 0 <= y < Height && 0 <= x < Width && old(m[y, x]) != Wall ==> m[y, x] != Wall
    ensures Corridor(m, route) && route[0] == Start
  {
    var current := Pos(ExitPos.x - 1, ExitPos.y);
    route := [ExitPos];
    var k: nat := 0;
    while current.x > 1 || current.y > 1
      invariant Repairing(m, current, route)
      invariant forall y, x :: 0 <= y < Height && 0 <= x < Width && old(m[y, x]) != Wall ==> m[y, x] != Wall
      decreases current.x + current.y
    {
      current, route := RepairStep(m, o, k, current, route);
      k := k + 1;
    }
    assert current == Start;
    route := [current] + route;
  }

  /**
   * The repair branch of `generateMaze`: the corridor, then the two cells next
   * to the start and the two next to the exit forced open.  Afterwards the exit
   * is reachable from the start.
   */
  method Repair(m: array2<Cell>, o: RepairOracle)
    requires m.Length0 == Height && m.Length1 == Width
    requires Shaped(m)
    modifies m
    ensures Shaped(m) && Reachable(Snapshot(m), Wall, Start, ExitPos)
  {
    ghost var route := RepairCorridor(m, o);
    OpenCell(m, Pos(2, 1));
    OpenCell(m, Pos(1, 2));
    OpenCell(m, Pos(ExitPos.x, ExitPos.y - 1));
    OpenCell(m, Pos(ExitPos.x - 1, ExitPos.y));
    CorridorReaches(m, route);
  }

  /** What `generateMaze` returns: the shape of the grid and a route from the start to the exit. */
  ghost predicate GeneratedMaze(g: Board) {
    && IsBoard(g)
    && (forall y, x :: 0 <= y < Height && 0 <= x < Width && !Interior(Pos(x, y)) ==> g[y][x] == Wall)
    && g[ExitPos.y][ExitPos.x] == Exit
    && (forall y, x :: 0 <= y < Height && 0 <= x < Width && Pos(x, y) != ExitPos ==> g[y][x] != Exit)
    && g[Start.y][Start.x] == Path
    && Reachable(g, Wall, Start, ExitPos)
  }

  lemma ShapedIsGenerated(m: array2<Cell>)
    requires m.Length0 == Height && m.Length1 == Width
    requires Shaped(m) && Reachable(Snapshot(m), Wall, Start, ExitPos)
    ensures GeneratedMaze(Snapshot(m))
  {
  }

  /**
   * Carve, mark the exit, check; when the exit is cut off, repair, force the
   * cells next to the start and the exit open, and check again.  After a repair
   * the second check always succeeds, so the retry loop runs its body once.
   */
  method GenerateMaze(carve: CarveOracle, repair: RepairOracle) returns (m: array2<Cell>, ghost attempts: nat)
    ensures fresh(m) && m.Length0 == Height && m.Length1 == Width
    ensures GeneratedMaze(Snapshot(m))
    ensures attempts == 1
  {
    m := new Cell[Height, Width]((_, _) => Wall);
    var valid := false;
    attempts := 0;
    while !valid
      invariant fresh(m) && m.Length0 == Height && m.Length1 == Width
      invariant valid ==> GeneratedMaze(Snapshot(m))
      invariant attempts == if valid then 1 else 0
      decreases if valid then 0 else 1
    {
      m := CarveMaze(carve);
      m[ExitPos.y, ExitPos.x] := Exit;
      valid := HasValidPath(m, Start, ExitPos);
      if !valid {
        Repair(m, repair);
        valid := HasValidPath(m, Start, ExitPos);
      }
      if valid {
        ShapedIsGenerated(m);
      }
      attempts := attempts + 1;
    }
  }

  // ---------------------------------------------------------------------------
  // Playing: initial state and movePlayer
  // ---------------------------------------------------------------------------

  datatype GameState = GameState(board: Board, player: Pos, exit: Pos, gameWon: bool)

  /** The player stands on an in-bounds open cell from which the exit can still be reached. */
  ghost predicate Playable(s: GameState) {
    && IsBoard(s.board)
    && InBounds(s.player) && s.board[s.player.y][s.player.x] != Wall
    && Reachable(s.board, Wall, s.player, s.exit)
    && (s.gameWon ==> s.player == s.exit)
  }

  /** A new game: a generated maze, the player at (1,1), the exit at (13,18), not won. */
  method InitializeGame(carve: CarveOracle, repair: RepairOracle) returns (s: GameState)
    ensures GeneratedMaze(s.board)
    ensures s.player == Start && s.exit == ExitPos && !s.gameWon
    ensures Playable(s)
  {
    var m, _ := GenerateMaze(carve, repair);
    s := GameState(Snapshot(m), Start, ExitPos, false);
  }

  function MovePlayer(s: GameState, dx: int, dy: int): GameState
    requires IsBoard(s.board)
  {
    var nx := s.player.x + dx;
    var ny := s.player.y + dy;
    if nx < 0 || nx >= Width || ny < 0 || ny >= Height || s.board[ny][nx] == Wall then s
    else s.(player := Pos(nx, ny), gameWon := nx == s.exit.x && ny == s.exit.y)
  }

  /**
   * A move whose target is not an open cell of the board leaves the state as
   * it is; otherwise the player stands on the target and has won exactly when
   * that is the exit.  So the board and the exit never change, a move of one
   * cell either does nothing or takes the player one step onto an open cell,
   * and a non-zero move keeps the player in place exactly when its target is
   * not open.
   */
  lemma MovePlayerOutcome(s: GameState, dx: int, dy: int)
    requires IsBoard(s.board)
    ensures var r := MovePlayer(s, dx, dy);
      var t := Pos(s.player.x + dx, s.player.y + dy);
      && (!Open(s.board, Wall, t) ==> r == s)
      && (Open(s.board, Wall, t) ==> r == s.(player := t, gameWon := t == s.exit))
      && r.board == s.board && r.exit == s.exit
      && (Adjacent(Pos(0, 0), Pos(dx, dy)) ==>
            r == s || (Adjacent(s.player, r.player) && Open(s.board, Wall, r.player)))
      && ((dx, dy) != (0, 0) ==>
            (r.player == s.player <==> !Open(s.board, Wall, Pos(s.player.x + dx, s.player.y + dy))))
      && (r.player != s.player ==> (r.gameWon <==> r.player == r.exit))
  {
  }

  /** A one-cell move keeps the game playable: the exit stays reachable from the player. */
  lemma MovePreservesPlayable(s: GameState, dx: int, dy: int)
    requires Playable(s)
    requires Adjacent(Pos(0, 0), Pos(dx, dy))
    ensures Playable(MovePlayer(s, dx, dy))
  {
    var r := MovePlayer(s, dx, dy);
    if r != s {
      var p :| IsPath(s.board, Wall, p, s.player, s.exit);
      PathPrepend(s.board, Wall, p, s.player, s.exit, r.player);
    }
  }
}
