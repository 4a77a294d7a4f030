/**
 * Pac-Man's board logic (src/games/pacman/index.tsx): a text template parsed
 * into cells, the breadth-first check that every dot can be reached from the
 * first open cell, the retry loop that draws templates until one passes it, the
 * wall test `canMove`, the wrapping `moveCharacter`, and one tick of
 * `updateGame` (direction choice, dot eating, ghost moves, collision).
 *
 * The board is a value `seq<seq<Cell>>` indexed `g[y][x]`; the search's
 * `visited` matrix is an array the search updates in place.  The source's
 * `Math.random` calls become parameters: an oracle of template indices and one
 * draw per ghost.
 */
module Pacman {
  import opened GridPaths
  import opened Basics

  datatype Cell = Empty | Wall | Dot

  datatype Direction = Up | Down | Left | Right

  const Width: int := 28
  const Height: int := 21
  const DotPoints: int := 10

  type Board = seq<seq<Cell>>

  predicate InBounds(p: Pos) {
    0 <= p.x < Width && 0 <= p.y < Height
  }

  /** A Height x Width board. */
  predicate IsBoard(g: Board) {
    |g| == Height && forall y :: 0 <= y < Height ==> |g[y]| == Width
  }

  // ---------------------------------------------------------------------------
  // Template parsing
  // ---------------------------------------------------------------------------

  function ParseCell(c: char): Cell {
    if c == '.' then Dot else if c == 'W' then Wall else Empty
  }

  /** One row, character by character (`row.split('').map(...)`). */
  function ParseRow(row: string): (r: seq<Cell>)
    ensures |r| == |row|
  {
    if |row| == 0 then [] else [ParseCell(row[0])] + ParseRow(row[1..])
  }

  /** Each row becomes a row of cells (`selectedMap.map(...)`): the board has the template's shape. */
  function Parse(t: seq<string>): (g: Board)
    ensures |g| == |t| && forall y :: 0 <= y < |t| ==> |g[y]| == |t[y]|
  {
    if |t| == 0 then [] else [ParseRow(t[0])] + Parse(t[1..])
  }

  lemma {:induction false} ParseRowAt(row: string, x: nat)
    requires x < |row|
    ensures ParseRow(row)[x] == ParseCell(row[x])
  {
    if x > 0 {
      ParseRowAt(row[1..], x - 1);
    }
  }

  lemma {:induction false} ParseAt(t: seq<string>, y: nat)
    requires y < |t|
    ensures Parse(t)[y] == ParseRow(t[y])
  {
    if y > 0 {
      ParseAt(t[1..], y - 1);
    }
  }

  /**
   * Parsing keeps every character's row and column: `'.'` becomes a dot, `'W'` a
   * wall and every other character an empty cell.
   */
  lemma ParseCells(t: seq<string>, y: nat, x: nat)
    requires y < |t| && x < |t[y]|
    ensures && (Parse(t)[y][x] == Dot <==> t[y][x] == '.')
            && (Parse(t)[y][x] == Wall <==> t[y][x] == 'W')
            && (Parse(t)[y][x] == Empty <==> t[y][x] != '.' && t[y][x] != 'W')
  {
    ParseAt(t, y);
    ParseRowAt(t[y], x);
  }

  /** A Height x Width template. */
  predicate IsTemplate(t: seq<string>) {
    |t| == Height && forall y :: 0 <= y < Height ==> |t[y]| == Width
  }

  /** Writes a board back as a template, one character per cell. */
  function Show(g: Board): (t: seq<string>)
    ensures |t| == |g| && forall y :: 0 <= y < |g| ==> |t[y]| == |g[y]|
  {
    seq(|g|, y requires 0 <= y < |g| => seq(|g[y]|, x requires 0 <= x < |g[y]| =>
      match g[y][x] case Dot => '.' case Wall => 'W' case Empty => ' '))
  }

  /** Parsing loses nothing: every board is the parse of its own template. */
  lemma ParseShow(g: Board)
    ensures Parse(Show(g)) == g
  {
    var t := Show(g);
    var h := Parse(t);
    forall y | 0 <= y < |g| ensures h[y] == g[y] {
      forall x | 0 <= x < |g[y]| ensures h[y][x] == g[y][x] {
        ParseCells(t, y, x);
      }
    }
  }

  lemma TemplateIsBoard(t: seq<string>)
    requires IsTemplate(t)
    ensures IsBoard(Parse(t))
  {
  }

  // ---------------------------------------------------------------------------
  // What validateMap decides
  // ---------------------------------------------------------------------------

  predicate HasDot(g: Board)
    requires IsBoard(g)
  {
    exists y, x :: 0 <= y < Height && 0 <= x < Width && g[y][x] == Dot
  }

  /** `p` comes before `s` in row-major order. */
  predicate Earlier(p: Pos, s: Pos) {
    p.y < s.y || (p.y == s.y && p.x < s.x)
  }

  /** `s` is the first non-wall cell in row-major order. */
  predicate IsFirstOpen(g: Board, s: Pos)
    requires IsBoard(g)
  {
    && InBounds(s) && g[s.y][s.x] != Wall
    && forall y, x :: 0 <= y < Height && 0 <= x < Width && Earlier(Pos(x, y), s) ==> g[y][x] == Wall
  }

  lemma FirstOpenUnique(g: Board, s: Pos, t: Pos)
    requires IsBoard(g) && IsFirstOpen(g, s) && IsFirstOpen(g, t)
    ensures s == t
  {
  }

  /** Every dot can be reached from `s` by 4-adjacent steps over non-wall cells. */
  ghost predicate DotsReachable(g: Board, s: Pos)
    requires IsBoard(g)
  {
    forall y, x :: 0 <= y < Height && 0 <= x < Width && g[y][x] == Dot ==> Reachable(g, Wall, s, Pos(x, y))
  }

  /** A board the game accepts: it has a dot and every dot is reachable from the first open cell. */
  ghost predicate PlayableMap(g: Board)
    requires IsBoard(g)
  {
    HasDot(g) && exists s :: IsFirstOpen(g, s) && DotsReachable(g, s)
  }

  /** A well-shaped template whose board is playable. */
  ghost predicate PlayableTemplate(t: seq<string>) {
    IsTemplate(t) && PlayableMap(Parse(t))
  }

  // ---------------------------------------------------------------------------
  // validateMap
  // ---------------------------------------------------------------------------

  /**
   * The first scan: whether there is a dot, and the first non-wall cell in
   * row-major order.  Every dot is a non-wall cell, so a dot implies a start.
   */
  method FindStart(board: Board) returns (hasDots: bool, startPos: Option<Pos>)
    requires IsBoard(board)
    ensures hasDots <==> HasDot(board)
    ensures startPos.Some? ==> IsFirstOpen(board, startPos.value)
    ensures startPos.None? ==> forall y, x :: 0 <= y < Height && 0 <= x < Width ==> board[y][x] == Wall
    ensures hasDots ==> startPos.Some?
  {
    hasDots, startPos := false, None;
    for y := 0 to Height
      invariant hasDots <==> exists yy, xx :: 0 <= yy < y && 0 <= xx < Width && board[yy][xx] == Dot
      invariant startPos.Some? ==> IsFirstOpen(board, startPos.value)
      invariant startPos.None? ==> forall yy, xx :: 0 <= yy < y && 0 <= xx < Width ==> board[yy][xx] == Wall
    {
      ghost var before := hasDots;
      for x := 0 to Width
        invariant hasDots <==> before || exists xx :: 0 <= xx < x && board[y][xx] == Dot
        invariant startPos.Some? ==> IsFirstOpen(board, startPos.value)
        invariant startPos.None? ==> forall yy, xx :: (0 <= yy < y && 0 <= xx < Width) || (yy == y && 0 <= xx < x) ==> board[yy][xx] == Wall
      {
        if board[y][x] == Dot {
          hasDots := true;
        }
        if board[y][x] != Wall && startPos.None? {
          startPos := Some(Pos(x, y));
        }
      }
    }
  }

  /** The `visited` matrix marks exactly the positions of `seen`. */
  ghost predicate Marks(visited: array2<bool>, seen: set<Pos>)
    reads visited
    requires visited.Length0 == Height && visited.Length1 == Width
  {
    forall y, x :: 0 <= y < Height && 0 <= x < Width ==> (visited[y, x] <==> Pos(x, y) in seen)
  }

  /** The search's bookkeeping: marks, queue and reachability of everything seen. */
  ghost predicate Searching(g: Board, visited: array2<bool>, queue: seq<Pos>, seen: set<Pos>, start: Pos)
    reads visited
    requires visited.Length0 == Height && visited.Length1 == Width
  {
    && Marks(visited, seen) && seen <= AllCells(Width, Height)
    && (forall i :: 0 <= i < |queue| ==> queue[i] in seen)
    && (forall c :: c in seen ==> Reachable(g, Wall, start, c))
  }

  /** One step in direction `d`, without wrapping. */
  function Step(p: Pos, d: Direction): (n: Pos)
    ensures Adjacent(p, n)
  {
    match d
    case Up => Pos(p.x, p.y - 1)
    case Down => Pos(p.x, p.y + 1)
    case Left => Pos(p.x - 1, p.y)
    case Right => Pos(p.x + 1, p.y)
  }

  /** The order in which the search tries the neighbours: x-1, x+1, y-1, y+1. */
  const SearchOrder: seq<Direction> := [Left, Right, Up, Down]

  lemma AdjacentIsStep(c: Pos, n: Pos)
    requires Adjacent(c, n)
    ensures exists k :: 0 <= k < 4 && n == Step(c, SearchOrder[k])
  {
    if n == Step(c, Left) { assert n == Step(c, SearchOrder[0]); }
    else if n == Step(c, Right) { assert n == Step(c, SearchOrder[1]); }
    else if n == Step(c, Up) { assert n == Step(c, SearchOrder[2]); }
    else { assert n == Step(c, SearchOrder[3]); }
  }

  /** One dequeued cell's turn: every in-bounds, unvisited, non-wall neighbour is marked and queued. */
  method VisitNeighbours(board: Board, visited: array2<bool>, queue: seq<Pos>, current: Pos,
                         ghost start: Pos, ghost seen: set<Pos>)
    returns (queue': seq<Pos>, ghost seen': set<Pos>)
    requires IsBoard(board)
    requires visited.Length0 == Height && visited.Length1 == Width
    requires Searching(board, visited, queue, seen, start) && current in seen
    modifies visited
    ensures Searching(board, visited, queue', seen', start)
    ensures seen <= seen' && |queue| <= |queue'| && queue'[..|queue|] == queue
    ensures forall c :: c in seen' ==> c in seen || c in queue'
    ensures seen' == seen ==> queue' == queue
    ensures forall n :: Adjacent(current, n) && Open(board, Wall, n) ==> n in seen'
  {
    queue', seen' := queue, seen;
    for k := 0 to 4
      invariant Searching(board, visited, queue', seen', start)
      invariant seen <= seen' && |queue| <= |queue'| && queue'[..|queue|] == queue
      invariant forall c :: c in seen' ==> c in seen || c in queue'
      invariant seen' == seen ==> queue' == queue
      invariant forall j :: 0 <= j < k && Open(board, Wall, Step(current, SearchOrder[j])) ==> Step(current, SearchOrder[j]) in seen'
    {
      var n := Step(current, SearchOrder[k]);
      if 0 <= n.x < Width && 0 <= n.y < Height && !visited[n.y, n.x] && board[n.y][n.x] != Wall {
        ReachableExtend(board, Wall, start, current, n);
        queue' := queue' + [n];
        visited[n.y, n.x] := true;
        seen' := seen' + {n};
      }
    }
    forall n | Adjacent(current, n) && Open(board, Wall, n) ensures n in seen' {
      AdjacentIsStep(current, n);
    }
  }

  /** The head of the queue is taken off (`queue.shift()`) and its neighbours visited. */
  method SearchStep(board: Board, visited: array2<bool>, queue: seq<Pos>,
                    ghost start: Pos, ghost seen: set<Pos>, ghost done: set<Pos>)
    returns (queue': seq<Pos>, ghost seen': set<Pos>, ghost done': set<Pos>)
    requires IsBoard(board)
    requires visited.Length0 == Height && visited.Length1 == Width
    requires |queue| > 0
    requires Searching(board, visited, queue, seen, start)
    requires Covered(seen, done, queue) && ClosedOver(board, Wall, done, seen)
    modifies visited
    ensures Searching(board, visited, queue', seen', start)
    ensures Covered(seen', done', queue') && ClosedOver(board, Wall, done', seen')
    ensures AllCells(Width, Height) - seen' < AllCells(Width, Height) - seen || (seen' == seen && |queue'| < |queue|)
  {
    var current := queue[0];
    ghost var queue0 := queue[1..];
    assert queue == [current] + queue0;
    queue', seen' := VisitNeighbours(board, visited, queue[1..], current, start, seen);
    FinishCell(board, Wall, done, current, seen, seen', queue0, queue');
    done' := done + {current};
    if seen' != seen {
      var w :| w in seen' && w !in seen;
      assert w in AllCells(Width, Height) - seen;
    }
  }

  /**
   * Breadth-first search from `start` until the queue is empty; afterwards a
   * cell is marked exactly when it is reachable from `start`.
   */
  method Explore(board: Board, visited: array2<bool>, start: Pos)
    requires IsBoard(board) && InBounds(start)
    requires visited.Length0 == Height && visited.Length1 == Width
    requires Marks(visited, {start})
    modifies visited
    ensures forall y, x :: 0 <= y < Height && 0 <= x < Width ==>
      (visited[y, x] <==> Reachable(board, Wall, start, Pos(x, y)))
  {
    var queue := [start];
    ghost var seen := {start};
    ghost var done: set<Pos> := {};
    assert IsPath(board, Wall, [start], start, start);
    while |queue| > 0
      invariant Searching(board, visited, queue, seen, start)
      invariant Covered(seen, done, queue) && ClosedOver(board, Wall, done, seen)
      decreases AllCells(Width, Height) - seen, |queue|
    {
      queue, seen, done := SearchStep(board, visited, queue, start, seen, done);
    }
    forall y, x | 0 <= y < Height && 0 <= x < Width
      ensures visited[y, x] <==> Reachable(board, Wall, start, Pos(x, y))
    {
      ReachableStaysIn(board, Wall, seen, start, Pos(x, y));
    }
  }

  /** The final scan: is every dot marked? */
  method DotsVisited(board: Board, visited: array2<bool>) returns (ok: bool)
    requires IsBoard(board)
    requires visited.Length0 == Height && visited.Length1 == Width
    ensures ok <==> forall y, x :: 0 <= y < Height && 0 <= x < Width && board[y][x] == Dot ==> visited[y, x]
  {
    for y := 0 to Height
      invariant forall yy, xx :: 0 <= yy < y && 0 <= xx < Width && board[yy][xx] == Dot ==> visited[yy, xx]
    {
      for x := 0 to Width
        invariant forall yy, xx :: ((0 <= yy < y && 0 <= xx < Width) || (yy == y && 0 <= xx < x)) && board[yy][xx] == Dot ==> visited[yy, xx]
      {
        if board[y][x] == Dot && !visited[y, x] {
          return false;
        }
      }
    }
    return true;
  }

  /**
   * validateMap: false when the board has no dot; otherwise true exactly when
   * every dot is reachable from the first non-wall cell.
   */
  method ValidateMap(board: Board) returns (valid: bool)
    requires IsBoard(board)
    ensures valid <==> PlayableMap(board)
    ensures !HasDot(board) ==> !valid
  {
    var visited := new bool[Height, Width]((_, _) => false);
    var hasDots, startPos := FindStart(board);
    if !hasDots || startPos.None? {
      return false;
    }
    var start := startPos.value;
    visited[start.y, start.x] := true;
    Explore(board, visited, start);
    valid := DotsVisited(board, visited);
    if !valid {
      forall s | IsFirstOpen(board, s) ensures !DotsReachable(board, s) {
        FirstOpenUnique(board, s, start);
      }
    }
  }

  // ---------------------------------------------------------------------------
  // initializeGame: drawing templates until one is valid
  // ---------------------------------------------------------------------------

  /** The template drawn at attempt `k`, `Math.floor(Math.random() * n)` being `pick(k) % n`. */
  function Drawn(templates: seq<seq<string>>, pick: nat -> nat, k: nat): (t: seq<string>)
    requires |templates| > 0
  {
    templates[pick(k) % |templates|]
  }

  /**
   * The retry loop: templates are drawn and parsed until one passes
   * `validateMap`.  The loop ends provided some draw yields a playable board;
   * the board returned is the first such draw.
   */
  method InitializeBoard(templates: seq<seq<string>>, pick: nat -> nat) returns (board: Board, draws: nat)
    requires |templates| > 0 && forall t :: t in templates ==> IsTemplate(t)
    requires exists k: nat :: PlayableTemplate(Drawn(templates, pick, k))
    ensures draws > 0 && board == Parse(Drawn(templates, pick, draws - 1))
    ensures PlayableTemplate(Drawn(templates, pick, draws - 1))
    ensures NoneBefore(templates, pick, draws - 1)
  {
    ghost var last: nat :| PlayableTemplate(Drawn(templates, pick, last));
    ghost var failures: nat := 0;
    var validMap := false;
    board, draws := [], 0;
    while !validMap
      invariant NoneBefore(templates, pick, failures) && failures <= last
      invariant !validMap ==> draws == failures
      invariant validMap ==> && draws == failures + 1
                             && board == Parse(Drawn(templates, pick, failures))
                             && PlayableTemplate(Drawn(templates, pick, failures))
      decreases last - failures, !validMap
    {
      board, validMap := DrawTemplate(templates, pick, draws);
      if !validMap {
        NoneBeforeNext(templates, pick, failures, last);
        failures := failures + 1;
      }
      draws := draws + 1;
    }
  }

  /** A failed draw extends the run of failures, which cannot pass a draw known to succeed. */
  lemma NoneBeforeNext(templates: seq<seq<string>>, pick: nat -> nat, n: nat, last: nat)
    requires |templates| > 0
    requires NoneBefore(templates, pick, n) && !PlayableTemplate(Drawn(templates, pick, n))
    requires PlayableTemplate(Drawn(templates, pick, last))
    ensures NoneBefore(templates, pick, n + 1) && n + 1 <= last
  {
  }

  /** None of the first `n` draws yields a playable board. */
  ghost predicate NoneBefore(templates: seq<seq<string>>, pick: nat -> nat, n: nat)
    requires |templates| > 0
  {
    forall k: nat :: k < n ==> !PlayableTemplate(Drawn(templates, pick, k))
  }

  /** One pass of the retry loop: draw a template, parse it and validate the board. */
  method DrawTemplate(templates: seq<seq<string>>, pick: nat -> nat, k: nat) returns (board: Board, validMap: bool)
    requires |templates| > 0 && forall t :: t in templates ==> IsTemplate(t)
    ensures board == Parse(Drawn(templates, pick, k))
    ensures validMap <==> PlayableTemplate(Drawn(templates, pick, k))
  {
    var selected := Drawn(templates, pick, k);
    assert selected in templates;
    board := Parse(selected);
    validMap := ValidateMap(board);
  }

  // ---------------------------------------------------------------------------
  // canMove and moveCharacter
  // ---------------------------------------------------------------------------

  /** canMove: the unwrapped neighbour is on the board and is not a wall. */
  predicate CanMove(g: Board, p: Pos, d: Direction)
    requires IsBoard(g)
  {
    var n := Step(p, d);
    0 <= n.x < Width && 0 <= n.y < Height && g[n.y][n.x] != Wall
  }

  /**
   * The wrapped neighbour, as moveCharacter computes it: `(y - 1 + H) % H` and
   * so on, whose operands are never negative for an in-bounds position.  Inside
   * the board it is the plain step; off an edge it re-enters at the opposite edge.
   */
  function Wrapped(p: Pos, d: Direction): (n: Pos)
    requires InBounds(p)
    ensures InBounds(n) && n != p
    ensures InBounds(Step(p, d)) ==> n == Step(p, d)
    ensures !InBounds(Step(p, d)) ==> n == OppositeEdge(p, d)
  {
    match d
    case Up =>
      assert p.y == 0 ==> (p.y - 1 + Height) % Height == Height - 1;
      assert p.y > 0 ==> (p.y - 1 + Height) % Height == p.y - 1;
      Pos(p.x, (p.y - 1 + Height) % Height)
    case Down =>
      assert p.y == Height - 1 ==> (p.y + 1) % Height == 0;
      assert p.y < Height - 1 ==> (p.y + 1) % Height == p.y + 1;
      Pos(p.x, (p.y + 1) % Height)
    case Left =>
      assert p.x == 0 ==> (p.x - 1 + Width) % Width == Width - 1;
      assert p.x > 0 ==> (p.x - 1 + Width) % Width == p.x - 1;
      Pos((p.x - 1 + Width) % Width, p.y)
    case Right =>
      assert p.x == Width - 1 ==> (p.x + 1) % Width == 0;
      assert p.x < Width - 1 ==> (p.x + 1) % Width == p.x + 1;
      Pos((p.x + 1) % Width, p.y)
  }

  /** The cell on the far side of the board, in the same row or column. */
  function OppositeEdge(p: Pos, d: Direction): Pos {
    match d
    case Up => Pos(p.x, Height - 1)
    case Down => Pos(p.x, 0)
    case Left => Pos(Width - 1, p.y)
    case Right => Pos(0, p.y)
  }

  /** moveCharacter: the wrapped neighbour unless it is a wall, in which case the position stays. */
  function MoveCharacter(g: Board, p: Pos, d: Direction): (r: Pos)
    requires IsBoard(g) && InBounds(p)
    ensures InBounds(r)
    ensures r == p || r == Wrapped(p, d)
    ensures r == Wrapped(p, d) <==> g[Wrapped(p, d).y][Wrapped(p, d).x] != Wall
    ensures g[p.y][p.x] != Wall ==> g[r.y][r.x] != Wall
  {
    var n := Wrapped(p, d);
    if g[n.y][n.x] == Wall then p else n
  }

  /**
   * The two agree away from the edges: where canMove allows a step the move is
   * exactly that step, and where canMove sees a wall on the board the move stays.
   * At the edge canMove refuses while the move wraps round.
   */
  lemma MoveAgrees(g: Board, p: Pos, d: Direction)
    requires IsBoard(g) && InBounds(p)
    ensures CanMove(g, p, d) ==> MoveCharacter(g, p, d) == Step(p, d)
    ensures InBounds(Step(p, d)) && !CanMove(g, p, d) ==> MoveCharacter(g, p, d) == p
    ensures !InBounds(Step(p, d)) ==> !CanMove(g, p, d)
  {
  }

  // ---------------------------------------------------------------------------
  // updateGame
  // ---------------------------------------------------------------------------

  /** The requested direction if possible, else the current one if possible, else the previous one. */
  function ChooseDirection(g: Board, p: Pos, next: Direction, current: Direction, previous: Direction): (d: Direction)
    requires IsBoard(g)
    ensures CanMove(g, p, next) ==> d == next
    ensures !CanMove(g, p, next) && CanMove(g, p, current) ==> d == current
    ensures !CanMove(g, p, next) && !CanMove(g, p, current) ==> d == previous
  {
    if CanMove(g, p, next) then next else if CanMove(g, p, current) then current else previous
  }

  /**
   * Whenever the requested or the current direction is open, Pac-Man advances
   * one unwrapped step into an open neighbouring cell.
   */
  lemma ChosenMoveAdvances(g: Board, p: Pos, next: Direction, current: Direction, previous: Direction)
    requires IsBoard(g) && InBounds(p)
    requires CanMove(g, p, next) || CanMove(g, p, current)
    ensures var d := ChooseDirection(g, p, next, current, previous);
      && MoveCharacter(g, p, d) == Step(p, d)
      && Adjacent(p, MoveCharacter(g, p, d)) && Open(g, Wall, MoveCharacter(g, p, d))
  {
    var d := ChooseDirection(g, p, next, current, previous);
    assert CanMove(g, p, d);
    MoveAgrees(g, p, d);
  }

  /** The directions in `ds`, in order, that canMove allows from `p`. */
  function Movable(g: Board, p: Pos, ds: seq<Direction>): (r: seq<Direction>)
    requires IsBoard(g)
    ensures forall d :: d in r <==> d in ds && CanMove(g, p, d)
  {
    if |ds| == 0 then []
    else (if CanMove(g, p, ds[0]) then [ds[0]] else []) + Movable(g, p, ds[1..])
  }

  /** The two random draws for one ghost: the 10% turn coin and the pick among open directions. */
  datatype GhostDraw = GhostDraw(turn: bool, choice: nat)

  /** A moving character: where it is and where it is heading (ghost colours are not modelled). */
  datatype Actor = Actor(pos: Pos, dir: Direction)

  /**
   * A ghost moves one wrapped step in its direction; with the coin, it then turns
   * to a direction open from the cell it left, when there is one.
   */
  function MoveGhost(g: Board, gh: Actor, draw: GhostDraw): (r: Actor)
    requires IsBoard(g) && InBounds(gh.pos)
    ensures r.pos == MoveCharacter(g, gh.pos, gh.dir)
    ensures !draw.turn ==> r.dir == gh.dir
    ensures r.dir == gh.dir || CanMove(g, gh.pos, r.dir)
    ensures draw.turn && (exists d :: CanMove(g, gh.pos, d)) ==> CanMove(g, gh.pos, r.dir)
  {
    var newPos := MoveCharacter(g, gh.pos, gh.dir);
    var available := Movable(g, gh.pos, [Up, Down, Left, Right]);
    if draw.turn && |available| > 0 then
      assert available[draw.choice % |available|] in available;
      Actor(newPos, available[draw.choice % |available|])
    else
      assert draw.turn ==> forall d :: !CanMove(g, gh.pos, d) by {
        if draw.turn {
          forall d ensures !CanMove(g, gh.pos, d) {
            assert d in [Up, Down, Left, Right];
          }
        }
      }
      Actor(newPos, gh.dir)
  }

  predicate ActorsInBounds(actors: seq<Actor>) {
    forall i :: 0 <= i < |actors| ==> InBounds(actors[i].pos)
  }

  /** All ghosts move, the i-th with the i-th pair of draws. */
  function MoveGhosts(g: Board, ghosts: seq<Actor>, draws: nat -> GhostDraw): (r: seq<Actor>)
    requires IsBoard(g) && ActorsInBounds(ghosts)
    ensures |r| == |ghosts| && ActorsInBounds(r)
    ensures forall i :: 0 <= i < |ghosts| ==> r[i] == MoveGhost(g, ghosts[i], draws(i))
  {
    var r := seq(|ghosts|, i requires 0 <= i < |ghosts| => MoveGhost(g, ghosts[i], draws(i)));
    assert forall i :: 0 <= i < |r| ==> r[i] == MoveGhost(g, ghosts[i], draws(i)) && InBounds(MoveGhost(g, ghosts[i], draws(i)).pos);
    r
  }

  /** Some ghost stands on `p`. */
  predicate Caught(ghosts: seq<Actor>, p: Pos) {
    exists i :: 0 <= i < |ghosts| && ghosts[i].pos == p
  }

  datatype GameState = GameState(board: Board, pacman: Actor, ghosts: seq<Actor>, score: int, gameOver: bool)

  predicate WellFormed(st: GameState) {
    IsBoard(st.board) && InBounds(st.pacman.pos) && ActorsInBounds(st.ghosts)
  }

  /** The dots on a board. */
  function DotCount(g: Board): (n: nat)
    ensures n == 0 <==> forall y, x :: 0 <= y < |g| && 0 <= x < |g[y]| ==> g[y][x] != Dot
  {
    if |g| == 0 then 0
    else
      assert forall y :: 0 < y < |g| ==> g[y] == g[1..][y - 1];
      RowDots(g[0]) + DotCount(g[1..])
  }

  function RowDots(row: seq<Cell>): (n: nat)
    ensures n == 0 <==> Dot !in row
  {
    if |row| == 0 then 0 else (if row[0] == Dot then 1 else 0) + RowDots(row[1..])
  }

  lemma {:induction false} RowDotsClear(row: seq<Cell>, x: nat)
    requires x < |row| && row[x] == Dot
    ensures RowDots(row[x := Empty]) == RowDots(row) - 1
  {
    if x > 0 {
      RowDotsClear(row[1..], x - 1);
      assert row[x := Empty][1..] == row[1..][x - 1 := Empty];
    }
  }

  lemma {:induction false} DotCountClear(g: Board, y: nat, x: nat)
    requires y < |g| && x < |g[y]| && g[y][x] == Dot
    ensures DotCount(g[y := g[y][x := Empty]]) == DotCount(g) - 1
  {
    var h := g[y := g[y][x := Empty]];
    if y == 0 {
      RowDotsClear(g[0], x);
      assert h[1..] == g[1..];
    } else {
      DotCountClear(g[1..], y - 1, x);
      assert h[1..] == g[1..][y - 1 := g[1..][y - 1][x := Empty]];
    }
  }

  /** Landing on a dot empties that cell; any other landing leaves the board as it is. */
  function Eaten(g: Board, p: Pos): (h: Board)
    requires IsBoard(g) && InBounds(p)
    ensures IsBoard(h)
    ensures g[p.y][p.x] == Dot ==> h[p.y][p.x] == Empty
    ensures g[p.y][p.x] != Dot ==> h == g
    ensures forall y, x :: 0 <= y < Height && 0 <= x < Width && Pos(x, y) != p ==> h[y][x] == g[y][x]
  {
    if g[p.y][p.x] == Dot then g[p.y := g[p.y][p.x := Empty]] else g
  }

  /** The points for landing on `p`. */
  function Points(g: Board, p: Pos): int
    requires IsBoard(g) && InBounds(p)
  {
    if g[p.y][p.x] == Dot then DotPoints else 0
  }

  /** Eating turns exactly one dot into ten points: score + 10 * dots is preserved. */
  lemma EatingKeepsTotal(g: Board, p: Pos, score: int)
    requires IsBoard(g) && InBounds(p)
    ensures score + Points(g, p) + DotPoints * DotCount(Eaten(g, p)) == score + DotPoints * DotCount(g)
    ensures g[p.y][p.x] == Dot ==> DotCount(Eaten(g, p)) == DotCount(g) - 1
  {
    if g[p.y][p.x] == Dot {
      DotCountClear(g, p.y, p.x);
    }
  }

  /**
   * The previous ghosts after the ghost map: the map writes each new direction
   * into the ghost object it reads, so the old ghosts keep their positions but
   * carry the new directions.
   */
  function Turned(ghosts: seq<Actor>, moved: seq<Actor>): (r: seq<Actor>)
    requires |moved| == |ghosts|
    ensures |r| == |ghosts|
    ensures forall i :: 0 <= i < |r| ==> r[i] == Actor(ghosts[i].pos, moved[i].dir)
    ensures ActorsInBounds(ghosts) ==> ActorsInBounds(r)
  {
    seq(|ghosts|, i requires 0 <= i < |ghosts| => Actor(ghosts[i].pos, moved[i].dir))
  }

  /** What one tick produces: the new state and the direction the game now calls current. */
  datatype Tick = Tick(state: GameState, current: Direction)

  /**
   * One tick of updateGame: choose Pac-Man's direction, move him, eat a dot,
   * move the ghosts; if a ghost now stands on Pac-Man the game is over,
   * otherwise the moved state is kept.  The game-over state is the previous
   * one as the source leaves it: the board's rows are shared with the copy, so
   * the eaten dot is gone from it, and the old ghosts carry their new
   * directions; score, Pac-Man and the ghosts' positions are the previous ones.
   */
  function UpdateGame(st: GameState, next: Direction, current: Direction, draws: nat -> GhostDraw): (r: Tick)
    requires WellFormed(st)
    ensures WellFormed(r.state)
    ensures st.gameOver ==> r == Tick(st, current)
    ensures !st.gameOver && r.state.gameOver ==>
      && r.state.pacman == st.pacman && r.state.score == st.score && r.current == current
      && |r.state.ghosts| == |st.ghosts|
      && (forall i :: 0 <= i < |st.ghosts| ==> r.state.ghosts[i].pos == st.ghosts[i].pos)
      && (forall y, x :: 0 <= y < Height && 0 <= x < Width && st.board[y][x] != Dot ==> r.state.board[y][x] == st.board[y][x])
    ensures !r.state.gameOver ==> !Caught(r.state.ghosts, r.state.pacman.pos)
  {
    if st.gameOver then Tick(st, current)
    else
      var actual := ChooseDirection(st.board, st.pacman.pos, next, current, st.pacman.dir);
      var pos := MoveCharacter(st.board, st.pacman.pos, actual);
      var board := Eaten(st.board, pos);
      var score := st.score + Points(st.board, pos);
      var ghosts := MoveGhosts(st.board, st.ghosts, draws);
      if Caught(ghosts, pos) then Tick(st.(board := board, ghosts := Turned(st.ghosts, ghosts), gameOver := true), current)
      else Tick(GameState(board, Actor(pos, actual), ghosts, score, false), actual)
  }

  /** Pac-Man's part of a tick that does not end the game: where he lands and what he eats. */
  lemma TickOutcome(st: GameState, next: Direction, current: Direction, draws: nat -> GhostDraw)
    requires WellFormed(st) && !st.gameOver
    ensures var d := ChooseDirection(st.board, st.pacman.pos, next, current, st.pacman.dir);
      var pos := MoveCharacter(st.board, st.pacman.pos, d);
      var r := UpdateGame(st, next, current, draws);
      && (r.state.gameOver <==> Caught(MoveGhosts(st.board, st.ghosts, draws), pos))
      && (r.state.gameOver ==>
        && r.state.board == Eaten(st.board, pos)
        && r.state.ghosts == Turned(st.ghosts, MoveGhosts(st.board, st.ghosts, draws)))
      && (!r.state.gameOver ==>
        && r.state.pacman == Actor(pos, d) && r.current == d
        && r.state.ghosts == MoveGhosts(st.board, st.ghosts, draws)
        && (st.board[pos.y][pos.x] == Dot ==> r.state.board[pos.y][pos.x] == Empty && r.state.score == st.score + DotPoints)
        && (st.board[pos.y][pos.x] != Dot ==> r.state.board == st.board && r.state.score == st.score)
        && (forall y, x :: 0 <= y < Height && 0 <= x < Width && Pos(x, y) != pos ==> r.state.board[y][x] == st.board[y][x]))
  {
  }

  /**
   * Score plus ten per remaining dot never changes, except on the tick that
   * ends the game: there a dot Pac-Man lands on leaves the board unscored.
   * The score never falls.
   */
  lemma TickKeepsTotal(st: GameState, next: Direction, current: Direction, draws: nat -> GhostDraw)
    requires WellFormed(st)
    ensures var r := UpdateGame(st, next, current, draws).state;
      var d := ChooseDirection(st.board, st.pacman.pos, next, current, st.pacman.dir);
      var pos := MoveCharacter(st.board, st.pacman.pos, d);
      && (st.gameOver || !r.gameOver ==>
            r.score + DotPoints * DotCount(r.board) == st.score + DotPoints * DotCount(st.board))
      && (!st.gameOver && r.gameOver ==>
            r.score + DotPoints * DotCount(r.board) + Points(st.board, pos) == st.score + DotPoints * DotCount(st.board))
      && r.score >= st.score
  {
    if !st.gameOver {
      var d := ChooseDirection(st.board, st.pacman.pos, next, current, st.pacman.dir);
      var pos := MoveCharacter(st.board, st.pacman.pos, d);
      EatingKeepsTotal(st.board, pos, st.score);
    }
  }

  /** Nobody stands on a wall. */
  predicate OffWalls(st: GameState)
    requires WellFormed(st)
  {
    && st.board[st.pacman.pos.y][st.pacman.pos.x] != Wall
    && forall i :: 0 <= i < |st.ghosts| ==> st.board[st.ghosts[i].pos.y][st.ghosts[i].pos.x] != Wall
  }

  /** A tick never puts Pac-Man or a ghost onto a wall. */
  lemma TickKeepsOffWalls(st: GameState, next: Direction, current: Direction, draws: nat -> GhostDraw)
    requires WellFormed(st) && OffWalls(st)
    ensures OffWalls(UpdateGame(st, next, current, draws).state)
  {
    var r := UpdateGame(st, next, current, draws).state;
    if !st.gameOver && r.gameOver {
      forall i | 0 <= i < |r.ghosts| ensures r.board[r.ghosts[i].pos.y][r.ghosts[i].pos.x] != Wall {
        var q := r.ghosts[i].pos;
        assert q == st.ghosts[i].pos;
        assert st.board[q.y][q.x] != Wall;
      }
    }
    if !st.gameOver && !r.gameOver {
      var d := ChooseDirection(st.board, st.pacman.pos, next, current, st.pacman.dir);
      var pos := MoveCharacter(st.board, st.pacman.pos, d);
      assert r.board == Eaten(st.board, pos);
      forall i | 0 <= i < |r.ghosts| ensures r.board[r.ghosts[i].pos.y][r.ghosts[i].pos.x] != Wall {
        var q := r.ghosts[i].pos;
        assert q == MoveCharacter(st.board, st.ghosts[i].pos, st.ghosts[i].dir);
        if q != pos { assert r.board[q.y][q.x] == st.board[q.y][q.x]; }
      }
    }
  }
}
