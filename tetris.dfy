/**
 * Tetris rules (src/games/tetris/index.tsx): the tetromino table, collision,
 * clockwise rotation, and one move of the falling piece including locking,
 * line clearing, scoring, levels, game over, the next spawn and the drop
 * interval.  Boards and shapes are values; the loops of the source that
 * write cells, splice rows and accumulate counters are methods whose results
 * are tied to reference functions.
 */
module Tetris {
  import opened Basics

  const Width: int := 10
  const Height: int := 20
  /** The spawn column, `Math.floor(BOARD_WIDTH / 2) - 1`. */
  const SpawnX: int := Width / 2 - 1

  type Shape = seq<seq<int>>
  type Board = seq<seq<int>>

  /** One of the seven random draws of `getRandomPiece`. */
  type PieceDraw = k: int | 0 <= k < 7

  datatype Piece = Piece(shape: Shape, x: int, y: int, kind: int)
  datatype NextPiece = NextPiece(shape: Shape, kind: int)
  datatype GameState = GameState(board: Board, current: Option<Piece>, next: NextPiece,
                                 score: int, level: int, lines: int, gameOver: bool)
  datatype Direction = Left | Right | Down

  // ---------------------------------------------------------------------------
  // The tetromino table
  // ---------------------------------------------------------------------------

  /** The table in the source's order I, J, L, O, S, T, Z, with types 1..7. */
  function Tetromino(k: PieceDraw): NextPiece {
    match k
    case 0 => NextPiece([[1, 1, 1, 1]], 1)
    case 1 => NextPiece([[1, 0, 0], [1, 1, 1]], 2)
    case 2 => NextPiece([[0, 0, 1], [1, 1, 1]], 3)
    case 3 => NextPiece([[1, 1], [1, 1]], 4)
    case 4 => NextPiece([[0, 1, 1], [1, 1, 0]], 5)
    case 5 => NextPiece([[0, 1, 0], [1, 1, 1]], 6)
    case 6 => NextPiece([[1, 1, 0], [0, 1, 1]], 7)
  }

  /** A non-empty rectangular shape. */
  predicate Rect(s: Shape) {
    |s| > 0 && |s[0]| > 0 && forall r :: 0 <= r < |s| ==> |s[r]| == |s[0]|
  }

  function RowFilled(row: seq<int>): nat {
    if |row| == 0 then 0 else (if row[0] != 0 then 1 else 0) + RowFilled(row[1..])
  }

  /** The number of filled cells of a shape. */
  function Filled(s: Shape): nat {
    if |s| == 0 then 0 else RowFilled(s[0]) + Filled(s[1..])
  }

  /** Every tetromino is a rectangle of at most 2 rows and 4 columns with four filled cells and type k+1. */
  lemma TetrominoFacts(k: PieceDraw)
    ensures var t := Tetromino(k);
      && Rect(t.shape) && |t.shape| <= 2 && |t.shape[0]| <= 4
      && Filled(t.shape) == 4 && t.kind == k + 1 && 1 <= t.kind <= 7
  {
    TetrominoFilled(k);
  }

  /** Each tetromino has exactly four filled cells. */
  lemma TetrominoFilled(k: PieceDraw)
    ensures Filled(Tetromino(k).shape) == 4
  {
    var s := Tetromino(k).shape;
    if k == 0 {
      assert RowFilled(s[0]) == 4;
      assert Filled(s) == RowFilled(s[0]) + Filled(s[1..]);
    } else {
      TwoRowsFilled(s);
      match k
      case 1 => assert RowFilled(s[0]) == 1 && RowFilled(s[1]) == 3;
      case 2 => assert RowFilled(s[0]) == 1 && RowFilled(s[1]) == 3;
      case 3 => assert RowFilled(s[0]) == 2 && RowFilled(s[1]) == 2;
      case 4 => assert RowFilled(s[0]) == 2 && RowFilled(s[1]) == 2;
      case 5 => assert RowFilled(s[0]) == 1 && RowFilled(s[1]) == 3;
      case 6 => assert RowFilled(s[0]) == 2 && RowFilled(s[1]) == 2;
    }
  }

  lemma TwoRowsFilled(s: Shape)
    requires |s| == 2
    ensures Filled(s) == RowFilled(s[0]) + RowFilled(s[1])
  {
    assert Filled(s[1..]) == RowFilled(s[1]) + Filled(s[2..]);
  }

  ghost predicate IsTetromino(n: NextPiece) {
    exists k: PieceDraw :: n == Tetromino(k)
  }

  // ---------------------------------------------------------------------------
  // Boards, pieces and the state invariant
  // ---------------------------------------------------------------------------

  /** Height rows of Width cells, each 0 (empty) or a piece type 1..7. */
  predicate IsBoard(b: Board) {
    |b| == Height &&
    forall y :: 0 <= y < Height ==> |b[y]| == Width && forall x :: 0 <= x < Width ==> 0 <= b[y][x] <= 7
  }

  /** Shape cell (r, c) of `p` is filled. */
  predicate FilledAt(p: Piece, r: int, c: int) {
    0 <= r < |p.shape| && 0 <= c < |p.shape[r]| && p.shape[r][c] != 0
  }

  /** Every filled cell is within the side walls and above the floor (it may stick out at the top). */
  ghost predicate Inside(p: Piece) {
    forall r, c :: FilledAt(p, r, c) ==> 0 <= p.x + c < Width && p.y + r < Height
  }

  ghost predicate PieceOk(p: Piece) {
    Rect(p.shape) && 1 <= p.kind <= 7 && Inside(p)
  }

  /**
   * What every state reachable from a new game satisfies: a well-formed board,
   * a falling piece inside the walls, a tetromino waiting, the level derived
   * from the line count, and no falling piece once the game is over.
   */
  ghost predicate Valid(st: GameState) {
    && IsBoard(st.board)
    && (st.current.Some? ==> PieceOk(st.current.value))
    && IsTetromino(st.next)
    && st.score >= 0 && st.lines >= 0 && st.level == st.lines / 10 + 1
    && (st.gameOver ==> st.current.None?)
  }

  /** A started game: the state, the pause flag and the drop interval in milliseconds. */
  datatype NewGame = NewGame(state: GameState, paused: bool, interval: int)

  /**
   * A new game (initializeGame): an empty board, a falling piece at the spawn
   * column whose shape and type come from two separate draws, as the source
   * writes it, and a third draw for the next piece.  The game is unpaused and
   * the drop interval is back to 1000 ms, the interval of level 1.
   */
  function InitializeGame(shapeDraw: PieceDraw, kindDraw: PieceDraw, nextDraw: PieceDraw): (g: NewGame)
    ensures Valid(g.state)
    ensures forall y, x :: 0 <= y < Height && 0 <= x < Width ==> g.state.board[y][x] == 0
    ensures g.state.current == Some(Piece(Tetromino(shapeDraw).shape, 4, 0, kindDraw + 1))
    ensures g.state.score == 0 && g.state.lines == 0 && g.state.level == 1 && !g.state.gameOver
    ensures !g.paused && g.interval == 1000 && g.interval == DropInterval(g.state.level)
  {
    var board := EmptyRows(Height);
    var piece := Spawn(NextPiece(Tetromino(shapeDraw).shape, Tetromino(kindDraw).kind));
    MixedSpawnOk(shapeDraw, kindDraw);
    EmptyBoard();
    assert IsTetromino(Tetromino(nextDraw));
    NewGame(GameState(board, Some(piece), Tetromino(nextDraw), 0, 1, 0, false), false, 1000)
  }

  /** A shape from one draw with the type from another still spawns inside the walls. */
  lemma MixedSpawnOk(shapeDraw: PieceDraw, kindDraw: PieceDraw)
    ensures PieceOk(Spawn(NextPiece(Tetromino(shapeDraw).shape, Tetromino(kindDraw).kind)))
  {
    TetrominoFacts(shapeDraw);
    TetrominoFacts(kindDraw);
  }

  lemma EmptyBoard()
    ensures IsBoard(EmptyRows(Height))
    ensures forall y, x :: 0 <= y < Height && 0 <= x < Width ==> EmptyRows(Height)[y][x] == 0
  {
  }

  // ---------------------------------------------------------------------------
  // collide
  // ---------------------------------------------------------------------------

  /** Filled shape cell (r, c) lands beside the walls, below the floor, or on an occupied cell. */
  predicate ClashAt(b: Board, p: Piece, r: int, c: int)
    requires IsBoard(b)
  {
    FilledAt(p, r, c) &&
    var cx := p.x + c;
    var cy := p.y + r;
    cx < 0 || cx >= Width || cy >= Height || (cy >= 0 && b[cy][cx] != 0)
  }

  ghost predicate Collides(b: Board, p: Piece)
    requires IsBoard(b)
  {
    exists r, c :: ClashAt(b, p, r, c)
  }

  /** A piece that does not collide is inside the walls. */
  lemma NoCollisionInside(b: Board, p: Piece)
    requires IsBoard(b) && !Collides(b, p)
    ensures Inside(p)
  {
    forall r, c | FilledAt(p, r, c) ensures 0 <= p.x + c < Width && p.y + r < Height {
      assert !ClashAt(b, p, r, c);
    }
  }

  /**
   * The source's nested scan with early return: true exactly when some filled
   * cell clashes.  Cells above the top row clash only with the side walls.
   */
  method Collide(b: Board, p: Piece) returns (hit: bool)
    requires IsBoard(b)
    ensures hit <==> Collides(b, p)
  {
    for r := 0 to |p.shape|
      invariant forall r', c :: r' < r ==> !ClashAt(b, p, r', c)
    {
      for c := 0 to |p.shape[r]|
        invariant forall r', c' :: (r' < r || (r' == r && c' < c)) ==> !ClashAt(b, p, r', c')
      {
        if p.shape[r][c] != 0 {
          var cx := p.x + c;
          var cy := p.y + r;
          if cx < 0 || cx >= Width || cy >= Height || (cy >= 0 && b[cy][cx] != 0) {
            assert ClashAt(b, p, r, c);
            return true;
          }
        }
      }
    }
    return false;
  }

  // ---------------------------------------------------------------------------
  // rotatePiece
  // ---------------------------------------------------------------------------

  /** The clockwise quarter turn `shape[0].map((_, i) => shape.map(row => row[i]).reverse())`. */
  function Rotate(s: Shape): (t: Shape)
    requires Rect(s)
    ensures Rect(t) && |t| == |s[0]| && |t[0]| == |s|
    ensures forall r, c :: 0 <= r < |s| && 0 <= c < |s[0]| ==> t[c][|s| - 1 - r] == s[r][c]
  {
    seq(|s[0]|, i requires 0 <= i < |s[0]| => seq(|s|, j requires 0 <= j < |s| => s[|s| - 1 - j][i]))
  }

  /** The half turn: cell (r, c) goes to (R-1-r, C-1-c). */
  function HalfTurn(s: Shape): (t: Shape)
    requires Rect(s)
    ensures Rect(t) && |t| == |s| && |t[0]| == |s[0]|
  {
    seq(|s|, i requires 0 <= i < |s| => seq(|s[0]|, j requires 0 <= j < |s[0]| => s[|s| - 1 - i][|s[0]| - 1 - j]))
  }

  /** Two quarter turns make a half turn. */
  lemma RotateTwice(s: Shape)
    requires Rect(s)
    ensures Rotate(Rotate(s)) == HalfTurn(s)
  {
    var u := Rotate(s);
    var t := Rotate(u);
    var h := HalfTurn(s);
    forall i | 0 <= i < |s| ensures t[i] == h[i] {
      forall j | 0 <= j < |s[0]| ensures t[i][j] == h[i][j] {
        assert t[i][j] == u[|u| - 1 - j][i];
        assert u[|u| - 1 - j][i] == s[|s| - 1 - i][|s[0]| - 1 - j];
      }
    }
  }

  lemma HalfTurnTwice(s: Shape)
    requires Rect(s)
    ensures HalfTurn(HalfTurn(s)) == s
  {
    var t := HalfTurn(HalfTurn(s));
    forall i | 0 <= i < |s| ensures t[i] == s[i] {
      assert |t[i]| == |s[i]|;
    }
  }

  /** Four clockwise quarter turns give back the original shape. */
  lemma RotateFour(s: Shape)
    requires Rect(s)
    ensures Rotate(Rotate(Rotate(Rotate(s)))) == s
  {
    RotateTwice(s);
    RotateTwice(HalfTurn(s));
    HalfTurnTwice(s);
  }

  /**
   * The up-arrow action: the rotated piece replaces the falling one unless it
   * collides, in which case nothing changes.
   */
  method RotatePiece(st: GameState) returns (st': GameState)
    requires Valid(st) && st.current.Some?
    ensures Valid(st')
    ensures var p := st.current.value;
      var q := p.(shape := Rotate(p.shape));
      if Collides(st.board, q) then st' == st else st' == st.(current := Some(q))
  {
    var p := st.current.value;
    var q := p.(shape := Rotate(p.shape));
    var hit := Collide(st.board, q);
    if hit {
      st' := st;
    } else {
      NoCollisionInside(st.board, q);
      st' := st.(current := Some(q));
    }
  }

  // ---------------------------------------------------------------------------
  // Locking a piece into the board
  // ---------------------------------------------------------------------------

  /** Board cell (x, y) is under a filled cell of `p`. */
  predicate Covers(p: Piece, x: int, y: int) {
    FilledAt(p, y - p.y, x - p.x)
  }

  /** The board with the piece's type written into exactly the covered cells. */
  function Lock(b: Board, p: Piece): (b': Board)
    requires IsBoard(b) && PieceOk(p)
    ensures IsBoard(b')
  {
    seq(Height, y requires 0 <= y < Height =>
      seq(Width, x requires 0 <= x < Width => if Covers(p, x, y) then p.kind else b[y][x]))
  }

  /** Covered before shape cell (r, c) in the scan order of the source. */
  predicate CoveredBefore(p: Piece, x: int, y: int, r: int, c: int) {
    Covers(p, x, y) && (y - p.y < r || (y - p.y == r && x - p.x < c))
  }

  /**
   * The merge: for each filled shape cell whose row is not above the top, the
   * piece's type is written into the board.
   */
  method LockPiece(b: Board, p: Piece) returns (b': Board)
    requires IsBoard(b) && PieceOk(p)
    ensures b' == Lock(b, p)
  {
    b' := b;
    for r := 0 to |p.shape|
      invariant |b'| == Height && forall y :: 0 <= y < Height ==> |b'[y]| == Width
      invariant forall y, x :: 0 <= y < Height && 0 <= x < Width ==>
        b'[y][x] == if CoveredBefore(p, x, y, r, 0) then p.kind else b[y][x]
    {
      for c := 0 to |p.shape[r]|
        invariant |b'| == Height && forall y :: 0 <= y < Height ==> |b'[y]| == Width
        invariant forall y, x :: 0 <= y < Height && 0 <= x < Width ==>
          b'[y][x] == if CoveredBefore(p, x, y, r, c) then p.kind else b[y][x]
      {
        if p.shape[r][c] != 0 {
          var cy := p.y + r;
          if cy >= 0 {
            assert FilledAt(p, r, c);
            b' := b'[cy := b'[cy][p.x + c := p.kind]];
          }
        }
      }
    }
    assert forall y :: 0 <= y < Height ==> b'[y] == Lock(b, p)[y];
  }

  // ---------------------------------------------------------------------------
  // Line clearing
  // ---------------------------------------------------------------------------

  /** `row.every(value => value !== 0)`. */
  predicate Full(row: seq<int>) {
    forall x :: 0 <= x < |row| ==> row[x] != 0
  }

  function EmptyRow(): (row: seq<int>)
    ensures |row| == Width && forall x :: 0 <= x < Width ==> row[x] == 0
  {
    seq(Width, _ => 0)
  }

  function EmptyRows(n: nat): (rows: seq<seq<int>>)
    ensures |rows| == n && forall i :: 0 <= i < n ==> rows[i] == EmptyRow()
  {
    seq(n, _ => EmptyRow())
  }

  /** The rows that are not full, in their original order. */
  function NonFull(rows: seq<seq<int>>): seq<seq<int>> {
    if |rows| == 0 then []
    else if Full(rows[0]) then NonFull(rows[1..])
    else [rows[0]] + NonFull(rows[1..])
  }

  function FullCount(rows: seq<seq<int>>): nat {
    if |rows| == 0 then 0 else (if Full(rows[0]) then 1 else 0) + FullCount(rows[1..])
  }

  /** The cleared board: one empty row on top for each full row removed. */
  function ClearFull(b: Board): Board {
    EmptyRows(FullCount(b)) + NonFull(b)
  }

  lemma {:induction false} NonFullFacts(rows: seq<seq<int>>)
    ensures |NonFull(rows)| + FullCount(rows) == |rows|
    ensures forall i :: 0 <= i < |NonFull(rows)| ==> NonFull(rows)[i] in rows && !Full(NonFull(rows)[i])
  {
    if |rows| > 0 {
      NonFullFacts(rows[1..]);
      assert forall r :: r in rows[1..] ==> r in rows;
    }
  }

  lemma NonFullSplit(a: seq<seq<int>>, b: seq<seq<int>>)
    ensures NonFull(a + b) == NonFull(a) + NonFull(b)
    ensures FullCount(a + b) == FullCount(a) + FullCount(b)
  {
    if |a| > 0 {
      assert (a + b)[1..] == a[1..] + b;
      NonFullSplit(a[1..], b);
    } else {
      assert a + b == b;
    }
  }

  /**
   * The cleared board keeps the board's shape, has no full row, and consists of
   * as many empty rows as rows were cleared, on top of the rows that were not
   * full in their original order.
   */
  lemma ClearFullFacts(b: Board)
    requires IsBoard(b)
    ensures IsBoard(ClearFull(b))
    ensures forall y :: 0 <= y < Height ==> !Full(ClearFull(b)[y])
    ensures forall y :: 0 <= y < FullCount(b) ==> ClearFull(b)[y] == EmptyRow()
    ensures ClearFull(b)[FullCount(b)..] == NonFull(b)
  {
    NonFullFacts(b);
    var c := ClearFull(b);
    var n := FullCount(b);
    forall y | 0 <= y < Height
      ensures |c[y]| == Width && (forall x :: 0 <= x < Width ==> 0 <= c[y][x] <= 7) && !Full(c[y])
    {
      if y < n {
        assert c[y] == EmptyRow() && !Full(c[y]) by { assert c[y][0] == 0; }
      } else {
        assert c[y] == NonFull(b)[y - n];
      }
    }
  }

  /** The rows from index j on, and the count of full ones among them. */
  lemma NonFullStep(orig: seq<seq<int>>, j: int)
    requires 0 <= j < |orig|
    ensures NonFull(orig[j..]) == (if Full(orig[j]) then [] else [orig[j]]) + NonFull(orig[j + 1..])
    ensures FullCount(orig[j..]) == (if Full(orig[j]) then 1 else 0) + FullCount(orig[j + 1..])
  {
    assert orig[j..][1..] == orig[j + 1..];
  }

  /** A full row at index j is dropped and counted. */
  lemma FullStep(orig: seq<seq<int>>, j: int)
    requires 0 <= j < |orig| && Full(orig[j])
    ensures NonFull(orig[j..]) == NonFull(orig[j + 1..])
    ensures FullCount(orig[j..]) == 1 + FullCount(orig[j + 1..])
  {
    NonFullStep(orig, j);
  }

  /**
   * The line-clearing loop's invariant: the rows of `orig` above index j are
   * not yet examined, the non-full ones below are kept at the bottom, and one
   * empty row per full row found is on top.
   */
  ghost predicate Clearing(orig: Board, b: Board, cleared: nat, j: int)
    requires -1 <= j < |orig|
  {
    b == EmptyRows(cleared) + orig[..j + 1] + NonFull(orig[j + 1..]) &&
    cleared == FullCount(orig[j + 1..])
  }

  /** The row at index j + cleared is the unexamined row orig[j]. */
  lemma ClearingAt(orig: Board, b: Board, cleared: nat, j: int)
    requires 0 <= j < |orig| && Clearing(orig, b, cleared, j)
    ensures j + cleared < |b| && b[j + cleared] == orig[j]
  {
  }

  /** Above the unexamined rows there are only the new empty rows. */
  lemma ClearingTop(orig: Board, b: Board, cleared: nat, y: int)
    requires Clearing(orig, b, cleared, -1) && 0 <= y < cleared
    ensures b[y] == EmptyRow() && !Full(b[y])
  {
    assert b[y][0] == 0;
  }

  /** Splicing out a full row orig[j] and putting an empty row on top. */
  lemma ClearingFull(orig: Board, b: Board, cleared: nat, j: int)
    requires 0 <= j < |orig| && Clearing(orig, b, cleared, j) && Full(orig[j])
    ensures j + cleared < |b|
    ensures Clearing(orig, [EmptyRow()] + b[..j + cleared] + b[j + cleared + 1..], cleared + 1, j - 1)
  {
    FullStep(orig, j);
    var e := EmptyRows(cleared);
    var above := orig[..j];
    var rest := NonFull(orig[j + 1..]);
    assert orig[..j + 1] == above + [orig[j]];
    SpliceOut(e, above, orig[j], rest);
    PutOnTop(EmptyRow(), e, above, rest);
    assert [EmptyRow()] + e == EmptyRows(cleared + 1);
    assert orig[..j - 1 + 1] == above;
  }

  /** Cutting the row x out of rows built as e, above, x, rest. */
  lemma SpliceOut(e: seq<seq<int>>, above: seq<seq<int>>, x: seq<int>, rest: seq<seq<int>>)
    ensures |e + above| == |e| + |above|
    ensures (e + (above + [x]) + rest)[..|e| + |above|] == e + above
    ensures (e + (above + [x]) + rest)[|e| + |above| + 1..] == rest
  {
    assert e + (above + [x]) + rest == (e + above) + ([x] + rest);
  }

  /** An extra row on top regroups with the existing empty rows. */
  lemma PutOnTop(x: seq<int>, e: seq<seq<int>>, above: seq<seq<int>>, rest: seq<seq<int>>)
    ensures [x] + (e + above) + rest == ([x] + e) + above + rest
  {
  }

  /** Moving past a non-full row orig[j]. */
  lemma ClearingKeep(orig: Board, b: Board, cleared: nat, j: int)
    requires 0 <= j < |orig| && Clearing(orig, b, cleared, j) && !Full(orig[j])
    ensures Clearing(orig, b, cleared, j - 1)
  {
    NonFullStep(orig, j);
    assert orig[..j + 1] == orig[..j] + [orig[j]];
  }

  /**
   * One pass of the line-clearing loop at row y: a full row is spliced out, an
   * empty row is put on top and the same index is examined again; otherwise
   * the loop moves one row up.  Original row j is the next one unexamined.
   */
  method ClearRowAt(ghost orig: Board, b: Board, cleared: nat, ghost j: int, y: int)
    returns (b': Board, cleared': nat, ghost j': int, y': int)
    requires |orig| == Height && -1 <= j < Height && 0 <= y
    requires Clearing(orig, b, cleared, j)
    requires y == j + cleared || (j == -1 && y < cleared)
    ensures -1 <= j' < Height && Clearing(orig, b', cleared', j')
    ensures y' == j' + cleared' || (j' == -1 && -1 <= y' < cleared')
    ensures y' + j' < y + j
  {
    b', cleared', j', y' := b, cleared, j, y - 1;
    if Full(b[y]) {
      if j == -1 {
        ClearingTop(orig, b, cleared, y);
        assert false;
      }
      ClearingAt(orig, b, cleared, j);
      ClearingFull(orig, b, cleared, j);
      b' := [EmptyRow()] + b[..y] + b[y + 1..];
      cleared' := cleared + 1;
      y' := y;
      j' := j - 1;
    } else if j >= 0 {
      ClearingAt(orig, b, cleared, j);
      ClearingKeep(orig, b, cleared, j);
      j' := j - 1;
    }
  }

  /**
   * The source's loop from the bottom row up.  Once every original row is
   * examined the loop runs on over the new empty rows.
   */
  method ClearLines(b: Board) returns (b': Board, cleared: nat)
    requires IsBoard(b)
    ensures b' == ClearFull(b) && cleared == FullCount(b)
  {
    b' := b;
    cleared := 0;
    var y := Height - 1;
    ghost var j := Height - 1;
    assert b[..j + 1] == b && b[j + 1..] == [];
    while y >= 0
      invariant -1 <= j < Height
      invariant Clearing(b, b', cleared, j)
      invariant y == j + cleared || (j == -1 && -1 <= y < cleared)
      decreases y + j + 2
    {
      b', cleared, j, y := ClearRowAt(b, b', cleared, j, y);
    }
    assert b[..0] == [] && b[0..] == b;
  }

  // ---------------------------------------------------------------------------
  // movePiece
  // ---------------------------------------------------------------------------

  function Shift(p: Piece, dir: Direction): Piece {
    match dir
    case Left => p.(x := p.x - 1)
    case Right => p.(x := p.x + 1)
    case Down => p.(y := p.y + 1)
  }

  /** `newBoard[0].some(cell => cell !== 0)`. */
  predicate TopRowOccupied(b: Board)
    requires |b| > 0
  {
    exists x :: 0 <= x < |b[0]| && b[0][x] != 0
  }

  /** The falling piece made from the waiting one, at the spawn column. */
  function Spawn(n: NextPiece): Piece {
    Piece(n.shape, SpawnX, 0, n.kind)
  }

  /**
   * `Math.max(100, 1000 - (level - 1) * 100)`: 1000 ms at level 1, 100 ms less
   * per level, never below 100 ms.
   */
  function DropInterval(level: int): (ms: int)
    requires level >= 1
    ensures 100 <= ms <= 1000
    ensures level <= 10 ==> ms == 1100 - 100 * level
    ensures level >= 10 ==> ms == 100
  {
    Max(100, 1000 - (level - 1) * 100)
  }

  lemma DropIntervalMonotone(l1: int, l2: int)
    requires 1 <= l1 <= l2
    ensures DropInterval(l2) <= DropInterval(l1)
  {
  }

  lemma SpawnOk(n: NextPiece)
    requires IsTetromino(n)
    ensures PieceOk(Spawn(n))
  {
    var k: PieceDraw :| n == Tetromino(k);
    TetrominoFacts(k);
  }

  /**
   * The state after a piece has been locked: the cleared board, points for the
   * cleared lines at the current level, the new line count and level, game over
   * when the top row is occupied, otherwise the waiting piece spawned.
   */
  ghost predicate AfterLock(st: GameState, p: Piece, draw: PieceDraw, st': GameState)
    requires IsBoard(st.board) && PieceOk(p)
  {
    var locked := Lock(st.board, p);
    var n := FullCount(locked);
    var b := ClearFull(locked);
    && st'.board == b
    && st'.score == st.score + n * 100 * st.level
    && st'.lines == st.lines + n
    && st'.level == st'.lines / 10 + 1
    && |b| > 0 && st'.gameOver == TopRowOccupied(b)
    && st'.current == (if st'.gameOver then None else Some(Spawn(st.next)))
    && st'.next == Tetromino(draw)
  }

  lemma ScoreGain(n: nat, level: int)
    requires level >= 1
    ensures n * 100 * level >= 0
  {
  }

  /** A lock keeps the state invariant. */
  lemma AfterLockValid(st: GameState, p: Piece, draw: PieceDraw, st': GameState)
    requires Valid(st) && PieceOk(p) && AfterLock(st, p, draw, st')
    ensures Valid(st')
  {
    ClearFullFacts(Lock(st.board, p));
    SpawnOk(st.next);
    assert IsTetromino(st'.next) by { assert st'.next == Tetromino(draw); }
    ScoreGain(FullCount(Lock(st.board, p)), st.level);
  }

  /** Locking, then clearing, scoring and spawning. */
  method LockStep(st: GameState, p: Piece, draw: PieceDraw) returns (st': GameState)
    requires Valid(st) && st.current == Some(p)
    ensures AfterLock(st, p, draw, st') && Valid(st')
  {
    var locked := LockPiece(st.board, p);
    var board, cleared := ClearLines(locked);
    var score := st.score + cleared * 100 * st.level;
    var lines := st.lines + cleared;
    var level := lines / 10 + 1;
    var over := exists x :: 0 <= x < |board[0]| && board[0][x] != 0;
    st' := GameState(board, if over then None else Some(Spawn(st.next)), Tetromino(draw),
                     score, level, lines, over);
    AfterLockValid(st, p, draw, st');
  }

  /**
   * One move of the falling piece.  Nothing happens without a piece, after game
   * over or while paused.  A shift that fits is taken; a blocked left or right
   * shift changes nothing; a blocked drop locks the piece where it is, clears
   * lines, scores and spawns (AfterLock), and resets the drop interval.
   */
  method MovePiece(st: GameState, dir: Direction, paused: bool, interval: int, draw: PieceDraw)
    returns (st': GameState, interval': int)
    requires Valid(st)
    ensures Valid(st')
    ensures st.current.None? || st.gameOver || paused ==> st' == st && interval' == interval
    ensures st.current.Some? && !st.gameOver && !paused ==>
      var p := st.current.value;
      var q := Shift(p, dir);
      if !Collides(st.board, q) then st' == st.(current := Some(q)) && interval' == interval
      else if dir != Down then st' == st && interval' == interval
      else AfterLock(st, p, draw, st') && interval' == DropInterval(st'.level)
  {
    if st.current.None? || st.gameOver || paused {
      return st, interval;
    }
    var p := st.current.value;
    var q := Shift(p, dir);
    var hit := Collide(st.board, q);
    if !hit {
      NoCollisionInside(st.board, q);
      return st.(current := Some(q)), interval;
    }
    if dir != Down {
      return st, interval;
    }
    st' := LockStep(st, p, draw);
    interval' := Max(100, 1000 - (st'.level - 1) * 100);
  }
}
