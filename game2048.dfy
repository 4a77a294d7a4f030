/**
 * The rotation-based 2048 page (src/games/2048/index.tsx).  The page keeps a
 * 4 x 4 board, score and history; a move deep-copies the board into a fresh
 * mutable board, slides every row left in place, and handles the other three
 * directions by rotating the board clockwise in place before and after.  The
 * model keeps that board as an `array2` and proves each step against the
 * value-level definitions of module Tiles.
 */
module Game2048 {
  import opened Tiles

  /** A mutable 4 x 4 board with no negative tile. */
  predicate IsBoard(a: array2<int>)
    reads a
  {
    a.Length0 == Size && a.Length1 == Size &&
    forall i, j :: 0 <= i < Size && 0 <= j < Size ==> a[i, j] >= 0
  }

  function Row(a: array2<int>, i: int): (l: Line)
    reads a
    requires IsBoard(a) && 0 <= i < Size
    ensures |l| == Size && forall j :: 0 <= j < Size ==> l[j] == a[i, j]
  {
    seq(Size, j requires 0 <= j < Size reads a => a[i, j])
  }

  /** The board's current contents as a value. */
  function Cells(a: array2<int>): (g: Grid)
    reads a
    requires IsBoard(a)
    ensures IsGrid(g) && forall i, j :: 0 <= i < Size && 0 <= j < Size ==> g[i][j] == a[i, j]
  {
    seq(Size, i requires 0 <= i < Size && IsBoard(a) reads a => Row(a, i))
  }

  // ---------------------------------------------------------------------------
  // Rotation
  // ---------------------------------------------------------------------------

  function Transpose(g: Grid): (t: Grid)
    requires IsGrid(g)
    ensures IsGrid(t) && forall i, j :: 0 <= i < Size && 0 <= j < Size ==> t[i][j] == g[j][i]
  {
    seq(Size, i requires 0 <= i < Size => Column(g, i))
  }

  function ReverseRows(g: Grid): (r: Grid)
    requires IsGrid(g)
    ensures IsGrid(r) && forall i, j :: 0 <= i < Size && 0 <= j < Size ==> r[i][j] == g[i][Size - 1 - j]
  {
    seq(Size, i requires 0 <= i < Size => Reverse(g[i]))
  }

  /** Transposing and then reversing every row is a clockwise quarter turn. */
  function Quarter(g: Grid): (q: Grid)
    requires IsGrid(g)
    ensures IsGrid(q) && forall i, j :: 0 <= i < Size && 0 <= j < Size ==> q[i][j] == g[Size - 1 - j][i]
  {
    ReverseRows(Transpose(g))
  }

  /** `times` clockwise quarter turns. */
  function Rotated(g: Grid, times: nat): (r: Grid)
    requires IsGrid(g)
    ensures IsGrid(r)
  {
    if times == 0 then g else Quarter(Rotated(g, times - 1))
  }

  /** Where every cell goes under one, two and three quarter turns. */
  lemma RotatedCells(g: Grid)
    requires IsGrid(g)
    ensures forall i, j :: 0 <= i < Size && 0 <= j < Size ==> Rotated(g, 1)[i][j] == g[Size - 1 - j][i]
    ensures forall i, j :: 0 <= i < Size && 0 <= j < Size ==> Rotated(g, 2)[i][j] == g[Size - 1 - i][Size - 1 - j]
    ensures forall i, j :: 0 <= i < Size && 0 <= j < Size ==> Rotated(g, 3)[i][j] == g[j][Size - 1 - i]
  {
    assert Rotated(g, 1) == Quarter(g);
    assert Rotated(g, 2) == Quarter(Rotated(g, 1));
    assert Rotated(g, 3) == Quarter(Rotated(g, 2));
  }

  lemma {:induction false} RotatedAdd(g: Grid, m: nat, n: nat)
    requires IsGrid(g)
    ensures Rotated(Rotated(g, m), n) == Rotated(g, m + n)
  {
    if n > 0 {
      RotatedAdd(g, m, n - 1);
      assert Rotated(Rotated(g, m), n) == Quarter(Rotated(Rotated(g, m), n - 1));
      assert Rotated(g, m + n) == Quarter(Rotated(g, m + n - 1));
    }
  }

  /** Four quarter turns give the board back. */
  lemma FullTurn(g: Grid)
    requires IsGrid(g)
    ensures Rotated(g, 4) == g
  {
    RotatedCells(g);
    var r3 := Rotated(g, 3);
    assert Rotated(g, 4) == Quarter(r3);
    forall i, j | 0 <= i < Size && 0 <= j < Size ensures Rotated(g, 4)[i][j] == g[i][j] {
      assert Quarter(r3)[i][j] == r3[Size - 1 - j][i];
    }
    SameGrid(Rotated(g, 4), g);
  }

  /** Turning by one and then by three, or by two twice, is the identity. */
  lemma RotateBack(g: Grid)
    requires IsGrid(g)
    ensures Rotated(Rotated(g, 1), 3) == g
    ensures Rotated(Rotated(g, 2), 2) == g
    ensures Rotated(Rotated(g, 3), 1) == g
  {
    RotatedAdd(g, 1, 3);
    RotatedAdd(g, 2, 2);
    RotatedAdd(g, 3, 1);
    FullTurn(g);
  }

  /** Exchange two cells. */
  method Swap(a: array2<int>, r: int, c: int, r': int, c': int)
    modifies a
    requires IsBoard(a) && 0 <= r < Size && 0 <= c < Size && 0 <= r' < Size && 0 <= c' < Size
    ensures IsBoard(a)
    ensures a[r, c] == old(a[r', c']) && a[r', c'] == old(a[r, c])
    ensures forall i, j :: 0 <= i < Size && 0 <= j < Size && (i, j) != (r, c) && (i, j) != (r', c') ==>
      a[i, j] == old(a[i, j])
  {
    a[r, c], a[r', c'] := a[r', c'], a[r, c];
  }

  /** The transpose by swapping each cell above the diagonal with its mirror. */
  method TransposeInPlace(a: array2<int>)
    modifies a
    requires IsBoard(a)
    ensures IsBoard(a) && Cells(a) == Transpose(old(Cells(a)))
  {
    ghost var g := Cells(a);
    for i := 0 to Size
      invariant IsBoard(a)
      invariant forall r, c :: 0 <= r < Size && 0 <= c < Size ==>
        a[r, c] == if (r < i || c < i) then g[c][r] else g[r][c]
    {
      for j := i + 1 to Size
        invariant IsBoard(a)
        invariant forall r, c :: 0 <= r < Size && 0 <= c < Size ==>
          a[r, c] == if (r < i || c < i || (r == i && c < j) || (c == i && r < j)) then g[c][r] else g[r][c]
      {
        Swap(a, i, j, j, i);
      }
    }
    SameGrid(Cells(a), Transpose(g));
  }

  /** Every row reversed in place. */
  method ReverseRowsInPlace(a: array2<int>)
    modifies a
    requires IsBoard(a)
    ensures IsBoard(a) && Cells(a) == ReverseRows(old(Cells(a)))
  {
    ghost var g := Cells(a);
    for i := 0 to Size
      invariant IsBoard(a)
      invariant forall r, c :: 0 <= r < i && 0 <= c < Size ==> a[r, c] == g[r][Size - 1 - c]
      invariant forall r, c :: i <= r < Size && 0 <= c < Size ==> a[r, c] == g[r][c]
    {
      for j := 0 to Size / 2
        invariant IsBoard(a)
        invariant forall r, c :: 0 <= r < i && 0 <= c < Size ==> a[r, c] == g[r][Size - 1 - c]
        invariant forall r, c :: i < r < Size && 0 <= c < Size ==> a[r, c] == g[r][c]
        invariant forall c :: (0 <= c < j || Size - j <= c < Size) ==> a[i, c] == g[i][Size - 1 - c]
        invariant forall c :: j <= c < Size - j ==> a[i, c] == g[i][c]
      {
        Swap(a, i, j, i, Size - 1 - j);
      }
    }
    SameGrid(Cells(a), ReverseRows(g));
  }

  /** `rotate(board, times)`: transpose and reverse the rows, `times` times. */
  method Rotate(a: array2<int>, times: nat)
    modifies a
    requires IsBoard(a)
    ensures IsBoard(a) && Cells(a) == Rotated(old(Cells(a)), times)
  {
    ghost var g := Cells(a);
    for t := 0 to times
      invariant IsBoard(a) && Cells(a) == Rotated(g, t)
    {
      TransposeInPlace(a);
      ReverseRowsInPlace(a);
    }
  }

  // ---------------------------------------------------------------------------
  // Sliding left
  // ---------------------------------------------------------------------------

  /** Every row slid to the left. */
  function SlideRows(g: Grid): (s: Grid)
    requires IsGrid(g)
    ensures IsGrid(s) && forall i :: 0 <= i < Size ==> s[i] == Slide(g[i])
  {
    assert forall i :: 0 <= i < Size ==> |Slide(g[i])| == Size && NonNeg(Slide(g[i])) by {
      forall i | 0 <= i < Size ensures |Slide(g[i])| == Size && NonNeg(Slide(g[i])) {
        SlideFacts(g[i]);
      }
    }
    seq(Size, i requires 0 <= i < Size => Slide(g[i]))
  }

  /** `board[i] = row`. */
  method WriteRow(a: array2<int>, i: int, row: Line)
    modifies a
    requires IsBoard(a) && 0 <= i < Size && |row| == Size && NonNeg(row)
    ensures IsBoard(a) && Row(a, i) == row
    ensures forall r, c :: 0 <= r < Size && 0 <= c < Size && r != i ==> a[r, c] == old(a[r, c])
  {
    for j := 0 to Size
      invariant IsBoard(a)
      invariant forall c :: 0 <= c < j ==> a[i, c] == row[c]
      invariant forall r, c :: 0 <= r < Size && 0 <= c < Size && r != i ==> a[r, c] == old(a[r, c])
    {
      a[i, j] := row[j];
    }
  }

  /** A board whose every row is the slid row of `g` is `SlideRows(g)`; it differs from `g` exactly when some row does. */
  lemma RowsSlid(g: Grid, h: Grid)
    requires IsGrid(g) && IsGrid(h) && forall r :: 0 <= r < Size ==> h[r] == Slide(g[r])
    ensures h == SlideRows(g)
    ensures (exists r :: 0 <= r < Size && Slide(g[r]) != g[r]) <==> SlideRows(g) != g
  {
    if exists r :: 0 <= r < Size && Slide(g[r]) != g[r] {
      var r :| 0 <= r < Size && Slide(g[r]) != g[r];
      assert SlideRows(g)[r] != g[r];
    }
  }

  /** One row of `moveLeft`: slide it, write it back, report the points and whether it changed. */
  method MoveLeftRow(a: array2<int>, i: int) returns (gain: int, changed: bool)
    modifies a
    requires IsBoard(a) && 0 <= i < Size
    ensures IsBoard(a) && Row(a, i) == Slide(old(Row(a, i)))
    ensures gain == SlideGain(old(Row(a, i))) && (changed <==> Slide(old(Row(a, i))) != old(Row(a, i)))
    ensures forall r :: 0 <= r < Size && r != i ==> Row(a, r) == old(Row(a, r))
  {
    var line := Row(a, i);
    var row;
    row, gain := MoveAndMerge(line);
    SlideFacts(line);
    changed := line != row;
    ghost var before := Cells(a);
    WriteRow(a, i, row);
    forall r | 0 <= r < Size && r != i ensures Row(a, r) == before[r] {
    }
  }

  /**
   * `moveLeft`: every row slid left in place; returns the points scored and
   * whether some row changed.
   */
  method MoveLeft(a: array2<int>) returns (gain: int, moved: bool)
    modifies a
    requires IsBoard(a)
    ensures IsBoard(a) && Cells(a) == SlideRows(old(Cells(a)))
    ensures gain == LinesGain(old(Cells(a)), Size)
    ensures moved <==> SlideRows(old(Cells(a))) != old(Cells(a))
  {
    ghost var g := Cells(a);
    gain, moved := 0, false;
    for i := 0 to Size
      invariant IsBoard(a)
      invariant forall r :: 0 <= r < i ==> Row(a, r) == Slide(g[r])
      invariant forall r :: i <= r < Size ==> Row(a, r) == g[r]
      invariant gain == LinesGain(g, i)
      invariant moved <==> exists r :: 0 <= r < i && Slide(g[r]) != g[r]
    {
      var rowGain, changed := MoveLeftRow(a, i);
      gain := gain + rowGain;
      moved := moved || changed;
    }
    RowsSlid(g, Cells(a));
  }

  // ---------------------------------------------------------------------------
  // The four directions by rotation
  // ---------------------------------------------------------------------------

  /** Quarter turns before sliding left: none for left, two for right, one for down, three for up. */
  function Before(d: Direction): nat {
    match d
    case Left => 0
    case Right => 2
    case Down => 1
    case Up => 3
  }

  /** Quarter turns after sliding left, completing a full turn with `Before`. */
  function After(d: Direction): (n: nat)
    ensures (Before(d) + n) % 4 == 0
  {
    match d
    case Left => 0
    case Right => 2
    case Down => 3
    case Up => 1
  }

  /** The line of the move that row k of the turned board holds. */
  function LineIndex(d: Direction, k: int): int {
    match d
    case Left => k
    case Down => k
    case Right => Size - 1 - k
    case Up => Size - 1 - k
  }

  /** Row k of the turned board, slid, is the slid line `LineIndex(d, k)` of the move. */
  lemma TurnedRow(g: Grid, d: Direction, k: int)
    requires IsGrid(g) && 0 <= k < Size
    ensures 0 <= LineIndex(d, k) < Size
    ensures Rotated(g, Before(d))[k] == Lines(g, d)[LineIndex(d, k)]
    ensures SlideRows(Rotated(g, Before(d)))[k] == Slide(Lines(g, d)[LineIndex(d, k)])
  {
    var r := Rotated(g, Before(d));
    var l := LineIndex(d, k);
    forall t | 0 <= t < Size ensures r[k][t] == Lines(g, d)[l][t] {
      RotatedCell(g, Before(d), k, t);
      LinePlace(g, d, l, t);
      TurnedPlace(d, k, t);
    }
  }

  /** Turning before the slide brings position t of line `LineIndex(d, k)` to cell (k, t). */
  lemma TurnedPlace(d: Direction, k: int, t: int)
    ensures TurnedFrom(Before(d), k, t) == Place(d, LineIndex(d, k), t)
  {
    match d
    case Left =>
    case Right =>
    case Up =>
    case Down =>
  }

  /** The cell that n quarter turns bring to (i, j). */
  function TurnedFrom(n: nat, i: int, j: int): Cell {
    if n == 0 then Cell(i, j)
    else if n == 1 then Cell(Size - 1 - j, i)
    else if n == 2 then Cell(Size - 1 - i, Size - 1 - j)
    else Cell(j, Size - 1 - i)
  }

  /** One quarter turn more: cell (i, j) comes from the cell `Quarter` reads. */
  lemma TurnOnce(g: Grid, n: nat, i: int, j: int)
    requires IsGrid(g) && 0 < n && 0 <= i < Size && 0 <= j < Size
    ensures Rotated(g, n)[i][j] == Rotated(g, n - 1)[Size - 1 - j][i]
  {
    assert Rotated(g, n) == Quarter(Rotated(g, n - 1));
  }

  /** One more quarter turn reads the cell the previous turns bring to (Size - 1 - j, i). */
  lemma TurnedFromStep(n: nat, i: int, j: int)
    requires 0 < n < 4
    ensures TurnedFrom(n, i, j) == TurnedFrom(n - 1, Size - 1 - j, i)
  {
  }

  /** After n quarter turns, cell (i, j) holds the original cell `TurnedFrom(n, i, j)`. */
  lemma {:induction false} RotatedCell(g: Grid, n: nat, i: int, j: int)
    requires IsGrid(g) && n < 4 && 0 <= i < Size && 0 <= j < Size
    ensures InGrid(TurnedFrom(n, i, j))
    ensures Rotated(g, n)[i][j] == g[TurnedFrom(n, i, j).row][TurnedFrom(n, i, j).col]
  {
    if n == 0 {
      assert Rotated(g, 0) == g;
    } else {
      var c := TurnedFrom(n - 1, Size - 1 - j, i);
      TurnOnce(g, n, i, j);
      RotatedCell(g, n - 1, Size - 1 - j, i);
      TurnedFromStep(n, i, j);
      assert Rotated(g, n)[i][j] == g[c.row][c.col];
    }
  }

  /** Turning back after sliding puts position t of line k on the cell the move writes it to. */
  lemma TurnedBack(d: Direction, i: int, j: int)
    requires 0 <= i < Size && 0 <= j < Size
    ensures var c := TurnedFrom(After(d), i, j);
      InGrid(c) && Place(d, LineIndex(d, c.row), c.col) == Cell(i, j)
  {
  }

  /** One cell of the rotate, slide-left, rotate-back result is the cell the direct move gives. */
  lemma AgreeAt(g: Grid, d: Direction, i: int, j: int)
    requires IsGrid(g) && 0 <= i < Size && 0 <= j < Size
    ensures Rotated(SlideRows(Rotated(g, Before(d))), After(d))[i][j] == Shifted(g, d)[i][j]
  {
    var s := SlideRows(Rotated(g, Before(d)));
    var c := TurnedFrom(After(d), i, j);
    RotatedCell(s, After(d), i, j);
    TurnedRow(g, d, c.row);
    TurnedBack(d, i, j);
    LinePlace(g, d, LineIndex(d, c.row), c.col);
  }

  lemma LinesGainFour(ls: seq<Line>)
    requires |ls| == Size
    ensures LinesGain(ls, Size) == SlideGain(ls[0]) + SlideGain(ls[1]) + SlideGain(ls[2]) + SlideGain(ls[3])
  {
    assert LinesGain(ls, 1) == SlideGain(ls[0]);
    assert LinesGain(ls, 2) == LinesGain(ls, 1) + SlideGain(ls[1]);
    assert LinesGain(ls, 3) == LinesGain(ls, 2) + SlideGain(ls[2]);
  }

  lemma AgreeBoard(g: Grid, d: Direction)
    requires IsGrid(g)
    ensures Rotated(SlideRows(Rotated(g, Before(d))), After(d)) == Shifted(g, d)
  {
    forall i, j | 0 <= i < Size && 0 <= j < Size
      ensures Rotated(SlideRows(Rotated(g, Before(d))), After(d))[i][j] == Shifted(g, d)[i][j]
    {
      AgreeAt(g, d, i, j);
    }
    SameGrid(Rotated(SlideRows(Rotated(g, Before(d))), After(d)), Shifted(g, d));
  }

  lemma AgreeGain(g: Grid, d: Direction)
    requires IsGrid(g)
    ensures LinesGain(Rotated(g, Before(d)), Size) == ShiftGain(g, d)
  {
    var r := Rotated(g, Before(d));
    var ls := Lines(g, d);
    forall k | 0 <= k < Size ensures r[k] == ls[LineIndex(d, k)] {
      TurnedRow(g, d, k);
    }
    LinesGainFour(r);
    LinesGainFour(ls);
  }

  lemma AgreeMoved(g: Grid, d: Direction)
    requires IsGrid(g)
    ensures SlideRows(Rotated(g, Before(d))) != Rotated(g, Before(d)) <==> Shifted(g, d) != g
  {
    var r := Rotated(g, Before(d));
    var ls := Lines(g, d);
    RowsSlid(r, SlideRows(r));
    ShiftedUnchanged(g, d);
    forall k | 0 <= k < Size ensures r[k] == ls[LineIndex(d, k)] {
      TurnedRow(g, d, k);
    }
    if SlideRows(r) != r {
      var k :| 0 <= k < Size && Slide(r[k]) != r[k];
      assert Slide(ls[LineIndex(d, k)]) != ls[LineIndex(d, k)];
    } else {
      forall k | 0 <= k < Size ensures Slide(ls[k]) == ls[k] {
        var k' := LineIndex(d, k);
        assert LineIndex(d, k') == k;
        assert Slide(r[k']) == r[k'];
      }
    }
  }

  /**
   * Moving right, down or up by turning the board, sliding every row left and
   * turning it back is the direct move in that direction: the same board, the
   * same points, and it changes the board exactly when the direct move does.
   */
  lemma RotationAgrees(g: Grid, d: Direction)
    requires IsGrid(g)
    ensures Rotated(SlideRows(Rotated(g, Before(d))), After(d)) == Shifted(g, d)
    ensures LinesGain(Rotated(g, Before(d)), Size) == ShiftGain(g, d)
    ensures SlideRows(Rotated(g, Before(d))) != Rotated(g, Before(d)) <==> Shifted(g, d) != g
  {
    AgreeBoard(g, d);
    AgreeGain(g, d);
    AgreeMoved(g, d);
  }

  /** The direction switch of `move`: turn, slide left, turn back. */
  method MoveBoard(a: array2<int>, d: Direction) returns (gain: int, moved: bool)
    modifies a
    requires IsBoard(a)
    ensures IsBoard(a)
    ensures Cells(a) == Rotated(SlideRows(Rotated(old(Cells(a)), Before(d))), After(d))
    ensures gain == LinesGain(Rotated(old(Cells(a)), Before(d)), Size)
    ensures moved <==> SlideRows(Rotated(old(Cells(a)), Before(d))) != Rotated(old(Cells(a)), Before(d))
  {
    match d
    case Left =>
      gain, moved := MoveLeft(a);
    case Right =>
      Rotate(a, 2);
      gain, moved := MoveLeft(a);
      Rotate(a, 2);
    case Down =>
      Rotate(a, 1);
      gain, moved := MoveLeft(a);
      Rotate(a, 3);
    case Up =>
      Rotate(a, 3);
      gain, moved := MoveLeft(a);
      Rotate(a, 1);
  }

  // ---------------------------------------------------------------------------
  // Spawning, game over, a move, a new game
  // ---------------------------------------------------------------------------

  /** The inner loop of the collection: the empty cells of row i, left to right. */
  method EmptyCellsInRow(a: array2<int>, i: int) returns (found: seq<Cell>)
    requires IsBoard(a) && 0 <= i < Size
    ensures found == RowEmpties(Cells(a)[i], i, Size)
  {
    ghost var row := Cells(a)[i];
    found := [];
    for j := 0 to Size
      invariant found == RowEmpties(row, i, j)
    {
      if a[i, j] == 0 {
        found := found + [Cell(i, j)];
      }
    }
  }

  /** The empty cells, row by row, as `addRandomTile` collects them. */
  method EmptyCellsOf(a: array2<int>) returns (empty: seq<Cell>)
    requires IsBoard(a)
    ensures empty == Empties(Cells(a))
  {
    ghost var g := Cells(a);
    empty := [];
    for i := 0 to Size
      invariant empty == EmptyCells(g, 4 * i)
    {
      var found := EmptyCellsInRow(a, i);
      EmptyCellsRow(g, i);
      empty := empty + found;
    }
  }

  /**
   * `addRandomTile`: the empty cell at position `pick` (modulo their number)
   * becomes a 4 when `four` holds and a 2 otherwise; a full board is left alone.
   */
  method AddRandomTile(a: array2<int>, pick: nat, four: bool)
    modifies a
    requires IsBoard(a)
    ensures IsBoard(a) && Cells(a) == Spawn(old(Cells(a)), pick, four)
  {
    ghost var g := Cells(a);
    var empty := EmptyCellsOf(a);
    if |empty| > 0 {
      var c := empty[pick % |empty|];
      a[c.row, c.col] := NewTile(four);
      SameGrid(Cells(a), Spawn(g, pick, four));
    }
  }

  /** The first scan of `checkGameOver`: is there no empty cell? */
  method Filled(b: Grid) returns (full: bool)
    requires IsGrid(b)
    ensures full <==> forall i, j :: 0 <= i < Size && 0 <= j < Size ==> b[i][j] != 0
  {
    for i := 0 to Size
      invariant forall r, c :: 0 <= r < i && 0 <= c < Size ==> b[r][c] != 0
    {
      for j := 0 to Size
        invariant forall c :: 0 <= c < j ==> b[i][c] != 0
      {
        if b[i][j] == 0 {
          return false;
        }
      }
    }
    return true;
  }

  /** The second scan of `checkGameOver`: are no two neighbours equal, across or down? */
  method NoEqualNeighbours(b: Grid) returns (none: bool)
    requires IsGrid(b)
    ensures none <==>
      && (forall i, j :: 0 <= i < Size && 0 <= j < Size - 1 ==> b[i][j] != b[i][j + 1])
      && (forall i, j {:trigger b[i][j]} :: 0 <= i < Size - 1 && 0 <= j < Size ==> b[i][j] != b[i + 1][j])
  {
    for i := 0 to Size
      invariant forall r, c :: 0 <= r < i && 0 <= c < Size - 1 ==> b[r][c] != b[r][c + 1]
      invariant forall r, c {:trigger b[r][c]} :: 0 <= r < Size - 1 && 0 <= c < i ==> b[r][c] != b[r + 1][c]
    {
      for j := 0 to Size - 1
        invariant forall c :: 0 <= c < j ==> b[i][c] != b[i][c + 1]
        invariant forall r :: 0 <= r < j ==> b[r][i] != b[r + 1][i]
      {
        if b[i][j] == b[i][j + 1] {
          return false;
        }
        if b[j][i] == b[j + 1][i] {
          return false;
        }
      }
    }
    return true;
  }

  /** `checkGameOver`: no empty cell, then no equal neighbours across or down. */
  method CheckGameOver(b: Grid) returns (over: bool)
    requires IsGrid(b)
    ensures over <==> NoMoves(b)
  {
    var full := Filled(b);
    if !full {
      return false;
    }
    over := NoEqualNeighbours(b);
  }

  /** `JSON.parse(JSON.stringify(board))`: a fresh mutable copy. */
  method Copy(g: Grid) returns (a: array2<int>)
    requires IsGrid(g)
    ensures fresh(a) && IsBoard(a) && Cells(a) == g
  {
    a := new int[Size, Size]((i, j) requires 0 <= i < Size && 0 <= j < Size => g[i][j]);
    SameGrid(Cells(a), g);
  }

  /**
   * `move`: nothing happens when no row of the turned board changed;
   * otherwise the moved board gets a new tile, the score the merged points,
   * and the history the board and score from before the move.
   */
  method Move(st: GameState, d: Direction, pick: nat, four: bool) returns (st': GameState)
    requires IsGrid(st.board)
    ensures st' == Play(st, d, pick, four)
  {
    var a := Copy(st.board);
    var gain, moved := MoveBoard(a, d);
    RotationAgrees(st.board, d);
    PlayCases(st, d, pick, four, Cells(a));
    if moved {
      AddRandomTile(a, pick, four);
      st' := GameState(Cells(a), st.score + gain, st.history + [Snapshot(st.board, st.score)]);
    } else {
      st' := st;
    }
  }

  /** `initializeGame`: an empty board with two tiles spawned, score 0, no history. */
  method InitializeGame(pick1: nat, four1: bool, pick2: nat, four2: bool) returns (st: GameState)
    ensures st == GameState(Spawn(Spawn(EmptyGrid(), pick1, four1), pick2, four2), 0, [])
    ensures IsGrid(st.board) && SmallTiles(st.board) && |Empties(st.board)| == Size * Size - 2
  {
    var a := new int[Size, Size]((i, j) => 0);
    SameGrid(Cells(a), EmptyGrid());
    AddRandomTile(a, pick1, four1);
    AddRandomTile(a, pick2, four2);
    st := GameState(Cells(a), 0, []);
    TwoSpawns(pick1, four1, pick2, four2);
  }
}
