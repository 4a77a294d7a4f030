/**
 * The 2048 page the application routes to (src/pages/HomePage.tsx).  A key
 * press computes the new state from the previous one: every row (left, right)
 * or column (up, down) is read, reversed for right and down, run through the
 * slide-and-merge loop, reversed back, and written into a copy of the board
 * when it changed.  A turn that changed something spawns a tile and records
 * the previous board and score for undo.
 */
module HomePage {
  import opened Tiles

  /** The key of a keyboard event: one of the four arrows, or anything else. */
  datatype Key = Arrow(d: Direction) | OtherKey

  /** `moveAndMerge(line)`, or `moveAndMerge([...line].reverse()).reverse()` when `backwards`. */
  method MergeLine(line: Line, backwards: bool) returns (merged: Line, gain: int)
    ensures merged == if backwards then Reverse(Slide(Reverse(line))) else Slide(line)
    ensures gain == SlideGain(if backwards then Reverse(line) else line)
  {
    if backwards {
      var m;
      m, gain := MoveAndMerge(Reverse(line));
      merged := Reverse(m);
    } else {
      merged, gain := MoveAndMerge(line);
    }
  }

  /** Row i after a move left or right, and whether the move changes it. */
  lemma RowWritten(b: Grid, d: Direction, i: int)
    requires IsGrid(b) && (d == Left || d == Right) && 0 <= i < Size
    ensures Lines(b, d)[i] == if d == Right then Reverse(b[i]) else b[i]
    ensures Shifted(b, d)[i] == if d == Right then Reverse(Slide(Reverse(b[i]))) else Slide(b[i])
    ensures Shifted(b, d)[i] == b[i] <==> Slide(Lines(b, d)[i]) == Lines(b, d)[i]
  {
    if d == Left {
      RowLeft(b, i);
    } else {
      RowRight(b, i);
      var l := Reverse(b[i]);
      ReverseReverse(b[i]);
      ReverseReverse(Slide(l));
      if Slide(l) == l {
        assert Reverse(Slide(l)) == b[i];
      }
      if Reverse(Slide(l)) == b[i] {
        assert Slide(l) == Reverse(Reverse(Slide(l)));
      }
    }
  }

  lemma RowLeft(b: Grid, i: int)
    requires IsGrid(b) && 0 <= i < Size
    ensures Lines(b, Left)[i] == b[i] && Shifted(b, Left)[i] == Slide(b[i])
  {
    var l := Lines(b, Left)[i];
    SlideFacts(l);
    forall t | 0 <= t < Size ensures Shifted(b, Left)[i][t] == Slide(l)[t] {
      LinePlace(b, Left, i, t);
    }
  }

  lemma RowRight(b: Grid, i: int)
    requires IsGrid(b) && 0 <= i < Size
    ensures Lines(b, Right)[i] == Reverse(b[i]) && Shifted(b, Right)[i] == Reverse(Slide(Reverse(b[i])))
  {
    var l := Lines(b, Right)[i];
    SlideFacts(l);
    forall t | 0 <= t < Size ensures Shifted(b, Right)[i][t] == Reverse(Slide(l))[t] {
      LinePlace(b, Right, i, Size - 1 - t);
    }
  }

  /** What merging row i gives, in the terms the row loop needs. */
  lemma RowMerged(b: Grid, d: Direction, i: int, merged: Line, gain: int)
    requires IsGrid(b) && (d == Left || d == Right) && 0 <= i < Size
    requires merged == if d == Right then Reverse(Slide(Reverse(b[i]))) else Slide(b[i])
    requires gain == SlideGain(if d == Right then Reverse(b[i]) else b[i])
    ensures merged == Shifted(b, d)[i] && gain == SlideGain(Lines(b, d)[i])
    ensures b[i] != merged <==> Slide(Lines(b, d)[i]) != Lines(b, d)[i]
  {
    RowWritten(b, d, i);
  }

  /** One row of the left and right branch: the merged row, and whether it differs. */
  method RowStep(b: Grid, d: Direction, line: Line, i: int) returns (merged: Line, gain: int, changed: bool)
    requires IsGrid(b) && (d == Left || d == Right) && 0 <= i < Size && line == b[i]
    ensures merged == Shifted(b, d)[i] && (changed <==> merged != line)
    ensures gain == SlideGain(Lines(b, d)[i]) && (changed <==> Slide(Lines(b, d)[i]) != Lines(b, d)[i])
  {
    merged, gain := MergeLine(line, d == Right);
    RowMerged(b, d, i, merged, gain);
    changed := line != merged;
  }

  /** The row loop's invariant after the first i rows. */
  ghost predicate RowsDone(b: Grid, d: Direction, nb: Grid, i: int, gain: int, moved: bool)
    requires IsGrid(b) && (d == Left || d == Right) && 0 <= i <= Size
  {
    var ls, sh := Lines(b, d), Shifted(b, d);
    && |nb| == Size
    && (forall r :: 0 <= r < i ==> nb[r] == sh[r])
    && (forall r :: i <= r < Size ==> nb[r] == b[r])
    && gain == LinesGain(ls, i)
    && (moved <==> exists k :: 0 <= k < i && Slide(ls[k]) != ls[k])
  }

  /** One turn of the row loop: row i merged, replaced when it changed, and accounted for. */
  method NextRow(b: Grid, d: Direction, nb: Grid, i: int, gain: int, moved: bool)
    returns (nb': Grid, gain': int, moved': bool)
    requires IsGrid(b) && (d == Left || d == Right) && 0 <= i < Size
    requires RowsDone(b, d, nb, i, gain, moved)
    ensures RowsDone(b, d, nb', i + 1, gain', moved')
  {
    ghost var ls := Lines(b, d);
    var merged, lineGain, changed := RowStep(b, d, nb[i], i);
    nb' := nb;
    if changed {
      nb' := nb[i := merged];
    }
    gain' := gain + lineGain;
    moved' := moved || changed;
    assert moved' <==> exists k :: 0 <= k < i + 1 && Slide(ls[k]) != ls[k] by {
      if changed {
        assert Slide(ls[i]) != ls[i];
      }
    }
  }

  /** The left and right branch of `moveBoard`: rows replaced where they changed. */
  method MoveRows(b: Grid, d: Direction) returns (nb: Grid, gain: int, moved: bool)
    requires IsGrid(b) && (d == Left || d == Right)
    ensures nb == Shifted(b, d) && gain == ShiftGain(b, d) && (moved <==> Shifted(b, d) != b)
  {
    nb, gain, moved := b, 0, false;
    for i := 0 to Size
      invariant RowsDone(b, d, nb, i, gain, moved)
    {
      nb, gain, moved := NextRow(b, d, nb, i, gain, moved);
    }
    LinesDone(b, d, nb, moved);
  }

  /** After the last line: the board is the moved board, and `moved` says whether it differs. */
  lemma LinesDone(b: Grid, d: Direction, nb: Grid, moved: bool)
    requires IsGrid(b) && |nb| == Size && forall r :: 0 <= r < Size ==> nb[r] == Shifted(b, d)[r]
    requires moved <==> exists k :: 0 <= k < Size && Slide(Lines(b, d)[k]) != Lines(b, d)[k]
    ensures nb == Shifted(b, d) && (moved <==> Shifted(b, d) != b)
  {
    ShiftedUnchanged(b, d);
  }

  /** Column j after a move up or down, and whether the move changes it. */
  lemma ColumnWritten(b: Grid, d: Direction, j: int)
    requires IsGrid(b) && (d == Up || d == Down) && 0 <= j < Size
    ensures Lines(b, d)[j] == if d == Down then Reverse(Column(b, j)) else Column(b, j)
    ensures Column(Shifted(b, d), j) == if d == Down then Reverse(Slide(Reverse(Column(b, j)))) else Slide(Column(b, j))
    ensures Column(Shifted(b, d), j) == Column(b, j) <==> Slide(Lines(b, d)[j]) == Lines(b, d)[j]
  {
    if d == Up {
      ColumnUp(b, j);
    } else {
      ColumnDown(b, j);
      var c := Column(b, j);
      var l := Reverse(c);
      ReverseReverse(c);
      ReverseReverse(Slide(l));
      if Slide(l) == l {
        assert Reverse(Slide(l)) == c;
      }
      if Reverse(Slide(l)) == c {
        assert Slide(l) == Reverse(Reverse(Slide(l)));
      }
    }
  }

  lemma ColumnUp(b: Grid, j: int)
    requires IsGrid(b) && 0 <= j < Size
    ensures Lines(b, Up)[j] == Column(b, j) && Column(Shifted(b, Up), j) == Slide(Column(b, j))
  {
    var l := Lines(b, Up)[j];
    SlideFacts(l);
    forall t | 0 <= t < Size ensures Column(Shifted(b, Up), j)[t] == Slide(l)[t] {
      LinePlace(b, Up, j, t);
    }
  }

  lemma ColumnDown(b: Grid, j: int)
    requires IsGrid(b) && 0 <= j < Size
    ensures Lines(b, Down)[j] == Reverse(Column(b, j))
    ensures Column(Shifted(b, Down), j) == Reverse(Slide(Reverse(Column(b, j))))
  {
    var l := Lines(b, Down)[j];
    SlideFacts(l);
    forall t | 0 <= t < Size ensures Column(Shifted(b, Down), j)[t] == Reverse(Slide(l))[t] {
      LinePlace(b, Down, j, Size - 1 - t);
    }
  }

  /** What merging column j gives, in the terms the column loop needs. */
  lemma ColumnMerged(b: Grid, d: Direction, j: int, merged: Line, gain: int)
    requires IsGrid(b) && (d == Up || d == Down) && 0 <= j < Size
    requires merged == if d == Down then Reverse(Slide(Reverse(Column(b, j)))) else Slide(Column(b, j))
    requires gain == SlideGain(if d == Down then Reverse(Column(b, j)) else Column(b, j))
    ensures |merged| == Size && NonNeg(merged)
    ensures forall r :: 0 <= r < Size ==> merged[r] == Shifted(b, d)[r][j]
    ensures gain == SlideGain(Lines(b, d)[j])
    ensures Column(b, j) != merged <==> Slide(Lines(b, d)[j]) != Lines(b, d)[j]
  {
    if d == Up {
      MergedUp(b, j, merged, gain);
    } else {
      MergedDown(b, j, merged, gain);
    }
  }

  lemma MergedUp(b: Grid, j: int, merged: Line, gain: int)
    requires IsGrid(b) && 0 <= j < Size
    requires merged == Slide(Column(b, j)) && gain == SlideGain(Column(b, j))
    ensures |merged| == Size && NonNeg(merged)
    ensures forall r :: 0 <= r < Size ==> merged[r] == Shifted(b, Up)[r][j]
    ensures gain == SlideGain(Lines(b, Up)[j])
    ensures Column(b, j) != merged <==> Slide(Lines(b, Up)[j]) != Lines(b, Up)[j]
  {
    ColumnUp(b, j);
    SlideFacts(Column(b, j));
    var col := Column(Shifted(b, Up), j);
    assert forall r :: 0 <= r < Size ==> col[r] == Shifted(b, Up)[r][j];
  }

  lemma MergedDown(b: Grid, j: int, merged: Line, gain: int)
    requires IsGrid(b) && 0 <= j < Size
    requires merged == Reverse(Slide(Reverse(Column(b, j)))) && gain == SlideGain(Reverse(Column(b, j)))
    ensures |merged| == Size && NonNeg(merged)
    ensures forall r :: 0 <= r < Size ==> merged[r] == Shifted(b, Down)[r][j]
    ensures gain == SlideGain(Lines(b, Down)[j])
    ensures Column(b, j) != merged <==> Slide(Lines(b, Down)[j]) != Lines(b, Down)[j]
  {
    ColumnWritten(b, Down, j);
    ColumnDown(b, j);
    var col := Column(Shifted(b, Down), j);
    assert forall r :: 0 <= r < Size ==> col[r] == Shifted(b, Down)[r][j];
    assert IsGrid(Shifted(b, Down));
  }

  /** `merged.forEach((val, i) => newBoard[i][j] = val)`. */
  method WriteColumn(b: Grid, j: int, col: Line) returns (b': Grid)
    requires IsGrid(b) && 0 <= j < Size && |col| == Size && NonNeg(col)
    ensures IsGrid(b') && forall r :: 0 <= r < Size ==> b'[r][j] == col[r]
    ensures forall r, c :: 0 <= r < Size && 0 <= c < Size && c != j ==> b'[r][c] == b[r][c]
  {
    b' := b;
    for i := 0 to Size
      invariant IsGrid(b')
      invariant forall r :: 0 <= r < i ==> b'[r][j] == col[r]
      invariant forall r, c :: 0 <= r < Size && 0 <= c < Size && (c != j || r >= i) ==> b'[r][c] == b[r][c]
    {
      b' := b'[i := b'[i][j := col[i]]];
    }
  }

  /** One column of the up and down branch: merged, and rewritten when it changed. */
  method ColumnStep(b: Grid, d: Direction, nb: Grid, j: int) returns (nb': Grid, gain: int, changed: bool)
    requires IsGrid(b) && (d == Up || d == Down) && 0 <= j < Size && IsGrid(nb)
    requires forall r :: 0 <= r < Size ==> nb[r][j] == b[r][j]
    ensures IsGrid(nb') && forall r :: 0 <= r < Size ==> nb'[r][j] == Shifted(b, d)[r][j]
    ensures forall r, c :: 0 <= r < Size && 0 <= c < Size && c != j ==> nb'[r][c] == nb[r][c]
    ensures gain == SlideGain(Lines(b, d)[j]) && (changed <==> Slide(Lines(b, d)[j]) != Lines(b, d)[j])
  {
    var line := Column(nb, j);
    assert line == Column(b, j);
    var merged;
    merged, gain := MergeLine(line, d == Down);
    ColumnMerged(b, d, j, merged, gain);
    changed := line != merged;
    nb' := nb;
    if changed {
      nb' := WriteColumn(nb, j, merged);
    }
  }

  /** Column j rewritten and the others kept: the first j + 1 columns are now the moved ones. */
  lemma ColumnsAdvance(b: Grid, sh: Grid, nb: Grid, nb': Grid, j: int)
    requires IsGrid(b) && IsGrid(sh) && IsGrid(nb) && IsGrid(nb') && 0 <= j < Size
    requires forall r, c :: 0 <= r < Size && 0 <= c < j ==> nb[r][c] == sh[r][c]
    requires forall r, c :: 0 <= r < Size && j <= c < Size ==> nb[r][c] == b[r][c]
    requires forall r :: 0 <= r < Size ==> nb'[r][j] == sh[r][j]
    requires forall r, c :: 0 <= r < Size && 0 <= c < Size && c != j ==> nb'[r][c] == nb[r][c]
    ensures forall r, c :: 0 <= r < Size && 0 <= c < j + 1 ==> nb'[r][c] == sh[r][c]
    ensures forall r, c :: 0 <= r < Size && j + 1 <= c < Size ==> nb'[r][c] == b[r][c]
  {
  }

  /** After the first j columns: those are moved, the rest are as on `b`, and gain and flag cover them. */
  ghost predicate ColumnsDone(b: Grid, d: Direction, nb: Grid, j: int, gain: int, moved: bool)
    requires IsGrid(b) && (d == Up || d == Down) && 0 <= j <= Size
  {
    var ls, sh := Lines(b, d), Shifted(b, d);
    && IsGrid(nb)
    && (forall r, c :: 0 <= r < Size && 0 <= c < j ==> nb[r][c] == sh[r][c])
    && (forall r, c :: 0 <= r < Size && j <= c < Size ==> nb[r][c] == b[r][c])
    && gain == LinesGain(ls, j)
    && (moved <==> exists k :: 0 <= k < j && Slide(ls[k]) != ls[k])
  }

  /** One turn of the column loop: column j merged, written back and accounted for. */
  method NextColumn(b: Grid, d: Direction, nb: Grid, j: int, gain: int, moved: bool)
    returns (nb': Grid, gain': int, moved': bool)
    requires IsGrid(b) && (d == Up || d == Down) && 0 <= j < Size
    requires ColumnsDone(b, d, nb, j, gain, moved)
    ensures ColumnsDone(b, d, nb', j + 1, gain', moved')
  {
    ghost var ls := Lines(b, d);
    var lineGain, changed;
    nb', lineGain, changed := ColumnStep(b, d, nb, j);
    ColumnsAdvance(b, Shifted(b, d), nb, nb', j);
    gain' := gain + lineGain;
    moved' := moved || changed;
    assert moved' <==> exists k :: 0 <= k < j + 1 && Slide(ls[k]) != ls[k] by {
      if changed {
        assert Slide(ls[j]) != ls[j];
      }
    }
  }

  /** The up and down branch of `moveBoard`: columns rewritten where they changed. */
  method MoveColumns(b: Grid, d: Direction) returns (nb: Grid, gain: int, moved: bool)
    requires IsGrid(b) && (d == Up || d == Down)
    ensures nb == Shifted(b, d) && gain == ShiftGain(b, d) && (moved <==> Shifted(b, d) != b)
  {
    nb, gain, moved := b, 0, false;
    for j := 0 to Size
      invariant ColumnsDone(b, d, nb, j, gain, moved)
    {
      nb, gain, moved := NextColumn(b, d, nb, j, gain, moved);
    }
    SameGrid(nb, Shifted(b, d));
    LinesDone(b, d, nb, moved);
  }

  /** `moveBoard(direction)`: the new board, the points scored and whether any line changed. */
  method MoveBoard(b: Grid, d: Direction) returns (nb: Grid, gain: int, moved: bool)
    requires IsGrid(b)
    ensures nb == Shifted(b, d) && gain == ShiftGain(b, d) && (moved <==> Shifted(b, d) != b)
  {
    if d == Left || d == Right {
      nb, gain, moved := MoveRows(b, d);
    } else {
      nb, gain, moved := MoveColumns(b, d);
    }
  }

  // ---------------------------------------------------------------------------
  // Spawning, a key press, undo, game over
  // ---------------------------------------------------------------------------

  /** `newBoard.forEach((row, i) => row.forEach(...))`: the empty cells, row by row. */
  method CollectEmptyCells(b: Grid) returns (empty: seq<Cell>)
    requires IsGrid(b)
    ensures empty == Empties(b)
  {
    empty := [];
    ghost var k: nat := 0;
    for i := 0 to Size
      invariant k == 4 * i && empty == EmptyCells(b, k)
    {
      for j := 0 to Size
        invariant k == 4 * i + j && empty == EmptyCells(b, k)
      {
        EmptyCellsNext(b, i, j, k);
        if b[i][j] == 0 {
          empty := empty + [Cell(i, j)];
        }
        k := k + 1;
      }
    }
  }

  /**
   * The spawn after a real move: the empty cell at position `pick` (modulo
   * their number) becomes a 4 when `four` holds and a 2 otherwise; a full
   * board is left alone.
   */
  method SpawnTile(b: Grid, pick: nat, four: bool) returns (b': Grid)
    requires IsGrid(b)
    ensures b' == Spawn(b, pick, four)
  {
    var empty := CollectEmptyCells(b);
    b' := b;
    if |empty| > 0 {
      var c := empty[pick % |empty|];
      b' := b[c.row := b[c.row][c.col := NewTile(four)]];
    }
  }

  /**
   * The updater of `handleKeyPress`: any key but an arrow returns the
   * previous state; an arrow that changes no line returns it too; otherwise
   * the moved board gets a new tile and the score the merged points, and the
   * previous board and score go onto the history.
   */
  method HandleKeyPress(st: GameState, key: Key, pick: nat, four: bool) returns (st': GameState)
    requires IsGrid(st.board)
    ensures key.OtherKey? ==> st' == st
    ensures key.Arrow? ==> st' == Play(st, key.d, pick, four)
  {
    if key.OtherKey? {
      return st;
    }
    var nb, gain, moved := MoveBoard(st.board, key.d);
    PlayCases(st, key.d, pick, four, nb);
    if !moved {
      return st;
    }
    nb := SpawnTile(nb, pick, four);
    st' := GameState(nb, st.score + gain, st.history + [Snapshot(st.board, st.score)]);
  }

  /**
   * `handleUndo`: nothing to undo on an empty history; otherwise the last
   * entry's board and score come back and that entry is dropped.
   */
  function Undo(st: GameState): (r: GameState)
    ensures |st.history| == 0 ==> r == st
    ensures |st.history| > 0 ==>
      Snapshot(r.board, r.score) == st.history[|st.history| - 1] && r.history == st.history[..|st.history| - 1]
  {
    if |st.history| == 0 then st
    else
      var last := st.history[|st.history| - 1];
      GameState(last.board, last.score, st.history[..|st.history| - 1])
  }

  /** Undo right after any turn gives back the state from before that turn. */
  lemma UndoAfterPlay(st: GameState, d: Direction, pick: nat, four: bool)
    requires IsGrid(st.board)
    ensures Shifted(st.board, d) != st.board ==> Undo(Play(st, d, pick, four)) == st
    ensures Shifted(st.board, d) == st.board ==> Undo(Play(st, d, pick, four)) == Undo(st)
  {
    PlayFacts(st, d, pick, four);
    if Shifted(st.board, d) != st.board {
      var h := st.history + [Snapshot(st.board, st.score)];
      assert h[..|h| - 1] == st.history;
    }
  }

  /** `checkGameOver`: no empty cell, no equal neighbours across, none down. */
  method CheckGameOver(b: Grid) returns (over: bool)
    requires IsGrid(b)
    ensures over <==> NoMoves(b)
  {
    for i := 0 to Size
      invariant forall r, c :: 0 <= r < i && 0 <= c < Size ==> b[r][c] != 0
    {
      for j := 0 to Size
        invariant forall r, c :: 0 <= r < i && 0 <= c < Size ==> b[r][c] != 0
        invariant forall c :: 0 <= c < j ==> b[i][c] != 0
      {
        if b[i][j] == 0 {
          return false;
        }
      }
    }
    for i := 0 to Size
      invariant forall r, c :: 0 <= r < i && 0 <= c < Size - 1 ==> b[r][c] != b[r][c + 1]
    {
      for j := 0 to Size - 1
        invariant forall r, c :: 0 <= r < i && 0 <= c < Size - 1 ==> b[r][c] != b[r][c + 1]
        invariant forall c :: 0 <= c < j ==> b[i][c] != b[i][c + 1]
      {
        if b[i][j] == b[i][j + 1] {
          return false;
        }
      }
    }
    for i := 0 to Size - 1
      invariant forall r, c {:trigger b[r][c]} :: 0 <= r < i && 0 <= c < Size ==> b[r][c] != b[r + 1][c]
    {
      for j := 0 to Size
        invariant forall r, c {:trigger b[r][c]} :: 0 <= r < i && 0 <= c < Size ==> b[r][c] != b[r + 1][c]
        invariant forall c :: 0 <= c < j ==> b[i][c] != b[i + 1][c]
      {
        if b[i][j] == b[i + 1][j] {
          return false;
        }
      }
    }
    return true;
  }

  /** The state before the first render: an empty board, score 0, no history. */
  function InitialState(): GameState {
    GameState(EmptyGrid(), 0, [])
  }

  /**
   * The mount effect (and the restart after game over, which does the same on
   * a fresh empty board): a full board is returned as it is, otherwise one
   * tile is spawned and score and history are kept.
   */
  method InitialSpawn(st: GameState, pick: nat, four: bool) returns (st': GameState)
    requires IsGrid(st.board)
    ensures st' == GameState(Spawn(st.board, pick, four), st.score, st.history)
    ensures st == InitialState() ==> SmallTiles(st'.board) && |Empties(st'.board)| == Size * Size - 1
  {
    var empty := CollectEmptyCells(st.board);
    if |empty| == 0 {
      return st;
    }
    var c := empty[pick % |empty|];
    st' := GameState(st.board[c.row := st.board[c.row][c.col := NewTile(four)]], st.score, st.history);
    OneSpawn(pick, four);
  }
}
