/**
 * The 4 x 4 board of 2048 as a value, shared by both 2048 pages: the
 * reference slide-and-merge of one line towards its start, the row-major list
 * of empty cells, spawning a tile into one of them, and the "no move left"
 * condition.  The pages' own loops are proved equal to these definitions in
 * their modules.
 */
module Tiles {
  const Size: int := 4

  type Line = seq<int>
  type Grid = seq<seq<int>>

  /** Four rows of four tiles; 0 is an empty cell and no tile is negative. */
  predicate IsGrid(g: Grid) {
    |g| == Size && forall i :: 0 <= i < Size ==> |g[i]| == Size && forall j :: 0 <= j < Size ==> g[i][j] >= 0
  }

  predicate NonNeg(xs: Line) {
    forall i :: 0 <= i < |xs| ==> xs[i] >= 0
  }

  function Sum(xs: Line): int {
    if |xs| == 0 then 0 else xs[0] + Sum(xs[1..])
  }

  function NonZeroCount(xs: Line): nat {
    if |xs| == 0 then 0 else (if xs[0] != 0 then 1 else 0) + NonZeroCount(xs[1..])
  }

  // ---------------------------------------------------------------------------
  // One line
  // ---------------------------------------------------------------------------

  /** `line.filter(x => x !== 0)`. */
  function Compact(xs: Line): Line {
    if |xs| == 0 then [] else if xs[0] == 0 then Compact(xs[1..]) else [xs[0]] + Compact(xs[1..])
  }

  /** Adjacent equal tiles merged pairwise from the start; a merged tile is not merged again. */
  function Merge(xs: Line): Line {
    if |xs| < 2 then xs
    else if xs[0] == xs[1] then [2 * xs[0]] + Merge(xs[2..])
    else [xs[0]] + Merge(xs[1..])
  }

  /** The points scored by `Merge`: the value of every merged tile. */
  function MergeGain(xs: Line): int {
    if |xs| < 2 then 0
    else if xs[0] == xs[1] then 2 * xs[0] + MergeGain(xs[2..])
    else MergeGain(xs[1..])
  }

  function Zeros(n: nat): (z: Line)
    ensures |z| == n && forall i :: 0 <= i < n ==> z[i] == 0
  {
    seq(n, _ => 0)
  }

  /** Zeros pushed at the end up to length n. */
  function Pad(xs: Line, n: int): Line {
    if |xs| >= n then xs else xs + Zeros(n - |xs|)
  }

  /** One line slid towards its start: compact, merge, pad back to four. */
  function Slide(line: Line): Line {
    Pad(Merge(Compact(line)), Size)
  }

  function SlideGain(line: Line): int {
    MergeGain(Compact(line))
  }

  lemma {:induction false} SumAppend(a: Line, b: Line)
    ensures Sum(a + b) == Sum(a) + Sum(b)
  {
    if |a| == 0 {
      assert a + b == b;
    } else {
      assert (a + b)[1..] == a[1..] + b;
      SumAppend(a[1..], b);
    }
  }

  lemma {:induction false} SumZeros(n: nat)
    ensures Sum(Zeros(n)) == 0
  {
    if n > 0 {
      assert Zeros(n)[1..] == Zeros(n - 1);
      SumZeros(n - 1);
    }
  }

  lemma {:induction false} CompactFacts(xs: Line)
    ensures |Compact(xs)| == NonZeroCount(xs) <= |xs|
    ensures Sum(Compact(xs)) == Sum(xs)
    ensures forall i :: 0 <= i < |Compact(xs)| ==> Compact(xs)[i] != 0
    ensures NonNeg(xs) ==> NonNeg(Compact(xs))
  {
    if |xs| > 0 {
      CompactFacts(xs[1..]);
    }
  }

  lemma {:induction false} MergeFacts(xs: Line)
    ensures |Merge(xs)| <= |xs|
    ensures Sum(Merge(xs)) == Sum(xs)
    ensures (forall i :: 0 <= i < |xs| ==> xs[i] != 0) ==> forall i :: 0 <= i < |Merge(xs)| ==> Merge(xs)[i] != 0
    ensures NonNeg(xs) ==> NonNeg(Merge(xs)) && MergeGain(xs) >= 0
  {
    if |xs| >= 2 {
      if xs[0] == xs[1] {
        MergeFacts(xs[2..]);
        assert xs[2..] == xs[1..][1..];
      } else {
        MergeFacts(xs[1..]);
      }
    }
  }

  /** Merging keeps the number of tiles exactly when it scores nothing (for positive tiles). */
  lemma {:induction false} MergeKeepsLength(xs: Line)
    requires forall i :: 0 <= i < |xs| ==> xs[i] > 0
    ensures |Merge(xs)| == |xs| <==> MergeGain(xs) == 0
    ensures |Merge(xs)| == |xs| ==> Merge(xs) == xs
  {
    if |xs| >= 2 {
      if xs[0] == xs[1] {
        MergeFacts(xs[2..]);
        MergeKeepsLength(xs[2..]);
      } else {
        MergeKeepsLength(xs[1..]);
        assert xs == [xs[0]] + xs[1..];
      }
    }
  }

  lemma PadFacts(xs: Line, n: int)
    requires |xs| <= n
    ensures |Pad(xs, n)| == n && forall i :: 0 <= i < |xs| ==> Pad(xs, n)[i] == xs[i]
    ensures forall i :: |xs| <= i < n ==> Pad(xs, n)[i] == 0
    ensures Sum(Pad(xs, n)) == Sum(xs)
  {
    if |xs| < n {
      SumAppend(xs, Zeros(n - |xs|));
      SumZeros(n - |xs|);
    }
  }

  lemma {:induction false} NonZeroCountAppend(a: Line, b: Line)
    ensures NonZeroCount(a + b) == NonZeroCount(a) + NonZeroCount(b)
  {
    if |a| == 0 {
      assert a + b == b;
    } else {
      assert (a + b)[1..] == a[1..] + b;
      NonZeroCountAppend(a[1..], b);
    }
  }

  lemma {:induction false} NonZeroCountAll(xs: Line)
    requires forall i :: 0 <= i < |xs| ==> xs[i] != 0
    ensures NonZeroCount(xs) == |xs|
  {
    if |xs| > 0 {
      NonZeroCountAll(xs[1..]);
    }
  }

  lemma {:induction false} NonZeroCountZeros(n: nat)
    ensures NonZeroCount(Zeros(n)) == 0
  {
    if n > 0 {
      assert Zeros(n)[1..] == Zeros(n - 1);
      NonZeroCountZeros(n - 1);
    }
  }

  /**
   * A slid line has four tiles, keeps the line's sum, has all its empty cells
   * at the end and no negative tile.
   */
  lemma SlideFacts(line: Line)
    requires |line| == Size && NonNeg(line)
    ensures |Slide(line)| == Size
    ensures Sum(Slide(line)) == Sum(line)
    ensures forall i, j :: 0 <= i < j < Size && Slide(line)[i] == 0 ==> Slide(line)[j] == 0
    ensures NonNeg(Slide(line)) && SlideGain(line) >= 0
  {
    var c := Compact(line);
    CompactFacts(line);
    MergeFacts(c);
    var m := Merge(c);
    PadFacts(m, Size);
    var r := Slide(line);
  }

  /** A line that a slide leaves as it is scores nothing. */
  lemma SlideUnchangedScoresNothing(line: Line)
    requires |line| == Size && NonNeg(line) && Slide(line) == line
    ensures SlideGain(line) == 0
  {
    var c := Compact(line);
    CompactFacts(line);
    MergeFacts(c);
    var m := Merge(c);
    forall i | 0 <= i < |c| ensures c[i] > 0 {
      assert c[i] != 0;
    }
    assert forall i :: 0 <= i < |m| ==> m[i] != 0;
    NonZeroCountAll(m);
    NonZeroCountAppend(m, Zeros(Size - |m|));
    NonZeroCountZeros(Size - |m|);
    MergeKeepsLength(c);
  }

  /** A full line without equal neighbours does not change. */
  lemma {:induction false} MergeStable(xs: Line)
    requires forall i :: 0 <= i < |xs| - 1 ==> xs[i] != xs[i + 1]
    ensures Merge(xs) == xs
  {
    if |xs| >= 2 {
      MergeStable(xs[1..]);
      assert xs == [xs[0]] + xs[1..];
    }
  }

  lemma {:induction false} CompactStable(xs: Line)
    requires forall i :: 0 <= i < |xs| ==> xs[i] != 0
    ensures Compact(xs) == xs
  {
    if |xs| > 0 {
      CompactStable(xs[1..]);
      assert xs == [xs[0]] + xs[1..];
    }
  }

  lemma SlideStable(line: Line)
    requires |line| == Size && NonNeg(line)
    requires forall i :: 0 <= i < Size ==> line[i] != 0
    requires forall i :: 0 <= i < Size - 1 ==> line[i] != line[i + 1]
    ensures Slide(line) == line && SlideGain(line) == 0
  {
    CompactStable(line);
    MergeStable(line);
    MergeKeepsLength(line);
  }

  /**
   * `out` is `xs` cut into consecutive blocks of one tile or of two equal
   * tiles, each block becoming one tile worth its sum; `sizes` lists the block
   * sizes.  Every input tile lies in exactly one block, so no tile takes part
   * in more than one merge.
   */
  ghost predicate Blocks(xs: Line, out: Line, sizes: seq<int>)
    decreases |out|
  {
    |sizes| == |out| &&
    if |out| == 0 then |xs| == 0
    else if sizes[0] == 1 then |xs| >= 1 && out[0] == xs[0] && Blocks(xs[1..], out[1..], sizes[1..])
    else sizes[0] == 2 && |xs| >= 2 && xs[0] == xs[1] && out[0] == xs[0] + xs[1] &&
         Blocks(xs[2..], out[1..], sizes[1..])
  }

  /** The total of the tiles that were made from two. */
  function MergedPoints(out: Line, sizes: seq<int>): int
    requires |sizes| == |out|
  {
    if |out| == 0 then 0 else (if sizes[0] == 2 then out[0] else 0) + MergedPoints(out[1..], sizes[1..])
  }

  /**
   * Merging cuts the line into blocks of one tile or two equal tiles, and the
   * points scored are exactly the values of the tiles made by a merge.
   */
  lemma {:induction false} MergeIsBlocks(xs: Line)
    ensures exists sizes :: Blocks(xs, Merge(xs), sizes) && MergeGain(xs) == MergedPoints(Merge(xs), sizes)
  {
    if |xs| == 0 {
      assert Blocks(xs, Merge(xs), []);
    } else if |xs| == 1 {
      assert Merge(xs)[1..] == [] && xs[1..] == [];
      assert Blocks(xs, Merge(xs), [1]);
      assert MergedPoints(Merge(xs), [1]) == 0;
    } else if xs[0] == xs[1] {
      MergeIsBlocks(xs[2..]);
      var sizes :| Blocks(xs[2..], Merge(xs[2..]), sizes) && MergeGain(xs[2..]) == MergedPoints(Merge(xs[2..]), sizes);
      var out := Merge(xs);
      assert out[1..] == Merge(xs[2..]);
      assert ([2] + sizes)[1..] == sizes;
      assert Blocks(xs, out, [2] + sizes);
      assert MergeGain(xs) == MergedPoints(out, [2] + sizes);
    } else {
      MergeIsBlocks(xs[1..]);
      var sizes :| Blocks(xs[1..], Merge(xs[1..]), sizes) && MergeGain(xs[1..]) == MergedPoints(Merge(xs[1..]), sizes);
      var out := Merge(xs);
      assert out[1..] == Merge(xs[1..]);
      assert ([1] + sizes)[1..] == sizes;
      assert Blocks(xs, out, [1] + sizes);
      assert MergeGain(xs) == MergedPoints(out, [1] + sizes);
    }
  }

  // ---------------------------------------------------------------------------
  // The board
  // ---------------------------------------------------------------------------

  datatype Cell = Cell(row: int, col: int)

  predicate InGrid(c: Cell) {
    0 <= c.row < Size && 0 <= c.col < Size
  }

  /** Position of a cell in row-major order (`Size` is 4). */
  function Index(c: Cell): int {
    4 * c.row + c.col
  }

  function CellAt(k: int): (c: Cell)
    requires 0 <= k < Size * Size
    ensures InGrid(c) && Index(c) == k
  {
    Cell(k / 4, k % 4)
  }

  /** The empty cells among the first k cells in row-major order, in that order. */
  function EmptyCells(g: Grid, k: nat): seq<Cell>
    requires IsGrid(g) && k <= Size * Size
  {
    if k == 0 then []
    else
      var c := CellAt(k - 1);
      EmptyCells(g, k - 1) + (if g[c.row][c.col] == 0 then [c] else [])
  }

  /** Every listed cell is an empty cell of the grid among the first k. */
  lemma {:induction false} EmptyCellsSound(g: Grid, k: nat)
    requires IsGrid(g) && k <= Size * Size
    ensures forall i :: 0 <= i < |EmptyCells(g, k)| ==>
      InGrid(EmptyCells(g, k)[i]) && g[EmptyCells(g, k)[i].row][EmptyCells(g, k)[i].col] == 0 && Index(EmptyCells(g, k)[i]) < k
  {
    if k > 0 {
      EmptyCellsSound(g, k - 1);
      var c := CellAt(k - 1);
      var e0 := EmptyCells(g, k - 1);
      var e := EmptyCells(g, k);
      assert e == e0 + (if g[c.row][c.col] == 0 then [c] else []);
      forall i | 0 <= i < |e| ensures InGrid(e[i]) && g[e[i].row][e[i].col] == 0 && Index(e[i]) < k {
        if i < |e0| {
          assert e[i] == e0[i];
        } else {
          assert e[i] == c;
        }
      }
    }
  }

  /** All empty cells, row by row. */
  function Empties(g: Grid): (e: seq<Cell>)
    requires IsGrid(g)
    ensures forall i :: 0 <= i < |e| ==> InGrid(e[i]) && g[e[i].row][e[i].col] == 0
  {
    EmptyCellsSound(g, Size * Size);
    EmptyCells(g, Size * Size)
  }

  /** The list grows cell by cell along the rows. */
  lemma EmptyCellsNext(g: Grid, i: int, j: int, k: nat)
    requires IsGrid(g) && 0 <= i < Size && 0 <= j < Size && k == 4 * i + j
    ensures EmptyCells(g, k + 1) == EmptyCells(g, k) + (if g[i][j] == 0 then [Cell(i, j)] else [])
  {
    var c := CellAt(k);
    assert c.row == i && c.col == j;
  }

  /** The empty cells of row i among its first j columns, left to right. */
  function RowEmpties(row: seq<int>, i: int, j: nat): seq<Cell>
    requires j <= |row|
  {
    if j == 0 then [] else RowEmpties(row, i, j - 1) + (if row[j - 1] == 0 then [Cell(i, j - 1)] else [])
  }

  /** If the list and the row part grow by the same cells, the list stays the prefix plus the row part. */
  lemma AppendStep<T>(before: seq<T>, after: seq<T>, prefix: seq<T>, part: seq<T>, part': seq<T>, last: seq<T>)
    requires after == before + last && before == prefix + part && part' == part + last
    ensures after == prefix + part'
  {
    assert (prefix + part) + last == prefix + (part + last);
  }

  /** Row by row: the first k = 4i + j cells give the list before row i plus the row's first j empty cells. */
  lemma {:induction false} EmptyCellsByRow(g: Grid, i: int, j: nat, k: nat)
    requires IsGrid(g) && 0 <= i < Size && j <= Size && k == 4 * i + j
    ensures EmptyCells(g, k) == EmptyCells(g, 4 * i) + RowEmpties(g[i], i, j)
  {
    if j > 0 {
      EmptyCellsByRow(g, i, j - 1, k - 1);
      EmptyCellsRowStep(g, i, j, k);
    }
  }

  /** One more column of row i: the list and the row part grow by the same cell, if it is empty. */
  lemma EmptyCellsRowStep(g: Grid, i: int, j: nat, k: nat)
    requires IsGrid(g) && 0 <= i < Size && 0 < j <= Size && k == 4 * i + j
    requires EmptyCells(g, k - 1) == EmptyCells(g, 4 * i) + RowEmpties(g[i], i, j - 1)
    ensures EmptyCells(g, k) == EmptyCells(g, 4 * i) + RowEmpties(g[i], i, j)
  {
    EmptyCellsNext(g, i, j - 1, k - 1);
    var last := if g[i][j - 1] == 0 then [Cell(i, j - 1)] else [];
    assert RowEmpties(g[i], i, j) == RowEmpties(g[i], i, j - 1) + last;
    AppendStep(EmptyCells(g, k - 1), EmptyCells(g, k), EmptyCells(g, 4 * i),
               RowEmpties(g[i], i, j - 1), RowEmpties(g[i], i, j), last);
  }

  /** The list after row i is the list before it plus the row's empty cells. */
  lemma EmptyCellsRow(g: Grid, i: int)
    requires IsGrid(g) && 0 <= i < Size
    ensures EmptyCells(g, 4 * (i + 1)) == EmptyCells(g, 4 * i) + RowEmpties(g[i], i, Size)
  {
    EmptyCellsByRow(g, i, Size, 4 * (i + 1));
  }

  /** Every empty cell among the first k is on the list. */
  lemma {:induction false} EmptyCellsComplete(g: Grid, k: nat)
    requires IsGrid(g) && k <= Size * Size
    ensures forall c :: InGrid(c) && Index(c) < k && g[c.row][c.col] == 0 ==> c in EmptyCells(g, k)
  {
    if k > 0 {
      EmptyCellsComplete(g, k - 1);
      var c := CellAt(k - 1);
      assert EmptyCells(g, k) == EmptyCells(g, k - 1) + (if g[c.row][c.col] == 0 then [c] else []);
      forall d | InGrid(d) && Index(d) == k - 1 ensures d == c {
        assert d.row == (k - 1) / 4 && d.col == (k - 1) % 4;
      }
    }
  }

  /** The list is in row-major order. */
  lemma {:induction false} EmptyCellsOrdered(g: Grid, k: nat)
    requires IsGrid(g) && k <= Size * Size
    ensures forall i, j :: 0 <= i < j < |EmptyCells(g, k)| ==> Index(EmptyCells(g, k)[i]) < Index(EmptyCells(g, k)[j])
  {
    if k > 0 {
      EmptyCellsOrdered(g, k - 1);
      EmptyCellsSound(g, k - 1);
      var c := CellAt(k - 1);
      var e0 := EmptyCells(g, k - 1);
      var e := EmptyCells(g, k);
      assert e == e0 + (if g[c.row][c.col] == 0 then [c] else []);
      forall i, j | 0 <= i < j < |e| ensures Index(e[i]) < Index(e[j]) {
        if j < |e0| {
          assert e[i] == e0[i] && e[j] == e0[j];
          assert Index(e0[i]) < Index(e0[j]);
        } else {
          assert e[i] == e0[i];
          assert Index(e0[i]) < k - 1;
          assert e[j] == c;
        }
      }
    }
  }

  /** Every empty cell is on the list, and the list is in row-major order. */
  lemma EmptyCellsFacts(g: Grid, k: nat)
    requires IsGrid(g) && k <= Size * Size
    ensures var e := EmptyCells(g, k);
      && (forall c :: InGrid(c) && Index(c) < k && g[c.row][c.col] == 0 ==> c in e)
      && (forall i, j :: 0 <= i < j < |e| ==> Index(e[i]) < Index(e[j]))
  {
    EmptyCellsComplete(g, k);
    EmptyCellsOrdered(g, k);
  }

  /** The tile a spawn writes: 4 when the 10% draw comes up, otherwise 2. */
  function NewTile(four: bool): int {
    if four then 4 else 2
  }

  /**
   * Spawning: the cell at position `pick` (modulo their number) of the
   * row-major list of empty cells receives a 2 or a 4; a full board is left as
   * it is.
   */
  function Spawn(g: Grid, pick: nat, four: bool): Grid
    requires IsGrid(g)
  {
    var e := Empties(g);
    if |e| == 0 then g
    else
      var c := e[pick % |e|];
      g[c.row := g[c.row][c.col := NewTile(four)]]
  }

  /** `g'` is `g` with one empty cell turned into a 2 or a 4 and nothing else changed. */
  ghost predicate OneTileAdded(g: Grid, g': Grid)
    requires IsGrid(g) && IsGrid(g')
  {
    exists c :: InGrid(c) && g[c.row][c.col] == 0 && (g'[c.row][c.col] == 2 || g'[c.row][c.col] == 4) &&
      forall d :: InGrid(d) && d != c ==> g'[d.row][d.col] == g[d.row][d.col]
  }

  /** Distinct cells of the grid have distinct row-major positions. */
  lemma IndexInjective(c: Cell, d: Cell)
    requires InGrid(c) && InGrid(d)
    ensures Index(c) == Index(d) ==> c == d
  {
  }

  /** Setting an empty cell to a tile removes exactly it from the empty cells before k. */
  lemma {:induction false} EmptyCellsAfterSet(g: Grid, g': Grid, c: Cell, k: nat)
    requires IsGrid(g) && IsGrid(g') && InGrid(c) && k <= Size * Size
    requires g[c.row][c.col] == 0 && g'[c.row][c.col] != 0
    requires forall d :: InGrid(d) && d != c ==> g'[d.row][d.col] == g[d.row][d.col]
    ensures |EmptyCells(g', k)| == |EmptyCells(g, k)| - (if Index(c) < k then 1 else 0)
  {
    if k > 0 {
      EmptyCellsAfterSet(g, g', c, k - 1);
      var d := CellAt(k - 1);
      assert EmptyCells(g, k) == EmptyCells(g, k - 1) + (if g[d.row][d.col] == 0 then [d] else []);
      assert EmptyCells(g', k) == EmptyCells(g', k - 1) + (if g'[d.row][d.col] == 0 then [d] else []);
      if d == c {
        assert Index(c) == k - 1;
      } else {
        assert g'[d.row][d.col] == g[d.row][d.col];
        IndexInjective(c, d);
      }
    }
  }

  /**
   * A spawn on a board with an empty cell adds exactly one tile, 2 or 4, in a
   * cell that was empty and changes nothing else; on a full board it changes
   * nothing.
   */
  lemma SpawnFacts(g: Grid, pick: nat, four: bool)
    requires IsGrid(g)
    ensures IsGrid(Spawn(g, pick, four))
    ensures |Empties(g)| == 0 ==> Spawn(g, pick, four) == g
    ensures |Empties(g)| > 0 ==>
      OneTileAdded(g, Spawn(g, pick, four)) && |Empties(Spawn(g, pick, four))| == |Empties(g)| - 1
  {
    var e := Empties(g);
    if |e| > 0 {
      var c := e[pick % |e|];
      var g' := Spawn(g, pick, four);
      assert g'[c.row][c.col] == NewTile(four);
      assert forall d :: InGrid(d) && d != c ==> g'[d.row][d.col] == g[d.row][d.col];
      EmptyCellsAfterSet(g, g', c, Size * Size);
    }
  }

  /** No empty cell and no two equal neighbours, across or down. */
  predicate NoMoves(g: Grid)
    requires IsGrid(g)
  {
    && (forall i, j :: 0 <= i < Size && 0 <= j < Size ==> g[i][j] != 0)
    && (forall i, j :: 0 <= i < Size && 0 <= j < Size - 1 ==> g[i][j] != g[i][j + 1])
    && (forall i, j {:trigger g[i][j]} :: 0 <= i < Size - 1 && 0 <= j < Size ==> g[i][j] != g[i + 1][j])
  }

  /** A full board has no empty cell in the list, and the list is empty only when the board is full. */
  lemma EmptiesFull(g: Grid)
    requires IsGrid(g)
    ensures |Empties(g)| == 0 <==> forall i, j :: 0 <= i < Size && 0 <= j < Size ==> g[i][j] != 0
  {
    var e := Empties(g);
    if |e| == 0 {
      EmptyCellsFacts(g, Size * Size);
      forall i, j | 0 <= i < Size && 0 <= j < Size ensures g[i][j] != 0 {
        assert InGrid(Cell(i, j)) && Index(Cell(i, j)) < Size * Size;
      }
    } else {
      assert g[e[0].row][e[0].col] == 0;
    }
  }

  // ---------------------------------------------------------------------------
  // A move in one of four directions
  // ---------------------------------------------------------------------------

  datatype Direction = Up | Down | Left | Right

  function Column(g: Grid, j: int): (col: Line)
    requires IsGrid(g) && 0 <= j < Size
    ensures |col| == Size && forall i :: 0 <= i < Size ==> col[i] == g[i][j]
  {
    seq(Size, i requires 0 <= i < Size => g[i][j])
  }

  function Reverse(xs: Line): (r: Line)
    ensures |r| == |xs| && forall i :: 0 <= i < |xs| ==> r[i] == xs[|xs| - 1 - i]
  {
    seq(|xs|, i requires 0 <= i < |xs| => xs[|xs| - 1 - i])
  }

  lemma ReverseReverse(xs: Line)
    ensures Reverse(Reverse(xs)) == xs
  {
  }

  /**
   * The four lines a move slides, each read from the side the tiles move
   * towards: rows for left, reversed rows for right, columns from the top for
   * up, columns from the bottom for down.
   */
  function Lines(g: Grid, d: Direction): (ls: seq<Line>)
    requires IsGrid(g)
    ensures |ls| == Size && forall k :: 0 <= k < Size ==> |ls[k]| == Size && NonNeg(ls[k])
  {
    seq(Size, k requires 0 <= k < Size =>
      match d
      case Left => g[k]
      case Right => Reverse(g[k])
      case Up => Column(g, k)
      case Down => Reverse(Column(g, k)))
  }

  /** Every line is slid and written back where it was read from. */
  function Shifted(g: Grid, d: Direction): (g': Grid)
    requires IsGrid(g)
    ensures IsGrid(g')
  {
    var ls := Lines(g, d);
    assert forall k :: 0 <= k < Size ==> |Slide(ls[k])| == Size && NonNeg(Slide(ls[k])) by {
      forall k | 0 <= k < Size ensures |Slide(ls[k])| == Size && NonNeg(Slide(ls[k])) {
        SlideFacts(ls[k]);
      }
    }
    seq(Size, i requires 0 <= i < Size =>
      seq(Size, j requires 0 <= j < Size =>
        match d
        case Left => Slide(ls[i])[j]
        case Right => Slide(ls[i])[Size - 1 - j]
        case Up => Slide(ls[j])[i]
        case Down => Slide(ls[j])[Size - 1 - i]))
  }

  /** Points of the first n lines, in order. */
  function LinesGain(ls: seq<Line>, n: nat): int
    requires n <= |ls|
  {
    if n == 0 then 0 else LinesGain(ls, n - 1) + SlideGain(ls[n - 1])
  }

  /** The points a move scores: the merged tiles of all four lines. */
  function ShiftGain(g: Grid, d: Direction): int
    requires IsGrid(g)
  {
    LinesGain(Lines(g, d), Size)
  }

  /** Where a tile of line k at position t of a move lands on the board. */
  function Place(d: Direction, k: int, t: int): Cell {
    match d
    case Left => Cell(k, t)
    case Right => Cell(k, Size - 1 - t)
    case Up => Cell(t, k)
    case Down => Cell(Size - 1 - t, k)
  }

  /** Line k of a move, position t, is the board cell `Place(d, k, t)`, before and after the move. */
  lemma LinePlace(g: Grid, d: Direction, k: int, t: int)
    requires IsGrid(g) && 0 <= k < Size && 0 <= t < Size
    ensures InGrid(Place(d, k, t))
    ensures Lines(g, d)[k][t] == g[Place(d, k, t).row][Place(d, k, t).col]
    ensures Slide(Lines(g, d)[k])[t] == Shifted(g, d)[Place(d, k, t).row][Place(d, k, t).col]
  {
    var ls := Lines(g, d);
    var g' := Shifted(g, d);
    match d
    case Left =>
      assert ls[k] == g[k];
      assert g'[k][t] == Slide(ls[k])[t];
    case Right =>
      assert ls[k] == Reverse(g[k]);
      assert g'[k][Size - 1 - t] == Slide(ls[k])[t];
    case Up =>
      assert ls[k] == Column(g, k);
      assert g'[t][k] == Slide(ls[k])[t];
    case Down =>
      assert ls[k] == Reverse(Column(g, k));
      assert g'[Size - 1 - t][k] == Slide(ls[k])[t];
  }

  /** Every board cell is some position of some line. */
  lemma PlaceOnto(d: Direction, i: int, j: int) returns (k: int, t: int)
    requires 0 <= i < Size && 0 <= j < Size
    ensures 0 <= k < Size && 0 <= t < Size && Place(d, k, t) == Cell(i, j)
  {
    match d
    case Left => k, t := i, j;
    case Right => k, t := i, Size - 1 - j;
    case Up => k, t := j, i;
    case Down => k, t := j, Size - 1 - i;
  }

  lemma SomeDifference(g: Grid, g': Grid) returns (i: int, j: int)
    requires IsGrid(g) && IsGrid(g') && g != g'
    ensures 0 <= i < Size && 0 <= j < Size && g'[i][j] != g[i][j]
  {
    if forall i, j :: 0 <= i < Size && 0 <= j < Size ==> g'[i][j] == g[i][j] {
      assert forall i :: 0 <= i < Size ==> g'[i] == g[i];
      assert false;
    }
    i, j :| 0 <= i < Size && 0 <= j < Size && g'[i][j] != g[i][j];
  }

  /** A move changes the board exactly when it changes one of its lines. */
  lemma ShiftedUnchanged(g: Grid, d: Direction)
    requires IsGrid(g)
    ensures Shifted(g, d) == g <==> forall k :: 0 <= k < Size ==> Slide(Lines(g, d)[k]) == Lines(g, d)[k]
  {
    var ls := Lines(g, d);
    var g' := Shifted(g, d);
    if g' == g {
      forall k | 0 <= k < Size ensures Slide(ls[k]) == ls[k] {
        SlideFacts(ls[k]);
        forall t | 0 <= t < Size ensures Slide(ls[k])[t] == ls[k][t] {
          LinePlace(g, d, k, t);
        }
      }
    } else {
      var i, j := SomeDifference(g, g');
      var k, t := PlaceOnto(d, i, j);
      LinePlace(g, d, k, t);
      assert Slide(ls[k])[t] != ls[k][t];
    }
  }

  lemma {:induction false} LinesGainZero(ls: seq<Line>, n: nat)
    requires n <= |ls|
    requires forall k :: 0 <= k < n ==> SlideGain(ls[k]) == 0
    ensures LinesGain(ls, n) == 0
  {
    if n > 0 {
      LinesGainZero(ls, n - 1);
    }
  }

  /** A move that leaves the board as it is scores nothing. */
  lemma UnchangedScoresNothing(g: Grid, d: Direction)
    requires IsGrid(g) && Shifted(g, d) == g
    ensures ShiftGain(g, d) == 0
  {
    ShiftedUnchanged(g, d);
    var ls := Lines(g, d);
    forall k | 0 <= k < Size ensures SlideGain(ls[k]) == 0 {
      SlideUnchangedScoresNothing(ls[k]);
    }
    LinesGainZero(ls, Size);
  }

  /** Two boards with the same cells are the same board. */
  lemma SameGrid(g: Grid, h: Grid)
    requires IsGrid(g) && IsGrid(h)
    requires forall i, j :: 0 <= i < Size && 0 <= j < Size ==> g[i][j] == h[i][j]
    ensures g == h
  {
    forall i | 0 <= i < Size ensures g[i] == h[i] {
    }
  }

  /** Two cells side by side, across or down. */
  predicate Neighbours(c: Cell, c': Cell) {
    (c.row == c'.row && (c'.col == c.col + 1 || c.col == c'.col + 1)) ||
    (c.col == c'.col && (c'.row == c.row + 1 || c.row == c'.row + 1))
  }

  lemma NeighboursDiffer(g: Grid, c: Cell, c': Cell)
    requires IsGrid(g) && NoMoves(g) && InGrid(c) && InGrid(c') && Neighbours(c, c')
    ensures g[c.row][c.col] != g[c'.row][c'.col]
  {
    if c'.col == c.col + 1 || c'.row == c.row + 1 {
    } else {
      assert g[c'.row][c'.col] != g[c.row][c.col];
    }
  }

  /** On a board with no move left, every line is full and has no equal neighbours. */
  lemma LineNoMoves(g: Grid, d: Direction, k: int)
    requires IsGrid(g) && NoMoves(g) && 0 <= k < Size
    ensures forall t :: 0 <= t < Size ==> Lines(g, d)[k][t] != 0
    ensures forall t :: 0 <= t < Size - 1 ==> Lines(g, d)[k][t] != Lines(g, d)[k][t + 1]
  {
    forall t | 0 <= t < Size ensures Lines(g, d)[k][t] != 0 {
      LineTileFull(g, d, k, t);
    }
    forall t | 0 <= t < Size - 1 ensures Lines(g, d)[k][t] != Lines(g, d)[k][t + 1] {
      LineTilesDiffer(g, d, k, t);
    }
  }

  lemma LineTileFull(g: Grid, d: Direction, k: int, t: int)
    requires IsGrid(g) && NoMoves(g) && 0 <= k < Size && 0 <= t < Size
    ensures Lines(g, d)[k][t] != 0
  {
    LinePlace(g, d, k, t);
  }

  lemma LineTilesDiffer(g: Grid, d: Direction, k: int, t: int)
    requires IsGrid(g) && NoMoves(g) && 0 <= k < Size && 0 <= t < Size - 1
    ensures Lines(g, d)[k][t] != Lines(g, d)[k][t + 1]
  {
    LinePlace(g, d, k, t);
    LinePlace(g, d, k, t + 1);
    NeighboursDiffer(g, Place(d, k, t), Place(d, k, t + 1));
  }

  /** On a board with no move left, no line of any direction changes. */
  lemma LineStuck(g: Grid, d: Direction, k: int)
    requires IsGrid(g) && NoMoves(g) && 0 <= k < Size
    ensures Slide(Lines(g, d)[k]) == Lines(g, d)[k]
  {
    LineNoMoves(g, d, k);
    SlideStable(Lines(g, d)[k]);
  }

  /** On a board with no move left, no direction changes anything or scores. */
  lemma NoMovesIsStuck(g: Grid, d: Direction)
    requires IsGrid(g) && NoMoves(g)
    ensures Shifted(g, d) == g && ShiftGain(g, d) == 0
  {
    forall k | 0 <= k < Size ensures Slide(Lines(g, d)[k]) == Lines(g, d)[k] {
      LineStuck(g, d, k);
    }
    ShiftedUnchanged(g, d);
    UnchangedScoresNothing(g, d);
  }

  lemma {:induction false} NonZeroCountFull(xs: Line)
    requires NonZeroCount(xs) == |xs|
    ensures forall i :: 0 <= i < |xs| ==> xs[i] != 0
  {
    if |xs| > 0 {
      assert NonZeroCount(xs[1..]) <= |xs[1..]| by {
        CompactFacts(xs[1..]);
      }
      NonZeroCountFull(xs[1..]);
      assert forall i :: 1 <= i < |xs| ==> xs[i] == xs[1..][i - 1];
    }
  }

  /** A line that a slide changes ends in an empty cell afterwards. */
  lemma SlideChangedLeavesRoom(line: Line)
    requires |line| == Size && NonNeg(line) && Slide(line) != line
    ensures Slide(line)[Size - 1] == 0
  {
    var c := Compact(line);
    CompactFacts(line);
    MergeFacts(c);
    var m := Merge(c);
    PadFacts(m, Size);
    if |m| == Size {
      NonZeroCountFull(line);
      CompactStable(line);
      forall i | 0 <= i < |c| ensures c[i] > 0 {
      }
      MergeKeepsLength(c);
      assert false;
    }
  }

  /** After a move that changes the board there is an empty cell, so a tile always spawns. */
  lemma RealMoveLeavesRoom(g: Grid, d: Direction)
    requires IsGrid(g) && Shifted(g, d) != g
    ensures |Empties(Shifted(g, d))| > 0
  {
    ShiftedUnchanged(g, d);
    var k :| 0 <= k < Size && Slide(Lines(g, d)[k]) != Lines(g, d)[k];
    SlideChangedLeavesRoom(Lines(g, d)[k]);
    LinePlace(g, d, k, Size - 1);
    EmptyCellsFacts(Shifted(g, d), Size * Size);
    assert Place(d, k, Size - 1) in Empties(Shifted(g, d));
  }

  // ---------------------------------------------------------------------------
  // The slide-and-merge loop both pages run on one line
  // ---------------------------------------------------------------------------

  /** The merge walk at an equal pair: the doubled tile is done, the walk goes on after the pair. */
  lemma MergePair(xs: Line, i: int)
    requires 0 <= i < |xs| - 1 && xs[i] == xs[i + 1]
    ensures var ys := xs[..i] + [2 * xs[i]] + xs[i + 2..];
      && |ys| == |xs| - 1 && ys[i] == 2 * xs[i]
      && ys[..i + 1] + Merge(ys[i + 1..]) == xs[..i] + Merge(xs[i..])
      && ys[i] + MergeGain(ys[i + 1..]) == MergeGain(xs[i..])
  {
    var ys := xs[..i] + [2 * xs[i]] + xs[i + 2..];
    var rest := xs[i..];
    assert rest[0] == rest[1] && rest[2..] == xs[i + 2..];
    assert Merge(rest) == [2 * xs[i]] + Merge(xs[i + 2..]);
    assert MergeGain(rest) == 2 * xs[i] + MergeGain(xs[i + 2..]);
    assert ys[..i + 1] == xs[..i] + [2 * xs[i]];
    assert ys[i + 1..] == xs[i + 2..];
  }

  /** The merge walk at an unequal pair: the tile is done as it is. */
  lemma MergeSingle(xs: Line, i: int)
    requires 0 <= i < |xs| - 1 && xs[i] != xs[i + 1]
    ensures xs[..i + 1] + Merge(xs[i + 1..]) == xs[..i] + Merge(xs[i..])
    ensures MergeGain(xs[i + 1..]) == MergeGain(xs[i..])
  {
    var rest := xs[i..];
    assert rest[0] != rest[1] && rest[1..] == xs[i + 1..];
    assert Merge(rest) == [xs[i]] + Merge(xs[i + 1..]);
    assert xs[..i + 1] == xs[..i] + [xs[i]];
  }

  /**
   * Drop the empty cells, walk the tiles doubling the first of each equal pair
   * and deleting the second (the walk moves past the doubled tile, so it is
   * not merged again), then push zeros up to four tiles.  Returns the line and
   * the points scored.
   */
  method MoveAndMerge(line: Line) returns (numbers: Line, gain: int)
    ensures numbers == Slide(line) && gain == SlideGain(line)
  {
    numbers := Compact(line);
    numbers, gain := MergeWalk(numbers);
    numbers := PadLine(numbers);
  }

  /** The walk over adjacent pairs, doubling and deleting in place. */
  method MergeWalk(c: Line) returns (numbers: Line, gain: int)
    ensures numbers == Merge(c) && gain == MergeGain(c)
  {
    numbers := c;
    gain := 0;
    var i := 0;
    while i < |numbers| - 1
      invariant 0 <= i <= |numbers|
      invariant numbers[..i] + Merge(numbers[i..]) == Merge(c)
      invariant gain + MergeGain(numbers[i..]) == MergeGain(c)
      decreases |numbers| - i
    {
      if numbers[i] == numbers[i + 1] {
        MergePair(numbers, i);
        numbers := numbers[..i] + [2 * numbers[i]] + numbers[i + 2..];
        gain := gain + numbers[i];
      } else {
        MergeSingle(numbers, i);
      }
      i := i + 1;
    }
    assert numbers[..i] + Merge(numbers[i..]) == numbers;
  }

  /** `while (numbers.length < 4) numbers.push(0)`. */
  method PadLine(merged: Line) returns (numbers: Line)
    ensures numbers == Pad(merged, Size)
  {
    numbers := merged;
    while |numbers| < Size
      invariant |merged| <= |numbers| && numbers == merged + Zeros(|numbers| - |merged|)
      invariant |numbers| <= Size || numbers == merged
      decreases Size - |numbers|
    {
      numbers := numbers + [0];
      assert Zeros(|numbers| - |merged|) == Zeros(|numbers| - 1 - |merged|) + [0];
    }
  }

  // ---------------------------------------------------------------------------
  // Game state shared by both pages
  // ---------------------------------------------------------------------------

  /** A history entry: the board and score before a move. */
  datatype Snapshot = Snapshot(board: Grid, score: int)

  datatype GameState = GameState(board: Grid, score: int, history: seq<Snapshot>)

  function EmptyGrid(): (g: Grid)
    ensures IsGrid(g) && forall i, j :: 0 <= i < Size && 0 <= j < Size ==> g[i][j] == 0
  {
    seq(Size, _ => Zeros(Size))
  }

  lemma {:induction false} EmptyCellsOfEmptyGrid(k: nat)
    requires k <= Size * Size
    ensures |EmptyCells(EmptyGrid(), k)| == k
  {
    if k > 0 {
      EmptyCellsOfEmptyGrid(k - 1);
    }
  }

  /** Every cell is empty, a 2 or a 4: how a fresh board looks. */
  predicate SmallTiles(g: Grid)
    requires IsGrid(g)
  {
    forall i, j :: 0 <= i < Size && 0 <= j < Size ==> g[i][j] == 0 || g[i][j] == 2 || g[i][j] == 4
  }

  lemma OneTileKeepsSmall(g: Grid, g': Grid)
    requires IsGrid(g) && IsGrid(g') && SmallTiles(g) && OneTileAdded(g, g')
    ensures SmallTiles(g')
  {
    var c :| InGrid(c) && g[c.row][c.col] == 0 && (g'[c.row][c.col] == 2 || g'[c.row][c.col] == 4) &&
      forall d :: InGrid(d) && d != c ==> g'[d.row][d.col] == g[d.row][d.col];
    forall i, j | 0 <= i < Size && 0 <= j < Size ensures g'[i][j] == 0 || g'[i][j] == 2 || g'[i][j] == 4 {
      if Cell(i, j) != c {
        assert g'[i][j] == g[i][j];
      }
    }
  }

  /** Spawning into an empty board leaves exactly one tile, a 2 or a 4. */
  lemma OneSpawn(pick: nat, four: bool)
    ensures var g := Spawn(EmptyGrid(), pick, four);
      IsGrid(g) && SmallTiles(g) && |Empties(g)| == Size * Size - 1
  {
    var g0 := EmptyGrid();
    EmptyCellsOfEmptyGrid(Size * Size);
    SpawnFacts(g0, pick, four);
    OneTileKeepsSmall(g0, Spawn(g0, pick, four));
  }

  /** Spawning into an empty board once and then again leaves exactly two tiles, each 2 or 4. */
  lemma TwoSpawns(p1: nat, f1: bool, p2: nat, f2: bool)
    ensures var g := Spawn(Spawn(EmptyGrid(), p1, f1), p2, f2);
      IsGrid(g) && SmallTiles(g) && |Empties(g)| == Size * Size - 2
  {
    OneSpawn(p1, f1);
    var g1 := Spawn(EmptyGrid(), p1, f1);
    SpawnFacts(g1, p2, f2);
    OneTileKeepsSmall(g1, Spawn(g1, p2, f2));
  }

  // ---------------------------------------------------------------------------
  // One turn of play
  // ---------------------------------------------------------------------------

  /**
   * A key press in direction d: when the move changes nothing the state is
   * kept as it is; otherwise the moved board receives a new tile, the score
   * the merged points, and the history the board and score from before.
   */
  function Play(st: GameState, d: Direction, pick: nat, four: bool): GameState
    requires IsGrid(st.board)
  {
    var b := Shifted(st.board, d);
    if b == st.board then st
    else GameState(Spawn(b, pick, four), st.score + ShiftGain(st.board, d), st.history + [Snapshot(st.board, st.score)])
  }

  /** The two cases of `Play`, spelt out. */
  lemma PlayCases(st: GameState, d: Direction, pick: nat, four: bool, b: Grid)
    requires IsGrid(st.board) && b == Shifted(st.board, d)
    ensures b == st.board ==> Play(st, d, pick, four) == st
    ensures b != st.board ==>
      Play(st, d, pick, four) ==
      GameState(Spawn(b, pick, four), st.score + ShiftGain(st.board, d), st.history + [Snapshot(st.board, st.score)])
  {
  }

  lemma {:induction false} LinesGainNonNeg(ls: seq<Line>, n: nat)
    requires n <= |ls| && forall k :: 0 <= k < |ls| ==> |ls[k]| == Size && NonNeg(ls[k])
    ensures LinesGain(ls, n) >= 0
  {
    if n > 0 {
      LinesGainNonNeg(ls, n - 1);
      SlideFacts(ls[n - 1]);
    }
  }

  /**
   * A turn that moves nothing leaves the whole state alone, and so does every
   * turn on a board with no move left.  A turn that moves adds exactly one new
   * tile to the moved board, never lowers the score, and appends exactly one
   * history entry: the board and score from before the turn.
   */
  lemma PlayFacts(st: GameState, d: Direction, pick: nat, four: bool)
    requires IsGrid(st.board)
    ensures IsGrid(Play(st, d, pick, four).board)
    ensures Shifted(st.board, d) == st.board ==> Play(st, d, pick, four) == st
    ensures NoMoves(st.board) ==> Play(st, d, pick, four) == st
    ensures Shifted(st.board, d) != st.board ==>
      var st' := Play(st, d, pick, four);
      && OneTileAdded(Shifted(st.board, d), st'.board)
      && st'.score == st.score + ShiftGain(st.board, d) >= st.score
      && st'.history == st.history + [Snapshot(st.board, st.score)]
  {
    SpawnFacts(Shifted(st.board, d), pick, four);
    LinesGainNonNeg(Lines(st.board, d), Size);
    if NoMoves(st.board) {
      NoMovesIsStuck(st.board, d);
    }
    if Shifted(st.board, d) != st.board {
      RealMoveLeavesRoom(st.board, d);
    }
  }
}
