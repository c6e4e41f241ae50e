/**
 * The in-place working grid: `createEmptyGrid`, `canPlaceWord` and
 * `placeWordOnGrid` of lib/generator.ts, over a square `array2` of cells.
 * Each is proved against the value-level definitions of module Board.
 */
module Placement {
  import opened Types
  import opened Board

  /** A two-dimensional array's current contents as rows of values. */
  function Cells<T>(g: array2<T>): (b: seq<seq<T>>)
    reads g
    ensures |b| == g.Length0
    ensures forall r :: 0 <= r < g.Length0 ==> |b[r]| == g.Length1
    ensures forall r, c :: 0 <= r < g.Length0 && 0 <= c < g.Length1 ==> b[r][c] == g[r, c]
  {
    seq(g.Length0, r requires 0 <= r < g.Length0 reads g =>
      seq(g.Length1, c requires 0 <= c < g.Length1 reads g => g[r, c]))
  }

  /** A fresh `size` by `size` grid of empty cells. */
  method CreateEmptyGrid(size: nat) returns (g: array2<Cell>)
    ensures fresh(g)
    ensures g.Length0 == size && g.Length1 == size
    ensures Cells(g) == EmptyBoard(size)
  {
    g := new Cell[size, size]((r, c) => Empty);
    BoardExt(Cells(g), EmptyBoard(size));
  }

  /**
   * The source's `canPlaceWord`. It rejects negative coordinates, then runs
   * the across or the down checks. It indexes row `row` (across) or column
   * `col` (down) without checking it is below the size, so callers must
   * keep it in the grid.
   */
  method CanPlaceWord(g: array2<Cell>, word: string, row: int, col: int, dir: Direction) returns (ok: bool)
    requires g.Length0 == g.Length1
    requires InLane(g.Length0, row, col, dir)
    ensures ok == Placeable(Cells(g), word, row, col, dir)
    ensures row < 0 || col < 0 ==> !ok
  {
    if row < 0 || col < 0 {
      return false;
    }
    if dir == Across {
      ok := CanPlaceAcross(g, word, row, col);
    } else {
      ok := CanPlaceDown(g, word, row, col);
    }
  }

  /** The across branch of `canPlaceWord`, with its early returns. */
  method CanPlaceAcross(g: array2<Cell>, word: string, row: int, col: int) returns (ok: bool)
    requires g.Length0 == g.Length1
    requires 0 <= row < g.Length0 && 0 <= col
    ensures ok == Placeable(Cells(g), word, row, col, Across)
    ensures col + |word| > g.Length0 ==> !ok
  {
    var size := g.Length0;
    ghost var b := Cells(g);
    if col + |word| > size {
      return false;
    }
    if col > 0 && g[row, col - 1] != Empty {
      assert Get(b, row, col - 1) != Empty;
      return false;
    }
    if col + |word| < size && g[row, col + |word|] != Empty {
      assert Get(b, row, col + |word|) != Empty;
      return false;
    }
    var i := 0;
    while i < |word|
      invariant 0 <= i <= |word|
      invariant forall j :: 0 <= j < i ==> LetterFits(b, word[j], row, col + j, Down)
    {
      var cell := g[row, col + i];
      if cell != Empty && cell != Letter(word[i]) {
        assert !LetterFits(b, word[i], row, col + i, Down);
        return false;
      }
      if cell == Empty {
        if row > 0 && g[row - 1, col + i] != Empty {
          assert !LetterFits(b, word[i], row, col + i, Down);
          return false;
        }
        if row < size - 1 && g[row + 1, col + i] != Empty {
          assert !LetterFits(b, word[i], row, col + i, Down);
          return false;
        }
      }
      i := i + 1;
    }
    return true;
  }

  /** The down branch of `canPlaceWord`, with its early returns. */
  method CanPlaceDown(g: array2<Cell>, word: string, row: int, col: int) returns (ok: bool)
    requires g.Length0 == g.Length1
    requires 0 <= row && 0 <= col < g.Length0
    ensures ok == Placeable(Cells(g), word, row, col, Down)
    ensures row + |word| > g.Length0 ==> !ok
  {
    var size := g.Length0;
    ghost var b := Cells(g);
    if row + |word| > size {
      return false;
    }
    if row > 0 && g[row - 1, col] != Empty {
      assert Get(b, row - 1, col) != Empty;
      return false;
    }
    if row + |word| < size && g[row + |word|, col] != Empty {
      assert Get(b, row + |word|, col) != Empty;
      return false;
    }
    var i := 0;
    while i < |word|
      invariant 0 <= i <= |word|
      invariant forall j :: 0 <= j < i ==> LetterFits(b, word[j], row + j, col, Across)
    {
      var cell := g[row + i, col];
      if cell != Empty && cell != Letter(word[i]) {
        assert !LetterFits(b, word[i], row + i, col, Across);
        return false;
      }
      if cell == Empty {
        if col > 0 && g[row + i, col - 1] != Empty {
          assert !LetterFits(b, word[i], row + i, col, Across);
          return false;
        }
        if col < size - 1 && g[row + i, col + 1] != Empty {
          assert !LetterFits(b, word[i], row + i, col, Across);
          return false;
        }
      }
      i := i + 1;
    }
    return true;
  }

  /**
   * The corrected placement check: the source's check, then a scan along
   * the word that refuses it as soon as two consecutive letters would land
   * on cells that already hold letters.
   */
  method CanCrossWord(g: array2<Cell>, word: string, row: int, col: int, dir: Direction) returns (ok: bool)
    requires g.Length0 == g.Length1
    requires InLane(g.Length0, row, col, dir)
    ensures ok == Crossable(Cells(g), word, row, col, dir)
  {
    ok := CanPlaceWord(g, word, row, col, dir);
    if ok {
      ok := OnlyCrossesScan(g, word, row, col, dir);
    }
  }

  /** The check an attempt's rule names: the source's `canPlaceWord` as written, or CanCrossWord. */
  method CheckPlacement(rule: Rule, g: array2<Cell>, word: string, row: int, col: int, dir: Direction) returns (ok: bool)
    requires g.Length0 == g.Length1
    requires InLane(g.Length0, row, col, dir)
    ensures ok == Allows(rule, Cells(g), word, row, col, dir)
  {
    if rule == AsWritten {
      ok := CanPlaceWord(g, word, row, col, dir);
    } else {
      ok := CanCrossWord(g, word, row, col, dir);
    }
  }

  /** The scan of CanCrossWord, over a word that lies inside the grid. */
  method OnlyCrossesScan(g: array2<Cell>, word: string, row: int, col: int, dir: Direction) returns (ok: bool)
    requires g.Length0 == g.Length1
    requires InGrid(g.Length0, |word|, row, col, dir)
    ensures ok == OnlyCrosses(Cells(g), word, row, col, dir)
  {
    ghost var b := Cells(g);
    ok := true;
    var prevFilled := false;
    var i := 0;
    while i < |word| && ok
      invariant 0 <= i <= |word|
      invariant ok == forall k :: 0 < k < i ==>
        !(Get(b, RowAt(row, dir, k - 1), ColAt(col, dir, k - 1)).Letter? && Get(b, RowAt(row, dir, k), ColAt(col, dir, k)).Letter?)
      invariant prevFilled == (0 < i && Get(b, RowAt(row, dir, i - 1), ColAt(col, dir, i - 1)).Letter?)
    {
      var filled := if dir == Across then g[row, col + i] != Empty else g[row + i, col] != Empty;
      assert filled == Get(b, RowAt(row, dir, i), ColAt(col, dir, i)).Letter?;
      if prevFilled && filled {
        ok := false;
      }
      prevFilled := filled;
      i := i + 1;
    }
  }

  /** The source's `placeWordOnGrid`: writes the word's letters into the grid in place. */
  method PlaceWordOnGrid(g: array2<Cell>, word: string, row: int, col: int, dir: Direction)
    requires g.Length0 == g.Length1
    requires InGrid(g.Length0, |word|, row, col, dir)
    modifies g
    ensures Cells(g) == Write(old(Cells(g)), word, row, col, dir)
  {
    ghost var b := Cells(g);
    ghost var b' := Write(b, word, row, col, dir);
    var i := 0;
    while i < |word|
      invariant 0 <= i <= |word|
      invariant forall r, c :: 0 <= r < g.Length0 && 0 <= c < g.Length1 ==>
        g[r, c] == if OnPath(i, row, col, dir, r, c) then b'[r][c] else b[r][c]
    {
      if dir == Across {
        g[row, col + i] := Letter(word[i]);
      } else {
        g[row + i, col] := Letter(word[i]);
      }
      i := i + 1;
    }
    forall r, c | 0 <= r < g.Length0 && 0 <= c < g.Length1 ensures Cells(g)[r][c] == b'[r][c] {
      if !OnPath(|word|, row, col, dir, r, c) {
        assert Get(b', r, c) == Get(b, r, c);
      }
    }
    BoardExt(Cells(g), b');
  }
}
