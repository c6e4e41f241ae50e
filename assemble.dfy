/**
 * Building the finished `CellData` grid (lib/generator.ts lines 239-271):
 * every cell starts black and empty, the letters of the trimmed window are
 * copied in, then each word's number is added to its start cell.
 */
module Assemble {
  import opened Types
  import opened Board

  /** The default cell of lines 241-250. */
  function BlackCell(r: int, c: int): CellData
  {
    CellData(r, c, "", "", true, [], false, false, None)
  }

  /**
   * `d` is what the finished grid shows at `(r, c)` for working cell `x`:
   * its own coordinates, no player input, not highlighted, non-black
   * exactly when `x` holds a letter, and that letter as its value.
   */
  predicate Shows(d: CellData, r: int, c: int, x: Cell)
  {
    && d.row == r && d.col == c
    && d.input == "" && !d.active && !d.isPartOfActiveWord && d.isHint == None
    && (d.isBlack <==> x == Empty)
    && d.value == (if x.Letter? then [x.ch] else "")
  }

  predicate NoDuplicates(s: seq<int>)
  {
    forall i, j :: 0 <= i < j < |s| ==> s[i] != s[j]
  }

  /** Some word in `ws` starts at `(r, c)` and carries number `n`. */
  ghost predicate Labels(ws: seq<WordPosition>, r: int, c: int, n: int)
  {
    exists k :: 0 <= k < |ws| && ws[k].row == r && ws[k].col == c && ws[k].number == n
  }

  lemma LabelsAppend(ws: seq<WordPosition>, w: WordPosition, r: int, c: int, n: int)
    ensures Labels(ws + [w], r, c, n) <==> Labels(ws, r, c, n) || (w.row == r && w.col == c && w.number == n)
  {
    if Labels(ws, r, c, n) {
      var k :| 0 <= k < |ws| && ws[k].row == r && ws[k].col == c && ws[k].number == n;
      assert (ws + [w])[k] == ws[k];
    }
    if w.row == r && w.col == c && w.number == n {
      assert (ws + [w])[|ws|] == w;
    }
  }

  /**
   * Lines 240-262: a `rows` by `cols` grid of cells showing the working
   * grid's window whose top-left corner is `(minR, minC)`; no cell has a
   * clue number yet.
   */
  method BuildCells(g: array2<Cell>, minR: int, minC: int, rows: nat, cols: nat) returns (cells: array2<CellData>)
    requires 0 <= minR && minR + rows <= g.Length0 && 0 <= minC && minC + cols <= g.Length1
    ensures fresh(cells) && cells.Length0 == rows && cells.Length1 == cols
    ensures forall r, c :: 0 <= r < rows && 0 <= c < cols ==>
      Shows(cells[r, c], r, c, g[minR + r, minC + c]) && cells[r, c].clueNumbers == []
  {
    cells := new CellData[rows, cols]((r, c) => BlackCell(r, c));
    for r := 0 to rows
      invariant forall r', c' :: 0 <= r' < r && 0 <= c' < cols ==>
        Shows(cells[r', c'], r', c', g[minR + r', minC + c']) && cells[r', c'].clueNumbers == []
      invariant forall r', c' :: r <= r' < rows && 0 <= c' < cols ==> cells[r', c'] == BlackCell(r', c')
    {
      for c := 0 to cols
        invariant forall r', c' :: 0 <= r' < rows && 0 <= c' < cols && ReadingBefore(r', c', r, c) ==>
          Shows(cells[r', c'], r', c', g[minR + r', minC + c']) && cells[r', c'].clueNumbers == []
        invariant forall r', c' :: 0 <= r' < rows && 0 <= c' < cols && !ReadingBefore(r', c', r, c) ==>
          cells[r', c'] == BlackCell(r', c')
      {
        var x := g[minR + r, minC + c];
        if x != Empty {
          cells[r, c] := cells[r, c].(value := [x.ch], isBlack := false);
        }
      }
    }
  }

  /**
   * Lines 265-271: each word's number is appended to its start cell's
   * `clueNumbers` unless already there; a word whose start column is off
   * the grid is skipped, as the source's truthiness test does. Only the
   * clue lists change, each only by growing at its end; a list without
   * duplicates stays so; and afterwards a number is in a cell's list
   * exactly when it was before or some word starting there carries it.
   */
  method AddClueNumbers(cells: array2<CellData>, words: seq<WordPosition>)
    modifies cells
    requires forall k :: 0 <= k < |words| ==> 0 <= words[k].row < cells.Length0
    ensures forall r, c :: 0 <= r < cells.Length0 && 0 <= c < cells.Length1 ==>
      cells[r, c] == old(cells[r, c]).(clueNumbers := cells[r, c].clueNumbers)
    ensures forall r, c :: 0 <= r < cells.Length0 && 0 <= c < cells.Length1 ==>
      old(cells[r, c].clueNumbers) <= cells[r, c].clueNumbers
    ensures forall r, c :: 0 <= r < cells.Length0 && 0 <= c < cells.Length1 && NoDuplicates(old(cells[r, c].clueNumbers)) ==>
      NoDuplicates(cells[r, c].clueNumbers)
    ensures forall r, c, n :: 0 <= r < cells.Length0 && 0 <= c < cells.Length1 ==>
      (n in cells[r, c].clueNumbers <==> n in old(cells[r, c].clueNumbers) || Labels(words, r, c, n))
  {
    for k := 0 to |words|
      invariant forall r, c :: 0 <= r < cells.Length0 && 0 <= c < cells.Length1 ==>
        cells[r, c] == old(cells[r, c]).(clueNumbers := cells[r, c].clueNumbers)
      invariant forall r, c :: 0 <= r < cells.Length0 && 0 <= c < cells.Length1 ==>
        old(cells[r, c].clueNumbers) <= cells[r, c].clueNumbers
      invariant forall r, c :: 0 <= r < cells.Length0 && 0 <= c < cells.Length1 && NoDuplicates(old(cells[r, c].clueNumbers)) ==>
        NoDuplicates(cells[r, c].clueNumbers)
      invariant forall r, c, n :: 0 <= r < cells.Length0 && 0 <= c < cells.Length1 ==>
        (n in cells[r, c].clueNumbers <==> n in old(cells[r, c].clueNumbers) || Labels(words[..k], r, c, n))
    {
      var w := words[k];
      assert words[..k + 1] == words[..k] + [w];
      forall r, c, n { LabelsAppend(words[..k], w, r, c, n); }
      if 0 <= w.col < cells.Length1 {
        var d := cells[w.row, w.col];
        if w.number !in d.clueNumbers {
          cells[w.row, w.col] := d.(clueNumbers := d.clueNumbers + [w.number]);
        }
      }
    }
    assert words[..|words|] == words;
  }
}
