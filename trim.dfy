/**
 * Trimming the chosen grid (lib/generator.ts lines 197-219): find the
 * bounding box of the letters, then move every word so that the box's
 * top-left corner becomes the origin.
 */
module Trim {
  import opened Types
  import opened Board
  import opened Placement

  /**
   * The scan of lines 198-208. On a blank grid the four bounds keep their
   * start values (`size`, -1, `size`, -1). Otherwise they are the exact
   * bounding box of the letters: every letter lies inside, and the first
   * and last rows and columns of the box each hold a letter.
   */
  method BoundingBox(g: array2<Cell>) returns (minR: int, maxR: int, minC: int, maxC: int)
    requires g.Length0 == g.Length1
    ensures Blank(Cells(g)) <==> maxR == -1
    ensures maxR == -1 ==> minR == g.Length0 && minC == g.Length0 && maxC == -1
    ensures maxR != -1 ==> 0 <= minR <= maxR < g.Length0 && 0 <= minC <= maxC < g.Length0
    ensures maxR != -1 ==>
      RowFilled(Cells(g), minR) && RowFilled(Cells(g), maxR) && ColFilled(Cells(g), minC) && ColFilled(Cells(g), maxC)
    ensures forall r, c :: InRange(Cells(g), r, c) && Cells(g)[r][c].Letter? ==>
      minR <= r <= maxR && minC <= c <= maxC
  {
    var size := g.Length0;
    minR, maxR, minC, maxC := size, -1, size, -1;
    // a column holding a letter in row minR (maxR), a row holding one in column minC (maxC)
    ghost var atMinR, atMaxR, atMinC, atMaxC := 0, 0, 0, 0;
    for r := 0 to size
      invariant maxR == -1 ==> minR == size && minC == size && maxC == -1
      invariant maxR == -1 ==> forall r', c' :: 0 <= r' < r && 0 <= c' < size ==> g[r', c'] == Empty
      invariant maxR != -1 ==> 0 <= minR <= maxR < r && 0 <= minC <= maxC < size
      invariant maxR != -1 ==> 0 <= atMinR < size && 0 <= atMaxR < size && 0 <= atMinC < size && 0 <= atMaxC < size
      invariant maxR != -1 ==>
        g[minR, atMinR] != Empty && g[maxR, atMaxR] != Empty && g[atMinC, minC] != Empty && g[atMaxC, maxC] != Empty
      invariant forall r', c' :: 0 <= r' < r && 0 <= c' < size && g[r', c'] != Empty ==>
        minR <= r' <= maxR && minC <= c' <= maxC
    {
      for c := 0 to size
        invariant maxR == -1 ==> minR == size && minC == size && maxC == -1
        invariant maxR == -1 ==> forall r', c' :: 0 <= r' < size && 0 <= c' < size && ReadingBefore(r', c', r, c) ==>
          g[r', c'] == Empty
        invariant maxR != -1 ==> 0 <= minR <= maxR <= r && 0 <= minC <= maxC < size
        invariant maxR != -1 ==> 0 <= atMinR < size && 0 <= atMaxR < size && 0 <= atMinC < size && 0 <= atMaxC < size
        invariant maxR != -1 ==>
          g[minR, atMinR] != Empty && g[maxR, atMaxR] != Empty && g[atMinC, minC] != Empty && g[atMaxC, maxC] != Empty
        invariant forall r', c' :: 0 <= r' < size && 0 <= c' < size && ReadingBefore(r', c', r, c) && g[r', c'] != Empty ==>
          minR <= r' <= maxR && minC <= c' <= maxC
      {
        if g[r, c] != Empty {
          if r < minR { minR, atMinR := r, c; }
          if r > maxR { maxR, atMaxR := r, c; }
          if c < minC { minC, atMinC := c, r; }
          if c > maxC { maxC, atMaxC := c, r; }
        }
      }
    }
    ghost var b := Cells(g);
    forall r, c | InRange(b, r, c) && b[r][c].Letter?
      ensures minR <= r <= maxR && minC <= c <= maxC
    {
      assert g[r, c] != Empty;
    }
    if maxR == -1 {
      forall r, c | InRange(b, r, c) ensures b[r][c] == Empty {
        assert g[r, c] == Empty;
      }
    } else {
      assert InRange(b, minR, atMinR) && b[minR][atMinR].Letter?;
      assert InRange(b, maxR, atMaxR) && b[maxR][atMaxR].Letter?;
      assert InRange(b, atMinC, minC) && b[atMinC][minC].Letter?;
      assert InRange(b, atMaxC, maxC) && b[atMaxC][maxC].Letter?;
    }
  }

  /** Lines 215-219: a word moved so that `(minR, minC)` becomes the origin. */
  function Shift(w: WordPosition, minR: int, minC: int): (w': WordPosition)
    ensures w'.word == w.word && w'.direction == w.direction && w'.clue == w.clue && w'.number == w.number
    ensures w'.row + minR == w.row && w'.col + minC == w.col
  {
    w.(row := w.row - minR, col := w.col - minC)
  }

  function ShiftAll(ws: seq<WordPosition>, minR: int, minC: int): (r: seq<WordPosition>)
    ensures |r| == |ws|
    ensures forall i :: 0 <= i < |ws| ==> r[i] == Shift(ws[i], minR, minC)
  {
    seq(|ws|, i requires 0 <= i < |ws| => Shift(ws[i], minR, minC))
  }

  /** The `rows` by `cols` window of `b` whose top-left corner is `(minR, minC)`. */
  function Crop(b: Board, minR: int, minC: int, rows: nat, cols: nat): (b': Board)
    ensures |b'| == rows && forall r :: 0 <= r < rows ==> |b'[r]| == cols
    ensures forall r, c :: 0 <= r < rows && 0 <= c < cols ==> b'[r][c] == Get(b, minR + r, minC + c)
  {
    seq(rows, r requires 0 <= r < rows => seq(cols, c requires 0 <= c < cols => Get(b, minR + r, minC + c)))
  }

  /**
   * A word whose letters all lie in the window still reads correctly on the
   * cropped grid once it is shifted by the window's corner.
   */
  lemma {:induction false} ShiftKeepsReading(b: Board, w: WordPosition, minR: int, minC: int, rows: nat, cols: nat)
    requires Reads(b, w)
    requires forall i :: 0 <= i < |w.word| ==>
      minR <= RowAt(w.row, w.direction, i) < minR + rows && minC <= ColAt(w.col, w.direction, i) < minC + cols
    ensures Reads(Crop(b, minR, minC, rows, cols), Shift(w, minR, minC))
  {
    var b', w' := Crop(b, minR, minC, rows, cols), Shift(w, minR, minC);
    forall i | 0 <= i < |w'.word|
      ensures Get(b', RowAt(w'.row, w'.direction, i), ColAt(w'.col, w'.direction, i)) == Letter(w'.word[i])
    {
      var r, c := RowAt(w.row, w.direction, i), ColAt(w.col, w.direction, i);
      assert RowAt(w'.row, w'.direction, i) == r - minR && ColAt(w'.col, w'.direction, i) == c - minC;
      assert Get(b, r, c) == Letter(w.word[i]);
    }
  }
}
