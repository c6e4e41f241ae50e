/**
 * What a finished puzzle satisfies, and the value-level lemmas that carry
 * the attempt invariant through trimming, sorting, numbering and cell
 * assembly (lib/generator.ts lines 197-276).
 */
module Output {
  import opened Types
  import opened Board
  import opened Attempt
  import opened Trim
  import opened Numbering
  import opened Assemble

  predicate InCells(grid: Grid, r: int, c: int)
  {
    0 <= r < |grid.cells| && 0 <= c < |grid.cells[r]|
  }

  /** Every cell of word `w` is on the grid, not black, and shows the word's letter. */
  predicate Spells(grid: Grid, w: WordPosition)
  {
    forall i :: 0 <= i < |w.word| ==>
      var r, c := RowAt(w.row, w.direction, i), ColAt(w.col, w.direction, i);
      InCells(grid, r, c) && !grid.cells[r][c].isBlack && grid.cells[r][c].value == [w.word[i]]
  }

  /**
   * The grid has `rows` by `cols` cells, at most `size` each way; every
   * cell knows its own coordinates, holds no input and no highlight, and is
   * black exactly when it shows no letter.
   */
  ghost predicate WellShaped(grid: Grid, size: nat)
  {
    && 1 <= grid.rows <= size && 1 <= grid.cols <= size
    && |grid.cells| == grid.rows
    && (forall r :: 0 <= r < grid.rows ==> |grid.cells[r]| == grid.cols)
    && (forall r, c :: InCells(grid, r, c) ==>
          && grid.cells[r][c].row == r && grid.cells[r][c].col == c
          && grid.cells[r][c].input == "" && !grid.cells[r][c].active
          && !grid.cells[r][c].isPartOfActiveWord && grid.cells[r][c].isHint == None
          && (grid.cells[r][c].isBlack <==> grid.cells[r][c].value == "")
          && |grid.cells[r][c].value| <= 1)
  }

  /** If `(r, c)` is a non-black cell, it belongs to some word. */
  ghost predicate CellCovered(p: Puzzle, r: int, c: int)
  {
    InCells(p.grid, r, c) && !p.grid.cells[r][c].isBlack ==>
      exists k :: 0 <= k < |p.words| && OnWord(p.words[k], r, c)
  }

  /** Every non-black cell belongs to some word. */
  ghost predicate LettersCovered(p: Puzzle)
  {
    forall r, c :: CellCovered(p, r, c)
  }

  /** If `(r, c)` and the next cell along `dir` are both white, one word along `dir` holds both. */
  ghost predicate ShownJoined(p: Puzzle, r: int, c: int, dir: Direction)
  {
    InCells(p.grid, r, c) && InCells(p.grid, RowAt(r, dir, 1), ColAt(c, dir, 1)) &&
    !p.grid.cells[r][c].isBlack && !p.grid.cells[RowAt(r, dir, 1)][ColAt(c, dir, 1)].isBlack ==>
      Joined(p.words, r, c, dir)
  }

  /** No stray fragments: every run of white cells along a line belongs to one word. */
  ghost predicate NoStrayFragments(p: Puzzle)
  {
    forall r, c, dir :: ShownJoined(p, r, c, dir)
  }

  /** `(r, c)` is off the grid or black: a word running into it ends there. */
  predicate Closed(grid: Grid, r: int, c: int)
  {
    !InCells(grid, r, c) || grid.cells[r][c].isBlack
  }

  /** Every word of two or more letters has a black cell or the grid's edge just before and just after it. */
  ghost predicate CapsClosed(p: Puzzle)
  {
    forall k :: 0 <= k < |p.words| && |p.words[k].word| >= 2 ==>
      && Closed(p.grid, RowAt(p.words[k].row, p.words[k].direction, -1), ColAt(p.words[k].col, p.words[k].direction, -1))
      && Closed(p.grid, RowAt(p.words[k].row, p.words[k].direction, |p.words[k].word|),
                ColAt(p.words[k].col, p.words[k].direction, |p.words[k].word|))
  }

  /** Both ends of `w` are off the grid or black. */
  predicate EndsClosed(grid: Grid, w: WordPosition)
  {
    && Closed(grid, RowAt(w.row, w.direction, -1), ColAt(w.col, w.direction, -1))
    && Closed(grid, RowAt(w.row, w.direction, |w.word|), ColAt(w.col, w.direction, |w.word|))
  }

  /**
   * Every word of two or more letters lies within a word (itself, or one
   * laid over it along the same line) whose ends are closed.
   */
  ghost predicate Framed(p: Puzzle)
  {
    forall k :: 0 <= k < |p.words| ==> FramedAt(p, k)
  }

  ghost predicate FramedAt(p: Puzzle, k: int)
    requires 0 <= k < |p.words|
  {
    |p.words[k].word| >= 2 ==>
      exists u :: 0 <= u < |p.words| && Inside(p.words[k], p.words[u]) && EndsClosed(p.grid, p.words[u])
  }

  /** The `len` cells from `(r, c)` along `dir` are white and the cells just before and after them are not: a maximal run. */
  ghost predicate WhiteRun(grid: Grid, r: int, c: int, dir: Direction, len: int)
  {
    && Closed(grid, RowAt(r, dir, -1), ColAt(c, dir, -1))
    && Closed(grid, RowAt(r, dir, len), ColAt(c, dir, len))
    && forall i :: 0 <= i < len ==> !Closed(grid, RowAt(r, dir, i), ColAt(c, dir, i))
  }

  /** Some word starts at `(r, c)`, runs along `dir` and has `len` letters. */
  ghost predicate HasWord(p: Puzzle, r: int, c: int, dir: Direction, len: int)
  {
    exists k :: 0 <= k < |p.words| && p.words[k].row == r && p.words[k].col == c &&
      p.words[k].direction == dir && |p.words[k].word| == len
  }

  /** Every maximal run of two or more white cells along a row or a column is exactly one word running that way. */
  ghost predicate RunsAreWords(p: Puzzle)
  {
    forall r, c, dir, len :: len >= 2 && WhiteRun(p.grid, r, c, dir, len) ==> HasWord(p, r, c, dir, len)
  }

  ghost predicate RowShown(grid: Grid, r: int)
    requires 0 <= r < |grid.cells|
  {
    exists c :: 0 <= c < |grid.cells[r]| && !grid.cells[r][c].isBlack
  }

  ghost predicate ColShown(grid: Grid, c: int)
  {
    exists r :: 0 <= r < |grid.cells| && 0 <= c < |grid.cells[r]| && !grid.cells[r][c].isBlack
  }

  /** Trimming left no row and no column that is black from end to end. */
  ghost predicate NoBlankLines(grid: Grid)
  {
    && (forall r :: 0 <= r < |grid.cells| ==> RowShown(grid, r))
    && (forall c :: 0 <= c < grid.cols ==> ColShown(grid, c))
  }

  /**
   * Each cell's clue list has no repeats and holds exactly the numbers of
   * the words starting there.
   */
  ghost predicate ClueNumbersOk(p: Puzzle)
  {
    forall r, c :: InCells(p.grid, r, c) ==>
      NoDuplicates(p.grid.cells[r][c].clueNumbers) &&
      forall n :: n in p.grid.cells[r][c].clueNumbers <==> Labels(p.words, r, c, n)
  }

  /**
   * The words: between one and `target + 5` of them, no word twice, each
   * from the corpus, each spelled on the grid, and together covering every
   * letter on it.
   */
  ghost predicate WordsOk(p: Puzzle, dict: seq<DictionaryEntry>, target: nat)
  {
    && 1 <= |p.words| <= target + 5
    && DistinctWords(p.words)
    && (forall k :: 0 <= k < |p.words| ==> FromCorpus(dict, p.words[k]))
    && (forall k :: 0 <= k < |p.words| ==> Spells(p.grid, p.words[k]))
    && LettersCovered(p)
  }

  /** The word list is in reading order of start cells and numbered densely, one number per start cell. */
  ghost predicate NumberingOk(ws: seq<WordPosition>)
  {
    SortedByStart(ws) && Dense(ws) && NumberedByStart(ws) && NonDecreasing(ws)
  }

  /** Everything the generator promises about a puzzle built from `dict` on a `size` grid. */
  ghost predicate PuzzleOk(p: Puzzle, dict: seq<DictionaryEntry>, size: nat, target: nat)
  {
    && WellShaped(p.grid, size)
    && NoBlankLines(p.grid)
    && WordsOk(p, dict, target)
    && NumberingOk(p.words)
    && ClueNumbersOk(p)
    && NoStrayFragments(p)
    && Framed(p)
    && RunsAreWords(p)
  }

  /** `cells` shows board `b` cell for cell. */
  ghost predicate ShowsBoard(cells: seq<seq<CellData>>, b: Board)
  {
    && |cells| == |b|
    && (forall r :: 0 <= r < |b| ==> |cells[r]| == |b[r]|)
    && (forall r, c :: InRange(b, r, c) ==> Shows(cells[r][c], r, c, b[r][c]))
  }

  /** `out` is `s` with only the numbers changed. */
  predicate Renumbered(s: seq<WordPosition>, out: seq<WordPosition>)
  {
    |out| == |s| && forall k :: 0 <= k < |s| ==> out[k] == s[k].(number := out[k].number)
  }

  /** Any element of a permutation of `a` sits somewhere in `a`. */
  lemma FindIn(a: seq<WordPosition>, s: seq<WordPosition>, k: int) returns (j: int)
    requires multiset(s) == multiset(a) && 0 <= k < |s|
    ensures 0 <= j < |a| && a[j] == s[k]
  {
    assert s[k] in multiset(a);
    j :| 0 <= j < |a| && a[j] == s[k];
  }

  /** With distinct words, no word position occurs twice. */
  lemma {:induction false} OnceAtMost(a: seq<WordPosition>, x: WordPosition)
    requires DistinctWords(a)
    ensures multiset(a)[x] <= 1
  {
    if |a| > 0 {
      assert a == [a[0]] + a[1..];
      OnceAtMost(a[1..], x);
      if a[0] == x {
        assert x !in a[1..];
      }
    }
  }

  lemma {:induction false} TwiceCounted(s: seq<WordPosition>, k: int, l: int)
    requires 0 <= k < l < |s| && s[k] == s[l]
    ensures multiset(s)[s[k]] >= 2
  {
    assert s == s[..l] + [s[l]] + s[l + 1..];
    assert s[k] in multiset(s[..l]);
  }

  /** Reordering and renumbering keeps words distinct. */
  lemma {:induction false} DistinctCarried(a: seq<WordPosition>, s: seq<WordPosition>, out: seq<WordPosition>)
    requires DistinctWords(a) && multiset(s) == multiset(a) && Renumbered(s, out)
    ensures DistinctWords(out)
  {
    forall k, l | 0 <= k < l < |out| ensures out[k].word != out[l].word {
      var i := FindIn(a, s, k);
      var j := FindIn(a, s, l);
      if i == j {
        TwiceCounted(s, k, l);
        OnceAtMost(a, s[k]);
      }
    }
  }

  /** Reordering and renumbering keeps every word's text and clue. */
  lemma {:induction false} CorpusCarried(dict: seq<DictionaryEntry>, a: seq<WordPosition>, s: seq<WordPosition>, out: seq<WordPosition>)
    requires forall j :: 0 <= j < |a| ==> FromCorpus(dict, a[j])
    requires multiset(s) == multiset(a) && Renumbered(s, out)
    ensures forall k :: 0 <= k < |out| ==> FromCorpus(dict, out[k])
  {
    forall k | 0 <= k < |out| ensures FromCorpus(dict, out[k]) {
      var j := FindIn(a, s, k);
      assert FromCorpus(dict, a[j]);
      var e :| 0 <= e < |dict| && dict[e].word == a[j].word && dict[e].clue == a[j].clue;
      assert dict[e].word == out[k].word && dict[e].clue == out[k].clue;
    }
  }

  /** Reordering and renumbering keeps every word reading on the board. */
  lemma {:induction false} ReadsCarried(b: Board, a: seq<WordPosition>, s: seq<WordPosition>, out: seq<WordPosition>)
    requires Consistent(b, a) && multiset(s) == multiset(a) && Renumbered(s, out)
    ensures Consistent(b, out)
  {
    forall k | 0 <= k < |out| ensures Reads(b, out[k]) {
      var j := FindIn(a, s, k);
      assert Reads(b, a[j]);
    }
  }

  /** Every letter of every placed word lies inside the bounding box of the letters. */
  lemma {:induction false} WordsInBox(b: Board, words: seq<WordPosition>, minR: int, maxR: int, minC: int, maxC: int)
    requires Consistent(b, words)
    requires forall r, c :: InRange(b, r, c) && b[r][c].Letter? ==> minR <= r <= maxR && minC <= c <= maxC
    ensures forall k, i :: 0 <= k < |words| && 0 <= i < |words[k].word| ==>
      minR <= RowAt(words[k].row, words[k].direction, i) <= maxR &&
      minC <= ColAt(words[k].col, words[k].direction, i) <= maxC
  {
    forall k, i | 0 <= k < |words| && 0 <= i < |words[k].word|
      ensures minR <= RowAt(words[k].row, words[k].direction, i) <= maxR
      ensures minC <= ColAt(words[k].col, words[k].direction, i) <= maxC
    {
      assert Reads(b, words[k]);
    }
  }

  /** Words inside the window, shifted by its corner, read on the cropped board. */
  lemma {:induction false} CropReads(b: Board, words: seq<WordPosition>, minR: int, maxR: int, minC: int, maxC: int)
    requires Consistent(b, words)
    requires forall k, i :: 0 <= k < |words| && 0 <= i < |words[k].word| ==>
      minR <= RowAt(words[k].row, words[k].direction, i) <= maxR &&
      minC <= ColAt(words[k].col, words[k].direction, i) <= maxC
    requires minR <= maxR && minC <= maxC
    ensures Consistent(Crop(b, minR, minC, maxR - minR + 1, maxC - minC + 1), ShiftAll(words, minR, minC))
  {
    var a := ShiftAll(words, minR, minC);
    forall k | 0 <= k < |a| ensures Reads(Crop(b, minR, minC, maxR - minR + 1, maxC - minC + 1), a[k]) {
      assert Reads(b, words[k]);
      ShiftKeepsReading(b, words[k], minR, minC, maxR - minR + 1, maxC - minC + 1);
    }
  }

  /** A word that reads on the board is spelled on any grid showing that board. */
  lemma {:induction false} SpellsShown(b: Board, cells: seq<seq<CellData>>, rows: int, cols: int, ws: seq<WordPosition>)
    requires ShowsBoard(cells, b) && Consistent(b, ws)
    ensures forall k :: 0 <= k < |ws| ==> Spells(Grid(rows, cols, cells), ws[k])
  {
    forall k | 0 <= k < |ws| ensures Spells(Grid(rows, cols, cells), ws[k]) {
      var w := ws[k];
      assert Reads(b, w);
      forall i | 0 <= i < |w.word|
        ensures InCells(Grid(rows, cols, cells), RowAt(w.row, w.direction, i), ColAt(w.col, w.direction, i))
      {
        assert Get(b, RowAt(w.row, w.direction, i), ColAt(w.col, w.direction, i)) == Letter(w.word[i]);
      }
    }
  }

  /** Every letter on the cropped board belongs to some output word. */
  lemma {:induction false} CoverCarried(b: Board, words: seq<WordPosition>, minR: int, minC: int, rows: nat, cols: nat,
                                        s: seq<WordPosition>, out: seq<WordPosition>, cells: seq<seq<CellData>>)
    requires Covered(b, words)
    requires multiset(s) == multiset(ShiftAll(words, minR, minC)) && Renumbered(s, out)
    requires ShowsBoard(cells, Crop(b, minR, minC, rows, cols))
    ensures LettersCovered(Puzzle(Grid(rows, cols, cells), out))
  {
    var crop: Board := Crop(b, minR, minC, rows, cols);
    var a := ShiftAll(words, minR, minC);
    forall r, c | InCells(Grid(rows, cols, cells), r, c) && !cells[r][c].isBlack
      ensures CellCovered(Puzzle(Grid(rows, cols, cells), out), r, c)
    {
      assert InRange(crop, r, c) && crop[r][c].Letter?;
      assert InRange(b, minR + r, minC + c) && b[minR + r][minC + c].Letter?;
      assert CoveredAt(b, words, minR + r, minC + c);
      var j :| 0 <= j < |words| && OnWord(words[j], minR + r, minC + c);
      assert OnWord(a[j], r, c);
      var k := FindIn(s, a, j);
      assert OnWord(out[k], r, c);
    }
  }

  /** Two adjacent white cells of the cropped board lie on one output word along their line. */
  lemma {:induction false} FragmentsCarried(b: Board, words: seq<WordPosition>, minR: int, minC: int,
                                            s: seq<WordPosition>, p: Puzzle)
    requires NoFragments(b, words)
    requires multiset(s) == multiset(ShiftAll(words, minR, minC)) && Renumbered(s, p.words)
    requires 0 <= p.grid.rows && 0 <= p.grid.cols
    requires ShowsBoard(p.grid.cells, Crop(b, minR, minC, p.grid.rows, p.grid.cols))
    ensures NoStrayFragments(p)
  {
    forall r, c, dir ensures ShownJoined(p, r, c, dir) {
      JoinedShown(b, words, minR, minC, p.grid.rows, p.grid.cols, s, p.words, p.grid.cells, r, c, dir);
      assert p == Puzzle(Grid(p.grid.rows, p.grid.cols, p.grid.cells), p.words);
    }
  }

  /** FragmentsCarried at one pair of cells. */
  lemma JoinedShown(b: Board, words: seq<WordPosition>, minR: int, minC: int, rows: nat, cols: nat,
                    s: seq<WordPosition>, out: seq<WordPosition>, cells: seq<seq<CellData>>, r: int, c: int, dir: Direction)
    requires NoFragments(b, words)
    requires multiset(s) == multiset(ShiftAll(words, minR, minC)) && Renumbered(s, out)
    requires ShowsBoard(cells, Crop(b, minR, minC, rows, cols))
    ensures ShownJoined(Puzzle(Grid(rows, cols, cells), out), r, c, dir)
  {
    var grid := Grid(rows, cols, cells);
    var crop: Board := Crop(b, minR, minC, rows, cols);
    var r2, c2 := RowAt(r, dir, 1), ColAt(c, dir, 1);
    if InCells(grid, r, c) && InCells(grid, r2, c2) && !cells[r][c].isBlack && !cells[r2][c2].isBlack {
      assert InRange(crop, r, c) && crop[r][c].Letter?;
      assert InRange(crop, r2, c2) && crop[r2][c2].Letter?;
      assert RowAt(minR + r, dir, 1) == minR + r2 && ColAt(minC + c, dir, 1) == minC + c2;
      assert JoinedAt(b, words, minR + r, minC + c, dir);
      var j :| 0 <= j < |words| && words[j].direction == dir &&
        OnWord(words[j], minR + r, minC + c) && OnWord(words[j], minR + r2, minC + c2);
      var a := ShiftAll(words, minR, minC);
      assert OnWord(a[j], r, c) && OnWord(a[j], r2, c2);
      var k := FindIn(s, a, j);
      assert OnWord(out[k], r, c) && OnWord(out[k], r2, c2) && out[k].direction == dir;
    }
  }

  /** Every word of two or more letters keeps a black cell or the edge at both ends after the crop. */
  lemma {:induction false} CapsCarried(b: Board, words: seq<WordPosition>, minR: int, minC: int,
                                       s: seq<WordPosition>, p: Puzzle)
    requires CapsOpen(b, words)
    requires multiset(s) == multiset(ShiftAll(words, minR, minC)) && Renumbered(s, p.words)
    requires 0 <= p.grid.rows && 0 <= p.grid.cols
    requires ShowsBoard(p.grid.cells, Crop(b, minR, minC, p.grid.rows, p.grid.cols))
    ensures CapsClosed(p)
  {
    var grid, out := p.grid, p.words;
    var rows, cols, cells := grid.rows, grid.cols, grid.cells;
    assert grid == Grid(rows, cols, cells);
    var a := ShiftAll(words, minR, minC);
    forall k | 0 <= k < |out| && |out[k].word| >= 2
      ensures Closed(grid, RowAt(out[k].row, out[k].direction, -1), ColAt(out[k].col, out[k].direction, -1))
      ensures Closed(grid, RowAt(out[k].row, out[k].direction, |out[k].word|), ColAt(out[k].col, out[k].direction, |out[k].word|))
    {
      var j := FindIn(a, s, k);
      var v := words[j];
      assert CapsEmpty(b, v);
      CapShown(b, minR, minC, rows, cols, cells, v.row - minR, v.col - minC, v.direction, -1);
      CapShown(b, minR, minC, rows, cols, cells, v.row - minR, v.col - minC, v.direction, |v.word|);
    }
  }

  /** Every word of two or more letters still lies within a word whose ends are black or off the grid after the crop. */
  lemma {:induction false} FramedCarried(b: Board, words: seq<WordPosition>, minR: int, minC: int,
                                         s: seq<WordPosition>, p: Puzzle)
    requires Enclosed(b, words)
    requires multiset(s) == multiset(ShiftAll(words, minR, minC)) && Renumbered(s, p.words)
    requires 0 <= p.grid.rows && 0 <= p.grid.cols
    requires ShowsBoard(p.grid.cells, Crop(b, minR, minC, p.grid.rows, p.grid.cols))
    ensures Framed(p)
  {
    forall k | 0 <= k < |p.words| ensures FramedAt(p, k) {
      FramedShown(b, words, minR, minC, s, p, k);
    }
  }

  /** FramedCarried for the output word of index `k`. */
  lemma FramedShown(b: Board, words: seq<WordPosition>, minR: int, minC: int, s: seq<WordPosition>, p: Puzzle, k: int)
    requires Enclosed(b, words)
    requires multiset(s) == multiset(ShiftAll(words, minR, minC)) && Renumbered(s, p.words)
    requires 0 <= p.grid.rows && 0 <= p.grid.cols
    requires ShowsBoard(p.grid.cells, Crop(b, minR, minC, p.grid.rows, p.grid.cols))
    requires 0 <= k < |p.words|
    ensures FramedAt(p, k)
  {
    var grid, out := p.grid, p.words;
    var rows, cols, cells := grid.rows, grid.cols, grid.cells;
    assert grid == Grid(rows, cols, cells);
    if |out[k].word| >= 2 {
      var a := ShiftAll(words, minR, minC);
      var j := FindIn(a, s, k);
      assert EnclosedAt(b, words, j);
      var u :| 0 <= u < |words| && Inside(words[j], words[u]) && CapsEmpty(b, words[u]);
      var x := words[u];
      var l := FindIn(s, a, u);
      var y := out[l];
      assert y.word == x.word && y.direction == x.direction && y.row == x.row - minR && y.col == x.col - minC;
      assert out[k].word == words[j].word && out[k].direction == words[j].direction;
      assert out[k].row == words[j].row - minR && out[k].col == words[j].col - minC;
      assert CapsEmpty(b, x);
      CapShown(b, minR, minC, rows, cols, cells, y.row, y.col, y.direction, -1);
      CapShown(b, minR, minC, rows, cols, cells, y.row, y.col, y.direction, |y.word|);
      assert Inside(out[k], y) && EndsClosed(grid, y);
    }
  }

  /** A cell that is empty on the board, seen through the crop, is off the grid or black. */
  lemma CapShown(b: Board, minR: int, minC: int, rows: nat, cols: nat, cells: seq<seq<CellData>>,
                 row: int, col: int, dir: Direction, i: int)
    requires ShowsBoard(cells, Crop(b, minR, minC, rows, cols))
    requires Get(b, RowAt(minR + row, dir, i), ColAt(minC + col, dir, i)) == Empty
    ensures Closed(Grid(rows, cols, cells), RowAt(row, dir, i), ColAt(col, dir, i))
  {
    var crop: Board := Crop(b, minR, minC, rows, cols);
    var r, c := RowAt(row, dir, i), ColAt(col, dir, i);
    assert RowAt(minR + row, dir, i) == minR + r && ColAt(minC + col, dir, i) == minC + c;
    assert InCells(Grid(rows, cols, cells), r, c) ==> InRange(crop, r, c) && crop[r][c] == Empty;
  }

  /**
   * A maximal run of two or more white cells is one word: the word joining
   * its first two cells cannot start earlier (the cell before the run is
   * not white), so it starts at the run; it cannot end earlier (its end
   * cap would be a white cell of the run) nor later (its letter there
   * would be white).
   */
  lemma RunIsWord(p: Puzzle, r: int, c: int, dir: Direction, len: int)
    requires forall k :: 0 <= k < |p.words| ==> Spells(p.grid, p.words[k])
    requires NoStrayFragments(p) && Framed(p)
    requires len >= 2 && WhiteRun(p.grid, r, c, dir, len)
    ensures HasWord(p, r, c, dir, len)
  {
    var r1, c1 := RowAt(r, dir, 1), ColAt(c, dir, 1);
    assert !Closed(p.grid, RowAt(r, dir, 0), ColAt(c, dir, 0)) && !Closed(p.grid, r1, c1);
    assert ShownJoined(p, r, c, dir);
    var k :| 0 <= k < |p.words| && p.words[k].direction == dir && OnWord(p.words[k], r, c) && OnWord(p.words[k], r1, c1);
    // a word holding two cells has two letters, so it lies within a word closed at both ends
    assert FramedAt(p, k);
    var u :| 0 <= u < |p.words| && Inside(p.words[k], p.words[u]) && EndsClosed(p.grid, p.words[u]);
    var w := p.words[u];
    assert OnWord(w, r, c) && OnWord(w, r1, c1);
    ClosedWordIsRun(p.grid, w, r, c, dir, len);
  }

  /** A spelled word closed at both ends that holds the first two cells of a white run starts at the run and spans it. */
  lemma ClosedWordIsRun(grid: Grid, w: WordPosition, r: int, c: int, dir: Direction, len: int)
    requires Spells(grid, w) && EndsClosed(grid, w) && w.direction == dir
    requires len >= 2 && WhiteRun(grid, r, c, dir, len)
    requires OnWord(w, r, c) && OnWord(w, RowAt(r, dir, 1), ColAt(c, dir, 1))
    ensures w.row == r && w.col == c && |w.word| == len
  {
    var j := Offset(w.row, w.col, dir, r, c);
    var m := |w.word|;
    // the cell before the run would be the word's letter j - 1
    assert 0 < j ==> !Closed(grid, RowAt(w.row, dir, j - 1), ColAt(w.col, dir, j - 1));
    assert RowAt(w.row, dir, j - 1) == RowAt(r, dir, -1) && ColAt(w.col, dir, j - 1) == ColAt(c, dir, -1);
    assert j == 0 && w.row == r && w.col == c;
    // the word's end cap, and its letter at the run's end
    assert m >= 2;
    assert m < len ==> !Closed(grid, RowAt(r, dir, m), ColAt(c, dir, m));
    assert len < m ==> !Closed(grid, RowAt(w.row, dir, len), ColAt(w.col, dir, len));
  }

  /** The runs of a grid whose words are spelled, joined and framed by closed words are exactly its words. */
  lemma {:induction false} RunsShown(p: Puzzle)
    requires forall k :: 0 <= k < |p.words| ==> Spells(p.grid, p.words[k])
    requires NoStrayFragments(p) && Framed(p)
    ensures RunsAreWords(p)
  {
    forall r, c, dir, len | len >= 2 && WhiteRun(p.grid, r, c, dir, len)
      ensures HasWord(p, r, c, dir, len)
    {
      RunIsWord(p, r, c, dir, len);
    }
  }

  /**
   * With the rows (columns) holding letters forming one interval, the
   * exact bounding box has a letter in each of its rows and columns.
   */
  lemma {:induction false} NoBlankLinesShown(b: Board, minR: int, maxR: int, minC: int, maxC: int, cells: seq<seq<CellData>>)
    requires Gapless(b)
    requires 0 <= minR <= maxR && 0 <= minC <= maxC
    requires RowFilled(b, minR) && RowFilled(b, maxR) && ColFilled(b, minC) && ColFilled(b, maxC)
    requires forall r, c :: InRange(b, r, c) && b[r][c].Letter? ==> minR <= r <= maxR && minC <= c <= maxC
    requires ShowsBoard(cells, Crop(b, minR, minC, maxR - minR + 1, maxC - minC + 1))
    ensures NoBlankLines(Grid(maxR - minR + 1, maxC - minC + 1, cells))
  {
    var grid := Grid(maxR - minR + 1, maxC - minC + 1, cells);
    var crop: Board := Crop(b, minR, minC, maxR - minR + 1, maxC - minC + 1);
    forall r | 0 <= r < |cells| ensures RowShown(grid, r) {
      assert RowFilled(b, minR + r);
      var c :| InRange(b, minR + r, c) && b[minR + r][c].Letter?;
      assert crop[r][c - minC].Letter?;
      assert !cells[r][c - minC].isBlack;
    }
    forall c | 0 <= c < grid.cols ensures ColShown(grid, c) {
      assert ColFilled(b, minC + c);
      var r :| InRange(b, r, minC + c) && b[r][minC + c].Letter?;
      assert crop[r - minR][c].Letter?;
      assert !cells[r - minR][c].isBlack;
    }
  }

  /** A grid showing a board of at most `size` rows and columns is well shaped. */
  lemma ShapeShown(b: Board, cells: seq<seq<CellData>>, rows: int, cols: int, size: nat)
    requires 1 <= rows <= size && 1 <= cols <= size
    requires |b| == rows && forall r :: 0 <= r < rows ==> |b[r]| == cols
    requires ShowsBoard(cells, b)
    ensures WellShaped(Grid(rows, cols, cells), size)
  {
    var grid := Grid(rows, cols, cells);
    forall r, c | InCells(grid, r, c) ensures |cells[r][c].value| <= 1 && (cells[r][c].isBlack <==> cells[r][c].value == "") {
      assert InRange(b, r, c);
    }
  }
}
