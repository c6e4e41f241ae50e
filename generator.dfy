/**
 * `generateCrossword` (lib/generator.ts lines 89-277): shuffle the corpus
 * once, run twenty greedy attempts, keep the first attempt with the most
 * words, then trim, number and assemble it. The random choices are inputs:
 * the corpus permutation, one draw in [0, 1) per attempt for the seed word,
 * and the anchor order of every placement step.
 */
module Generator {
  import opened Types
  import opened Board
  import opened Placement
  import opened Attempt
  import opened Trim
  import opened Numbering
  import opened Assemble
  import opened Output

  /** GRID_SIZES, lines 5-9. */
  function GridSize(d: Difficulty): (n: nat)
    ensures 10 <= n <= 15
  {
    match d
    case Easy => 10
    case Medium => 13
    case Hard => 15
  }

  /** MIN_WORDS, lines 11-15: the word count an attempt aims at. */
  function MinWords(d: Difficulty): (n: nat)
    ensures 6 <= n <= 15
  {
    match d
    case Easy => 6
    case Medium => 10
    case Hard => 15
  }

  /** Line 100. */
  const Attempts: nat := 20

  /** `perm` lists each of `0 .. n-1`. */
  predicate IsPermutation(perm: seq<nat>, n: nat)
  {
    |perm| == n && (forall i :: 0 <= i < n ==> perm[i] < n) && (forall j :: 0 <= j < n ==> j in perm)
  }

  /** Line 94: the corpus in the order the shuffle chose, given as the permutation `perm`. */
  function Shuffled(dict: seq<DictionaryEntry>, perm: seq<nat>): (s: seq<DictionaryEntry>)
    requires IsPermutation(perm, |dict|)
    ensures |s| == |dict|
    ensures forall i :: 0 <= i < |s| ==> s[i] == dict[perm[i]]
  {
    seq(|dict|, i requires 0 <= i < |dict| => dict[perm[i]])
  }

  /** The shuffled corpus holds exactly the corpus's entries. */
  lemma ShuffledSameEntries(dict: seq<DictionaryEntry>, perm: seq<nat>)
    requires IsPermutation(perm, |dict|)
    ensures forall e :: e in Shuffled(dict, perm) <==> e in dict
  {
    var s := Shuffled(dict, perm);
    forall e | e in dict ensures e in s {
      var j :| 0 <= j < |dict| && dict[j] == e;
      assert j in perm;
      var i :| 0 <= i < |perm| && perm[i] == j;
      assert s[i] == e;
    }
  }

  /** Line 108: the index `floor(draw * n)` of the seed word, always in range. */
  function SeedIndex(draw: real, n: nat): (k: nat)
    requires 0.0 <= draw < 1.0 && 0 < n
    ensures k < n
  {
    var x := draw * n as real;
    assert 0.0 <= x < n as real;
    x.Floor
  }

  /** One draw in [0, 1) per attempt. */
  predicate ValidDraws(draws: seq<real>)
  {
    |draws| == Attempts && forall a :: 0 <= a < |draws| ==> 0.0 <= draws[a] < 1.0
  }

  /**
   * What the first `n` attempts end with, in attempt order: attempt `a`
   * is a run seeded with the corpus entry its draw selects.
   */
  function Outcomes(rule: Rule, size: nat, target: nat, dict: seq<DictionaryEntry>, draws: seq<real>, shuffle: AnchorShuffle, n: nat)
    : (r: seq<(Board, seq<WordPosition>)>)
    requires 0 < |dict| && ValidDraws(draws) && n <= Attempts
    ensures |r| == n
  {
    if n == 0 then []
    else Outcomes(rule, size, target, dict, draws, shuffle, n - 1) +
         [AttemptResult(rule, size, target, dict, SeedIndex(draws[n - 1], |dict|), shuffle, n - 1)]
  }

  /** Entry `a` of the outcome list is attempt `a`, seeded by draw `a`. */
  lemma {:induction false} OutcomeOfAttempt(rule: Rule, size: nat, target: nat, dict: seq<DictionaryEntry>, draws: seq<real>,
                                            shuffle: AnchorShuffle, n: nat, a: nat)
    requires 0 < |dict| && ValidDraws(draws) && a < n <= Attempts
    ensures Outcomes(rule, size, target, dict, draws, shuffle, n)[a] ==
            AttemptResult(rule, size, target, dict, SeedIndex(draws[a], |dict|), shuffle, a)
  {
    if a < n - 1 {
      OutcomeOfAttempt(rule, size, target, dict, draws, shuffle, n - 1, a);
    }
  }

  /**
   * Entry `best` of `outcomes` has the most words, and strictly more than
   * every entry before it.
   */
  ghost predicate MostWords(outcomes: seq<(Board, seq<WordPosition>)>, best: nat)
  {
    && best < |outcomes|
    && (forall a :: 0 <= a < |outcomes| ==> |outcomes[a].1| <= |outcomes[best].1|)
    && (forall a :: 0 <= a < best ==> |outcomes[a].1| < |outcomes[best].1|)
  }

  /** One more outcome keeps the leader unless it has strictly more words, in which case it leads. */
  lemma MostWordsExtended(outcomes: seq<(Board, seq<WordPosition>)>, best: nat, x: (Board, seq<WordPosition>))
    requires MostWords(outcomes, best)
    ensures |x.1| > |outcomes[best].1| ==> MostWords(outcomes + [x], |outcomes|)
    ensures |x.1| <= |outcomes[best].1| ==> MostWords(outcomes + [x], best)
  {
    var o := outcomes + [x];
    assert forall a :: 0 <= a < |outcomes| ==> o[a] == outcomes[a];
  }

  /**
   * Lines 96-195: twenty attempts, each with its own seed draw; an attempt
   * replaces the best so far only when it placed strictly more words. The
   * result is therefore attempt `best`, which placed the most words of all
   * twenty and strictly more than every attempt before it.
   */
  method BestAttempt(rule: Rule, size: nat, target: nat, dict: seq<DictionaryEntry>, draws: seq<real>, shuffle: AnchorShuffle)
    returns (g: array2<Cell>, words: seq<WordPosition>, ghost best: nat)
    requires 0 < size && 0 < |dict|
    requires ValidDraws(draws)
    requires forall j :: 0 <= j < |dict| ==> |dict[j].word| <= size
    requires Reorders(shuffle)
    ensures g.Length0 == size && g.Length1 == size
    ensures best < Attempts && (Cells(g), words) == Outcomes(rule, size, target, dict, draws, shuffle, Attempts)[best]
    ensures AttemptOk(rule, Cells(g), words, dict, target)
    ensures forall a :: 0 <= a < Attempts ==> |Outcomes(rule, size, target, dict, draws, shuffle, Attempts)[a].1| <= |words|
    ensures forall a :: 0 <= a < best ==> |Outcomes(rule, size, target, dict, draws, shuffle, Attempts)[a].1| < |words|
    ensures words[0] == SeedWord(size, dict[SeedIndex(draws[best], |dict|)])
  {
    g := CreateEmptyGrid(size);
    words := [];
    best := 0;
    ghost var outcomes: seq<(Board, seq<WordPosition>)> := [];
    for a := 0 to Attempts
      invariant g.Length0 == size && g.Length1 == size
      invariant outcomes == Outcomes(rule, size, target, dict, draws, shuffle, a)
      invariant best <= a
      invariant a == 0 ==> words == []
      invariant a > 0 ==> Leading(rule, dict, target, draws, outcomes, best, Cells(g), words)
    {
      g, words, best, outcomes := Contest(rule, size, target, dict, draws, shuffle, a, g, words, best, outcomes);
    }
  }

  /**
   * The best attempt so far is entry `best` of `outcomes`: it has the most
   * words, and strictly more than every entry before it; it keeps the
   * attempt invariant; and its first word is the seed its draw selects.
   */
  ghost predicate Leading(rule: Rule, dict: seq<DictionaryEntry>, target: nat, draws: seq<real>,
                          outcomes: seq<(Board, seq<WordPosition>)>, best: nat, b: Board, words: seq<WordPosition>)
  {
    && MostWords(outcomes, best) && (b, words) == outcomes[best]
    && AttemptOk(rule, b, words, dict, target)
    && best < |draws| && 0.0 <= draws[best] < 1.0 && 0 < |dict|
    && words[0] == SeedWord(|b|, dict[SeedIndex(draws[best], |dict|)])
  }

  /** Lines 101-194 for attempt `a`: run it, and keep it when it placed strictly more words than the best so far. */
  method Contest(rule: Rule, size: nat, target: nat, dict: seq<DictionaryEntry>, draws: seq<real>, shuffle: AnchorShuffle,
                 a: nat, g: array2<Cell>, words: seq<WordPosition>, ghost best: nat, ghost outcomes: seq<(Board, seq<WordPosition>)>)
    returns (g': array2<Cell>, words': seq<WordPosition>, ghost best': nat, ghost outcomes': seq<(Board, seq<WordPosition>)>)
    requires 0 < size && 0 < |dict| && a < Attempts
    requires ValidDraws(draws)
    requires forall j :: 0 <= j < |dict| ==> |dict[j].word| <= size
    requires Reorders(shuffle)
    requires g.Length0 == size && g.Length1 == size
    requires outcomes == Outcomes(rule, size, target, dict, draws, shuffle, a)
    requires best <= a
    requires a == 0 ==> words == []
    requires a > 0 ==> Leading(rule, dict, target, draws, outcomes, best, Cells(g), words)
    ensures g'.Length0 == size && g'.Length1 == size
    ensures outcomes' == Outcomes(rule, size, target, dict, draws, shuffle, a + 1)
    ensures best' <= a + 1
    ensures Leading(rule, dict, target, draws, outcomes', best', Cells(g'), words')
  {
    var seed := SeedIndex(draws[a], |dict|);
    var tempGrid, tempWords := RunAttempt(rule, size, target, dict, seed, shuffle, a);
    if a > 0 {
      MostWordsExtended(outcomes, best, (Cells(tempGrid), tempWords));
    }
    outcomes' := outcomes + [(Cells(tempGrid), tempWords)];
    if |tempWords| > |words| {
      words', g', best' := tempWords, tempGrid, a;
    } else {
      words', g', best' := words, g, best;
    }
  }


  /** The letters of the working board `b` lie in rows `minR..maxR` and columns `minC..maxC`. */
  ghost predicate BoxOf(b: Board, minR: int, maxR: int, minC: int, maxC: int)
  {
    && 0 <= minR <= maxR < |b| && 0 <= minC <= maxC < |b|
    && RowFilled(b, minR) && RowFilled(b, maxR) && ColFilled(b, minC) && ColFilled(b, maxC)
    && forall r, c :: InRange(b, r, c) && b[r][c].Letter? ==> minR <= r <= maxR && minC <= c <= maxC
  }

  /**
   * `p` is board `b` with word list `words` trimmed to its bounding box
   * `minR..maxR` by `minC..maxC`: the grid has the box's dimensions and
   * shows the cropped board cell for cell, and the words are the board's
   * words shifted into the box, sorted by start cell and numbered.
   */
  ghost predicate Trimmed(p: Puzzle, b: Board, words: seq<WordPosition>, minR: int, maxR: int, minC: int, maxC: int)
  {
    && BoxOf(b, minR, maxR, minC, maxC)
    && p.grid.rows == maxR - minR + 1 && p.grid.cols == maxC - minC + 1
    && p.words == Numbered(SortByStart(ShiftAll(words, minR, minC)))
    && ShowsBoard(p.grid.cells, Crop(b, minR, minC, maxR - minR + 1, maxC - minC + 1))
  }

  /**
   * The words of an attempt, shifted into the bounding box, sorted and
   * numbered, read on the cropped board and start inside it.
   */
  lemma {:induction false} NumberedRead(rule: Rule, b: Board, words: seq<WordPosition>, dict: seq<DictionaryEntry>, target: nat,
                                        minR: int, maxR: int, minC: int, maxC: int, sorted: seq<WordPosition>)
    requires AttemptOk(rule, b, words, dict, target) && !Blank(b)
    requires BoxOf(b, minR, maxR, minC, maxC)
    requires multiset(sorted) == multiset(ShiftAll(words, minR, minC))
    ensures Consistent(Crop(b, minR, minC, maxR - minR + 1, maxC - minC + 1), Numbered(sorted))
    ensures forall k :: 0 <= k < |sorted| ==>
      0 <= Numbered(sorted)[k].row <= maxR - minR && 0 <= Numbered(sorted)[k].col <= maxC - minC
  {
    var crop := Crop(b, minR, minC, maxR - minR + 1, maxC - minC + 1);
    var adjusted, numbered := ShiftAll(words, minR, minC), Numbered(sorted);
    WordsInBox(b, words, minR, maxR, minC, maxC);
    CropReads(b, words, minR, maxR, minC, maxC);
    ReadsCarried(crop, adjusted, sorted, numbered);
    forall k | 0 <= k < |numbered|
      ensures 0 <= numbered[k].row <= maxR - minR && 0 <= numbered[k].col <= maxC - minC
    {
      var j := FindIn(adjusted, sorted, k);
      var w := numbered[k];
      assert w.word == words[j].word && |w.word| > 0;
      assert RowAt(w.row, w.direction, 0) == w.row && ColAt(w.col, w.direction, 0) == w.col;
      assert Reads(crop, w);
      assert Get(crop, w.row, w.col) == Letter(w.word[0]);
    }
  }

  /**
   * The words of the assembled puzzle are distinct, come from the corpus,
   * are spelled on the grid and cover every letter on it.
   */
  lemma {:induction false} WordsShown(b: Board, words: seq<WordPosition>, dict: seq<DictionaryEntry>, target: nat,
                                      minR: int, maxR: int, minC: int, maxC: int,
                                      sorted: seq<WordPosition>, numbered: seq<WordPosition>, cells: seq<seq<CellData>>)
    requires 1 <= |words| <= target + 5
    requires Covered(b, words) && DistinctWords(words)
    requires forall k :: 0 <= k < |words| ==> FromCorpus(dict, words[k])
    requires multiset(sorted) == multiset(ShiftAll(words, minR, minC)) && Renumbered(sorted, numbered)
    requires 0 <= minR <= maxR && 0 <= minC <= maxC
    requires Consistent(Crop(b, minR, minC, maxR - minR + 1, maxC - minC + 1), numbered)
    requires ShowsBoard(cells, Crop(b, minR, minC, maxR - minR + 1, maxC - minC + 1))
    ensures WordsOk(Puzzle(Grid(maxR - minR + 1, maxC - minC + 1, cells), numbered), dict, target)
  {
    var rows, cols := maxR - minR + 1, maxC - minC + 1;
    var crop := Crop(b, minR, minC, rows, cols);
    var adjusted := ShiftAll(words, minR, minC);
    assert |sorted| == |multiset(sorted)| == |multiset(adjusted)| == |words|;
    SpellsShown(crop, cells, rows, cols, numbered);
    CoverCarried(b, words, minR, minC, rows, cols, sorted, numbered, cells);
    DistinctCarried(adjusted, sorted, numbered);
    forall j | 0 <= j < |adjusted| ensures FromCorpus(dict, adjusted[j]) {
      assert FromCorpus(dict, words[j]);
    }
    CorpusCarried(dict, adjusted, sorted, numbered);
  }

  /**
   * The chosen attempt's words, shifted into the bounding box, sorted and
   * numbered, satisfy WordsOk on a cell grid showing the cropped board, and
   * are numbered as NumberingOk says.
   */
  lemma {:induction false} TrimmedWordsOk(rule: Rule, b: Board, words: seq<WordPosition>, dict: seq<DictionaryEntry>, target: nat,
                                          minR: int, maxR: int, minC: int, maxC: int, cells: seq<seq<CellData>>)
    requires AttemptOk(rule, b, words, dict, target) && !Blank(b)
    requires BoxOf(b, minR, maxR, minC, maxC)
    requires ShowsBoard(cells, Crop(b, minR, minC, maxR - minR + 1, maxC - minC + 1))
    ensures WordsOk(Puzzle(Grid(maxR - minR + 1, maxC - minC + 1, cells),
                           Numbered(SortByStart(ShiftAll(words, minR, minC)))), dict, target)
    ensures NumberingOk(Numbered(SortByStart(ShiftAll(words, minR, minC))))
  {
    var sorted := SortByStart(ShiftAll(words, minR, minC));
    var numbered := Numbered(sorted);
    NumberedOk(sorted);
    NumberedRead(rule, b, words, dict, target, minR, maxR, minC, maxC, sorted);
    WordsShown(b, words, dict, target, minR, maxR, minC, maxC, sorted, numbered, cells);
  }

  /**
   * A cell grid showing the bounding box of a gapless, non-blank board is
   * well shaped and has no all-black row or column.
   */
  lemma {:induction false} TrimmedGridOk(b: Board, minR: int, maxR: int, minC: int, maxC: int, cells: seq<seq<CellData>>)
    requires Gapless(b) && BoxOf(b, minR, maxR, minC, maxC)
    requires ShowsBoard(cells, Crop(b, minR, minC, maxR - minR + 1, maxC - minC + 1))
    ensures WellShaped(Grid(maxR - minR + 1, maxC - minC + 1, cells), |b|)
    ensures NoBlankLines(Grid(maxR - minR + 1, maxC - minC + 1, cells))
  {
    NoBlankLinesShown(b, minR, maxR, minC, maxC, cells);
    ShapeShown(Crop(b, minR, minC, maxR - minR + 1, maxC - minC + 1), cells, maxR - minR + 1, maxC - minC + 1, |b|);
  }

  /** Every word of a non-blank attempt starts inside the bounding box. */
  lemma StartsInBox(rule: Rule, b: Board, words: seq<WordPosition>, dict: seq<DictionaryEntry>, target: nat,
                    minR: int, maxR: int, minC: int, maxC: int)
    requires AttemptOk(rule, b, words, dict, target) && !Blank(b)
    requires BoxOf(b, minR, maxR, minC, maxC)
    ensures forall k :: 0 <= k < |words| ==> minR <= words[k].row <= maxR && minC <= words[k].col <= maxC
  {
    WordsInBox(b, words, minR, maxR, minC, maxC);
    forall k | 0 <= k < |words| ensures minR <= words[k].row <= maxR && minC <= words[k].col <= maxC {
      var w := words[k];
      assert |w.word| > 0;
      assert RowAt(w.row, w.direction, 0) == w.row && ColAt(w.col, w.direction, 0) == w.col;
    }
  }

  /**
   * The chosen attempt, trimmed to its bounding box, sorted and numbered,
   * shown on a cell grid that displays the cropped board and carries the
   * right clue lists, is a puzzle with every property of PuzzleOk.
   */
  lemma Finished(rule: Rule, b: Board, words: seq<WordPosition>, dict: seq<DictionaryEntry>, target: nat, size: nat,
                       minR: int, maxR: int, minC: int, maxC: int, p: Puzzle)
    requires AttemptOk(rule, b, words, dict, target) && !Blank(b) && |b| == size
    requires Trimmed(p, b, words, minR, maxR, minC, maxC)
    requires ClueNumbersOk(p)
    ensures PuzzleOk(p, dict, size, target)
    ensures rule == Corrected ==> CapsClosed(p)
  {
    assert p == Puzzle(Grid(maxR - minR + 1, maxC - minC + 1, p.grid.cells), p.words);
    TrimmedWordsOk(rule, b, words, dict, target, minR, maxR, minC, maxC, p.grid.cells);
    TrimmedGridOk(b, minR, maxR, minC, maxC, p.grid.cells);
    TrimmedRunsOk(b, words, minR, maxR, minC, maxC, p);
    if rule == Corrected {
      CapsCarried(b, words, minR, minC, SortByStart(ShiftAll(words, minR, minC)), p);
    }
  }

  /**
   * On the trimmed puzzle two adjacent white cells lie on one word along
   * their line, every word of two or more letters lies within a word
   * closed at both ends, and so every maximal run of white cells is one
   * word.
   */
  lemma {:induction false} TrimmedRunsOk(b: Board, words: seq<WordPosition>, minR: int, maxR: int, minC: int, maxC: int, p: Puzzle)
    requires NoFragments(b, words) && Enclosed(b, words)
    requires Trimmed(p, b, words, minR, maxR, minC, maxC)
    requires forall k :: 0 <= k < |p.words| ==> Spells(p.grid, p.words[k])
    ensures NoStrayFragments(p) && Framed(p) && RunsAreWords(p)
  {
    var sorted := SortByStart(ShiftAll(words, minR, minC));
    FragmentsCarried(b, words, minR, minC, sorted, p);
    FramedCarried(b, words, minR, minC, sorted, p);
    RunsShown(p);
  }

  /**
   * Lines 197-276 on the chosen attempt. A blank grid makes the source
   * allocate an array of negative length, reported here as NoWordsPlaced;
   * otherwise the puzzle is the attempt trimmed to its bounding box
   * `minR..maxR` by `minC..maxC`, has every property of PuzzleOk and as
   * many words as the attempt.
   */
  method Finish(ghost rule: Rule, g: array2<Cell>, words: seq<WordPosition>, ghost dict: seq<DictionaryEntry>, ghost target: nat)
    returns (result: Result<Puzzle, GenError>, ghost minR: int, ghost maxR: int, ghost minC: int, ghost maxC: int)
    requires g.Length0 == g.Length1
    requires AttemptOk(rule, Cells(g), words, dict, target)
    ensures result.Err? <==> Blank(Cells(g))
    ensures result.Err? ==> result.error == NoWordsPlaced
    ensures result.Ok? ==> Trimmed(result.value, Cells(g), words, minR, maxR, minC, maxC)
    ensures result.Ok? ==> PuzzleOk(result.value, dict, g.Length0, target) && |result.value.words| == |words|
    ensures result.Ok? && rule == Corrected ==> CapsClosed(result.value)
  {
    var top, bottom, left, right := BoundingBox(g);
    minR, maxR, minC, maxC := top, bottom, left, right;
    if bottom == -1 {
      return Err(NoWordsPlaced), minR, maxR, minC, maxC;
    }
    StartsInBox(rule, Cells(g), words, dict, target, top, bottom, left, right);
    var puzzle := Arrange(g, words, top, bottom, left, right);
    Finished(rule, Cells(g), words, dict, target, g.Length0, top, bottom, left, right, puzzle);
    result := Ok(puzzle);
  }

  /**
   * Lines 209-276 once the bounding box is known: shift the words into the
   * box, sort and number them, and build the cell grid of the box. The
   * puzzle has the box's dimensions, its words are the attempt's words
   * shifted, sorted and numbered, and its cells show the cropped grid with
   * the right clue lists.
   */
  method Arrange(g: array2<Cell>, words: seq<WordPosition>, minR: int, maxR: int, minC: int, maxC: int)
    returns (puzzle: Puzzle)
    requires 0 <= minR <= maxR < g.Length0 && 0 <= minC <= maxC < g.Length1
    requires forall k :: 0 <= k < |words| ==> minR <= words[k].row <= maxR
    ensures puzzle.grid.rows == maxR - minR + 1 && puzzle.grid.cols == maxC - minC + 1
    ensures puzzle.words == Numbered(SortByStart(ShiftAll(words, minR, minC)))
    ensures ShowsBoard(puzzle.grid.cells, Crop(Cells(g), minR, minC, maxR - minR + 1, maxC - minC + 1))
    ensures ClueNumbersOk(puzzle)
  {
    var rows, cols := maxR - minR + 1, maxC - minC + 1;
    var adjusted := ShiftAll(words, minR, minC);
    var sorted := SortByStart(adjusted);
    var numbered := AssignNumbers(sorted);
    forall k | 0 <= k < |numbered| ensures 0 <= numbered[k].row < rows {
      var j := FindIn(adjusted, sorted, k);
    }
    var cells := ShowCells(g, minR, minC, rows, cols, numbered);
    puzzle := Puzzle(Grid(rows, cols, cells), numbered);
  }

  /**
   * Lines 239-273: the cell grid of the `rows` by `cols` window at
   * `(minR, minC)`, built in place and then read out as rows. It shows the
   * window cell for cell, and every cell's clue list holds, without
   * repeats, exactly the numbers of the words starting there.
   */
  method ShowCells(g: array2<Cell>, minR: int, minC: int, rows: nat, cols: nat, numbered: seq<WordPosition>)
    returns (cells: seq<seq<CellData>>)
    requires 0 <= minR && minR + rows <= g.Length0 && 0 <= minC && minC + cols <= g.Length1
    requires forall k :: 0 <= k < |numbered| ==> 0 <= numbered[k].row < rows
    ensures ShowsBoard(cells, Crop(Cells(g), minR, minC, rows, cols))
    ensures ClueNumbersOk(Puzzle(Grid(rows, cols, cells), numbered))
  {
    var a := BuildCells(g, minR, minC, rows, cols);
    ghost var shown := Cells(a);
    AddClueNumbers(a, numbered);
    cells := Cells(a);
    ghost var crop := Crop(Cells(g), minR, minC, rows, cols);
    forall r, c | InRange(crop, r, c) ensures Shows(cells[r][c], r, c, crop[r][c]) {
      assert crop[r][c] == g[minR + r, minC + c];
      assert Shows(shown[r][c], r, c, crop[r][c]);
    }
    forall r, c | InCells(Grid(rows, cols, cells), r, c)
      ensures NoDuplicates(cells[r][c].clueNumbers)
      ensures forall n :: n in cells[r][c].clueNumbers <==> Labels(numbered, r, c, n)
    {
      assert shown[r][c].clueNumbers == [];
    }
  }

  /** A grid whose first word has a letter is not blank. */
  lemma WordShown(rule: Rule, b: Board, words: seq<WordPosition>, dict: seq<DictionaryEntry>, target: nat)
    requires AttemptOk(rule, b, words, dict, target) && |words[0].word| > 0
    ensures !Blank(b)
  {
    var w := words[0];
    assert Reads(b, w);
    assert Get(b, RowAt(w.row, w.direction, 0), ColAt(w.col, w.direction, 0)) == Letter(w.word[0]);
  }

  /** A puzzle with every property of PuzzleOk for the shuffled corpus has them for the corpus itself. */
  lemma {:induction false} PuzzleOkShuffled(dictionary: seq<DictionaryEntry>, perm: seq<nat>, p: Puzzle, size: nat, target: nat)
    requires IsPermutation(perm, |dictionary|)
    requires PuzzleOk(p, Shuffled(dictionary, perm), size, target)
    ensures PuzzleOk(p, dictionary, size, target)
  {
    var shuffled := Shuffled(dictionary, perm);
    ShuffledSameEntries(dictionary, perm);
    forall k | 0 <= k < |p.words| ensures FromCorpus(dictionary, p.words[k]) {
      assert FromCorpus(shuffled, p.words[k]);
      var e :| 0 <= e < |shuffled| && shuffled[e].word == p.words[k].word && shuffled[e].clue == p.words[k].clue;
      assert shuffled[e] in dictionary;
    }
  }

  /** What the twenty attempts of the whole generator end with: the corpus shuffled by `perm`, on the difficulty's grid size and target. */
  function Runs(rule: Rule, difficulty: Difficulty, dictionary: seq<DictionaryEntry>, perm: seq<nat>,
                draws: seq<real>, shuffle: AnchorShuffle): seq<(Board, seq<WordPosition>)>
    requires IsPermutation(perm, |dictionary|) && 0 < |dictionary| && ValidDraws(draws)
  {
    Outcomes(rule, GridSize(difficulty), MinWords(difficulty), Shuffled(dictionary, perm), draws, shuffle, Attempts)
  }

  /**
   * The whole generator. An empty corpus is the only way to get
   * EmptyCorpus. Otherwise the kept attempt `best` placed the most words
   * of all twenty and strictly more than every attempt before it; the
   * result is NoWordsPlaced exactly when its grid is blank, which a corpus
   * of non-empty words rules out, and otherwise it is that attempt trimmed
   * to its bounding box, with every property of PuzzleOk.
   */
  method GenerateCrossword(rule: Rule, difficulty: Difficulty, dictionary: seq<DictionaryEntry>, perm: seq<nat>,
                           draws: seq<real>, shuffle: AnchorShuffle)
    returns (result: Result<Puzzle, GenError>, ghost runs: seq<(Board, seq<WordPosition>)>, ghost best: nat,
             ghost minR: int, ghost maxR: int, ghost minC: int, ghost maxC: int)
    requires IsPermutation(perm, |dictionary|)
    requires ValidDraws(draws)
    requires forall j :: 0 <= j < |dictionary| ==> |dictionary[j].word| <= GridSize(difficulty)
    requires Reorders(shuffle)
    ensures result == Err(EmptyCorpus) <==> |dictionary| == 0
    ensures 0 < |dictionary| ==> runs == Runs(rule, difficulty, dictionary, perm, draws, shuffle)
    ensures 0 < |dictionary| ==> best < |runs| == Attempts
    ensures 0 < |dictionary| ==> forall a :: 0 <= a < Attempts ==> |runs[a].1| <= |runs[best].1|
    ensures 0 < |dictionary| ==> forall a :: 0 <= a < best ==> |runs[a].1| < |runs[best].1|
    ensures 0 < |dictionary| ==> (result == Err(NoWordsPlaced) <==> Blank(runs[best].0))
    ensures 0 < |dictionary| && (forall j :: 0 <= j < |dictionary| ==> |dictionary[j].word| > 0) ==> result.Ok?
    ensures 0 < |dictionary| && result.Ok? ==> Trimmed(result.value, runs[best].0, runs[best].1, minR, maxR, minC, maxC)
    ensures result.Ok? ==> PuzzleOk(result.value, dictionary, GridSize(difficulty), MinWords(difficulty))
    ensures result.Ok? && rule == Corrected ==> CapsClosed(result.value)
  {
    var size := GridSize(difficulty);
    var target := MinWords(difficulty);
    var shuffled := Shuffled(dictionary, perm);
    ShuffledSameEntries(dictionary, perm);
    minR, maxR, minC, maxC := 0, 0, 0, 0;
    if |shuffled| == 0 {
      return Err(EmptyCorpus), [], 0, minR, maxR, minC, maxC;
    }
    forall j | 0 <= j < |shuffled| ensures |shuffled[j].word| <= size {
      assert shuffled[j] in dictionary;
    }
    var g, words;
    g, words, best := BestAttempt(rule, size, target, shuffled, draws, shuffle);
    runs := Outcomes(rule, size, target, shuffled, draws, shuffle, Attempts);
    if forall j :: 0 <= j < |dictionary| ==> |dictionary[j].word| > 0 {
      assert shuffled[SeedIndex(draws[best], |shuffled|)] in dictionary;
      WordShown(rule, Cells(g), words, shuffled, target);
    }
    result, minR, maxR, minC, maxC := Finish(rule, g, words, shuffled, target);
    if result.Ok? {
      PuzzleOkShuffled(dictionary, perm, result.value, size, target);
    }
  }
}
