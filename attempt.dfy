/**
 * One attempt of the greedy builder in `generateCrossword`: seed a word
 * across the middle row, then walk the shuffled corpus and place each new
 * word at the first anchor/offset/direction that passes the placement
 * rule. The rule is a parameter: the source's `canPlaceWord` as written,
 * or that check corrected so that a word never runs along a placed word.
 * Nothing placed is ever undone.
 */
module Attempt {
  import opened Types
  import opened Board
  import opened Placement

  /** A filled cell offered as a crossing point, with its letter. */
  datatype Anchor = Anchor(r: int, c: int, letter: char)

  /**
   * The anchor shuffle of one attempt: given the attempt number, the index
   * of the corpus entry being placed and the anchors in reading order, the
   * order in which they are tried.
   */
  type AnchorShuffle = (nat, nat, seq<Anchor>) -> seq<Anchor>

  /** The order the shuffle gives for attempt `a` and corpus entry `k` is a permutation of `s`. */
  ghost predicate ReordersAt(shuffle: AnchorShuffle, a: nat, k: nat, s: seq<Anchor>)
  {
    multiset(shuffle(a, k, s)) == multiset(s)
  }

  /** A shuffle only reorders: it neither drops nor invents anchors. */
  ghost predicate Reorders(shuffle: AnchorShuffle)
  {
    forall a, k, s :: ReordersAt(shuffle, a, k, s)
  }

  /** `anchors` lists exactly the filled cells of `b` with their letters. */
  ghost predicate ListsFilled(b: Board, anchors: seq<Anchor>)
  {
    && (forall k :: 0 <= k < |anchors| ==> Get(b, anchors[k].r, anchors[k].c) == Letter(anchors[k].letter))
    && (forall r, c :: Get(b, r, c).Letter? ==> Anchor(r, c, Get(b, r, c).ch) in anchors)
  }

  /** Where a word starts when its `i`-th letter sits on anchor `a`. */
  function StartRow(a: Anchor, i: int, dir: Direction): int { RowAt(a.r, dir, -i) }

  function StartCol(a: Anchor, i: int, dir: Direction): int { ColAt(a.c, dir, -i) }

  /** Neither direction works with the word's `i`-th letter on anchor `a`. */
  ghost predicate Tried(rule: Rule, b: Board, word: string, a: Anchor, i: int)
  {
    && !Allows(rule, b, word, StartRow(a, i, Across), StartCol(a, i, Across), Across)
    && !Allows(rule, b, word, StartRow(a, i, Down), StartCol(a, i, Down), Down)
  }

  /** No offset of a matching letter lets the word cross anchor `a`. */
  ghost predicate Blocked(rule: Rule, b: Board, word: string, a: Anchor)
  {
    forall i :: 0 <= i < |word| && word[i] == a.letter ==> Tried(rule, b, word, a, i)
  }

  /** The filled cells of row `r` in columns `0 .. c-1`, left to right. */
  function RowAnchors(b: Board, r: int, c: nat): seq<Anchor>
  {
    if c == 0 then []
    else RowAnchors(b, r, c - 1) + (if Get(b, r, c - 1).Letter? then [Anchor(r, c - 1, Get(b, r, c - 1).ch)] else [])
  }

  /** The filled cells of rows `0 .. r-1` in reading order. */
  function AnchorsAbove(b: Board, r: nat): seq<Anchor>
  {
    if r == 0 then [] else AnchorsAbove(b, r - 1) + RowAnchors(b, r - 1, |b|)
  }

  /** Lines 133-140 as a value: every filled cell of the square, row by row, left to right. */
  function AnchorsOf(b: Board): seq<Anchor>
  {
    AnchorsAbove(b, |b|)
  }

  /** Every anchor of `RowAnchors(b, r, c)` is a filled cell of row `r` left of `c`, each such cell is listed, left to right. */
  lemma {:induction false} RowAnchorsListed(b: Board, r: int, c: nat)
    ensures forall k :: 0 <= k < |RowAnchors(b, r, c)| ==>
      RowAnchors(b, r, c)[k].r == r && 0 <= RowAnchors(b, r, c)[k].c < c &&
      Get(b, r, RowAnchors(b, r, c)[k].c) == Letter(RowAnchors(b, r, c)[k].letter)
    ensures forall c' :: 0 <= c' < c && Get(b, r, c').Letter? ==> Anchor(r, c', Get(b, r, c').ch) in RowAnchors(b, r, c)
    ensures forall k, l :: 0 <= k < l < |RowAnchors(b, r, c)| ==> RowAnchors(b, r, c)[k].c < RowAnchors(b, r, c)[l].c
  {
    if c > 0 {
      RowAnchorsListed(b, r, c - 1);
    }
  }

  /** Every anchor of `AnchorsAbove(b, r)` is a filled cell above row `r`, each such cell is listed, in reading order. */
  lemma {:induction false} AnchorsAboveListed(b: Board, r: nat)
    requires IsSquare(b) && r <= |b|
    ensures forall k :: 0 <= k < |AnchorsAbove(b, r)| ==>
      0 <= AnchorsAbove(b, r)[k].r < r &&
      Get(b, AnchorsAbove(b, r)[k].r, AnchorsAbove(b, r)[k].c) == Letter(AnchorsAbove(b, r)[k].letter)
    ensures forall r', c' :: 0 <= r' < r && Get(b, r', c').Letter? ==> Anchor(r', c', Get(b, r', c').ch) in AnchorsAbove(b, r)
    ensures forall k, l :: 0 <= k < l < |AnchorsAbove(b, r)| ==> ReadingBefore(AnchorsAbove(b, r)[k].r, AnchorsAbove(b, r)[k].c, AnchorsAbove(b, r)[l].r, AnchorsAbove(b, r)[l].c)
  {
    if r > 0 {
      AnchorsAboveListed(b, r - 1);
      RowAnchorsListed(b, r - 1, |b|);
      var above, row := AnchorsAbove(b, r - 1), RowAnchors(b, r - 1, |b|);
      assert AnchorsAbove(b, r) == above + row;
      forall r', c' | 0 <= r' < r && Get(b, r', c').Letter?
        ensures Anchor(r', c', Get(b, r', c').ch) in above + row
      {
        if r' == r - 1 {
          assert InRange(b, r', c');
          assert Anchor(r', c', Get(b, r', c').ch) in row;
        } else {
          assert Anchor(r', c', Get(b, r', c').ch) in above;
        }
      }
      var all := above + row;
      forall k, l | 0 <= k < l < |all| ensures ReadingBefore(all[k].r, all[k].c, all[l].r, all[l].c) {
        if l < |above| {
          assert all[k] == above[k] && all[l] == above[l];
        } else if k < |above| {
          assert all[k] == above[k] && all[l] == row[l - |above|];
        } else {
          assert all[k] == row[k - |above|] && all[l] == row[l - |above|];
        }
      }
    }
  }

  /** The anchors of a square board list exactly its filled cells, in strict reading order. */
  lemma AnchorsOfListed(b: Board)
    requires IsSquare(b)
    ensures ListsFilled(b, AnchorsOf(b))
    ensures forall k, l :: 0 <= k < l < |AnchorsOf(b)| ==> ReadingBefore(AnchorsOf(b)[k].r, AnchorsOf(b)[k].c, AnchorsOf(b)[l].r, AnchorsOf(b)[l].c)
  {
    AnchorsAboveListed(b, |b|);
    forall r, c | Get(b, r, c).Letter? ensures Anchor(r, c, Get(b, r, c).ch) in AnchorsOf(b) {
      assert InRange(b, r, c);
    }
  }

  /** Lines 133-140: the filled cells in reading order. */
  method CollectAnchors(g: array2<Cell>) returns (anchors: seq<Anchor>)
    requires g.Length0 == g.Length1
    ensures anchors == AnchorsOf(Cells(g))
    ensures ListsFilled(Cells(g), anchors)
    ensures forall k, l :: 0 <= k < l < |anchors| ==> ReadingBefore(anchors[k].r, anchors[k].c, anchors[l].r, anchors[l].c)
  {
    ghost var b := Cells(g);
    anchors := [];
    for r := 0 to g.Length0
      invariant anchors == AnchorsAbove(b, r)
    {
      for c := 0 to g.Length1
        invariant anchors == AnchorsAbove(b, r) + RowAnchors(b, r, c)
      {
        assert Get(b, r, c) == g[r, c];
        if g[r, c] != Empty {
          anchors := anchors + [Anchor(r, c, g[r, c].ch)];
        }
      }
    }
    AnchorsOfListed(b);
  }

  /** The offsets below `i` at which `word` has `letter`, in increasing order. */
  function OffsetsBelow(word: string, letter: char, i: nat): seq<int>
    requires i <= |word|
  {
    if i == 0 then [] else OffsetsBelow(word, letter, i - 1) + (if word[i - 1] == letter then [i - 1] else [])
  }

  /** Line 148 as a value: every offset at which `word` has `letter`, in increasing order. */
  function Offsets(word: string, letter: char): seq<int>
  {
    OffsetsBelow(word, letter, |word|)
  }

  /** Where the word goes: start row, start column and direction. */
  datatype Spot = Spot(row: int, col: int, dir: Direction)

  /**
   * Lines 150-184 for one anchor as a value: the first offset of `idx`
   * at which the word, with that letter on `a`, passes the placement
   * rule across or, failing that, down.
   */
  function FitAt(rule: Rule, b: Board, word: string, a: Anchor, idx: seq<int>): Option<Spot>
  {
    if idx == [] then None
    else if Allows(rule, b, word, StartRow(a, idx[0], Across), StartCol(a, idx[0], Across), Across) then
      Some(Spot(StartRow(a, idx[0], Across), StartCol(a, idx[0], Across), Across))
    else if Allows(rule, b, word, StartRow(a, idx[0], Down), StartCol(a, idx[0], Down), Down) then
      Some(Spot(StartRow(a, idx[0], Down), StartCol(a, idx[0], Down), Down))
    else FitAt(rule, b, word, a, idx[1..])
  }

  /**
   * Lines 145-188 as a value: the anchors in the given order, each with
   * the offsets of its letter; the first spot found wins, None if there
   * is none.
   */
  function FirstFit(rule: Rule, b: Board, word: string, order: seq<Anchor>): Option<Spot>
  {
    if order == [] then None
    else match FitAt(rule, b, word, order[0], Offsets(word, order[0].letter))
      case Some(s) => Some(s)
      case None => FirstFit(rule, b, word, order[1..])
  }

  /** Line 148: the offsets at which `word` has `letter`, in increasing order. */
  method LetterIndices(word: string, letter: char) returns (idx: seq<int>)
    ensures idx == Offsets(word, letter)
    ensures forall m :: 0 <= m < |idx| ==> 0 <= idx[m] < |word| && word[idx[m]] == letter
    ensures forall i :: 0 <= i < |word| && word[i] == letter ==> i in idx
    ensures forall m, n :: 0 <= m < n < |idx| ==> idx[m] < idx[n]
  {
    idx := [];
    for i := 0 to |word|
      invariant idx == OffsetsBelow(word, letter, i)
    {
      if word[i] == letter {
        idx := idx + [i];
      }
    }
    OffsetsBelowListed(word, letter, |word|);
  }

  /** The offsets below `i` are exactly the positions below `i` holding `letter`, in increasing order. */
  lemma {:induction false} OffsetsBelowListed(word: string, letter: char, i: nat)
    requires i <= |word|
    ensures forall m :: 0 <= m < |OffsetsBelow(word, letter, i)| ==>
      0 <= OffsetsBelow(word, letter, i)[m] < i && word[OffsetsBelow(word, letter, i)[m]] == letter
    ensures forall j :: 0 <= j < i && word[j] == letter ==> j in OffsetsBelow(word, letter, i)
    ensures forall m, n :: 0 <= m < n < |OffsetsBelow(word, letter, i)| ==>
      OffsetsBelow(word, letter, i)[m] < OffsetsBelow(word, letter, i)[n]
  {
    if i > 0 {
      OffsetsBelowListed(word, letter, i - 1);
    }
  }

  /**
   * Lines 145-188: try the anchors in the given order; for each, the
   * offsets of its letter in increasing order; for each, across and then
   * down. The first placement that passes the placement rule is returned, so
   * every combination before it failed; when none is found, every
   * combination failed. `k` and `off` name the winning anchor and offset.
   */
  method FindPlacement(rule: Rule, g: array2<Cell>, word: string, anchors: seq<Anchor>)
    returns (found: bool, row: int, col: int, dir: Direction, ghost k: nat, ghost off: nat)
    requires g.Length0 == g.Length1
    requires forall q :: 0 <= q < |anchors| ==> 0 <= anchors[q].r < g.Length0 && 0 <= anchors[q].c < g.Length0
    ensures found <==> FirstFit(rule, Cells(g), word, anchors).Some?
    ensures found ==> FirstFit(rule, Cells(g), word, anchors) == Some(Spot(row, col, dir))
    ensures !found ==> forall q :: 0 <= q < |anchors| ==> Blocked(rule, Cells(g), word, anchors[q])
    ensures found ==> k < |anchors| && off < |word| && word[off] == anchors[k].letter
    ensures found ==> row == StartRow(anchors[k], off, dir) && col == StartCol(anchors[k], off, dir)
    ensures found ==> Allows(rule, Cells(g), word, row, col, dir)
    ensures found ==> forall q :: 0 <= q < k ==> Blocked(rule, Cells(g), word, anchors[q])
    ensures found ==> forall i :: 0 <= i < off && word[i] == anchors[k].letter ==> Tried(rule, Cells(g), word, anchors[k], i)
    ensures found && dir == Down ==>
      !Allows(rule, Cells(g), word, StartRow(anchors[k], off, Across), StartCol(anchors[k], off, Across), Across)
  {
    found, row, col, dir, k, off := false, 0, 0, Across, 0, 0;
    var p := 0;
    while p < |anchors|
      invariant 0 <= p <= |anchors|
      invariant forall q :: 0 <= q < p ==> Blocked(rule, Cells(g), word, anchors[q])
      invariant FirstFit(rule, Cells(g), word, anchors[p..]) == FirstFit(rule, Cells(g), word, anchors)
    {
      assert anchors[p..][1..] == anchors[p + 1..];
      found, row, col, dir, off := TryAnchor(rule, g, word, anchors[p]);
      if found {
        k := p;
        return;
      }
      p := p + 1;
    }
  }

  /**
   * Lines 145-185 for one anchor: each offset at which the word has the
   * anchor's letter, in increasing order, first across and then down; the
   * first that fits is taken. When none fits the anchor is blocked.
   */
  method TryAnchor(rule: Rule, g: array2<Cell>, word: string, a: Anchor)
    returns (found: bool, row: int, col: int, dir: Direction, ghost off: nat)
    requires g.Length0 == g.Length1
    requires 0 <= a.r < g.Length0 && 0 <= a.c < g.Length0
    ensures found <==> FitAt(rule, Cells(g), word, a, Offsets(word, a.letter)).Some?
    ensures found ==> FitAt(rule, Cells(g), word, a, Offsets(word, a.letter)) == Some(Spot(row, col, dir))
    ensures !found ==> Blocked(rule, Cells(g), word, a)
    ensures found ==> off < |word| && word[off] == a.letter
    ensures found ==> row == StartRow(a, off, dir) && col == StartCol(a, off, dir)
    ensures found ==> Allows(rule, Cells(g), word, row, col, dir)
    ensures found ==> forall i :: 0 <= i < off && word[i] == a.letter ==> Tried(rule, Cells(g), word, a, i)
    ensures found && dir == Down ==>
      !Allows(rule, Cells(g), word, StartRow(a, off, Across), StartCol(a, off, Across), Across)
  {
    ghost var b := Cells(g);
    found, row, col, dir, off := false, 0, 0, Across, 0;
    var letterIndices := LetterIndices(word, a.letter);
    var m := 0;
    while m < |letterIndices| && !found
      invariant 0 <= m <= |letterIndices|
      invariant !found ==> FitAt(rule, b, word, a, letterIndices[m..]) == FitAt(rule, b, word, a, letterIndices)
      invariant found ==> FitAt(rule, b, word, a, letterIndices) == Some(Spot(row, col, dir))
      decreases |letterIndices| - m, !found
    {
      var i := letterIndices[m];
      assert letterIndices[m..][0] == i && letterIndices[m..][1..] == letterIndices[m + 1..];
      var ok := CheckPlacement(rule, g, word, StartRow(a, i, Across), StartCol(a, i, Across), Across);
      if ok {
        found, row, col, dir := true, StartRow(a, i, Across), StartCol(a, i, Across), Across;
      } else {
        ok := CheckPlacement(rule, g, word, StartRow(a, i, Down), StartCol(a, i, Down), Down);
        if ok {
          found, row, col, dir := true, StartRow(a, i, Down), StartCol(a, i, Down), Down;
        } else {
          m := m + 1;
        }
      }
    }
    if found {
      FitAtOffsets(rule, b, word, a, Spot(row, col, dir));
      off := SpotOffset(a, Spot(row, col, dir));
    } else {
      FitAtBlocked(rule, b, word, a);
    }
  }

  /**
   * The spot FitAt finds over the offsets of the anchor's letter crosses
   * the anchor at an offset holding that letter, passes the placement
   * rule, and every earlier offset holding the letter failed both
   * ways; a spot going down means across failed at the same offset.
   */
  lemma {:induction false} FitAtOffsets(rule: Rule, b: Board, word: string, a: Anchor, s: Spot)
    requires FitAt(rule, b, word, a, Offsets(word, a.letter)) == Some(s)
    ensures 0 <= SpotOffset(a, s) < |word| && word[SpotOffset(a, s)] == a.letter
    ensures s.row == StartRow(a, SpotOffset(a, s), s.dir) && s.col == StartCol(a, SpotOffset(a, s), s.dir)
    ensures Allows(rule, b, word, s.row, s.col, s.dir)
    ensures forall i :: 0 <= i < SpotOffset(a, s) && word[i] == a.letter ==> Tried(rule, b, word, a, i)
    ensures s.dir == Down ==>
      !Allows(rule, b, word, StartRow(a, SpotOffset(a, s), Across), StartCol(a, SpotOffset(a, s), Across), Across)
  {
    var idx := Offsets(word, a.letter);
    OffsetsBelowListed(word, a.letter, |word|);
    FitAtFirst(rule, b, word, a, idx, s);
    forall i | 0 <= i < SpotOffset(a, s) && word[i] == a.letter ensures Tried(rule, b, word, a, i) {
      var n :| 0 <= n < |idx| && idx[n] == i;
    }
  }

  /** When FitAt finds nothing over the offsets of the anchor's letter, the anchor is blocked. */
  lemma {:induction false} FitAtBlocked(rule: Rule, b: Board, word: string, a: Anchor)
    requires FitAt(rule, b, word, a, Offsets(word, a.letter)) == None
    ensures Blocked(rule, b, word, a)
  {
    var idx := Offsets(word, a.letter);
    OffsetsBelowListed(word, a.letter, |word|);
    FitAtNone(rule, b, word, a, idx);
    forall i | 0 <= i < |word| && word[i] == a.letter ensures Tried(rule, b, word, a, i) {
      var n :| 0 <= n < |idx| && idx[n] == i;
    }
  }

  /** The offset along the word of the anchor a spot crosses. */
  function SpotOffset(a: Anchor, s: Spot): int
  {
    if s.dir == Across then a.c - s.col else a.r - s.row
  }

  /**
   * With offsets in increasing order, the spot FitAt returns puts one of
   * them on the anchor, passes the placement rule, and every smaller
   * offset failed both ways; it goes down only when across failed at the
   * same offset.
   */
  lemma {:induction false} FitAtFirst(rule: Rule, b: Board, word: string, a: Anchor, idx: seq<int>, s: Spot)
    requires forall m, n :: 0 <= m < n < |idx| ==> idx[m] < idx[n]
    requires FitAt(rule, b, word, a, idx) == Some(s)
    ensures SpotOffset(a, s) in idx
    ensures s.row == StartRow(a, SpotOffset(a, s), s.dir) && s.col == StartCol(a, SpotOffset(a, s), s.dir)
    ensures Allows(rule, b, word, s.row, s.col, s.dir)
    ensures forall n :: 0 <= n < |idx| && idx[n] < SpotOffset(a, s) ==> Tried(rule, b, word, a, idx[n])
    ensures s.dir == Down ==>
      !Allows(rule, b, word, StartRow(a, SpotOffset(a, s), Across), StartCol(a, SpotOffset(a, s), Across), Across)
  {
    var i := idx[0];
    if Allows(rule, b, word, StartRow(a, i, Across), StartCol(a, i, Across), Across) {
      assert SpotOffset(a, s) == i;
    } else if Allows(rule, b, word, StartRow(a, i, Down), StartCol(a, i, Down), Down) {
      assert SpotOffset(a, s) == i;
    } else {
      FitAtFirst(rule, b, word, a, idx[1..], s);
      forall n | 0 <= n < |idx| && idx[n] < SpotOffset(a, s) ensures Tried(rule, b, word, a, idx[n]) {
        if n > 0 { assert idx[n] == idx[1..][n - 1]; }
      }
    }
  }

  /** When FitAt finds nothing, every offset failed both ways. */
  lemma {:induction false} FitAtNone(rule: Rule, b: Board, word: string, a: Anchor, idx: seq<int>)
    requires FitAt(rule, b, word, a, idx) == None
    ensures forall n :: 0 <= n < |idx| ==> Tried(rule, b, word, a, idx[n])
  {
    if idx != [] {
      FitAtNone(rule, b, word, a, idx[1..]);
      assert forall n :: 1 <= n < |idx| ==> idx[n] == idx[1..][n - 1];
    }
  }

  /**
   * Lines 109-113: the seed's start column, `size/2 - len/2` clamped to
   * `[0, size - len]`; a word no longer than the grid then fits.
   */
  function SeedColumn(size: int, len: int): (c: int)
    ensures len <= size ==> 0 <= c && c + len <= size
    ensures 0 <= size / 2 - len / 2 <= size - len ==> c == size / 2 - len / 2
  {
    var startCol := size / 2 - len / 2;
    if size - len < startCol then (if size - len < 0 then 0 else size - len)
    else if startCol < 0 then 0 else startCol
  }

  /** Entry `w` comes from the corpus: some entry has its word and its clue. */
  ghost predicate FromCorpus(dict: seq<DictionaryEntry>, w: WordPosition)
  {
    exists j :: 0 <= j < |dict| && dict[j].word == w.word && dict[j].clue == w.clue
  }

  /**
   * What an attempt keeps true of its grid and word list: the grid agrees
   * with every word, every letter belongs to a word, two adjacent letters
   * always belong to one word along their line, no word of two or more
   * letters has a letter just before or after it, the filled rows and
   * the filled columns are each one interval, every word lies in the grid,
   * no word appears twice, every word comes from the corpus, there are at
   * most `target + 5` words, and unless the grid is blank no word is empty.
   */
  ghost predicate AttemptOk(rule: Rule, b: Board, words: seq<WordPosition>, dict: seq<DictionaryEntry>, target: nat)
  {
    && IsSquare(b)
    && 1 <= |words| <= target + 5
    && Consistent(b, words)
    && Covered(b, words)
    && NoFragments(b, words)
    && Enclosed(b, words)
    && (rule == Corrected ==> CapsOpen(b, words))
    && Gapless(b)
    && (forall k :: 0 <= k < |words| ==>
          InGrid(|b|, |words[k].word|, words[k].row, words[k].col, words[k].direction))
    && DistinctWords(words)
    && (forall k :: 0 <= k < |words| ==> FromCorpus(dict, words[k]))
    && (Blank(b) || forall k :: 0 <= k < |words| ==> |words[k].word| > 0)
  }

  /** The grid and word list right after the seed is placed satisfy the attempt invariant. */
  lemma {:induction false} SeedOk(rule: Rule, b: Board, dict: seq<DictionaryEntry>, target: nat, seed: WordPosition)
    requires IsSquare(b) && Blank(b)
    requires InGrid(|b|, |seed.word|, seed.row, seed.col, seed.direction)
    requires FromCorpus(dict, seed)
    ensures AttemptOk(rule, Write(b, seed.word, seed.row, seed.col, seed.direction), [seed], dict, target)
  {
    var b' := Write(b, seed.word, seed.row, seed.col, seed.direction);
    BlankCrossable(b, seed.word, seed.row, seed.col, seed.direction);
    WriteKeepsConsistent(b, [], seed);
    assert [] + [seed] == [seed];
    WriteKeepsCovered(b, [], seed);
    BlankNoFragments(b, []);
    WriteKeepsNoFragments(b, [], seed);
    WriteKeepsEnclosed(b, [], seed);
    WriteKeepsCaps(b, [], seed);
    BlankGapless(b);
    WriteKeepsGapless(b, seed.word, seed.row, seed.col, seed.direction, 0, 0);
    if |seed.word| == 0 {
      forall r, c | InRange(b', r, c) ensures b'[r][c] == Empty {
        assert Get(b', r, c) == Get(b, r, c);
      }
    }
  }

  /**
   * One greedy step keeps the attempt invariant: a new corpus word `w`
   * (its word not yet placed) that passes the placement rule and
   * crosses the filled cell `(ar, ac)`.
   */
  lemma {:induction false} PlaceOk(rule: Rule, b: Board, words: seq<WordPosition>, dict: seq<DictionaryEntry>, target: nat,
                                   w: WordPosition, ar: int, ac: int)
    requires AttemptOk(rule, b, words, dict, target)
    requires |words| < target + 5
    requires w.word !in WordSet(words)
    requires FromCorpus(dict, w)
    requires Allows(rule, b, w.word, w.row, w.col, w.direction)
    requires InLane(|b|, w.row, w.col, w.direction)
    requires Get(b, ar, ac).Letter? && OnPath(|w.word|, w.row, w.col, w.direction, ar, ac)
    ensures AttemptOk(rule, Write(b, w.word, w.row, w.col, w.direction), words + [w], dict, target)
  {
    var b' := Write(b, w.word, w.row, w.col, w.direction);
    var ws := words + [w];
    assert forall k :: 0 <= k < |words| ==> words[k].word in WordSet(words);
    WriteKeepsConsistent(b, words, w);
    WriteKeepsCovered(b, words, w);
    WriteKeepsNoFragments(b, words, w);
    WriteKeepsEnclosed(b, words, w);
    if rule == Corrected {
      WriteKeepsCaps(b, words, w);
    }
    assert InRange(b, ar, ac);
    WriteKeepsGapless(b, w.word, w.row, w.col, w.direction, ar, ac);
    assert !Blank(b);
    forall k | 0 <= k < |ws| ensures FromCorpus(dict, ws[k]) {
      if k < |words| { assert ws[k] == words[k]; }
    }
  }

  /**
   * Lines 131-188 as a value: the spot chosen for `word`, the corpus entry
   * at index `k` of attempt `attempt`, on grid `b`; the filled cells are
   * tried in the order the shuffle gives them.
   */
  function Choice(rule: Rule, b: Board, word: string, shuffle: AnchorShuffle, attempt: nat, k: nat): Option<Spot>
  {
    FirstFit(rule, b, word, shuffle(attempt, k, AnchorsOf(b)))
  }

  /** A reordering of the listed filled cells lists filled cells only. */
  lemma ReorderedFilled(b: Board, anchors: seq<Anchor>, order: seq<Anchor>)
    requires ListsFilled(b, anchors) && multiset(order) == multiset(anchors)
    ensures forall q :: 0 <= q < |order| ==>
      InRange(b, order[q].r, order[q].c) && Get(b, order[q].r, order[q].c) == Letter(order[q].letter)
  {
    forall q | 0 <= q < |order|
      ensures InRange(b, order[q].r, order[q].c) && Get(b, order[q].r, order[q].c) == Letter(order[q].letter)
    {
      assert order[q] in multiset(anchors);
    }
  }

  /**
   * When every anchor of a reordering of the filled cells is blocked, no
   * filled cell admits the word at any offset holding its letter.
   */
  lemma ReorderedBlocked(rule: Rule, b: Board, word: string, anchors: seq<Anchor>, order: seq<Anchor>)
    requires ListsFilled(b, anchors) && multiset(order) == multiset(anchors)
    requires forall q :: 0 <= q < |order| ==> Blocked(rule, b, word, order[q])
    ensures forall r, c, i :: 0 <= i < |word| && Get(b, r, c) == Letter(word[i]) ==>
      Tried(rule, b, word, Anchor(r, c, word[i]), i)
  {
    forall r, c, i | 0 <= i < |word| && Get(b, r, c) == Letter(word[i])
      ensures Tried(rule, b, word, Anchor(r, c, word[i]), i)
    {
      var x := Anchor(r, c, word[i]);
      assert x in multiset(order);
      var q :| 0 <= q < |order| && order[q] == x;
      assert Blocked(rule, b, word, order[q]);
    }
  }

  /**
   * Lines 131-188, for one corpus entry: collect the anchors, let `shuffle`
   * order them, and place the word at the first spot through an anchor
   * that passes the placement rule, which is the spot Choice gives. When
   * it is placed, it passed the rule on the grid as it was and crosses the
   * filled cell `(ar, ac)`; when it is not, the grid is unchanged and no filled cell
   * admits the word at any matching offset in either direction.
   */
  method PlaceEntry(rule: Rule, g: array2<Cell>, entry: DictionaryEntry, shuffle: AnchorShuffle, attempt: nat, k: nat)
    returns (placed: bool, w: WordPosition, ghost ar: int, ghost ac: int)
    requires g.Length0 == g.Length1
    requires Reorders(shuffle)
    modifies g
    ensures placed <==> Choice(rule, old(Cells(g)), entry.word, shuffle, attempt, k).Some?
    ensures placed ==> Choice(rule, old(Cells(g)), entry.word, shuffle, attempt, k) == Some(Spot(w.row, w.col, w.direction))
    ensures placed ==>
      && w == WordPosition(entry.word, w.row, w.col, w.direction, entry.clue, 0)
      && Allows(rule, old(Cells(g)), w.word, w.row, w.col, w.direction)
      && InLane(g.Length0, w.row, w.col, w.direction)
      && Get(old(Cells(g)), ar, ac).Letter? && OnPath(|w.word|, w.row, w.col, w.direction, ar, ac)
      && Cells(g) == Write(old(Cells(g)), w.word, w.row, w.col, w.direction)
    ensures !placed ==> Cells(g) == old(Cells(g))
    ensures !placed ==> forall r, c, i :: 0 <= i < |entry.word| && Get(old(Cells(g)), r, c) == Letter(entry.word[i]) ==>
      Tried(rule, old(Cells(g)), entry.word, Anchor(r, c, entry.word[i]), i)
  {
    ghost var b := Cells(g);
    var anchors := CollectAnchors(g);
    var order := shuffle(attempt, k, anchors);
    assert ReordersAt(shuffle, attempt, k, anchors);
    ReorderedFilled(b, anchors, order);
    var found: bool, row: int, col: int, dir: Direction;
    ghost var ak: nat, off: nat;
    found, row, col, dir, ak, off := FindPlacement(rule, g, entry.word, order);
    w := WordPosition(entry.word, row, col, dir, entry.clue, 0);
    ar, ac := 0, 0;
    if found {
      ghost var a := order[ak];
      assert RowAt(row, dir, off) == a.r && ColAt(col, dir, off) == a.c;
      ar, ac := a.r, a.c;
      PlaceWordOnGrid(g, entry.word, row, col, dir);
      placed := true;
    } else {
      ReorderedBlocked(rule, b, entry.word, anchors, order);
      placed := false;
    }
  }

  /** The words placed so far, as the source's `placedWords` set holds them. */
  function WordSet(words: seq<WordPosition>): set<string>
  {
    set j | 0 <= j < |words| :: words[j].word
  }

  /** The seed of an attempt (lines 108-123): `e` across the middle row, centred and clamped. */
  function SeedWord(size: nat, e: DictionaryEntry): WordPosition
  {
    WordPosition(e.word, size / 2, SeedColumn(size, |e.word|), Across, e.clue, 1)
  }

  /**
   * Lines 127-188 as a value, from corpus index `k` on, with grid `b` and
   * word list `words`: the grid and word list the walk over the corpus
   * ends with.
   */
  function AttemptFrom(rule: Rule, b: Board, words: seq<WordPosition>, dict: seq<DictionaryEntry>, target: nat,
                       shuffle: AnchorShuffle, attempt: nat, k: nat): (Board, seq<WordPosition>)
    decreases |dict| - k, 1
  {
    if k >= |dict| then (b, words) else Next(rule, b, words, dict, target, shuffle, attempt, k)
  }

  /**
   * Corpus entry `k` and then the rest of the walk: an entry whose word is
   * already placed is skipped; once `target + 5` words are placed the walk
   * stops; otherwise the word goes where Choice puts it, or is skipped
   * when Choice finds no spot.
   */
  function Next(rule: Rule, b: Board, words: seq<WordPosition>, dict: seq<DictionaryEntry>, target: nat,
                shuffle: AnchorShuffle, attempt: nat, k: nat): (Board, seq<WordPosition>)
    requires k < |dict|
    decreases |dict| - k, 0
  {
    if dict[k].word in WordSet(words) then AttemptFrom(rule, b, words, dict, target, shuffle, attempt, k + 1)
    else if |words| >= target + 5 then (b, words)
    else match Choice(rule, b, dict[k].word, shuffle, attempt, k)
      case None => AttemptFrom(rule, b, words, dict, target, shuffle, attempt, k + 1)
      case Some(s) =>
        AttemptFrom(rule, Write(b, dict[k].word, s.row, s.col, s.dir),
                    words + [WordPosition(dict[k].word, s.row, s.col, s.dir, dict[k].clue, 0)],
                    dict, target, shuffle, attempt, k + 1)
  }

  /** An entry whose word is already placed, or that Choice finds no spot for, leaves the walk as it is. */
  lemma EntrySkipped(rule: Rule, b: Board, words: seq<WordPosition>, dict: seq<DictionaryEntry>, target: nat,
                     shuffle: AnchorShuffle, attempt: nat, k: nat)
    requires k < |dict|
    requires dict[k].word in WordSet(words) ||
             (|words| < target + 5 && Choice(rule, b, dict[k].word, shuffle, attempt, k).None?)
    ensures AttemptFrom(rule, b, words, dict, target, shuffle, attempt, k) ==
            AttemptFrom(rule, b, words, dict, target, shuffle, attempt, k + 1)
  {
  }

  /** A new word met once `target + 5` words are placed ends the walk. */
  lemma EntryStops(rule: Rule, b: Board, words: seq<WordPosition>, dict: seq<DictionaryEntry>, target: nat,
                   shuffle: AnchorShuffle, attempt: nat, k: nat)
    requires k < |dict| && dict[k].word !in WordSet(words) && |words| >= target + 5
    ensures AttemptFrom(rule, b, words, dict, target, shuffle, attempt, k) == (b, words)
  {
  }

  /** A new word placed where Choice puts it continues the walk from the written grid. */
  lemma EntryPlaced(rule: Rule, b: Board, words: seq<WordPosition>, dict: seq<DictionaryEntry>, target: nat,
                    shuffle: AnchorShuffle, attempt: nat, k: nat, w: WordPosition)
    requires k < |dict| && dict[k].word !in WordSet(words) && |words| < target + 5
    requires Choice(rule, b, dict[k].word, shuffle, attempt, k) == Some(Spot(w.row, w.col, w.direction))
    requires w == WordPosition(dict[k].word, w.row, w.col, w.direction, dict[k].clue, 0)
    ensures AttemptFrom(rule, b, words, dict, target, shuffle, attempt, k) ==
            AttemptFrom(rule, Write(b, w.word, w.row, w.col, w.direction), words + [w], dict, target, shuffle, attempt, k + 1)
  {
  }

  /**
   * One whole attempt (lines 102-189) as a value: the grid and the word
   * list it ends with, given the seed index it drew.
   */
  function AttemptResult(rule: Rule, size: nat, target: nat, dict: seq<DictionaryEntry>, seed: nat,
                         shuffle: AnchorShuffle, attempt: nat): (Board, seq<WordPosition>)
    requires seed < |dict|
  {
    var s := SeedWord(size, dict[seed]);
    AttemptFrom(rule, Write(EmptyBoard(size), s.word, s.row, s.col, s.direction), [s], dict, target, shuffle, attempt, 0)
  }

  /**
   * One attempt (lines 103-189). `seed` is the drawn seed index; the
   * anchor order for each corpus entry comes from `shuffle`. The seed
   * goes across the middle row without consulting `canPlaceWord`, which
   * is why every word must fit in the grid.
   */
  method RunAttempt(rule: Rule, size: nat, target: nat, dict: seq<DictionaryEntry>, seed: nat, shuffle: AnchorShuffle, attempt: nat)
    returns (g: array2<Cell>, words: seq<WordPosition>)
    requires 0 < size
    requires seed < |dict|
    requires forall j :: 0 <= j < |dict| ==> |dict[j].word| <= size
    requires Reorders(shuffle)
    ensures g.Length0 == size && g.Length1 == size
    ensures (Cells(g), words) == AttemptResult(rule, size, target, dict, seed, shuffle, attempt)
    ensures AttemptOk(rule, Cells(g), words, dict, target)
    ensures words[0] == SeedWord(size, dict[seed])
  {
    g := CreateEmptyGrid(size);
    var first := dict[seed];
    var center := size / 2;
    var safeStartCol := SeedColumn(size, |first.word|);
    var seedWord := WordPosition(first.word, center, safeStartCol, Across, first.clue, 1);
    ghost var b0 := Cells(g);
    PlaceWordOnGrid(g, first.word, center, safeStartCol, Across);
    words := [seedWord];
    SeedOk(rule, b0, dict, target, seedWord);
    var placedWords: set<string> := {first.word};
    assert placedWords == WordSet(words) by {
      assert words[0].word == first.word;
      assert forall x :: x in WordSet(words) ==> x == first.word;
    }
    ghost var result := AttemptResult(rule, size, target, dict, seed, shuffle, attempt);

    var k := 0;
    while k < |dict|
      invariant 0 <= k <= |dict|
      invariant g.Length0 == size && g.Length1 == size
      invariant AttemptOk(rule, Cells(g), words, dict, target)
      invariant words[0] == seedWord
      invariant placedWords == WordSet(words)
      invariant AttemptFrom(rule, Cells(g), words, dict, target, shuffle, attempt, k) == result
    {
      var stop: bool;
      words, placedWords, stop := WalkEntry(rule, g, dict, target, shuffle, attempt, k, words, placedWords);
      if stop {
        break;
      }
      k := k + 1;
    }
  }

  /**
   * Lines 128-188 for corpus entry `k`: a word already placed is skipped,
   * at `target + 5` words the walk stops, otherwise the word is placed
   * where PlaceEntry finds room, or skipped. The attempt invariant is
   * kept, and the walk from the new grid and list (from entry `k + 1`,
   * unless it stopped) ends where the walk from the old ones does.
   */
  method WalkEntry(rule: Rule, g: array2<Cell>, dict: seq<DictionaryEntry>, target: nat, shuffle: AnchorShuffle, attempt: nat, k: nat,
                   words: seq<WordPosition>, placedWords: set<string>)
    returns (words': seq<WordPosition>, placedWords': set<string>, stop: bool)
    requires g.Length0 == g.Length1
    requires k < |dict| && Reorders(shuffle)
    requires AttemptOk(rule, Cells(g), words, dict, target) && placedWords == WordSet(words)
    modifies g
    ensures AttemptOk(rule, Cells(g), words', dict, target) && placedWords' == WordSet(words')
    ensures words'[0] == words[0]
    ensures stop ==> AttemptFrom(rule, old(Cells(g)), words, dict, target, shuffle, attempt, k) == (Cells(g), words')
    ensures !stop ==> AttemptFrom(rule, old(Cells(g)), words, dict, target, shuffle, attempt, k) ==
                      AttemptFrom(rule, Cells(g), words', dict, target, shuffle, attempt, k + 1)
  {
    var entry := dict[k];
    ghost var b := Cells(g);
    words', placedWords', stop := words, placedWords, false;
    if entry.word in placedWords {
      EntrySkipped(rule, b, words, dict, target, shuffle, attempt, k);
      return;
    }
    if |words| >= target + 5 {
      EntryStops(rule, b, words, dict, target, shuffle, attempt, k);
      stop := true;
      return;
    }
    var placed: bool, w: WordPosition;
    ghost var ar: int, ac: int;
    placed, w, ar, ac := PlaceEntry(rule, g, entry, shuffle, attempt, k);
    if placed {
      EntryPlaced(rule, b, words, dict, target, shuffle, attempt, k, w);
      assert FromCorpus(dict, w) by { assert dict[k].word == w.word && dict[k].clue == w.clue; }
      PlaceOk(rule, b, words, dict, target, w, ar, ac);
      WordSetGrows(words, w);
      words' := words + [w];
      placedWords' := placedWords + {entry.word};
    } else {
      EntrySkipped(rule, b, words, dict, target, shuffle, attempt, k);
    }
  }

  /** The seed CAT across the middle row of a 10-square fills (5, 4), (5, 5) and (5, 6) and nothing else; CATS then passes the source's check laid from (5, 4) along it. */
  lemma CatSeeded(b: Board)
    requires b == Write(EmptyBoard(10), "CAT", 5, 4, Across)
    ensures forall r, c :: Get(b, r, c).Letter? ==> r == 5 && 4 <= c <= 6 && Get(b, r, c) == Letter("CAT"[c - 4])
    ensures Placeable(b, "CATS", 5, 4, Across)
  {
    var e := EmptyBoard(10);
    forall r, c
      ensures Get(b, r, c).Letter? ==> r == 5 && 4 <= c <= 6 && Get(b, r, c) == Letter("CAT"[c - 4])
    {
      if OnPath(3, 5, 4, Across, r, c) {
        assert RowAt(5, Across, c - 4) == r && ColAt(4, Across, c - 4) == c;
      } else {
        assert Get(b, r, c) == Get(e, r, c);
      }
    }
    assert Get(b, 5, 3) == Get(e, 5, 3) && Get(b, 5, 8) == Get(e, 5, 8);
    assert Get(b, 4, 7) == Get(e, 4, 7) && Get(b, 6, 7) == Get(e, 6, 7) && Get(b, 5, 7) == Get(e, 5, 7);
    forall i | 0 <= i < 4
      ensures LetterFits(b, "CATS"[i], RowAt(5, Across, i), ColAt(4, Across, i), Down)
    {
      assert RowAt(5, Across, i) == 5 && ColAt(4, Across, i) == 4 + i;
      assert i < 3 ==> "CATS"[i] == "CAT"[i];
    }
  }

  /** Whatever the anchor order, the source's check as written puts CATS along the seed CAT, from its first cell. */
  lemma CatsChosen(shuffle: AnchorShuffle, attempt: nat)
    requires Reorders(shuffle)
    ensures Choice(AsWritten, Write(EmptyBoard(10), "CAT", 5, 4, Across), "CATS", shuffle, attempt, 1) == Some(Spot(5, 4, Across))
  {
    var b := Write(EmptyBoard(10), "CAT", 5, 4, Across);
    var order := shuffle(attempt, 1, AnchorsOf(b));
    assert ReordersAt(shuffle, attempt, 1, AnchorsOf(b));
    var i := FirstAnchorOnCat(b, order);
    AlongFit(b, order[0], i);
  }

  /** Any order of the seeded board's filled cells starts with one of CAT's letters. */
  lemma FirstAnchorOnCat(b: Board, order: seq<Anchor>) returns (i: int)
    requires b == Write(EmptyBoard(10), "CAT", 5, 4, Across)
    requires multiset(order) == multiset(AnchorsOf(b))
    ensures 0 <= i < 3 && 0 < |order| && order[0] == Anchor(5, 4 + i, "CAT"[i])
  {
    var anchors := AnchorsOf(b);
    assert ListsFilled(b, anchors) by { AnchorsOfListed(b); }
    assert Get(b, 5, 4) == Letter('C') by {
      assert RowAt(5, Across, 0) == 5 && ColAt(4, Across, 0) == 4;
    }
    assert Anchor(5, 4, 'C') in multiset(order);
    ReorderedFilled(b, anchors, order);
    var a := order[0];
    assert Get(b, a.r, a.c) == Letter(a.letter);
    CatSeeded(b);
    assert a.r == 5 && 4 <= a.c <= 6 && Letter(a.letter) == Letter("CAT"[a.c - 4]);
    i := a.c - 4;
  }

  /** Any letter of CAT on the seeded board, as anchor, gives CATS the spot along CAT from (5, 4). */
  lemma AlongFit(b: Board, a: Anchor, i: int)
    requires b == Write(EmptyBoard(10), "CAT", 5, 4, Across)
    requires 0 <= i < 3 && a == Anchor(5, 4 + i, "CAT"[i])
    ensures FitAt(AsWritten, b, "CATS", a, Offsets("CATS", a.letter)) == Some(Spot(5, 4, Across))
  {
    CatSeeded(b);
    CatsOffsets();
    assert Offsets("CATS", a.letter) == [i];
    assert StartRow(a, i, Across) == 5 && StartCol(a, i, Across) == 4;
  }

  /** Each letter of CAT occurs once in CATS, at its place in CAT. */
  lemma CatsOffsets()
    ensures Offsets("CATS", 'C') == [0] && Offsets("CATS", 'A') == [1] && Offsets("CATS", 'T') == [2]
  {
    var w := "CATS";
    assert w[0] == 'C' && w[1] == 'A' && w[2] == 'T' && w[3] == 'S';
    assert OffsetsBelow(w, 'C', 1) == [0] && OffsetsBelow(w, 'A', 1) == [] && OffsetsBelow(w, 'T', 1) == [];
    assert OffsetsBelow(w, 'C', 2) == [0] && OffsetsBelow(w, 'A', 2) == [1] && OffsetsBelow(w, 'T', 2) == [];
    assert OffsetsBelow(w, 'C', 3) == [0] && OffsetsBelow(w, 'A', 3) == [1] && OffsetsBelow(w, 'T', 3) == [2];
  }

  /**
   * One attempt of the source as written, on the Easy grid, over the
   * corpus CAT then CATS, seeded with CAT: whatever the anchor order,
   * CATS is laid from CAT's first cell along CAT, so the word list holds
   * both words on one run and CAT's end cap is filled.
   */
  lemma AlongAttempt(target: nat, shuffle: AnchorShuffle, attempt: nat, cat: DictionaryEntry, cats: DictionaryEntry)
    requires Reorders(shuffle)
    requires cat.word == "CAT" && cats.word == "CATS"
    ensures AttemptResult(AsWritten, 10, target, [cat, cats], 0, shuffle, attempt).1 ==
      [WordPosition("CAT", 5, 4, Across, cat.clue, 1), WordPosition("CATS", 5, 4, Across, cats.clue, 0)]
    ensures !CapsOpen(AttemptResult(AsWritten, 10, target, [cat, cats], 0, shuffle, attempt).0,
                      AttemptResult(AsWritten, 10, target, [cat, cats], 0, shuffle, attempt).1)
  {
    AlongWalk(target, shuffle, attempt, cat, cats);
    AlongCapFilled(cat.clue, cats.clue);
  }

  /** The walk of that attempt: CAT is skipped as the seed, and CATS is written along it. */
  lemma {:induction false} AlongWalk(target: nat, shuffle: AnchorShuffle, attempt: nat, cat: DictionaryEntry, cats: DictionaryEntry)
    requires Reorders(shuffle)
    requires cat.word == "CAT" && cats.word == "CATS"
    ensures AttemptResult(AsWritten, 10, target, [cat, cats], 0, shuffle, attempt) ==
      (Write(Write(EmptyBoard(10), "CAT", 5, 4, Across), "CATS", 5, 4, Across),
       [WordPosition("CAT", 5, 4, Across, cat.clue, 1), WordPosition("CATS", 5, 4, Across, cats.clue, 0)])
  {
    var dict := [cat, cats];
    var s := SeedWord(10, cat);
    var w := WordPosition("CATS", 5, 4, Across, cats.clue, 0);
    assert [s] + [w] == [s, w];
    assert SeedColumn(10, 3) == 4;
    assert s == WordPosition("CAT", 5, 4, Across, cat.clue, 1);
    var b := Write(EmptyBoard(10), "CAT", 5, 4, Across);
    assert WordSet([s]) == {"CAT"} by {
      assert [s][0] == s;
      assert forall x :: x in WordSet([s]) ==> x == "CAT";
    }
    EntrySkipped(AsWritten, b, [s], dict, target, shuffle, attempt, 0);
    CatsChosen(shuffle, attempt);
    EntryPlaced(AsWritten, b, [s], dict, target, shuffle, attempt, 1, w);
    var b' := Write(b, "CATS", 5, 4, Across);
    assert AttemptFrom(AsWritten, b', [s, w], dict, target, shuffle, attempt, 2) == (b', [s, w]);
  }

  /** With CATS written along CAT, CAT's end cap (5, 7) holds the S of CATS. */
  lemma AlongCapFilled(clue: string, clue': string)
    ensures !CapsOpen(Write(Write(EmptyBoard(10), "CAT", 5, 4, Across), "CATS", 5, 4, Across),
                      [WordPosition("CAT", 5, 4, Across, clue, 1), WordPosition("CATS", 5, 4, Across, clue', 0)])
  {
    var b' := Write(Write(EmptyBoard(10), "CAT", 5, 4, Across), "CATS", 5, 4, Across);
    var s := WordPosition("CAT", 5, 4, Across, clue, 1);
    assert Get(b', 5, 7) == Letter('S') by {
      assert RowAt(5, Across, 3) == 5 && ColAt(4, Across, 3) == 7;
    }
    assert RowAt(5, Across, |s.word|) == 5 && ColAt(4, Across, |s.word|) == 7;
    assert !CapsEmpty(b', [s, WordPosition("CATS", 5, 4, Across, clue', 0)][0]);
  }

  lemma WordSetGrows(words: seq<WordPosition>, w: WordPosition)
    ensures WordSet(words + [w]) == WordSet(words) + {w.word}
  {
    var ws := words + [w];
    assert ws[|words|] == w;
    forall x | x in WordSet(words) ensures x in WordSet(ws) {
      var j :| 0 <= j < |words| && words[j].word == x;
      assert ws[j] == words[j];
    }
  }
}
