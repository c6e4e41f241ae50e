/**
 * The working grid of one attempt, as a value: a square of cells that are
 * either empty (`null` in the source) or hold one letter. This module
 * states what the placement predicate means, what writing a word does, the
 * invariants an attempt keeps, and the lemmas that each placement keeps them.
 */
module Board {
  import opened Types

  datatype Cell = Empty | Letter(ch: char)

  /** Indexed `[row][col]`, like the source's `string[][]`. */
  type Board = seq<seq<Cell>>

  predicate IsSquare(b: Board)
  {
    forall r :: 0 <= r < |b| ==> |b[r]| == |b|
  }

  predicate InRange(b: Board, r: int, c: int)
  {
    0 <= r < |b| && 0 <= c < |b[r]|
  }

  /** The cell at `(r, c)`; a position off the grid reads as empty. */
  function Get(b: Board, r: int, c: int): Cell
  {
    if InRange(b, r, c) then b[r][c] else Empty
  }

  ghost predicate Blank(b: Board)
  {
    forall r, c :: InRange(b, r, c) ==> b[r][c] == Empty
  }

  /** The grid `createEmptyGrid(size)` returns. */
  function EmptyBoard(size: nat): (b: Board)
    ensures |b| == size && IsSquare(b) && Blank(b)
  {
    seq(size, _ => seq(size, _ => Empty))
  }

  /** The word starts at non-negative coordinates and does not run past `n` along its axis. */
  predicate Fits(n: int, len: int, row: int, col: int, dir: Direction)
  {
    0 <= row && 0 <= col && (if dir == Across then col + len <= n else row + len <= n)
  }

  /** The coordinate across the word's axis is below `n`; the placement predicate never checks it. */
  predicate InLane(n: int, row: int, col: int, dir: Direction)
  {
    if dir == Across then row < n else col < n
  }

  /**
   * Letter `ch` may go at `(r, c)` of a word whose perpendicular axis is
   * `side`: a filled cell must already hold `ch`; an empty cell must have
   * empty neighbours on both sides across the word.
   */
  predicate LetterFits(b: Board, ch: char, r: int, c: int, side: Direction)
  {
    match Get(b, r, c)
    case Letter(x) => x == ch
    case Empty =>
      Get(b, RowAt(r, side, -1), ColAt(c, side, -1)) == Empty &&
      Get(b, RowAt(r, side, 1), ColAt(c, side, 1)) == Empty
  }

  /**
   * The meaning of the source's `canPlaceWord`: the word lies inside the
   * grid, the cells just before and just after it along its axis are empty
   * or off the grid, and every letter fits (crossings agree, newly filled
   * cells have no perpendicular neighbours).
   */
  predicate Placeable(b: Board, word: string, row: int, col: int, dir: Direction)
  {
    && Fits(|b|, |word|, row, col, dir)
    && Get(b, RowAt(row, dir, -1), ColAt(col, dir, -1)) == Empty
    && Get(b, RowAt(row, dir, |word|), ColAt(col, dir, |word|)) == Empty
    && forall i :: 0 <= i < |word| ==>
         LetterFits(b, word[i], RowAt(row, dir, i), ColAt(col, dir, i), Flip(dir))
  }

  /**
   * No two consecutive letters of the word land on cells that already hold
   * letters: the word meets the placed words one cell at a time, at
   * crossings, and never runs along one of them.
   */
  predicate OnlyCrosses(b: Board, word: string, row: int, col: int, dir: Direction)
  {
    forall i :: 0 < i < |word| ==>
      !(Get(b, RowAt(row, dir, i - 1), ColAt(col, dir, i - 1)).Letter? &&
        Get(b, RowAt(row, dir, i), ColAt(col, dir, i)).Letter?)
  }

  /**
   * The placement rule the generator is designed to follow: the source's
   * check, and the word only crosses placed words. The source's check alone
   * also lets a word run along a placed word and over its end cap.
   */
  predicate Crossable(b: Board, word: string, row: int, col: int, dir: Direction)
  {
    Placeable(b, word, row, col, dir) && OnlyCrosses(b, word, row, col, dir)
  }

  /**
   * Which placement rule an attempt follows: the source's `canPlaceWord`
   * as written, or the corrected rule that also refuses a word running
   * along a placed word.
   */
  datatype Rule = AsWritten | Corrected

  /** The check the rule names accepts `word` at `(row, col)` along `dir`. */
  predicate Allows(rule: Rule, b: Board, word: string, row: int, col: int, dir: Direction)
  {
    Placeable(b, word, row, col, dir) && (rule == Corrected ==> OnlyCrosses(b, word, row, col, dir))
  }

  /** The grid after writing `word` at `(row, col)` along `dir` (the source's `placeWordOnGrid`). */
  function Write(b: Board, word: string, row: int, col: int, dir: Direction): (b': Board)
    ensures |b'| == |b| && forall r :: 0 <= r < |b| ==> |b'[r]| == |b[r]|
    ensures forall i :: 0 <= i < |word| && InRange(b, RowAt(row, dir, i), ColAt(col, dir, i)) ==>
              Get(b', RowAt(row, dir, i), ColAt(col, dir, i)) == Letter(word[i])
    ensures forall r, c :: !OnPath(|word|, row, col, dir, r, c) ==> Get(b', r, c) == Get(b, r, c)
  {
    seq(|b|, r requires 0 <= r < |b| =>
      seq(|b[r]|, c requires 0 <= c < |b[r]| =>
        if OnPath(|word|, row, col, dir, r, c) then Letter(word[Offset(row, col, dir, r, c)]) else b[r][c]))
  }

  /** Word `w` reads correctly on the grid: its `i`-th cell holds its `i`-th letter. */
  predicate Reads(b: Board, w: WordPosition)
  {
    forall i :: 0 <= i < |w.word| ==>
      Get(b, RowAt(w.row, w.direction, i), ColAt(w.col, w.direction, i)) == Letter(w.word[i])
  }

  /** The grid agrees with every placed word. */
  predicate Consistent(b: Board, words: seq<WordPosition>)
  {
    forall k :: 0 <= k < |words| ==> Reads(b, words[k])
  }

  /** If `(r, c)` is filled, it belongs to some placed word. */
  ghost predicate CoveredAt(b: Board, words: seq<WordPosition>, r: int, c: int)
  {
    InRange(b, r, c) && b[r][c].Letter? ==> exists k :: 0 <= k < |words| && OnWord(words[k], r, c)
  }

  /** Every filled cell belongs to some placed word. */
  ghost predicate Covered(b: Board, words: seq<WordPosition>)
  {
    forall r, c :: CoveredAt(b, words, r, c)
  }

  /** One placed word running along `dir` holds both `(r, c)` and the next cell along `dir`. */
  ghost predicate Joined(words: seq<WordPosition>, r: int, c: int, dir: Direction)
  {
    exists k :: 0 <= k < |words| && words[k].direction == dir &&
      OnWord(words[k], r, c) && OnWord(words[k], RowAt(r, dir, 1), ColAt(c, dir, 1))
  }

  /** If `(r, c)` and the next cell along `dir` both hold letters, one word along `dir` holds both. */
  ghost predicate JoinedAt(b: Board, words: seq<WordPosition>, r: int, c: int, dir: Direction)
  {
    Get(b, r, c).Letter? && Get(b, RowAt(r, dir, 1), ColAt(c, dir, 1)).Letter? ==> Joined(words, r, c, dir)
  }

  /**
   * No stray fragments: two letters side by side belong to one word
   * running across, and two letters one above the other to one word
   * running down.
   */
  ghost predicate NoFragments(b: Board, words: seq<WordPosition>)
  {
    forall r, c, dir :: JoinedAt(b, words, r, c, dir)
  }

  /** The cells just before and just after word `w` along its axis hold no letter. */
  predicate CapsEmpty(b: Board, w: WordPosition)
  {
    && Get(b, RowAt(w.row, w.direction, -1), ColAt(w.col, w.direction, -1)) == Empty
    && Get(b, RowAt(w.row, w.direction, |w.word|), ColAt(w.col, w.direction, |w.word|)) == Empty
  }

  /** No placed word of two or more letters runs into another letter end-to-end. */
  predicate CapsOpen(b: Board, words: seq<WordPosition>)
  {
    forall k {:trigger CapsEmpty(b, words[k])} :: 0 <= k < |words| && |words[k].word| >= 2 ==> CapsEmpty(b, words[k])
  }

  /**
   * Every placed word of two or more letters lies within a placed word
   * (itself, or one laid over it along the same line) whose end caps are
   * empty.
   */
  ghost predicate Enclosed(b: Board, words: seq<WordPosition>)
  {
    forall k :: 0 <= k < |words| ==> EnclosedAt(b, words, k)
  }

  /** The word of index `k`, if it has two or more letters, lies within a placed word with empty end caps. */
  ghost predicate EnclosedAt(b: Board, words: seq<WordPosition>, k: int)
    requires 0 <= k < |words|
  {
    |words[k].word| >= 2 ==>
      exists u :: 0 <= u < |words| && Inside(words[k], words[u]) && CapsEmpty(b, words[u])
  }

  ghost predicate RowFilled(b: Board, r: int)
  {
    exists c :: InRange(b, r, c) && b[r][c].Letter?
  }

  ghost predicate ColFilled(b: Board, c: int)
  {
    exists r :: InRange(b, r, c) && b[r][c].Letter?
  }

  /** The rows holding a letter form one interval, and so do the columns. */
  ghost predicate Gapless(b: Board)
  {
    && (forall r1, r, r2 :: r1 <= r <= r2 && RowFilled(b, r1) && RowFilled(b, r2) ==> RowFilled(b, r))
    && (forall c1, c, c2 :: c1 <= c <= c2 && ColFilled(b, c1) && ColFilled(b, c2) ==> ColFilled(b, c))
  }

  /** Rows (columns) crossed by the word's path. */
  predicate PathRow(len: int, row: int, dir: Direction, r: int)
  {
    if dir == Across then len > 0 && r == row else row <= r < row + len
  }

  predicate PathCol(len: int, col: int, dir: Direction, c: int)
  {
    if dir == Across then col <= c < col + len else len > 0 && c == col
  }

  /** The placed word lies inside the `n`-square. */
  predicate InGrid(n: int, len: int, row: int, col: int, dir: Direction)
  {
    Fits(n, len, row, col, dir) && InLane(n, row, col, dir)
  }

  lemma BoardExt(a: Board, b: Board)
    requires |a| == |b|
    requires forall r :: 0 <= r < |a| ==> |a[r]| == |b[r]|
    requires forall r, c :: InRange(a, r, c) ==> a[r][c] == b[r][c]
    ensures a == b
  {
    forall r | 0 <= r < |a| ensures a[r] == b[r] {
      assert forall c :: 0 <= c < |a[r]| ==> a[r][c] == b[r][c] by {
        forall c | 0 <= c < |a[r]| ensures a[r][c] == b[r][c] { assert InRange(a, r, c); }
      }
    }
  }

  /** Writing never empties a cell. */
  lemma WriteKeepsLetters(b: Board, word: string, row: int, col: int, dir: Direction, r: int, c: int)
    requires InRange(b, r, c) && b[r][c].Letter?
    ensures Write(b, word, row, col, dir)[r][c].Letter?
  {
    var b' := Write(b, word, row, col, dir);
    if OnPath(|word|, row, col, dir, r, c) {
      var i := Offset(row, col, dir, r, c);
      assert RowAt(row, dir, i) == r && ColAt(col, dir, i) == c;
    } else {
      assert Get(b', r, c) == Get(b, r, c);
    }
  }

  /**
   * Placing a word that passes the placement predicate keeps every earlier
   * word readable (only empty cells or equal letters are overwritten), and
   * the new word reads correctly too.
   */
  lemma {:induction false} WriteKeepsConsistent(b: Board, words: seq<WordPosition>, w: WordPosition)
    requires IsSquare(b)
    requires Consistent(b, words)
    requires Placeable(b, w.word, w.row, w.col, w.direction)
    requires InLane(|b|, w.row, w.col, w.direction)
    ensures Consistent(Write(b, w.word, w.row, w.col, w.direction), words + [w])
  {
    var b' := Write(b, w.word, w.row, w.col, w.direction);
    var ws := words + [w];
    forall k | 0 <= k < |ws| ensures Reads(b', ws[k]) {
      if k == |words| {
        forall i | 0 <= i < |w.word|
          ensures Get(b', RowAt(w.row, w.direction, i), ColAt(w.col, w.direction, i)) == Letter(w.word[i])
        {
          assert InRange(b, RowAt(w.row, w.direction, i), ColAt(w.col, w.direction, i));
        }
      } else {
        var v := words[k];
        assert ws[k] == v;
        forall i | 0 <= i < |v.word|
          ensures Get(b', RowAt(v.row, v.direction, i), ColAt(v.col, v.direction, i)) == Letter(v.word[i])
        {
          var r, c := RowAt(v.row, v.direction, i), ColAt(v.col, v.direction, i);
          assert Reads(b, v);
          assert Get(b, r, c) == Letter(v.word[i]);
          if OnPath(|w.word|, w.row, w.col, w.direction, r, c) {
            var j := Offset(w.row, w.col, w.direction, r, c);
            assert RowAt(w.row, w.direction, j) == r && ColAt(w.col, w.direction, j) == c;
            assert LetterFits(b, w.word[j], r, c, Flip(w.direction));
            assert InRange(b, r, c);
          }
        }
      }
    }
  }

  /** After placing `w`, every filled cell is still covered, now by `words + [w]`. */
  lemma {:induction false} WriteKeepsCovered(b: Board, words: seq<WordPosition>, w: WordPosition)
    requires Covered(b, words)
    ensures Covered(Write(b, w.word, w.row, w.col, w.direction), words + [w])
  {
    var b' := Write(b, w.word, w.row, w.col, w.direction);
    var ws := words + [w];
    forall r, c ensures CoveredAt(b', ws, r, c) {
      if !(InRange(b', r, c) && b'[r][c].Letter?) {
      } else if OnWord(w, r, c) {
        assert ws[|words|] == w;
      } else {
        assert Get(b', r, c) == Get(b, r, c);
        assert CoveredAt(b, words, r, c);
        var k :| 0 <= k < |words| && OnWord(words[k], r, c);
        assert ws[k] == words[k];
      }
    }
  }

  /**
   * Placing a word that passes the placement predicate creates no stray
   * fragment: the cells just before and after it are empty, and each cell
   * it newly fills has empty neighbours across it, so any two adjacent
   * letters afterwards either lie on the new word along its axis or were
   * adjacent letters before.
   */
  lemma {:induction false} WriteKeepsNoFragments(b: Board, words: seq<WordPosition>, w: WordPosition)
    requires NoFragments(b, words)
    requires Placeable(b, w.word, w.row, w.col, w.direction)
    ensures NoFragments(Write(b, w.word, w.row, w.col, w.direction), words + [w])
  {
    forall r, c, dir ensures JoinedAt(Write(b, w.word, w.row, w.col, w.direction), words + [w], r, c, dir) {
      JoinedAfterWrite(b, words, w, r, c, dir);
    }
  }

  /** WriteKeepsNoFragments at one pair of cells. */
  lemma JoinedAfterWrite(b: Board, words: seq<WordPosition>, w: WordPosition, r: int, c: int, dir: Direction)
    requires NoFragments(b, words)
    requires Placeable(b, w.word, w.row, w.col, w.direction)
    ensures JoinedAt(Write(b, w.word, w.row, w.col, w.direction), words + [w], r, c, dir)
  {
    var b' := Write(b, w.word, w.row, w.col, w.direction);
    var r2, c2 := RowAt(r, dir, 1), ColAt(c, dir, 1);
    if Get(b', r, c).Letter? && Get(b', r2, c2).Letter? {
      var onP, onQ := OnWord(w, r, c), OnWord(w, r2, c2);
      if onP && onQ && w.direction == dir {
        assert (words + [w])[|words|] == w;
      } else {
        if onP && !onQ {
          var i := Offset(w.row, w.col, w.direction, r, c);
          assert RowAt(w.row, w.direction, i) == r && ColAt(w.col, w.direction, i) == c;
          assert LetterFits(b, w.word[i], r, c, dir);
        } else if !onP && onQ {
          var i := Offset(w.row, w.col, w.direction, r2, c2);
          assert RowAt(w.row, w.direction, i) == r2 && ColAt(w.col, w.direction, i) == c2;
          assert RowAt(r2, dir, -1) == r && ColAt(c2, dir, -1) == c;
          assert LetterFits(b, w.word[i], r2, c2, dir);
        }
        assert JoinedAt(b, words, r, c, dir);
        JoinedExtends(words, w, r, c, dir);
      }
    }
  }

  lemma JoinedExtends(words: seq<WordPosition>, w: WordPosition, r: int, c: int, dir: Direction)
    requires Joined(words, r, c, dir)
    ensures Joined(words + [w], r, c, dir)
  {
    var k :| 0 <= k < |words| && words[k].direction == dir &&
      OnWord(words[k], r, c) && OnWord(words[k], RowAt(r, dir, 1), ColAt(c, dir, 1));
    assert (words + [w])[k] == words[k];
  }

  /** A blank grid has no letters, so no fragments. */
  lemma BlankNoFragments(b: Board, words: seq<WordPosition>)
    requires Blank(b)
    ensures NoFragments(b, words)
  {
    forall r, c, dir ensures JoinedAt(b, words, r, c, dir) {
      assert InRange(b, r, c) ==> b[r][c] == Empty;
    }
  }

  /**
   * The source's check as written accepts a word running along a placed
   * word: on a 5-square holding CAT across from (2, 1), CATS across from
   * (2, 1) passes it, and writing it fills the cell just after CAT. The
   * corrected rule refuses that placement.
   */
  lemma AlongAccepted()
    ensures Placeable(Write(EmptyBoard(5), "CAT", 2, 1, Across), "CATS", 2, 1, Across)
    ensures !Crossable(Write(EmptyBoard(5), "CAT", 2, 1, Across), "CATS", 2, 1, Across)
    ensures !CapsOpen(Write(Write(EmptyBoard(5), "CAT", 2, 1, Across), "CATS", 2, 1, Across),
                      [WordPosition("CAT", 2, 1, Across, "", 0)])
  {
    var e := EmptyBoard(5);
    var b := Write(e, "CAT", 2, 1, Across);
    assert Get(b, 2, 1) == Letter('C') && Get(b, 2, 2) == Letter('A') && Get(b, 2, 3) == Letter('T') by {
      assert RowAt(2, Across, 0) == 2 && ColAt(1, Across, 0) == 1;
      assert RowAt(2, Across, 1) == 2 && ColAt(1, Across, 1) == 2;
      assert RowAt(2, Across, 2) == 2 && ColAt(1, Across, 2) == 3;
    }
    assert Get(b, 2, 4) == Get(e, 2, 4) == Empty;
    assert Get(b, 1, 4) == Get(e, 1, 4) == Empty;
    assert Get(b, 3, 4) == Get(e, 3, 4) == Empty;
    assert Get(b, 2, 0) == Get(e, 2, 0) == Empty;
    assert Placeable(b, "CATS", 2, 1, Across) by {
      forall i | 0 <= i < 4
        ensures LetterFits(b, "CATS"[i], RowAt(2, Across, i), ColAt(1, Across, i), Down)
      {
        assert RowAt(2, Across, i) == 2 && ColAt(1, Across, i) == 1 + i;
        assert i < 3 ==> "CATS"[i] == "CAT"[i];
      }
    }
    assert !OnlyCrosses(b, "CATS", 2, 1, Across) by {
      assert RowAt(2, Across, 0) == 2 && ColAt(1, Across, 0) == 1;
      assert RowAt(2, Across, 1) == 2 && ColAt(1, Across, 1) == 2;
    }
    var b' := Write(b, "CATS", 2, 1, Across);
    assert Get(b', 2, 4) == Letter('S') by {
      assert RowAt(2, Across, 3) == 2 && ColAt(1, Across, 3) == 4;
    }
    var cat := WordPosition("CAT", 2, 1, Across, "", 0);
    assert RowAt(2, Across, |cat.word|) == 2 && ColAt(1, Across, |cat.word|) == 4;
    assert !CapsEmpty(b', cat);
    assert [cat][0] == cat && |cat.word| >= 2;
  }

  /**
   * A cell just before (`i == -1`) or just after (`i` the length) a placed
   * word of two or more letters stays empty when a word passing the
   * corrected rule is written: written across the old word it would need
   * the old word's end letter to be empty; written along it, it would
   * either cover two of its letters in a row or have one of them in its
   * own end cap.
   */
  lemma CapAfterWrite(b: Board, v: WordPosition, w: WordPosition, i: int)
    requires |v.word| >= 2 && (i == -1 || i == |v.word|)
    requires Reads(b, v)
    requires Get(b, RowAt(v.row, v.direction, i), ColAt(v.col, v.direction, i)) == Empty
    requires Crossable(b, w.word, w.row, w.col, w.direction)
    ensures Get(Write(b, w.word, w.row, w.col, w.direction), RowAt(v.row, v.direction, i), ColAt(v.col, v.direction, i)) == Empty
  {
    if w.direction != v.direction {
      CapNotCrossed(b, v, w, i);
    } else {
      CapNotOverrun(b, v, w, i);
    }
  }

  /** Across the old word: the cap's neighbour into it, an end letter, would have to be empty. */
  lemma CapNotCrossed(b: Board, v: WordPosition, w: WordPosition, i: int)
    requires |v.word| >= 2 && (i == -1 || i == |v.word|)
    requires Reads(b, v)
    requires Get(b, RowAt(v.row, v.direction, i), ColAt(v.col, v.direction, i)) == Empty
    requires Placeable(b, w.word, w.row, w.col, w.direction)
    ensures w.direction != v.direction ==>
      !OnPath(|w.word|, w.row, w.col, w.direction, RowAt(v.row, v.direction, i), ColAt(v.col, v.direction, i))
  {
    var r, c := RowAt(v.row, v.direction, i), ColAt(v.col, v.direction, i);
    var j := Offset(w.row, w.col, w.direction, r, c);
    var d := if i == -1 then 1 else -1;
    assert Get(b, RowAt(v.row, v.direction, i + d), ColAt(v.col, v.direction, i + d)).Letter?;
    assert RowAt(r, v.direction, d) == RowAt(v.row, v.direction, i + d);
    assert ColAt(c, v.direction, d) == ColAt(v.col, v.direction, i + d);
    assert 0 <= j < |w.word| ==>
      LetterFits(b, w.word[j], RowAt(w.row, w.direction, j), ColAt(w.col, w.direction, j), Flip(w.direction));
  }

  /**
   * Along the old word: the two letters next to the cap would be the new
   * word's cells `j + d` and `j + 2d`; both inside it breaks OnlyCrosses,
   * otherwise one of them is its end cap.
   */
  lemma CapNotOverrun(b: Board, v: WordPosition, w: WordPosition, i: int)
    requires |v.word| >= 2 && (i == -1 || i == |v.word|)
    requires Reads(b, v)
    requires Crossable(b, w.word, w.row, w.col, w.direction) && w.direction == v.direction
    ensures !OnPath(|w.word|, w.row, w.col, w.direction, RowAt(v.row, v.direction, i), ColAt(v.col, v.direction, i))
  {
    var r, c := RowAt(v.row, v.direction, i), ColAt(v.col, v.direction, i);
    var j := Offset(w.row, w.col, w.direction, r, c);
    var d := if i == -1 then 1 else -1;
    var m := if d == 1 then j + 2 else j - 1;
    assert Get(b, RowAt(v.row, v.direction, i + d), ColAt(v.col, v.direction, i + d)).Letter?;
    assert Get(b, RowAt(v.row, v.direction, i + 2 * d), ColAt(v.col, v.direction, i + 2 * d)).Letter?;
    var sameLane := if v.direction == Across then w.row == v.row else w.col == v.col;
    assert sameLane ==>
      && RowAt(w.row, w.direction, j + d) == RowAt(v.row, v.direction, i + d)
      && ColAt(w.col, w.direction, j + d) == ColAt(v.col, v.direction, i + d)
      && RowAt(w.row, w.direction, j + 2 * d) == RowAt(v.row, v.direction, i + 2 * d)
      && ColAt(w.col, w.direction, j + 2 * d) == ColAt(v.col, v.direction, i + 2 * d);
    assert 0 < m < |w.word| ==>
      !(Get(b, RowAt(w.row, w.direction, m - 1), ColAt(w.col, w.direction, m - 1)).Letter? &&
        Get(b, RowAt(w.row, w.direction, m), ColAt(w.col, w.direction, m)).Letter?);
  }

  /**
   * Along the old word, under the source's check: a word that covers the
   * old word's end cap covers the whole old word, since its own end caps
   * are empty while the old word's letters are not.
   */
  lemma CapReached(b: Board, u: WordPosition, w: WordPosition, i: int)
    requires |u.word| >= 2 && (i == -1 || i == |u.word|)
    requires Reads(b, u)
    requires Placeable(b, w.word, w.row, w.col, w.direction)
    ensures w.direction == u.direction && OnWord(w, RowAt(u.row, u.direction, i), ColAt(u.col, u.direction, i)) ==>
      Inside(u, w)
  {
    var dir := u.direction;
    var t := Offset(w.row, w.col, dir, u.row, u.col);
    var m := |w.word|;
    var sameLane := if dir == Across then w.row == u.row else w.col == u.col;
    assert sameLane && w.direction == dir ==>
      && RowAt(w.row, dir, m) == RowAt(u.row, dir, m - t) && ColAt(w.col, dir, m) == ColAt(u.col, dir, m - t)
      && RowAt(w.row, dir, -1) == RowAt(u.row, dir, -1 - t) && ColAt(w.col, dir, -1) == ColAt(u.col, dir, -1 - t);
    assert 0 <= m - t < |u.word| ==> Get(b, RowAt(u.row, dir, m - t), ColAt(u.col, dir, m - t)) == Letter(u.word[m - t]);
    assert 0 <= -1 - t < |u.word| ==> Get(b, RowAt(u.row, dir, -1 - t), ColAt(u.col, dir, -1 - t)) == Letter(u.word[-1 - t]);
  }

  /** After a write passing the source's check, a word with empty end caps keeps them, or lies within the new word. */
  lemma CapsKeptOrCovered(b: Board, u: WordPosition, w: WordPosition)
    requires |u.word| >= 2 && Reads(b, u) && CapsEmpty(b, u)
    requires Placeable(b, w.word, w.row, w.col, w.direction)
    ensures CapsEmpty(Write(b, w.word, w.row, w.col, w.direction), u) || Inside(u, w)
  {
    CapNotCrossed(b, u, w, -1);
    CapNotCrossed(b, u, w, |u.word|);
    CapReached(b, u, w, -1);
    CapReached(b, u, w, |u.word|);
  }

  /** Writing a word that passes the source's check keeps every placed word enclosed, the new one included. */
  lemma {:induction false} WriteKeepsEnclosed(b: Board, words: seq<WordPosition>, w: WordPosition)
    requires Consistent(b, words) && Enclosed(b, words)
    requires Placeable(b, w.word, w.row, w.col, w.direction)
    ensures Enclosed(Write(b, w.word, w.row, w.col, w.direction), words + [w])
  {
    var b' := Write(b, w.word, w.row, w.col, w.direction);
    assert CapsEmpty(b', w) by {
      assert !OnPath(|w.word|, w.row, w.col, w.direction, RowAt(w.row, w.direction, -1), ColAt(w.col, w.direction, -1));
      assert !OnPath(|w.word|, w.row, w.col, w.direction,
                     RowAt(w.row, w.direction, |w.word|), ColAt(w.col, w.direction, |w.word|));
    }
    forall j | 0 <= j < |words| && |words[j].word| >= 2 && CapsEmpty(b, words[j])
      ensures CapsEmpty(b', words[j]) || Inside(words[j], w)
    {
      CapsKeptOrCovered(b, words[j], w);
    }
    EnclosedExtended(b, b', words, w);
  }

  /**
   * If the new word's caps are empty on the new board, and every old word with empty caps either keeps
   * them or lies within the new word, then the longer list is enclosed on the new board.
   */
  lemma {:induction false} EnclosedExtended(b: Board, b': Board, words: seq<WordPosition>, w: WordPosition)
    requires Enclosed(b, words) && CapsEmpty(b', w)
    requires forall j :: 0 <= j < |words| && |words[j].word| >= 2 && CapsEmpty(b, words[j]) ==>
               CapsEmpty(b', words[j]) || Inside(words[j], w)
    ensures Enclosed(b', words + [w])
  {
    var ws := words + [w];
    forall k | 0 <= k < |ws|
      ensures EnclosedAt(b', ws, k)
    {
      if k < |words| && |words[k].word| >= 2 {
        assert ws[k] == words[k];
        var u := Encloser(b, b', words, w, k);
        assert ws[u] == if u < |words| then words[u] else w;
      } else if k == |words| {
        assert ws[k] == w;
        assert Inside(ws[k], ws[k]);
      } else {
        assert ws[k] == words[k];
      }
    }
  }

  /** The old word of index `k` lies within an old word whose caps stay empty, or within the new word. */
  lemma Encloser(b: Board, b': Board, words: seq<WordPosition>, w: WordPosition, k: int) returns (u: int)
    requires Enclosed(b, words) && CapsEmpty(b', w)
    requires forall j :: 0 <= j < |words| && |words[j].word| >= 2 && CapsEmpty(b, words[j]) ==>
               CapsEmpty(b', words[j]) || Inside(words[j], w)
    requires 0 <= k < |words| && |words[k].word| >= 2
    ensures 0 <= u <= |words|
    ensures u < |words| ==> Inside(words[k], words[u]) && CapsEmpty(b', words[u])
    ensures u == |words| ==> Inside(words[k], w)
  {
    assert EnclosedAt(b, words, k);
    var j :| 0 <= j < |words| && Inside(words[k], words[j]) && CapsEmpty(b, words[j]);
    assert |words[j].word| >= 2;
    if CapsEmpty(b', words[j]) {
      u := j;
    } else {
      InsideTrans(words[k], words[j], w);
      u := |words|;
    }
  }

  /** Writing a word that passes the corrected rule keeps every end cap empty, the new word's included. */
  lemma {:induction false} WriteKeepsCaps(b: Board, words: seq<WordPosition>, w: WordPosition)
    requires Consistent(b, words) && CapsOpen(b, words)
    requires Crossable(b, w.word, w.row, w.col, w.direction)
    ensures CapsOpen(Write(b, w.word, w.row, w.col, w.direction), words + [w])
  {
    var b' := Write(b, w.word, w.row, w.col, w.direction);
    var ws := words + [w];
    forall k | 0 <= k < |ws| && |ws[k].word| >= 2 ensures CapsEmpty(b', ws[k]) {
      if k == |words| {
        assert ws[k] == w;
        assert !OnPath(|w.word|, w.row, w.col, w.direction, RowAt(w.row, w.direction, -1), ColAt(w.col, w.direction, -1));
        assert !OnPath(|w.word|, w.row, w.col, w.direction,
                       RowAt(w.row, w.direction, |w.word|), ColAt(w.col, w.direction, |w.word|));
      } else {
        var v := words[k];
        assert ws[k] == v && Reads(b, v) && CapsEmpty(b, v);
        CapAfterWrite(b, v, w, -1);
        CapAfterWrite(b, v, w, |v.word|);
      }
    }
  }

  /** A row holding a letter after the write held one before, or is crossed by the word. */
  lemma RowFilledAfterWrite(b: Board, word: string, row: int, col: int, dir: Direction, r: int)
    requires RowFilled(Write(b, word, row, col, dir), r)
    ensures RowFilled(b, r) || PathRow(|word|, row, dir, r)
  {
    var b' := Write(b, word, row, col, dir);
    var c :| InRange(b', r, c) && b'[r][c].Letter?;
    if !OnPath(|word|, row, col, dir, r, c) {
      assert Get(b', r, c) == Get(b, r, c);
      assert InRange(b, r, c) && b[r][c].Letter?;
    }
  }

  lemma ColFilledAfterWrite(b: Board, word: string, row: int, col: int, dir: Direction, c: int)
    requires ColFilled(Write(b, word, row, col, dir), c)
    ensures ColFilled(b, c) || PathCol(|word|, col, dir, c)
  {
    var b' := Write(b, word, row, col, dir);
    var r :| InRange(b', r, c) && b'[r][c].Letter?;
    if !OnPath(|word|, row, col, dir, r, c) {
      assert Get(b', r, c) == Get(b, r, c);
      assert InRange(b, r, c) && b[r][c].Letter?;
    }
  }

  /** Rows holding a letter before the write, or crossed by an in-grid word, hold one after. */
  lemma RowFilledByWrite(b: Board, word: string, row: int, col: int, dir: Direction, r: int)
    requires IsSquare(b) && InGrid(|b|, |word|, row, col, dir)
    requires RowFilled(b, r) || PathRow(|word|, row, dir, r)
    ensures RowFilled(Write(b, word, row, col, dir), r)
  {
    var b' := Write(b, word, row, col, dir);
    if RowFilled(b, r) {
      var c :| InRange(b, r, c) && b[r][c].Letter?;
      WriteKeepsLetters(b, word, row, col, dir, r, c);
      assert InRange(b', r, c);
    } else {
      var i := if dir == Across then 0 else r - row;
      assert RowAt(row, dir, i) == r;
      assert InRange(b, r, ColAt(col, dir, i));
      assert Get(b', r, ColAt(col, dir, i)) == Letter(word[i]);
      assert InRange(b', r, ColAt(col, dir, i));
    }
  }

  lemma ColFilledByWrite(b: Board, word: string, row: int, col: int, dir: Direction, c: int)
    requires IsSquare(b) && InGrid(|b|, |word|, row, col, dir)
    requires ColFilled(b, c) || PathCol(|word|, col, dir, c)
    ensures ColFilled(Write(b, word, row, col, dir), c)
  {
    var b' := Write(b, word, row, col, dir);
    if ColFilled(b, c) {
      var r :| InRange(b, r, c) && b[r][c].Letter?;
      WriteKeepsLetters(b, word, row, col, dir, r, c);
      assert InRange(b', r, c);
    } else {
      var i := if dir == Down then 0 else c - col;
      assert ColAt(col, dir, i) == c;
      assert InRange(b, RowAt(row, dir, i), c);
      assert Get(b', RowAt(row, dir, i), c) == Letter(word[i]);
      assert InRange(b', RowAt(row, dir, i), c);
    }
  }

  /**
   * Writing an in-grid word on a blank grid, or through a cell that already
   * holds a letter, keeps the filled rows and the filled columns each one
   * interval: the word's own rows and columns form an interval that meets
   * the old ones.
   */
  lemma {:induction false} WriteKeepsGapless(b: Board, word: string, row: int, col: int, dir: Direction, ar: int, ac: int)
    requires IsSquare(b) && InGrid(|b|, |word|, row, col, dir)
    requires Gapless(b)
    requires Blank(b) || (InRange(b, ar, ac) && b[ar][ac].Letter? && OnPath(|word|, row, col, dir, ar, ac))
    ensures Gapless(Write(b, word, row, col, dir))
  {
    var b' := Write(b, word, row, col, dir);
    var blank := Blank(b);
    forall r1, r, r2 | r1 <= r <= r2 && RowFilled(b', r1) && RowFilled(b', r2)
      ensures RowFilled(b', r)
    {
      RowFilledAfterWrite(b, word, row, col, dir, r1);
      RowFilledAfterWrite(b, word, row, col, dir, r2);
      if blank {
        assert !RowFilled(b, r1) && !RowFilled(b, r2);
      } else {
        assert RowFilled(b, ar) && PathRow(|word|, row, dir, ar);
        if r <= ar {
          assert RowFilled(b, r1) ==> RowFilled(b, r);
        } else {
          assert RowFilled(b, r2) ==> RowFilled(b, r);
        }
      }
      RowFilledByWrite(b, word, row, col, dir, r);
    }
    forall c1, c, c2 | c1 <= c <= c2 && ColFilled(b', c1) && ColFilled(b', c2)
      ensures ColFilled(b', c)
    {
      ColFilledAfterWrite(b, word, row, col, dir, c1);
      ColFilledAfterWrite(b, word, row, col, dir, c2);
      if blank {
        assert !ColFilled(b, c1) && !ColFilled(b, c2);
      } else {
        assert ColFilled(b, ac) && PathCol(|word|, col, dir, ac);
        if c <= ac {
          assert ColFilled(b, c1) ==> ColFilled(b, c);
        } else {
          assert ColFilled(b, c2) ==> ColFilled(b, c);
        }
      }
      ColFilledByWrite(b, word, row, col, dir, c);
    }
  }

  /**
   * On a blank grid every word that fits passes the placement rule, so
   * placing the seed word without consulting it (as the source does) places
   * it exactly as the predicate would allow.
   */
  lemma BlankCrossable(b: Board, word: string, row: int, col: int, dir: Direction)
    requires Blank(b)
    requires Fits(|b|, |word|, row, col, dir)
    ensures Crossable(b, word, row, col, dir)
  {
    forall r, c ensures Get(b, r, c) == Empty {
      if InRange(b, r, c) { assert b[r][c] == Empty; }
    }
  }

  /** A blank grid has no filled rows or columns, so it is trivially gapless. */
  lemma BlankGapless(b: Board)
    requires Blank(b)
    ensures Gapless(b)
  {
    assert forall r :: !RowFilled(b, r);
    assert forall c :: !ColFilled(b, c);
  }
}
