/**
 * Clue numbering (lib/generator.ts lines 221-237): sort the trimmed words
 * by start coordinate, then give each new start coordinate the next
 * number, beginning at 1.
 */
module Numbering {
  import opened Types

  /** In reading order of start coordinates. */
  predicate SortedByStart(ws: seq<WordPosition>)
  {
    forall i, j :: 0 <= i < j < |ws| ==> StartLe(ws[i], ws[j])
  }

  /** Insert `w` into `s` after every word that does not start after it (keeps the sort stable). */
  function Insert(w: WordPosition, s: seq<WordPosition>): (r: seq<WordPosition>)
    ensures |r| == |s| + 1
  {
    if |s| == 0 then [w]
    else if ReadingBefore(w.row, w.col, s[0].row, s[0].col) then [w] + s
    else [s[0]] + Insert(w, s[1..])
  }

  /** Inserting adds exactly `w`. */
  lemma {:induction false} InsertMultiset(w: WordPosition, s: seq<WordPosition>)
    ensures multiset(Insert(w, s)) == multiset(s) + multiset{w}
  {
    if |s| > 0 && !ReadingBefore(w.row, w.col, s[0].row, s[0].col) {
      InsertMultiset(w, s[1..]);
      assert s == [s[0]] + s[1..];
    }
  }

  /** Inserting into a sorted list keeps it sorted. */
  lemma {:induction false} InsertSorted(w: WordPosition, s: seq<WordPosition>)
    requires SortedByStart(s)
    ensures SortedByStart(Insert(w, s))
  {
    if |s| == 0 || ReadingBefore(w.row, w.col, s[0].row, s[0].col) {
    } else {
      var t := Insert(w, s[1..]);
      InsertSorted(w, s[1..]);
      InsertMultiset(w, s[1..]);
      forall x | x in t
        ensures StartLe(s[0], x)
      {
        assert x in multiset(t);
      }
    }
  }

  /**
   * The comparator sort of line 222 (row, then column, ascending), as a
   * stable insertion sort: the result is ordered and holds the same words.
   */
  function SortByStart(ws: seq<WordPosition>): (r: seq<WordPosition>)
    ensures |r| == |ws|
    ensures SortedByStart(r)
    ensures multiset(r) == multiset(ws)
  {
    if |ws| == 0 then []
    else
      var rest := SortByStart(ws[..|ws| - 1]);
      InsertSorted(ws[|ws| - 1], rest);
      InsertMultiset(ws[|ws| - 1], rest);
      assert ws == ws[..|ws| - 1] + [ws[|ws| - 1]];
      Insert(ws[|ws| - 1], rest)
  }

  /** The words of `ws` that start at `(r, c)`, in their order in `ws`. */
  function StartingAt(ws: seq<WordPosition>, r: int, c: int): seq<WordPosition>
  {
    if |ws| == 0 then []
    else (if ws[0].row == r && ws[0].col == c then [ws[0]] else []) + StartingAt(ws[1..], r, c)
  }

  lemma {:induction false} StartingAtAppend(a: seq<WordPosition>, b: seq<WordPosition>, r: int, c: int)
    ensures StartingAt(a + b, r, c) == StartingAt(a, r, c) + StartingAt(b, r, c)
  {
    if |a| > 0 {
      assert (a + b)[1..] == a[1..] + b;
      StartingAtAppend(a[1..], b, r, c);
    } else {
      assert a + b == b;
    }
  }

  /** No word of `s` starts at `(r, c)`. */
  lemma {:induction false} NoneStartingAt(s: seq<WordPosition>, r: int, c: int)
    requires forall i :: 0 <= i < |s| ==> !(s[i].row == r && s[i].col == c)
    ensures StartingAt(s, r, c) == []
  {
    if |s| > 0 {
      NoneStartingAt(s[1..], r, c);
    }
  }

  /** Insertion into a sorted list puts `w` after the words that start where it does. */
  lemma {:induction false} InsertStable(w: WordPosition, s: seq<WordPosition>, r: int, c: int)
    requires SortedByStart(s)
    ensures StartingAt(Insert(w, s), r, c) == StartingAt(s, r, c) + StartingAt([w], r, c)
  {
    if |s| == 0 {
    } else if ReadingBefore(w.row, w.col, s[0].row, s[0].col) {
      assert Insert(w, s) == [w] + s;
      StartingAtAppend([w], s, r, c);
      if w.row == r && w.col == c {
        forall i | 0 <= i < |s| ensures !(s[i].row == r && s[i].col == c) {
          assert StartLe(s[0], s[i]);
        }
        NoneStartingAt(s, r, c);
      }
    } else {
      var head, tail := [s[0]], s[1..];
      assert SortedByStart(tail) by {
        forall i, j | 0 <= i < j < |tail| ensures StartLe(tail[i], tail[j]) {
          assert tail[i] == s[i + 1] && tail[j] == s[j + 1];
        }
      }
      InsertStable(w, tail, r, c);
      assert s == head + tail;
      assert Insert(w, s) == head + Insert(w, tail);
      StartingAtAppend(head, tail, r, c);
      StartingAtAppend(head, Insert(w, tail), r, c);
    }
  }

  /**
   * The sort is stable: for every start coordinate, the words starting
   * there keep their relative order (the comparator of line 222 returns 0
   * for them and the engine's sort is stable).
   */
  lemma {:induction false} SortByStartStable(ws: seq<WordPosition>, r: int, c: int)
    ensures StartingAt(SortByStart(ws), r, c) == StartingAt(ws, r, c)
  {
    if |ws| > 0 {
      var init, last := ws[..|ws| - 1], ws[|ws| - 1];
      SortByStartStable(init, r, c);
      InsertStable(last, SortByStart(init), r, c);
      assert ws == init + [last];
      StartingAtAppend(init, [last], r, c);
    }
  }

  /** The first position whose word starts where word `i` starts, searching from `k`. */
  function FirstFrom(ws: seq<WordPosition>, i: nat, k: nat): (j: nat)
    requires k <= i < |ws|
    ensures k <= j <= i && SameStart(ws[j], ws[i])
    ensures forall m {:trigger SameStart(ws[m], ws[i])} :: k <= m < j ==> !SameStart(ws[m], ws[i])
    decreases i - k
  {
    if SameStart(ws[k], ws[i]) then k else FirstFrom(ws, i, k + 1)
  }

  /** The first position whose word shares the start coordinate of word `i`. */
  function FirstAt(ws: seq<WordPosition>, i: nat): (j: nat)
    requires i < |ws|
    ensures j <= i && SameStart(ws[j], ws[i])
    ensures forall m {:trigger SameStart(ws[m], ws[i])} :: 0 <= m < j ==> !SameStart(ws[m], ws[i])
  {
    FirstFrom(ws, i, 0)
  }

  /** Word `i` is the first to start at its coordinate. */
  predicate IsNew(ws: seq<WordPosition>, i: nat)
    requires i < |ws|
  {
    FirstAt(ws, i) == i
  }

  /** How many distinct start coordinates occur among the first `n` words. */
  function NewCount(ws: seq<WordPosition>, n: nat): nat
    requires n <= |ws|
  {
    if n == 0 then 0 else NewCount(ws, n - 1) + (if IsNew(ws, n - 1) then 1 else 0)
  }

  /**
   * The clue number the loop of lines 228-237 gives word `i`: one more
   * than the number of start coordinates met before its own first use.
   */
  function ClueNumber(ws: seq<WordPosition>, i: nat): (n: int)
    requires i < |ws|
    ensures n >= 1
  {
    NewCount(ws, FirstAt(ws, i)) + 1
  }

  /** `ws` with every word carrying its clue number. */
  function Numbered(ws: seq<WordPosition>): (r: seq<WordPosition>)
    ensures |r| == |ws|
    ensures forall i :: 0 <= i < |ws| ==> r[i] == ws[i].(number := ClueNumber(ws, i))
  {
    seq(|ws|, i requires 0 <= i < |ws| => ws[i].(number := ClueNumber(ws, i)))
  }

  lemma SameFirst(ws: seq<WordPosition>, i: nat, j: nat)
    requires i < |ws| && j < |ws| && SameStart(ws[i], ws[j])
    ensures FirstAt(ws, i) == FirstAt(ws, j)
  {
    var a, b := FirstAt(ws, i), FirstAt(ws, j);
    assert SameStart(ws[a], ws[j]);
    assert SameStart(ws[b], ws[i]);
  }

  lemma {:induction false} NewCountMono(ws: seq<WordPosition>, m: nat, n: nat)
    requires m <= n <= |ws|
    ensures NewCount(ws, m) <= NewCount(ws, n)
    decreases n - m
  {
    if m < n {
      NewCountMono(ws, m, n - 1);
    }
  }

  /** Before a later first use, the count has grown past an earlier one. */
  lemma NewCountGrows(ws: seq<WordPosition>, a: nat, b: nat)
    requires a < b <= |ws| && IsNew(ws, a)
    ensures NewCount(ws, a) < NewCount(ws, b)
  {
    NewCountMono(ws, a + 1, b);
  }

  /** A positive count was reached at some first use, one below it. */
  lemma {:induction false} LastNewBefore(ws: seq<WordPosition>, n: nat) returns (g: nat)
    requires n <= |ws| && NewCount(ws, n) >= 1
    ensures g < n && IsNew(ws, g) && NewCount(ws, g) == NewCount(ws, n) - 1
  {
    if IsNew(ws, n - 1) {
      g := n - 1;
    } else {
      g := LastNewBefore(ws, n - 1);
    }
  }

  /** Two words share a clue number exactly when they share a start coordinate. */
  lemma {:induction false} ClueNumberSameStart(ws: seq<WordPosition>, i: nat, j: nat)
    requires i < |ws| && j < |ws|
    ensures SameStart(ws[i], ws[j]) <==> ClueNumber(ws, i) == ClueNumber(ws, j)
  {
    var a, b := FirstAt(ws, i), FirstAt(ws, j);
    if SameStart(ws[i], ws[j]) {
      SameFirst(ws, i, j);
    } else {
      SameFirst(ws, a, i);
      SameFirst(ws, b, j);
      if a < b {
        NewCountGrows(ws, a, b);
      } else if b < a {
        NewCountGrows(ws, b, a);
      } else {
        assert SameStart(ws[i], ws[a]) && SameStart(ws[a], ws[j]);
      }
    }
  }

  /** The numbers used are 1..K without gaps: a number above 1 has its predecessor earlier. */
  lemma {:induction false} ClueNumberDense(ws: seq<WordPosition>, i: nat) returns (j: nat)
    requires i < |ws| && ClueNumber(ws, i) > 1
    ensures j < i && ClueNumber(ws, j) == ClueNumber(ws, i) - 1
  {
    var f := FirstAt(ws, i);
    j := LastNewBefore(ws, f);
  }

  /** On input sorted by start coordinate the numbers never decrease. */
  lemma {:induction false} ClueNumberSorted(ws: seq<WordPosition>, i: nat, j: nat)
    requires SortedByStart(ws) && i <= j < |ws|
    ensures ClueNumber(ws, i) <= ClueNumber(ws, j)
  {
    var a, b := FirstAt(ws, i), FirstAt(ws, j);
    if b < a {
      assert SameStart(ws[b], ws[i]);
    }
    NewCountMono(ws, a, b);
  }

  /**
   * Lines 227-237: the loop gives each word its clue number, keeping the
   * number already given to its start coordinate or else the next unused one.
   */
  method AssignNumbers(ws: seq<WordPosition>) returns (out: seq<WordPosition>)
    ensures out == Numbered(ws)
  {
    var currentNumber := 1;
    var wordByPos: map<(int, int), int> := map[];
    ghost var firstAt: map<(int, int), nat> := map[];
    out := ws;
    for i := 0 to |ws|
      invariant |out| == |ws|
      invariant forall j {:trigger out[j]} :: 0 <= j < i ==> out[j] == ws[j].(number := ClueNumber(ws, j))
      invariant currentNumber == NewCount(ws, i) + 1
      invariant forall j {:trigger ws[j]} :: 0 <= j < i ==> (ws[j].row, ws[j].col) in wordByPos
      invariant forall j {:trigger ClueNumber(ws, j)} :: 0 <= j < i ==>
        wordByPos[(ws[j].row, ws[j].col)] == ClueNumber(ws, j)
      invariant forall p :: p in wordByPos ==>
        p in firstAt && firstAt[p] < i && (ws[firstAt[p]].row, ws[firstAt[p]].col) == p
    {
      var key := (ws[i].row, ws[i].col);
      if key !in wordByPos {
        assert IsNew(ws, i);
        assert ClueNumber(ws, i) == currentNumber;
        wordByPos := wordByPos[key := currentNumber];
        firstAt := firstAt[key := i];
        currentNumber := currentNumber + 1;
      } else {
        var j0 := firstAt[key];
        SameFirst(ws, j0, i);
        assert !IsNew(ws, i) by {
          assert FirstAt(ws, i) <= j0;
        }
        assert wordByPos[key] == ClueNumber(ws, j0) == ClueNumber(ws, i);
      }
      ghost var prev := out;
      out := out[i := ws[i].(number := wordByPos[key])];
      assert forall j :: 0 <= j < i ==> out[j] == prev[j];
    }
  }

  /** A number above 1 at position `i` also appears earlier, one lower. */
  ghost predicate HasPredecessor(ws: seq<WordPosition>, i: int)
    requires 0 <= i < |ws|
  {
    ws[i].number > 1 ==> exists j :: 0 <= j < i && ws[j].number == ws[i].number - 1
  }

  /** The numbers start at 1 and, read in order, never skip a value. */
  ghost predicate Dense(ws: seq<WordPosition>)
  {
    forall i :: 0 <= i < |ws| ==> ws[i].number >= 1 && HasPredecessor(ws, i)
  }

  /** Two words share a number exactly when they share a start coordinate. */
  predicate NumberedByStart(ws: seq<WordPosition>)
  {
    forall i, j :: 0 <= i < |ws| && 0 <= j < |ws| ==> (SameStart(ws[i], ws[j]) <==> ws[i].number == ws[j].number)
  }

  predicate NonDecreasing(ws: seq<WordPosition>)
  {
    forall i, j :: 0 <= i <= j < |ws| ==> ws[i].number <= ws[j].number
  }

  /**
   * What the numbering of lines 227-237 achieves: the numbers run densely
   * from 1; equal numbers mean equal start coordinates;
   * and on input sorted by start (as line 222 leaves it) the result is
   * still sorted and its numbers never decrease.
   */
  lemma NumberedOk(ws: seq<WordPosition>)
    ensures Dense(Numbered(ws))
    ensures NumberedByStart(Numbered(ws))
    ensures SortedByStart(ws) ==> SortedByStart(Numbered(ws)) && NonDecreasing(Numbered(ws))
  {
    var out := Numbered(ws);
    forall i | 0 <= i < |out| ensures out[i].number >= 1 && HasPredecessor(out, i) {
      if out[i].number > 1 {
        var j := ClueNumberDense(ws, i);
        assert out[j].number == out[i].number - 1;
      }
    }
    forall i, j | 0 <= i < |out| && 0 <= j < |out|
      ensures SameStart(out[i], out[j]) <==> out[i].number == out[j].number
    {
      ClueNumberSameStart(ws, i, j);
    }
    if SortedByStart(ws) {
      forall i, j | 0 <= i <= j < |out| ensures out[i].number <= out[j].number {
        ClueNumberSorted(ws, i, j);
      }
      assert forall i, j :: 0 <= i < j < |out| ==> StartLe(ws[i], ws[j]);
    }
  }
}
