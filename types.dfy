/**
 * The record types the generator produces and consumes (types.ts), as
 * Dafny datatypes, plus the Option/Result wrappers used for optional
 * fields and for the generator's failure modes.
 */
module Types {

  datatype Option<+T> = None | Some(value: T)

  datatype Result<+T, +E> = Ok(value: T) | Err(error: E)

  datatype Difficulty = Easy | Medium | Hard

  datatype Direction = Across | Down

  /** One corpus entry; `difficulty` is optional in the source. */
  datatype DictionaryEntry = DictionaryEntry(word: string, clue: string, difficulty: Option<Difficulty>)

  /** A placed word: `row`, `col` is the position of its first letter. */
  datatype WordPosition = WordPosition(
    word: string,
    row: int,
    col: int,
    direction: Direction,
    clue: string,
    number: int)

  /** One cell of the finished puzzle; `isHint` is absent (None) when the generator builds it. */
  datatype CellData = CellData(
    row: int,
    col: int,
    value: string,
    input: string,
    isBlack: bool,
    clueNumbers: seq<int>,
    active: bool,
    isPartOfActiveWord: bool,
    isHint: Option<bool>)

  datatype Grid = Grid(rows: int, cols: int, cells: seq<seq<CellData>>)

  /** What the generator hands to the presentation layer. */
  datatype Puzzle = Puzzle(grid: Grid, words: seq<WordPosition>)

  /**
   * Failure modes of generation. The source does not name them: an empty
   * corpus makes it read a field of `undefined`, and a blank winning grid
   * makes it allocate an array of negative length; both throw.
   */
  datatype GenError = EmptyCorpus | NoWordsPlaced

  /** Row of the `i`-th letter of a word starting at `row` (i may be -1 or the length: the caps). */
  function RowAt(row: int, dir: Direction, i: int): int
  {
    if dir == Across then row else row + i
  }

  /** Column of the `i`-th letter of a word starting at `col`. */
  function ColAt(col: int, dir: Direction, i: int): int
  {
    if dir == Across then col + i else col
  }

  function Flip(dir: Direction): Direction
  {
    if dir == Across then Down else Across
  }

  /** Is `(r, c)` one of the `len` cells of a word starting at `(row, col)` in direction `dir`? */
  predicate OnPath(len: int, row: int, col: int, dir: Direction, r: int, c: int)
  {
    if dir == Across then r == row && col <= c < col + len
    else c == col && row <= r < row + len
  }

  /** The offset along the word of a cell on its path. */
  function Offset(row: int, col: int, dir: Direction, r: int, c: int): int
  {
    if dir == Across then c - col else r - row
  }

  predicate OnWord(w: WordPosition, r: int, c: int)
  {
    OnPath(|w.word|, w.row, w.col, w.direction, r, c)
  }

  /** Word `v` lies within word `u`: same direction, same line, and `u`'s cells include all of `v`'s. */
  predicate Inside(v: WordPosition, u: WordPosition)
  {
    && v.direction == u.direction
    && (if v.direction == Across then v.row == u.row else v.col == u.col)
    && 0 <= Offset(u.row, u.col, u.direction, v.row, v.col)
    && Offset(u.row, u.col, u.direction, v.row, v.col) + |v.word| <= |u.word|
  }

  lemma InsideTrans(v: WordPosition, u: WordPosition, w: WordPosition)
    requires Inside(v, u) && Inside(u, w)
    ensures Inside(v, w)
  {
  }

  /** Cell `(r, c)` comes strictly before cell `(r', c')` in reading order: by row, then by column. */
  predicate ReadingBefore(r: int, c: int, r': int, c': int)
  {
    r < r' || (r == r' && c < c')
  }

  /** `a` starts no later than `b` in reading order. */
  predicate StartLe(a: WordPosition, b: WordPosition)
  {
    !ReadingBefore(b.row, b.col, a.row, a.col)
  }

  predicate SameStart(a: WordPosition, b: WordPosition)
  {
    a.row == b.row && a.col == b.col
  }

  /** No word appears twice. */
  predicate DistinctWords(ws: seq<WordPosition>)
  {
    forall k, l :: 0 <= k < l < |ws| ==> ws[k].word != ws[l].word
  }
}
