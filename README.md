# Crossword generator

A Dafny model of the crossword generator in `lib/generator.ts`. The generator:

- shuffles the word corpus once;
- makes twenty greedy attempts on an empty square grid. Each attempt puts a seed word across the middle row, then walks the corpus and places each new word at the first spot, crossing a placed letter, that passes the placement check;
- keeps the attempt with the most words, the earliest of those on a tie;
- trims that grid to the bounding box of its letters;
- sorts the words by start cell and numbers them;
- builds the `CellData` grid the board renders.

Module layout:

| module | file | what it holds |
|---|---|---|
| `Types` | `types.dfy` | the records of `types.ts` (`CellData`, `Grid`, `WordPosition`, `DictionaryEntry`) as datatypes; word geometry |
| `Board` | `board.dfy` | the working grid as a value (`seq<seq<Cell>>`); the meaning of `canPlaceWord` (`Placeable`), the corrected placement rule (`Crossable`), the rule an attempt runs under (`Rule`, `Allows`) and `placeWordOnGrid` (`Write`); what one placement keeps true |
| `Placement` | `placement.dfy` | `createEmptyGrid`, `canPlaceWord`, the corrected check, the check a rule names, and `placeWordOnGrid` on a mutable `array2<Cell>` |
| `Attempt` | `attempt.dfy` | one attempt: seed, anchor collection, first-fit search, the attempt invariant |
| `Trim` | `trim.dfy` | bounding-box scan, shifting words, the cropped window |
| `Numbering` | `numbering.dfy` | the row/column sort and the clue-numbering loop, proved against a specification of clue numbers |
| `Assemble` | `assemble.dfy` | filling the `CellData` array and adding clue numbers to start cells |
| `Output` | `output.dfy` | what a finished puzzle satisfies (`PuzzleOk`); value lemmas that carry facts through the trim |
| `Generator` | `generator.dfy` | `GRID_SIZES`, `MIN_WORDS`, the best-of-twenty loop, and `generateCrossword` end to end |

The random choices are inputs:

- the corpus order is a permutation `perm`;
- each attempt's seed draw is a real in `[0, 1)`, turned into an index by `floor(draw * n)`;
- the anchor order for each word is a function `AnchorShuffle` of the attempt number, the corpus index and the anchor list, which must only reorder that list.

With these inputs fixed, an attempt is a function of its seed and of its placement rule: `Attempt.AttemptResult` walks the corpus as the source's loop does, with the rule's check `Board.Allows(rule, …)` in place of `canPlaceWord`, and `Generator.Outcomes` lists the twenty attempts' grids and word lists.

The corpus itself is an input sequence of entries.

The placement rule. `canPlaceWord` (lines 23-67) checks the word's end caps, the crossings and the perpendicular neighbours of newly filled cells. It does not stop a word from running along a word already placed in the same line. For example, CATS can be written over CAT and then fills CAT's end cap; see "## Findings". Every attempt, and `generateCrossword` itself, takes a `Board.Rule`:

- `AsWritten` runs the source's check alone (`Placement.CanPlaceWord`), so with the same random choices the model places each word where the source does;
- `Corrected` runs `Board.Crossable`: the source's check, plus "no two consecutive letters of the word land on filled cells" (`Placement.CanCrossWord`).

Every property of `Output.PuzzleOk` below is proved under both rules. Closed end caps on every word of two or more letters (`Output.CapsClosed`) are proved under `Corrected` only, because the rule as written can fill them.

`generateCrossword` returns a `Result`:

- An empty corpus gives `Err(EmptyCorpus)`. The source picks `undefined` as the seed entry at line 108 and throws at line 110, where it reads that entry's `.word`.
- A best grid with no letters gives `Err(NoWordsPlaced)`. There the source computes a negative row count and `Array(rows)` throws. This can only happen when the corpus holds an empty word.

Otherwise the result is the kept attempt trimmed to the bounding box of its letters (`Generator.Trimmed`): the grid has the box's dimensions and shows the cropped board cell for cell, and the words are the attempt's words shifted into the box, sorted and numbered. That puzzle has every property of `Output.PuzzleOk`:

- the grid is at most the grid size each way;
- every cell knows its coordinates and is black exactly when it has no letter;
- no row or column is black end to end;
- between 1 and `target + 5` words, all distinct, all from the corpus;
- each word spelled on the grid, and every letter belonging to some word;
- words sorted by start cell and numbered densely from 1, with one number per start cell and numbers never decreasing;
- each cell's clue list free of repeats, holding exactly the numbers of the words that start there;
- no stray fragments: two adjacent white cells along a row or column always lie on one word running that way;
- every word of two or more letters lies within a word running the same way (itself, or one laid along it) that has a black cell or the grid's edge just before and just after it (`Output.Framed`); under the corrected rule every such word has them itself (`Output.CapsClosed`);
- every maximal run of two or more white cells along a row or column is exactly one word running that way.

## Model

| member | source | states |
|---|---|---|
| Board.Write | lib/generator.ts:70-86 | writing a word puts its `i`-th letter in its `i`-th in-grid cell, leaves every cell off its path unchanged, and keeps the grid's shape |
| Board.WriteKeepsLetters | lib/generator.ts:77-85 | writing never empties a filled cell |
| Board.WriteKeepsConsistent | lib/generator.ts:150-185 | placing a word that passes the source's check keeps every earlier word readable and makes the new word read correctly |
| Board.WriteKeepsCovered | lib/generator.ts:150-185 | after a placement every filled cell still belongs to some placed word |
| Board.RowFilledAfterWrite | lib/generator.ts:77-85 | a row holding a letter after a write held one before or is crossed by the word |
| Board.ColFilledAfterWrite | lib/generator.ts:77-85 | the same for columns |
| Board.RowFilledByWrite | lib/generator.ts:77-85 | a row that held a letter, or that an in-grid word crosses, holds one after the write |
| Board.ColFilledByWrite | lib/generator.ts:77-85 | the same for columns |
| Board.WriteKeepsGapless | lib/generator.ts:145-188 | writing on a blank grid, or through a filled cell, keeps the filled rows one interval and the filled columns one interval |
| Board.BlankCrossable | lib/generator.ts:113-115 | on a blank grid any word that fits passes the corrected rule, and so the source's check, so placing the seed without the check is safe |
| Board.BlankGapless | lib/generator.ts:103 | a blank grid is gapless |
| Board.EmptyBoard | lib/generator.ts:18-20 | the empty board of side `size` is square with every cell empty |
| Board.WriteKeepsNoFragments | lib/generator.ts:150-185 | placing a word that passes the source's check keeps every pair of adjacent letters on one placed word along their line |
| Board.BlankNoFragments | lib/generator.ts:103 | a blank grid has no stray fragments |
| Board.AlongAccepted | lib/generator.ts:36-43 | the source's check accepts CATS across over CAT across at the same start on a 5-square; the corrected rule refuses it; writing it leaves CAT's end cap filled |
| Board.CapAfterWrite | lib/generator.ts:37-38 | the empty cell just before or after a placed word of two or more letters stays empty when a word passing the corrected rule is written |
| Board.CapNotCrossed | lib/generator.ts:41-63 | a word written across a placed word never lands on that word's end cap, because the cap's neighbour is a letter that a newly filled cell may not touch |
| Board.CapNotOverrun | lib/generator.ts:36-43 | a word written along a placed word and passing the corrected rule never lands on that word's end cap |
| Board.CapReached | lib/generator.ts:36-57 | under the source's check, a word laid in the same line over a placed word's end cap covers the whole placed word |
| Board.CapsKeptOrCovered | lib/generator.ts:36-57 | after a write passing the source's check, a placed word of two or more letters with empty end caps keeps them, or lies within the new word |
| Board.WriteKeepsEnclosed | lib/generator.ts:150-185 | after a write passing the source's check, every placed word of two or more letters, the new one included, lies within a placed word whose end caps are empty |
| Board.WriteKeepsCaps | lib/generator.ts:36-57 | after writing a word that passes the corrected rule, every placed word of two or more letters, the new one included, still has empty end caps |
| Placement.CreateEmptyGrid | lib/generator.ts:18-20 | the fresh grid is `EmptyBoard(size)`: `size` by `size` with every cell empty |
| Placement.CanPlaceWord | lib/generator.ts:23-67 | the answer is true exactly when the word fits the grid, its end caps are empty or off the grid, crossings agree, and newly filled cells have empty perpendicular neighbours; negative coordinates give false |
| Placement.CanPlaceAcross | lib/generator.ts:35-50 | the across branch decides that same predicate; running past the right edge gives false |
| Placement.CanPlaceDown | lib/generator.ts:51-64 | the down branch decides that same predicate; running past the bottom gives false |
| Placement.OnlyCrossesScan | lib/generator.ts:36-57 | the scan answers true exactly when no two consecutive cells of the word's path both hold letters |
| Placement.CanCrossWord | lib/generator.ts:23-67 | the answer is true exactly when `Crossable` holds: the source's check passes and the word only crosses placed words |
| Placement.CheckPlacement | lib/generator.ts:153-172 | the answer is exactly `Allows(rule, …)`: the source's check as written under `AsWritten`, `Crossable` under `Corrected` |
| Placement.PlaceWordOnGrid | lib/generator.ts:70-86 | the grid afterwards is exactly `Write` applied to the grid before |
| Attempt.CollectAnchors | lib/generator.ts:133-140 | the anchors are `AnchorsOf` the grid: exactly the filled cells with their letters, in strict reading order |
| Attempt.AnchorsAboveListed | lib/generator.ts:134-139 | the anchors of the rows above `r` are exactly their filled cells, in strict reading order |
| Attempt.AnchorsOfListed | lib/generator.ts:133-140 | the anchors of a square board are exactly its filled cells, in strict reading order |
| Attempt.LetterIndices | lib/generator.ts:147-148 | the result is `Offsets(word, letter)`: exactly the offsets where the word has the letter, strictly increasing |
| Attempt.OffsetsBelowListed | lib/generator.ts:148 | the offsets below `i` are exactly the positions below `i` holding the letter, strictly increasing |
| Attempt.TryAnchor | lib/generator.ts:147-186 | found exactly when `FitAt` over the letter's offsets finds a spot, and then it is that spot: the first matching offset that passes the rule's check `Allows(rule, …)` (the source's check as written, or the corrected rule), across before down; with none found, every matching offset fails both ways |
| Attempt.FitAtOffsets | lib/generator.ts:150-186 | the spot `FitAt` finds crosses the anchor at an offset holding its letter, passes the rule's check `Allows(rule, …)` (the source's check as written, or the corrected rule), and every earlier such offset failed both ways; down means across failed at that offset |
| Attempt.FitAtBlocked | lib/generator.ts:150-186 | when `FitAt` finds nothing, every offset holding the anchor's letter fails the rule's check both ways |
| Attempt.FindPlacement | lib/generator.ts:145-188 | found exactly when `FirstFit` over the anchors finds a spot, and then it is that spot: the first anchor, offset and direction that pass the rule's check `Allows(rule, …)` (the source's check as written, or the corrected rule), with every earlier combination refused; when nothing is found, every anchor is blocked |
| Attempt.ReorderedFilled | lib/generator.ts:143 | every anchor of a reordering of the filled cells is a filled cell with its letter |
| Attempt.ReorderedBlocked | lib/generator.ts:143-188 | when every anchor of a reordering is blocked, no filled cell admits the word under the rule's check at any offset holding its letter |
| Attempt.SeedColumn | lib/generator.ts:109-113 | the clamped start column keeps a word no longer than the grid inside it, and equals `size/2 - len/2` when that already fits |
| Attempt.SeedOk | lib/generator.ts:115-124 | the grid and word list right after the seed satisfy the attempt invariant |
| Attempt.PlaceOk | lib/generator.ts:127-188 | placing a new corpus word that passes the rule's check through a filled cell keeps the attempt invariant: consistency, coverage, no stray fragments, every word enclosed by a word with open end caps, open end caps on every word under the corrected rule, gapless rows and columns, words in the grid, no repeated word, at most `target + 5` words |
| Attempt.PlaceEntry | lib/generator.ts:131-188 | a word is placed exactly when `Choice` (first fit over the shuffled anchors) finds a spot, and then at that spot: it passed the rule's check `Allows(rule, …)` (the source's check as written, or the corrected rule) on the grid before, crosses a filled cell and is written; an unplaced word leaves the grid unchanged and fits at no filled cell, offset or direction |
| Attempt.WalkEntry | lib/generator.ts:127-188 | one corpus entry of the walk: when it stops the walk, `AttemptFrom` at this entry is the grid and words it leaves; otherwise `AttemptFrom` at this entry equals `AttemptFrom` at the next entry from the new state; the attempt invariant holds and the seed stays first |
| Attempt.RunAttempt | lib/generator.ts:103-189 | the final grid and word list are `AttemptResult` of the seed under the attempt's rule: the seed across the middle row at the clamped column, then each new corpus word at its `Choice` spot, skipping words already placed or with no spot, stopping at `target + 5` words; they satisfy the attempt invariant |
| Attempt.CatsChosen | lib/generator.ts:131-188 | under the rule as written, on a 10-square holding CAT across from (5, 4), the search places CATS across from (5, 4) whatever the anchor order |
| Attempt.AlongWalk | lib/generator.ts:103-189 | under the rule as written, the 10-square attempt over the corpus CAT, CATS seeded with CAT writes CAT across from (5, 4) and then CATS across from the same cell, and keeps both words |
| Attempt.AlongCapFilled | lib/generator.ts:36-57 | on that grid CAT's end cap (5, 7) holds S, so the words' end caps are not all open |
| Attempt.AlongAttempt | lib/generator.ts:103-189 | the same attempt, whatever the anchor order: its word list is CAT then CATS, both across from (5, 4), and not every word has open end caps |
| Trim.BoundingBox | lib/generator.ts:198-208 | on a blank grid the bounds keep their start values; otherwise they are the exact bounding box of the letters (all letters inside, each edge row and column holding one) |
| Trim.Shift | lib/generator.ts:215-219 | a shifted word keeps its word, direction, clue and number, and moves by `(-minR, -minC)` |
| Trim.ShiftAll | lib/generator.ts:215-219 | every word shifted, order and count kept |
| Trim.Crop | lib/generator.ts:253-262 | the window has the requested shape and cell `(r, c)` is the grid's cell `(minR + r, minC + c)` |
| Trim.ShiftKeepsReading | lib/generator.ts:210-219 | a word inside the window reads correctly on the cropped grid once shifted |
| Numbering.SortByStart | lib/generator.ts:221-225 | the sort is ordered by row then column and holds the same words |
| Numbering.InsertStable | lib/generator.ts:222 | inserting into a sorted list puts the word after the words that start in the same cell, leaving their order alone |
| Numbering.SortByStartStable | lib/generator.ts:222 | the sort is stable: the words starting in any one cell keep their relative order |
| Numbering.ClueNumber | lib/generator.ts:227-237 | every clue number is at least 1 |
| Numbering.ClueNumberSameStart | lib/generator.ts:227-237 | two words get the same number exactly when they start in the same cell |
| Numbering.ClueNumberDense | lib/generator.ts:227-237 | a number above 1 is preceded by a word carrying the number one less |
| Numbering.ClueNumberSorted | lib/generator.ts:227-237 | on a sorted list clue numbers never decrease |
| Numbering.AssignNumbers | lib/generator.ts:227-237 | the loop with its counter and position map gives each word its clue number, changing nothing else |
| Numbering.NumberedOk | lib/generator.ts:221-237 | the numbered list is dense from 1, one number per start cell both ways, and sorted and non-decreasing when its input was sorted |
| Assemble.BuildCells | lib/generator.ts:239-262 | a `rows` by `cols` cell grid; cell `(r, c)` shows the working grid's cell `(minR + r, minC + c)` (black exactly when empty, the letter as value) with no clue numbers |
| Assemble.AddClueNumbers | lib/generator.ts:264-271 | only clue lists change, each only by growing; a list without repeats keeps none; afterwards a number is in a cell's list exactly when it was before or a word starting there carries it |
| Output.DistinctCarried | lib/generator.ts:215-237 | shifting, sorting and renumbering keep the words distinct |
| Output.CorpusCarried | lib/generator.ts:215-237 | shifting, sorting and renumbering keep every word from the corpus |
| Output.ReadsCarried | lib/generator.ts:221-237 | sorting and renumbering keep every word readable on the grid |
| Output.WordsInBox | lib/generator.ts:198-208 | every letter of every word lies in the bounding box |
| Output.CropReads | lib/generator.ts:210-219 | shifted words read correctly on the cropped grid |
| Output.SpellsShown | lib/generator.ts:253-262 | a word that reads on the board is spelled, letter by letter, by non-black cells of the cell grid showing it |
| Output.CoverCarried | lib/generator.ts:253-262 | every non-black cell of the output grid belongs to some output word |
| Output.FragmentsCarried | lib/generator.ts:197-262 | the trimmed output grid has no stray fragments when the working grid had none |
| Output.CapsCarried | lib/generator.ts:197-262 | open end caps on the working grid become black cells or the edge on the trimmed grid |
| Output.FramedCarried | lib/generator.ts:197-262 | when every word lies within a word with empty end caps on the working grid, every output word lies within an output word whose ends are black or the edge |
| Output.CapShown | lib/generator.ts:253-262 | an empty cell of the working grid is black or off the grid once cropped |
| Output.RunIsWord | lib/generator.ts:36-57 | on a grid whose words are spelled, joined and framed (each within a word closed at both ends), a maximal white run of two or more cells is one word |
| Output.ClosedWordIsRun | lib/generator.ts:36-57 | a spelled word closed at both ends that holds the first two cells of a white run starts where the run starts and has its length |
| Output.RunsShown | lib/generator.ts:36-57 | on such a grid every maximal white run of two or more cells is a word |
| Output.NoBlankLinesShown | lib/generator.ts:197-212 | the trimmed grid of a gapless board has no all-black row or column |
| Output.ShapeShown | lib/generator.ts:239-262 | a cell grid showing a board is well shaped: dimensions, coordinates, no input, black exactly when valueless, at most one letter per cell |
| Generator.GridSize | lib/generator.ts:5-9 | the grid side for a difficulty is between 10 and 15 |
| Generator.MinWords | lib/generator.ts:11-15 | the target word count for a difficulty is between 6 and 15 |
| Generator.Shuffled | lib/generator.ts:94 | the shuffled corpus has the corpus's length and entry `i` is entry `perm[i]` |
| Generator.ShuffledSameEntries | lib/generator.ts:94 | the shuffled corpus holds exactly the corpus's entries |
| Generator.SeedIndex | lib/generator.ts:108 | the seed index `floor(draw * n)` is always a valid index |
| Generator.MostWordsExtended | lib/generator.ts:191-194 | after one more attempt the kept index still marks an attempt with the most words: the new one when it placed strictly more, the old one otherwise |
| Generator.Contest | lib/generator.ts:102-194 | one pass of the loop: attempt `a` is run and becomes the kept attempt exactly when it placed more words than the best so far; the outcome list grows by that attempt, and the kept one still has the most words and satisfies the attempt invariant |
| Generator.OutcomeOfAttempt | lib/generator.ts:102-108 | entry `a` of the outcome list is attempt `a`, seeded by the entry draw `a` selects |
| Generator.BestAttempt | lib/generator.ts:96-195 | the kept grid and words are entry `best` of `Outcomes`, the twenty attempts in order: no attempt placed more words, every attempt before `best` placed fewer, and the kept attempt satisfies the attempt invariant |
| Generator.NumberedRead | lib/generator.ts:214-237 | the numbered words read correctly on the cropped grid and start inside it |
| Generator.WordsShown | lib/generator.ts:214-276 | the output words are between 1 and `target + 5` in number, distinct, from the corpus, spelled on the grid, and cover every letter |
| Generator.TrimmedWordsOk | lib/generator.ts:197-276 | the trimmed, sorted, numbered words satisfy the word and numbering parts of `PuzzleOk` |
| Generator.TrimmedGridOk | lib/generator.ts:197-262 | the trimmed cell grid is well shaped and has no blank line |
| Generator.StartsInBox | lib/generator.ts:198-219 | every word of a non-blank attempt starts inside the bounding box |
| Generator.TrimmedRunsOk | lib/generator.ts:197-276 | the trimmed puzzle has no stray fragments, every word lies within a word whose ends are black or the edge, and every maximal white run is exactly one word |
| Generator.Finished | lib/generator.ts:197-276 | the trimmed, numbered and assembled puzzle has every property of `PuzzleOk`, and under the corrected rule closed end caps on every word |
| Generator.WordShown | lib/generator.ts:115-124 | an attempt whose first word is non-empty has a letter on its grid |
| Generator.PuzzleOkShuffled | lib/generator.ts:94 | a puzzle with every property of `PuzzleOk` for the shuffled corpus has them for the corpus itself |
| Generator.Finish | lib/generator.ts:197-276 | a blank best grid gives `NoWordsPlaced`; otherwise the puzzle is the attempt trimmed to its bounding box (`Trimmed`: box dimensions, cropped cells, words shifted, sorted and numbered) and satisfies `PuzzleOk` with as many words as the attempt, and `CapsClosed` under the corrected rule |
| Generator.Arrange | lib/generator.ts:209-276 | the puzzle has the box's dimensions; its words are the attempt's words shifted, sorted and numbered; its cells show the cropped grid with correct clue lists |
| Generator.ShowCells | lib/generator.ts:239-271 | the cell rows show the window cell for cell, and each clue list holds, without repeats, exactly the numbers of the words starting there |
| Generator.GenerateCrossword | lib/generator.ts:89-277 | `EmptyCorpus` exactly for an empty corpus; `runs` are the twenty attempts on the shuffled corpus; the kept attempt `best` has the most words and strictly more than every earlier attempt; `NoWordsPlaced` exactly when its grid is blank, never for a corpus of non-empty words; otherwise the puzzle is that attempt `Trimmed` to its bounding box and satisfies `PuzzleOk` under either rule, and `CapsClosed` under the corrected one |

## Findings

| source | as written | input that shows it | evidently intended | confidence | as-written member | corrected member |
|---|---|---|---|---|---|---|
| lib/generator.ts:36-57 | the check looks only at the two end caps and at the perpendicular neighbours of empty cells, so a word may be laid over a placed word in the same line and run past its end | an Easy (10-square) attempt over the corpus CAT, CATS seeded with CAT: CAT goes across from (5, 4); CATS then passes the check across from (5, 4) whatever the anchor order; writing it fills CAT's end cap (5, 7), and the word list holds both CAT and CATS on one run | a new word meets placed words only at single crossings, so every placed word keeps empty end caps and every run is one word | not executed | Attempt.AlongAttempt | Placement.CanCrossWord |

## Left out

- Randomness. `Math.random` and the comparator shuffles (lines 94 and 143) are replaced by inputs: a permutation, twenty draws and an anchor-order function. Their distribution is not modelled. Line 94 sorts with an inconsistent comparator, so its result is some permutation of the corpus; the model takes any permutation.
- The corpus in `lib/dictionary.ts`. Its files are not part of this model, so the corpus is an input sequence.
- Grid sizes. The model requires every corpus word to be no longer than the grid. For a longer seed word the source clamps the start column to 0 and writes past the row's end, growing a JavaScript array; that behaviour is not modelled.
- Rows and columns across the word. `canPlaceWord` never checks that an across word's row or a down word's column is inside the grid. `Placement.CanPlaceWord` requires it (`InLane`), and every call from the search meets it because anchors are filled cells.
- Exceptions. `TypeError` and `RangeError` are modelled as `Err` values, not as exceptions.
- Array growth. Writes past an array's end are excluded by the preconditions above.
- Sorting. The comparator sort of line 222 is modelled as a stable insertion sort. JavaScript's sort is stable, so the result is the same list.
- Position keys. The string key `"row,col"` of the numbering map is modelled as the pair `(row, col)`. The falsy test `!wordByPos[key]` is modelled as "key not present", which is the same because stored numbers start at 1.
- `isHint`. This field is left undefined by the source and is `None` in the model.
- Generator.GridSize: the contract states only the range 10 to 15. The exact table is the function's body, and everything downstream depends only on the range.
- Generator.MinWords: the contract states only the range 6 to 15, for the same reason.
- String length. JavaScript's `.length` and `word[i]` count UTF-16 code units, while a Dafny `string` is a sequence of Unicode scalar values. For a word outside the Basic Multilingual Plane the two disagree; the model counts characters as Dafny does.
- Output.PuzzleOk: under the rule as written a word can be laid along a placed one (see "## Findings"), so `PuzzleOk` promises only that every word lies within a word with closed ends (`Framed`); closed ends on every word (`CapsClosed`) are promised under the corrected rule only.
- Board.CapsOpen, Output.CapsClosed: one-letter words are not promised closed ends. Such a word can sit inside a longer one, which is harmless for the grid.
- The rest of the repository. React rendering, input handling, the mascot, timers and the UI components are outside the generator.
