# Word-search grid generator

This project models the generator behind a word-search puzzle (`src/WordSearch.tsx`). The generator builds a
`height`×`width` grid of empty cells. It takes the words in order and upper-cases each one. It then tries up to 100 random
(direction, x, y) spots per word, and writes the word at the first spot where it fits. A word that fits nowhere
in 100 draws is silently skipped. Finally, every cell still empty gets a random letter `A`–`Z`.

There are two modules:

- `GridModel` (`grid_model.dfy`) is the value-level model. It has cells (`Empty` for the `''` marker or `Letter(ch)`),
  the three directions, the path a word follows (`RowAt`, `ColAt`, `OffsetOf`, `OnPath`), the bounds test
  `InBounds`, the feasibility predicate `Fits` and the letter-by-letter placement `PlacePrefix`/`Place`. It also holds
  the fill relation `FilledFrom`, the ASCII upper-casing `ToUpper`, and lemmas about all of these.
- `WordSearch` (`word_search.dfy`) is the imperative generator. It works over a mutable `array2<Cell>` buffer. Each
  method is proved against the value model through the ghost view `Cells(grid)`.

Randomness (`Math.random`) becomes the nondeterministic choice `RandomIndex(n)` of an index below `n`. Every
property holds for every sequence of choices. The ghost results `tried` (the draws made for one word), `stages`
(the grid before each word is tried), `trials` (the draws made for each word) and `placements` (where each word went,
if anywhere) record the run; the source does not return them.

One might expect the finished grid to hold upper-case letters only. The code, however, writes whatever characters the
upper-cased word holds, so digits or punctuation in a word end up in the grid. The model follows the code:
`GenerateWordSearch` promises that each cell is an upper-case letter or lies on the path of a placed word.

## Model

| member | source | states |
|---|---|---|
| `GridModel.PathInGrid` | src/WordSearch.tsx:16-33 | for an origin inside the grid, passing the direction's bounds test keeps every letter of the path inside the grid |
| `GridModel.FitsReadsOnlyPath` | src/WordSearch.tsx:10-38 | the feasibility answer depends only on the cells along the word's path; grids that agree there get the same answer |
| `GridModel.PlacePrefix` | src/WordSearch.tsx:40-54 | writing the first n letters never changes the grid's row count or row lengths |
| `GridModel.PlacePrefixAt` | src/WordSearch.tsx:41-53 | after n letters, the cell at offset i < n along the direction holds word[i]; every other cell keeps its old value |
| `GridModel.PlaceSpells` | src/WordSearch.tsx:41-53 | after placement, cell (y, x+i), (y+i, x) or (y+i, x+i) holds word[i] for every i < len |
| `GridModel.PlaceOffPath` | src/WordSearch.tsx:40-54 | placement leaves every cell off the word's path unchanged |
| `GridModel.PlaceNoConflict` | src/WordSearch.tsx:10-54 | if the word fits, placing it changes no non-empty cell: overlaps happen only at matching letters |
| `GridModel.PlaceIdempotent` | src/WordSearch.tsx:40-54 | right after a placement the same word still fits at the same spot, and placing it again changes nothing |
| `GridModel.ExtendsKeepsSpelling` | src/WordSearch.tsx:61-86 | a word spelled in a grid stays spelled in any later grid that keeps all existing letters |
| `GridModel.FillCompletes` | src/WordSearch.tsx:80-86 | after the fill pass no cell is empty, formerly empty cells hold A–Z, and existing letters are kept |
| `GridModel.ToUpper` | src/WordSearch.tsx:70-71 | upper-casing keeps the length, maps a–z to A–Z, keeps every other character, and leaves no lower-case ASCII letter |
| `GridModel.EmptyGrid` | src/WordSearch.tsx:57 | the starting grid has height rows of width cells, all empty |
| `GridModel.WordStepKeeps` | src/WordSearch.tsx:62-76 | one word's turn keeps every letter already in the grid, spells a placed word at its placement, and writes new letters only on that word's path |
| `GridModel.ChainLands` | src/WordSearch.tsx:61-77 | along the run of the word loop, every word placed so far is still spelled at its placement in the latest grid, and every non-empty cell lies on the path of a placed word |
| `GridModel.GeneratedPuzzle` | src/WordSearch.tsx:56-89 | after the run and the fill pass no cell is empty, every placed word is still spelled upper-cased at its placement, and every cell is A–Z or lies on a placed word's path |
| `WordSearch.RandomIndex` | src/WordSearch.tsx:66-68 | a random draw is an index below its bound (a direction, x in [0, width), y in [0, height)) |
| `WordSearch.RandomLetter` | src/WordSearch.tsx:5-8 | the random letter is one of A–Z |
| `WordSearch.CanPlaceWord` | src/WordSearch.tsx:10-38 | returns true exactly when the word stays inside the grid and every path cell is empty or holds the same letter; false whenever the path leaves the grid |
| `WordSearch.PlaceWord` | src/WordSearch.tsx:40-54 | the new grid equals the old grid with the word's letters written along its path |
| `WordSearch.PlaceWithRetries` | src/WordSearch.tsx:62-76 | makes 1 to 100 in-range draws; every draw except the last fails the feasibility test; the word is placed exactly when the last draw fits; the grid then holds the placed upper-cased word, or is unchanged after 100 failures |
| `WordSearch.FillEmpty` | src/WordSearch.tsx:80-86 | every empty cell receives a letter A–Z; every non-empty cell is untouched |
| `WordSearch.GenerateWordSearch` | src/WordSearch.tsx:56-89 | returns a fresh height×width grid whose run is a `Chain` from the all-empty grid: each word in order is upper-cased and gets 1 to 100 in-range draws against the grid built from the earlier words, every draw but the last fails, it is placed at the last draw exactly when that draw fits and otherwise skipped after 100 failures with the grid unchanged; the fill pass then takes the last stage to the result (`FilledFrom`). Consequently no cell is empty, every placed word is spelled upper-cased at its spot, and every cell is A–Z or on a placed word's path |

## Left out

- The React component `WordSearch` (src/WordSearch.tsx:91-139): its state, effect, refresh handler and table rendering are UI wiring, not algorithm.
- `Math.floor(Math.random() * n)` is floating-point arithmetic. It is replaced by a nondeterministic choice of an index below `n`, so uniformity is not modelled, and neither are probabilistic claims such as "a short word is placed in most runs".
- `GridModel.ToUpper`: does only ASCII case mapping. JavaScript's `toUpperCase` also maps non-ASCII letters and can change a string's length (for example `ß` becomes `SS`).
- Grid cells are `Empty` or one `char` instead of JavaScript strings. A word's element is one UTF-16 code unit in the source and one Unicode scalar value here.
- `WordSearch.GenerateWordSearch`: requires `height > 0` and `width > 0`. With a zero dimension the source either never places a non-empty word or throws when it indexes a missing row; neither case is modelled.
- `WordSearch.CanPlaceWord`: requires `0 <= x < width` and `0 <= y < height`. Negative or out-of-range origins are unreachable because the caller draws them in range.
- `WordSearch.PlaceWord`: requires the path to be inside the grid. The source writes without checking: a horizontal or diagonal path running past a row's end would grow that JavaScript row, and a vertical or diagonal path running past the last row makes `grid[y + i]` undefined, so the write throws a TypeError (src/WordSearch.tsx:47, :50). Its only caller runs it right after a successful feasibility check, so this never happens.
- `WordSearch.PlaceWithRetries`: upper-cases the word once before the loop. The source calls `toUpperCase` again on each attempt, which gives the same value.
- The default `words = []` argument is not modelled; callers pass the word list explicitly.
