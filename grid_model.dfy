/** Value-level model of the word-search grid: cells, directions, the path a
    word follows, the feasibility test, the letter-by-letter placement and the
    fill pass, with the properties the generator relies on. */
module GridModel {

  /** A grid cell: the empty marker '' or one character written into it. */
  datatype Cell = Empty | Letter(ch: char)

  /** The three directions a word may run in (no anti-diagonal). */
  datatype Direction = Horizontal | Vertical | Diagonal

  datatype Option<T> = None | Some(value: T)

  /** Where a word's first letter sits and which way it runs. */
  datatype Placement = Placement(x: nat, y: nat, d: Direction)

  /** A grid is a sequence of rows; row r, column c is g[r][c]. */
  type Grid = seq<seq<Cell>>

  const Alphabet: seq<char> := "ABCDEFGHIJKLMNOPQRSTUVWXYZ"

  const Directions: seq<Direction> := [Horizontal, Vertical, Diagonal]

  /** How many random (direction, x, y) draws a word gets before it is skipped. */
  const MaxAttempts: nat := 100

  predicate IsShape(g: Grid, height: int, width: int) {
    |g| == height && forall r :: 0 <= r < |g| ==> |g[r]| == width
  }

  predicate IsUpperLetter(ch: char) {
    'A' <= ch <= 'Z'
  }

  /* ---------- the path of a word ---------- */

  /** Row of the i-th letter of a word whose first letter is in row y. */
  function RowAt(d: Direction, y: int, i: int): int {
    if d == Horizontal then y else y + i
  }

  /** Column of the i-th letter of a word whose first letter is in column x. */
  function ColAt(d: Direction, x: int, i: int): int {
    if d == Vertical then x else x + i
  }

  /** The offset along the ray from (x, y) in direction d at which cell
      (r, c) lies, or -1 when the cell is not on that ray. */
  function OffsetOf(d: Direction, x: int, y: int, r: int, c: int): (i: int)
    ensures i == -1 || (i >= 0 && r == RowAt(d, y, i) && c == ColAt(d, x, i))
  {
    match d
    case Horizontal => if r == y && c >= x then c - x else -1
    case Vertical => if c == x && r >= y then r - y else -1
    case Diagonal => if r - y == c - x && r >= y then r - y else -1
  }

  lemma OffsetOfPath(d: Direction, x: int, y: int, i: nat)
    ensures OffsetOf(d, x, y, RowAt(d, y, i), ColAt(d, x, i)) == i
  {
  }

  /** Cell (r, c) holds one of the len letters of a word placed at (x, y). */
  predicate OnPath(d: Direction, x: int, y: int, len: int, r: int, c: int) {
    0 <= OffsetOf(d, x, y, r, c) < len
  }

  /** The bounds test of the feasibility check: horizontal words are checked
      against the width only, vertical ones against the height only,
      diagonal ones against both. */
  predicate InBounds(d: Direction, x: int, y: int, len: int, width: int, height: int) {
    match d
    case Horizontal => x + len <= width
    case Vertical => y + len <= height
    case Diagonal => x + len <= width && y + len <= height
  }

  /** For an origin inside the grid, the bounds test keeps every letter of
      the word inside the grid. */
  lemma PathInGrid(d: Direction, x: int, y: int, len: int, width: int, height: int, i: int)
    requires 0 <= x < width && 0 <= y < height
    requires InBounds(d, x, y, len, width, height) && 0 <= i < len
    ensures 0 <= RowAt(d, y, i) < height && 0 <= ColAt(d, x, i) < width
  {
  }

  /* ---------- feasibility ---------- */

  /** A cell accepts letter ch when it is empty or already holds ch. */
  predicate Accepts(cell: Cell, ch: char) {
    cell == Empty || cell == Letter(ch)
  }

  /** The word can be placed at (x, y) in direction d: it stays inside the
      grid and every cell along its path accepts the corresponding letter. */
  predicate Fits(g: Grid, word: seq<char>, x: int, y: int, d: Direction, width: int, height: int)
    requires IsShape(g, height, width) && 0 <= x < width && 0 <= y < height
  {
    InBounds(d, x, y, |word|, width, height) &&
    forall i :: 0 <= i < |word| ==> Accepts(g[RowAt(d, y, i)][ColAt(d, x, i)], word[i])
  }

  /** The feasibility test depends on the cells of the path only: two grids
      that agree along the path give the same answer. */
  lemma FitsReadsOnlyPath(g: Grid, h: Grid, word: seq<char>, x: int, y: int, d: Direction, width: int, height: int)
    requires IsShape(g, height, width) && IsShape(h, height, width)
    requires 0 <= x < width && 0 <= y < height
    requires forall r, c :: 0 <= r < height && 0 <= c < width && OnPath(d, x, y, |word|, r, c) ==> g[r][c] == h[r][c]
    ensures Fits(g, word, x, y, d, width, height) == Fits(h, word, x, y, d, width, height)
  {
  }

  /* ---------- placement ---------- */

  /** The grid with cell (r, c) set to v. */
  function Write(g: Grid, r: int, c: int, v: Cell): Grid
    requires 0 <= r < |g| && 0 <= c < |g[r]|
  {
    g[r := g[r][c := v]]
  }

  /** The grid after the first n letters of word have been written along
      its path, one after the other; the shape of the grid never changes. */
  function PlacePrefix(g: Grid, word: seq<char>, x: int, y: int, d: Direction, width: int, height: int, n: nat): (h: Grid)
    requires IsShape(g, height, width) && 0 <= x < width && 0 <= y < height
    requires InBounds(d, x, y, |word|, width, height) && n <= |word|
    ensures IsShape(h, height, width)
    decreases n
  {
    if n == 0 then g
    else
      var h := PlacePrefix(g, word, x, y, d, width, height, n - 1);
      Write(h, RowAt(d, y, n - 1), ColAt(d, x, n - 1), Letter(word[n - 1]))
  }

  /** The grid after every letter of word has been written along its path. */
  function Place(g: Grid, word: seq<char>, x: int, y: int, d: Direction, width: int, height: int): Grid
    requires IsShape(g, height, width) && 0 <= x < width && 0 <= y < height
    requires InBounds(d, x, y, |word|, width, height)
  {
    PlacePrefix(g, word, x, y, d, width, height, |word|)
  }

  /** After n letters are written, a cell at offset i < n along the path holds
      word[i] and every other cell holds what it held before. */
  lemma {:induction false} PlacePrefixAt(g: Grid, word: seq<char>, x: int, y: int, d: Direction, width: int, height: int, n: nat, r: int, c: int)
    requires IsShape(g, height, width) && 0 <= x < width && 0 <= y < height
    requires InBounds(d, x, y, |word|, width, height) && n <= |word|
    requires 0 <= r < height && 0 <= c < width
    ensures var i := OffsetOf(d, x, y, r, c);
      PlacePrefix(g, word, x, y, d, width, height, n)[r][c] == if 0 <= i < n then Letter(word[i]) else g[r][c]
  {
    if n > 0 {
      PlacePrefixAt(g, word, x, y, d, width, height, n - 1, r, c);
      OffsetOfPath(d, x, y, n - 1);
    }
  }

  /** Every letter of the word ends up on its path. */
  predicate Spells(g: Grid, word: seq<char>, x: int, y: int, d: Direction, width: int, height: int)
    requires IsShape(g, height, width) && 0 <= x < width && 0 <= y < height
    requires InBounds(d, x, y, |word|, width, height)
  {
    forall i :: 0 <= i < |word| ==> g[RowAt(d, y, i)][ColAt(d, x, i)] == Letter(word[i])
  }

  /** After placement, the cell at offset i along the path holds word[i]. */
  lemma PlaceSpells(g: Grid, word: seq<char>, x: int, y: int, d: Direction, width: int, height: int)
    requires IsShape(g, height, width) && 0 <= x < width && 0 <= y < height
    requires InBounds(d, x, y, |word|, width, height)
    ensures Spells(Place(g, word, x, y, d, width, height), word, x, y, d, width, height)
  {
    forall i | 0 <= i < |word|
      ensures Place(g, word, x, y, d, width, height)[RowAt(d, y, i)][ColAt(d, x, i)] == Letter(word[i])
    {
      OffsetOfPath(d, x, y, i);
      PlacePrefixAt(g, word, x, y, d, width, height, |word|, RowAt(d, y, i), ColAt(d, x, i));
    }
  }

  /** Placement changes no cell off the word's path. */
  lemma PlaceOffPath(g: Grid, word: seq<char>, x: int, y: int, d: Direction, width: int, height: int)
    requires IsShape(g, height, width) && 0 <= x < width && 0 <= y < height
    requires InBounds(d, x, y, |word|, width, height)
    ensures forall r, c :: 0 <= r < height && 0 <= c < width && !OnPath(d, x, y, |word|, r, c) ==>
      Place(g, word, x, y, d, width, height)[r][c] == g[r][c]
  {
    forall r, c | 0 <= r < height && 0 <= c < width && !OnPath(d, x, y, |word|, r, c)
      ensures Place(g, word, x, y, d, width, height)[r][c] == g[r][c]
    {
      PlacePrefixAt(g, word, x, y, d, width, height, |word|, r, c);
    }
  }

  /** h keeps every letter of g: the same shape, and no non-empty cell of g
      differs in h. */
  predicate Extends(g: Grid, h: Grid, height: int, width: int) {
    IsShape(g, height, width) && IsShape(h, height, width) &&
    forall r, c :: 0 <= r < height && 0 <= c < width && g[r][c] != Empty ==> h[r][c] == g[r][c]
  }

  /** Placing a word that fits overwrites no letter: overlaps happen only
      where the cell already held the same letter. */
  lemma PlaceNoConflict(g: Grid, word: seq<char>, x: int, y: int, d: Direction, width: int, height: int)
    requires IsShape(g, height, width) && 0 <= x < width && 0 <= y < height
    requires Fits(g, word, x, y, d, width, height)
    ensures Extends(g, Place(g, word, x, y, d, width, height), height, width)
  {
    var h := Place(g, word, x, y, d, width, height);
    forall r, c | 0 <= r < height && 0 <= c < width && g[r][c] != Empty
      ensures h[r][c] == g[r][c]
    {
      PlacePrefixAt(g, word, x, y, d, width, height, |word|, r, c);
    }
  }

  /** Right after a placement the same word still fits at the same spot, and
      placing it again changes nothing. */
  lemma PlaceIdempotent(g: Grid, word: seq<char>, x: int, y: int, d: Direction, width: int, height: int)
    requires IsShape(g, height, width) && 0 <= x < width && 0 <= y < height
    requires InBounds(d, x, y, |word|, width, height)
    ensures var h := Place(g, word, x, y, d, width, height);
      Fits(h, word, x, y, d, width, height) && Place(h, word, x, y, d, width, height) == h
  {
    var h := Place(g, word, x, y, d, width, height);
    PlaceSpells(g, word, x, y, d, width, height);
    var h2 := Place(h, word, x, y, d, width, height);
    forall r | 0 <= r < height
      ensures h2[r] == h[r]
    {
      forall c | 0 <= c < width
        ensures h2[r][c] == h[r][c]
      {
        PlacePrefixAt(h, word, x, y, d, width, height, |word|, r, c);
        PlacePrefixAt(g, word, x, y, d, width, height, |word|, r, c);
      }
    }
  }

  /** A word spelled in g is still spelled in every grid that extends g. */
  lemma ExtendsKeepsSpelling(g: Grid, h: Grid, word: seq<char>, x: int, y: int, d: Direction, width: int, height: int)
    requires IsShape(g, height, width) && 0 <= x < width && 0 <= y < height
    requires InBounds(d, x, y, |word|, width, height)
    requires Extends(g, h, height, width) && Spells(g, word, x, y, d, width, height)
    ensures Spells(h, word, x, y, d, width, height)
  {
  }

  /* ---------- fill pass ---------- */

  /** The fill pass on one cell: an empty cell receives a letter A-Z, any
      other cell is left alone. */
  predicate FilledCell(before: Cell, after: Cell) {
    if before == Empty then after.Letter? && after.ch in Alphabet else after == before
  }

  predicate FilledFrom(g: Grid, h: Grid, height: int, width: int) {
    IsShape(g, height, width) && IsShape(h, height, width) &&
    forall r, c :: 0 <= r < height && 0 <= c < width ==> FilledCell(g[r][c], h[r][c])
  }

  /** The fill pass leaves no empty cell, puts an upper-case letter into every
      cell that was empty, and keeps every letter already there. */
  lemma FillCompletes(g: Grid, h: Grid, height: int, width: int)
    requires FilledFrom(g, h, height, width)
    ensures Extends(g, h, height, width)
    ensures forall r, c :: 0 <= r < height && 0 <= c < width ==> h[r][c] != Empty
    ensures forall r, c :: 0 <= r < height && 0 <= c < width && g[r][c] == Empty ==> IsUpperLetter(h[r][c].ch)
  {
  }

  /* ---------- case normalisation ---------- */

  /** ASCII upper-casing of one character. */
  function UpperChar(ch: char): char {
    if 'a' <= ch <= 'z' then (ch as int - 32) as char else ch
  }

  /** The word in upper case: lower-case ASCII letters become the matching
      letter of the alphabet, every other character is kept; the length never
      changes. */
  function ToUpper(s: seq<char>): (u: seq<char>)
    ensures |u| == |s|
    ensures forall i :: 0 <= i < |s| && 'a' <= s[i] <= 'z' ==> u[i] == Alphabet[s[i] as int - 'a' as int]
    ensures forall i :: 0 <= i < |s| && !('a' <= s[i] <= 'z') ==> u[i] == s[i]
    ensures forall i :: 0 <= i < |u| ==> !('a' <= u[i] <= 'z')
  {
    seq(|s|, i requires 0 <= i < |s| => UpperChar(s[i]))
  }

  /* ---------- the word list ---------- */

  /** Cell (r, c) lies on the path of one of the words placed so far;
      placements[k] records where words[k] went, if anywhere. */
  predicate Covered(words: seq<seq<char>>, placements: seq<Option<Placement>>, r: int, c: int) {
    exists k :: 0 <= k < |placements| && k < |words| && placements[k].Some? &&
      OnPath(placements[k].value.d, placements[k].value.x, placements[k].value.y, |words[k]|, r, c)
  }

  /** The upper-cased word, placed at p, is inside the grid and spelled in g. */
  predicate Landed(g: Grid, word: seq<char>, p: Placement, height: int, width: int) {
    IsShape(g, height, width) && p.x < width && p.y < height &&
    InBounds(p.d, p.x, p.y, |word|, width, height) &&
    Spells(g, word, p.x, p.y, p.d, width, height)
  }

  /* ---------- the generator's history ---------- */

  /** The height-by-width grid the generator starts from: every cell empty. */
  function EmptyGrid(height: nat, width: nat): (g: Grid)
    ensures IsShape(g, height, width)
    ensures forall r, c :: 0 <= r < height && 0 <= c < width ==> g[r][c] == Empty
  {
    seq(height, r => seq(width, c => Empty))
  }

  /** One word's turn: tried lists the 1 to MaxAttempts draws made against
      grid g, each with an origin inside the grid. Every draw but the last
      fails the feasibility test. If the last draw fits, the word is placed
      there, giving h; otherwise all MaxAttempts draws failed, the word is
      skipped and h is g. */
  predicate WordStep(g: Grid, h: Grid, word: seq<char>, tried: seq<Placement>, outcome: Option<Placement>, height: int, width: int) {
    IsShape(g, height, width) &&
    1 <= |tried| <= MaxAttempts &&
    (forall t :: t in tried ==> t.x < width && t.y < height) &&
    (forall k :: 0 <= k < |tried| - 1 ==> !Fits(g, word, tried[k].x, tried[k].y, tried[k].d, width, height)) &&
    (var p := tried[|tried| - 1];
     if Fits(g, word, p.x, p.y, p.d, width, height) then
       outcome == Some(p) && h == Place(g, word, p.x, p.y, p.d, width, height)
     else
       outcome == None && |tried| == MaxAttempts && h == g)
  }

  /** The generator's run over the first |placements| words: stages[k] is the
      grid before words[k] is tried and stages[k + 1] the grid after, starting
      from the empty grid; trials[k] are the draws for words[k] and
      placements[k] where it went, if anywhere. Each word is upper-cased. */
  predicate Chain(words: seq<seq<char>>, stages: seq<Grid>, trials: seq<seq<Placement>>, placements: seq<Option<Placement>>, height: nat, width: nat) {
    |stages| == |trials| + 1 && |trials| == |placements| && |placements| <= |words| &&
    stages[0] == EmptyGrid(height, width) &&
    forall k :: 0 <= k < |trials| ==>
      WordStep(stages[k], stages[k + 1], ToUpper(words[k]), trials[k], placements[k], height, width)
  }

  /** One word's turn keeps every letter already in the grid, spells a placed
      word at its placement, and writes letters only on that word's path. */
  lemma WordStepKeeps(g: Grid, h: Grid, word: seq<char>, tried: seq<Placement>, outcome: Option<Placement>, height: int, width: int)
    requires WordStep(g, h, word, tried, outcome, height, width)
    ensures Extends(g, h, height, width)
    ensures outcome.Some? ==> Landed(h, word, outcome.value, height, width)
    ensures forall r, c :: 0 <= r < height && 0 <= c < width && h[r][c] != Empty && g[r][c] == Empty ==>
      outcome.Some? && OnPath(outcome.value.d, outcome.value.x, outcome.value.y, |word|, r, c)
  {
    if outcome.Some? {
      var p := outcome.value;
      PlaceNoConflict(g, word, p.x, p.y, p.d, width, height);
      PlaceSpells(g, word, p.x, p.y, p.d, width, height);
      PlaceOffPath(g, word, p.x, p.y, p.d, width, height);
    }
  }

  /** Along the run, every placed word stays spelled in the latest grid (no
      later word overwrites it), and every letter in the latest grid lies on
      the path of a placed word. */
  lemma {:induction false} ChainLands(words: seq<seq<char>>, stages: seq<Grid>, trials: seq<seq<Placement>>, placements: seq<Option<Placement>>, height: nat, width: nat)
    requires Chain(words, stages, trials, placements, height, width)
    ensures IsShape(stages[|placements|], height, width)
    ensures forall k :: 0 <= k < |placements| && placements[k].Some? ==>
      Landed(stages[|placements|], ToUpper(words[k]), placements[k].value, height, width)
    ensures forall r, c :: 0 <= r < height && 0 <= c < width && stages[|placements|][r][c] != Empty ==>
      Covered(words, placements, r, c)
    decreases |placements|
  {
    var n := |placements|;
    if n > 0 {
      var stages', trials', placements' := stages[..n], trials[..n - 1], placements[..n - 1];
      assert Chain(words, stages', trials', placements', height, width) by {
        forall k | 0 <= k < |trials'|
          ensures WordStep(stages'[k], stages'[k + 1], ToUpper(words[k]), trials'[k], placements'[k], height, width)
        {
          assert WordStep(stages[k], stages[k + 1], ToUpper(words[k]), trials[k], placements[k], height, width);
        }
      }
      ChainLands(words, stages', trials', placements', height, width);
      var g, h, word, outcome := stages[n - 1], stages[n], ToUpper(words[n - 1]), placements[n - 1];
      WordStepKeeps(g, h, word, trials[n - 1], outcome, height, width);
      forall k | 0 <= k < n - 1 && placements[k].Some?
        ensures Landed(h, ToUpper(words[k]), placements[k].value, height, width)
      {
        var q := placements[k].value;
        assert placements'[k] == placements[k];
        ExtendsKeepsSpelling(g, h, ToUpper(words[k]), q.x, q.y, q.d, width, height);
      }
      forall r, c | 0 <= r < height && 0 <= c < width && h[r][c] != Empty
        ensures Covered(words, placements, r, c)
      {
        if g[r][c] == Empty {
          assert placements[n - 1] == outcome;
        } else {
          var k :| 0 <= k < |placements'| && k < |words| && placements'[k].Some? &&
            OnPath(placements'[k].value.d, placements'[k].value.x, placements'[k].value.y, |words[k]|, r, c);
          assert placements[k] == placements'[k];
        }
      }
    }
  }

  /** The finished puzzle: after the run and the fill pass there is no empty
      cell, every placed word is still spelled at its placement, and every
      cell holds an upper-case letter or lies on the path of a placed word. */
  lemma GeneratedPuzzle(words: seq<seq<char>>, stages: seq<Grid>, trials: seq<seq<Placement>>, placements: seq<Option<Placement>>, height: nat, width: nat, final: Grid)
    requires Chain(words, stages, trials, placements, height, width)
    requires FilledFrom(stages[|placements|], final, height, width)
    ensures forall r, c :: 0 <= r < height && 0 <= c < width ==> final[r][c] != Empty
    ensures forall k :: 0 <= k < |placements| && placements[k].Some? ==>
      Landed(final, ToUpper(words[k]), placements[k].value, height, width)
    ensures forall r, c :: 0 <= r < height && 0 <= c < width ==>
      IsUpperLetter(final[r][c].ch) || Covered(words, placements, r, c)
  {
    var g := stages[|placements|];
    ChainLands(words, stages, trials, placements, height, width);
    FillCompletes(g, final, height, width);
    forall k | 0 <= k < |placements| && placements[k].Some?
      ensures Landed(final, ToUpper(words[k]), placements[k].value, height, width)
    {
      var q := placements[k].value;
      ExtendsKeepsSpelling(g, final, ToUpper(words[k]), q.x, q.y, q.d, width, height);
    }
  }
}
