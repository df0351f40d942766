/** The word-search generator over a mutable height-by-width buffer: the
    feasibility check, the in-place placement, the bounded retry loop, the
    fill pass and the orchestration. Random draws are nondeterministic
    choices; every property below holds whatever is drawn. */
module WordSearch {
  import opened GridModel

  /** The rows of the buffer as a value. */
  ghost function Cells(a: array2<Cell>): (g: Grid)
    reads a
    ensures IsShape(g, a.Length0, a.Length1)
    ensures forall r, c :: 0 <= r < a.Length0 && 0 <= c < a.Length1 ==> g[r][c] == a[r, c]
  {
    seq(a.Length0, r requires 0 <= r < a.Length0 reads a =>
      seq(a.Length1, c requires 0 <= c < a.Length1 reads a => a[r, c]))
  }

  lemma CellsEqual(a: array2<Cell>, g: Grid)
    requires IsShape(g, a.Length0, a.Length1)
    requires forall r, c :: 0 <= r < a.Length0 && 0 <= c < a.Length1 ==> a[r, c] == g[r][c]
    ensures Cells(a) == g
  {
    var h := Cells(a);
    forall r | 0 <= r < |g|
      ensures h[r] == g[r]
    {
    }
  }

  /** A uniformly drawn index below n, here any index below n. */
  method RandomIndex(n: nat) returns (k: nat)
    requires n > 0
    ensures k < n
  {
    k :| k < n;
  }

  /** A random letter of the alphabet. */
  method RandomLetter() returns (ch: char)
    ensures ch in Alphabet && IsUpperLetter(ch)
  {
    var k := RandomIndex(|Alphabet|);
    ch := Alphabet[k];
  }

  /** The feasibility check: false when the word would leave the grid, else
      true exactly when every cell of its path is empty or holds the same
      letter. It stops at the first conflicting cell and reads nothing else. */
  method CanPlaceWord(grid: array2<Cell>, word: seq<char>, x: int, y: int, d: Direction, width: int, height: int)
    returns (ok: bool)
    requires grid.Length0 == height && grid.Length1 == width
    requires 0 <= x < width && 0 <= y < height
    ensures ok == Fits(Cells(grid), word, x, y, d, width, height)
    ensures !InBounds(d, x, y, |word|, width, height) ==> !ok
  {
    var len := |word|;
    match d {
      case Horizontal =>
        if x + len > width { return false; }
        for i := 0 to len
          invariant forall j :: 0 <= j < i ==> Accepts(grid[y, x + j], word[j])
        {
          if grid[y, x + i] != Empty && grid[y, x + i] != Letter(word[i]) { return false; }
        }
      case Vertical =>
        if y + len > height { return false; }
        for i := 0 to len
          invariant forall j :: 0 <= j < i ==> Accepts(grid[y + j, x], word[j])
        {
          if grid[y + i, x] != Empty && grid[y + i, x] != Letter(word[i]) { return false; }
        }
      case Diagonal =>
        if x + len > width || y + len > height { return false; }
        for i := 0 to len
          invariant forall j :: 0 <= j < i ==> Accepts(grid[y + j, x + j], word[j])
        {
          if grid[y + i, x + i] != Empty && grid[y + i, x + i] != Letter(word[i]) { return false; }
        }
    }
    return true;
  }

  /** Writes the word's letters along its path, unconditionally. */
  method PlaceWord(grid: array2<Cell>, word: seq<char>, x: int, y: int, d: Direction)
    requires 0 <= x < grid.Length1 && 0 <= y < grid.Length0
    requires InBounds(d, x, y, |word|, grid.Length1, grid.Length0)
    modifies grid
    ensures Cells(grid) == Place(old(Cells(grid)), word, x, y, d, grid.Length1, grid.Length0)
  {
    ghost var before := Cells(grid);
    for i := 0 to |word|
      invariant Cells(grid) == PlacePrefix(before, word, x, y, d, grid.Length1, grid.Length0, i)
    {
      ghost var prev := Cells(grid);
      PathInGrid(d, x, y, |word|, grid.Length1, grid.Length0, i);
      match d {
        case Horizontal => grid[y, x + i] := Letter(word[i]);
        case Vertical => grid[y + i, x] := Letter(word[i]);
        case Diagonal => grid[y + i, x + i] := Letter(word[i]);
      }
      CellsEqual(grid, Write(prev, RowAt(d, y, i), ColAt(d, x, i), Letter(word[i])));
    }
  }

  /** Up to MaxAttempts random draws of a direction and an origin for the
      upper-cased word; the word is written at the first draw that fits and the
      loop stops there. tried lists the draws in order. */
  method PlaceWithRetries(grid: array2<Cell>, word: seq<char>) returns (placed: bool, ghost tried: seq<Placement>)
    requires grid.Length0 > 0 && grid.Length1 > 0
    modifies grid
    ensures 1 <= |tried| <= MaxAttempts
    ensures forall t :: t in tried ==> t.x < grid.Length1 && t.y < grid.Length0
    ensures forall k :: 0 <= k < |tried| - 1 ==>
      !Fits(old(Cells(grid)), ToUpper(word), tried[k].x, tried[k].y, tried[k].d, grid.Length1, grid.Length0)
    ensures var p := tried[|tried| - 1];
      placed == Fits(old(Cells(grid)), ToUpper(word), p.x, p.y, p.d, grid.Length1, grid.Length0)
    ensures !placed ==> |tried| == MaxAttempts && Cells(grid) == old(Cells(grid))
    ensures placed ==> var p := tried[|tried| - 1];
      InBounds(p.d, p.x, p.y, |word|, grid.Length1, grid.Length0) &&
      Cells(grid) == Place(old(Cells(grid)), ToUpper(word), p.x, p.y, p.d, grid.Length1, grid.Length0)
  {
    var width, height := grid.Length1, grid.Length0;
    ghost var before := Cells(grid);
    var upper := ToUpper(word);
    placed := false;
    var attempts := 0;
    tried := [];
    while !placed && attempts < MaxAttempts
      invariant attempts == |tried| <= MaxAttempts
      invariant forall t :: t in tried ==> t.x < width && t.y < height
      invariant forall k :: 0 <= k < |tried| - (if placed then 1 else 0) ==>
        !Fits(before, upper, tried[k].x, tried[k].y, tried[k].d, width, height)
      invariant !placed ==> Cells(grid) == before
      invariant placed ==> |tried| >= 1 && var p := tried[|tried| - 1];
        Fits(before, upper, p.x, p.y, p.d, width, height) &&
        Cells(grid) == Place(before, upper, p.x, p.y, p.d, width, height)
      decreases MaxAttempts - attempts
    {
      var k := RandomIndex(|Directions|);
      var direction := Directions[k];
      var x := RandomIndex(width);
      var y := RandomIndex(height);
      var ok := CanPlaceWord(grid, upper, x, y, direction, width, height);
      if ok {
        PlaceWord(grid, upper, x, y, direction);
        placed := true;
      }
      tried := tried + [Placement(x, y, direction)];
      attempts := attempts + 1;
    }
  }

  /** The fill pass: every empty cell receives a random letter, every other
      cell is left alone. */
  method FillEmpty(grid: array2<Cell>)
    modifies grid
    ensures FilledFrom(old(Cells(grid)), Cells(grid), grid.Length0, grid.Length1)
  {
    for y := 0 to grid.Length0
      invariant forall r, c :: 0 <= r < y && 0 <= c < grid.Length1 ==> FilledCell(old(grid[r, c]), grid[r, c])
      invariant forall r, c :: y <= r < grid.Length0 && 0 <= c < grid.Length1 ==> grid[r, c] == old(grid[r, c])
    {
      for x := 0 to grid.Length1
        invariant forall r, c :: 0 <= r < y && 0 <= c < grid.Length1 ==> FilledCell(old(grid[r, c]), grid[r, c])
        invariant forall c :: 0 <= c < x ==> FilledCell(old(grid[y, c]), grid[y, c])
        invariant forall r, c :: 0 <= r < grid.Length0 && 0 <= c < grid.Length1 && (r > y || (r == y && c >= x)) ==>
          grid[r, c] == old(grid[r, c])
      {
        if grid[y, x] == Empty {
          var ch := RandomLetter();
          grid[y, x] := Letter(ch);
        }
      }
    }
  }

  /** Generates a height-by-width puzzle: each word in order is upper-cased and
      placed at the first of up to MaxAttempts random spots where it fits in
      the grid built from the earlier words, or silently skipped; then every
      empty cell gets a random letter. The ghost results record the run:
      stages[k] is the grid before words[k] is tried, trials[k] the draws made
      for it and placements[k] where it went, if anywhere. */
  method GenerateWordSearch(height: nat, width: nat, words: seq<seq<char>>)
    returns (grid: array2<Cell>, ghost placements: seq<Option<Placement>>,
             ghost stages: seq<Grid>, ghost trials: seq<seq<Placement>>)
    requires height > 0 && width > 0
    ensures fresh(grid) && grid.Length0 == height && grid.Length1 == width
    ensures |placements| == |words|
    ensures Chain(words, stages, trials, placements, height, width)
    ensures FilledFrom(stages[|words|], Cells(grid), height, width)
    ensures forall k :: 0 <= k < |words| && placements[k].Some? ==>
      Landed(Cells(grid), ToUpper(words[k]), placements[k].value, height, width)
    ensures forall r, c :: 0 <= r < height && 0 <= c < width ==> grid[r, c] != Empty
    ensures forall r, c :: 0 <= r < height && 0 <= c < width ==>
      IsUpperLetter(grid[r, c].ch) || Covered(words, placements, r, c)
  {
    grid := new Cell[height, width]((r, c) => Empty);
    CellsEqual(grid, EmptyGrid(height, width));
    placements, stages, trials := [], [Cells(grid)], [];
    for i := 0 to |words|
      invariant |placements| == i
      invariant Chain(words, stages, trials, placements, height, width)
      invariant Cells(grid) == stages[i]
    {
      ghost var before := Cells(grid);
      var placed, tried := PlaceWithRetries(grid, words[i]);
      ghost var outcome := if placed then Some(tried[|tried| - 1]) else None;
      assert WordStep(before, Cells(grid), ToUpper(words[i]), tried, outcome, height, width);
      ghost var stages', trials', placements' := stages, trials, placements;
      placements, stages, trials := placements + [outcome], stages + [Cells(grid)], trials + [tried];
      forall k | 0 <= k < |trials|
        ensures WordStep(stages[k], stages[k + 1], ToUpper(words[k]), trials[k], placements[k], height, width)
      {
        if k < i {
          assert WordStep(stages'[k], stages'[k + 1], ToUpper(words[k]), trials'[k], placements'[k], height, width);
        }
      }
    }
    FillEmpty(grid);
    GeneratedPuzzle(words, stages, trials, placements, height, width, Cells(grid));
  }
}
