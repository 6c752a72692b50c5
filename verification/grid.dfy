/**
 The crossword board of src/crossword.rs: a `width x height` rectangle of
 cells, indexed by `Pos(x, y)` (column, row), with reads and writes of the
 run of cells a slot covers.

 A walk of `len` cells starts at `pos` and advances the column (`Across`) or
 the row (`Down`) by one per cell. `get_pattern` reads a walk as a pattern
 (`Empty` is `None`, `Letter(c)` is `Some(c)`, `Black` panics); `set_pattern`
 writes a pattern back and `set_word` writes the letters of a word. Indexing
 outside the grid panics in the source, so every access requires its cells to
 lie inside the grid.
 */
module Grid {
  import opened Common

  datatype Cell = Empty | Black | Letter(c: char)

  datatype Pos = Pos(x: nat, y: nat)

  datatype Direction = Across | Down

  datatype Crossword = Crossword(width: nat, height: nat, grid: seq<seq<Cell>>)

  type CharPattern = seq<Option<char>>

  /** The grid holds `height` rows of `width` cells each. */
  predicate Valid(cw: Crossword) {
    && |cw.grid| == cw.height
    && forall y :: 0 <= y < |cw.grid| ==> |cw.grid[y]| == cw.width
  }

  predicate InBounds(cw: Crossword, p: Pos) {
    p.x < cw.width && p.y < cw.height
  }

  /** `Crossword::new`: a grid of empty cells. */
  function New(width: nat, height: nat): (cw: Crossword)
    ensures Valid(cw) && cw.width == width && cw.height == height
    ensures forall p :: InBounds(cw, p) ==> At(cw, p) == Empty
  {
    Crossword(width, height, seq(height, _ => seq(width, _ => Empty)))
  }

  /** `Index<Pos>`: the cell in column `p.x` of row `p.y`. */
  function At(cw: Crossword, p: Pos): Cell
    requires Valid(cw) && InBounds(cw, p)
  {
    cw.grid[p.y][p.x]
  }

  /** `IndexMut<Pos>`: the grid with the cell at `p` replaced. */
  function Put(cw: Crossword, p: Pos, cell: Cell): (r: Crossword)
    requires Valid(cw) && InBounds(cw, p)
    ensures Valid(r) && r.width == cw.width && r.height == cw.height
    ensures forall q :: InBounds(cw, q) ==> At(r, q) == if q == p then cell else At(cw, q)
  {
    cw.(grid := cw.grid[p.y := cw.grid[p.y][p.x := cell]])
  }

  /** Two valid grids of the same size that agree on every cell are equal. */
  lemma SameCells(a: Crossword, b: Crossword)
    requires Valid(a) && Valid(b)
    requires a.width == b.width && a.height == b.height
    requires forall q :: InBounds(a, q) ==> At(a, q) == At(b, q)
    ensures a == b
  {
    forall y | 0 <= y < a.height ensures a.grid[y] == b.grid[y] {
      forall x | 0 <= x < a.width ensures a.grid[y][x] == b.grid[y][x] {
        assert At(a, Pos(x, y)) == At(b, Pos(x, y));
      }
    }
  }

  // ---------------------------------------------------------------------------
  // Walks
  // ---------------------------------------------------------------------------

  /** The position `k` cells after `p` in direction `d`. */
  function Step(p: Pos, d: Direction, k: nat): Pos {
    match d
    case Across => Pos(p.x + k, p.y)
    case Down => Pos(p.x, p.y + k)
  }

  /** Every cell of the walk lies inside the grid. */
  predicate WalkInBounds(cw: Crossword, pos: Pos, len: nat, d: Direction) {
    len == 0 || InBounds(cw, Step(pos, d, len - 1))
  }

  /** Every cell of the walk lies inside the grid and none is `Black`. */
  predicate WalkOpen(cw: Crossword, pos: Pos, len: nat, d: Direction)
    requires Valid(cw)
  {
    && WalkInBounds(cw, pos, len, d)
    && forall k :: 0 <= k < len ==> At(cw, Step(pos, d, k)) != Black
  }

  /** `q` is one of the `len` cells of the walk from `pos`. */
  predicate OnWalk(pos: Pos, len: nat, d: Direction, q: Pos) {
    match d
    case Across => q.y == pos.y && pos.x <= q.x < pos.x + len
    case Down => q.x == pos.x && pos.y <= q.y < pos.y + len
  }

  /** The number of steps from `pos` to a cell `q` of the walk. */
  function WalkIndex(pos: Pos, len: nat, d: Direction, q: Pos): (k: nat)
    requires OnWalk(pos, len, d, q)
    ensures k < len && Step(pos, d, k) == q
  {
    match d
    case Across => q.x - pos.x
    case Down => q.y - pos.y
  }

  /** The cells of a walk are the positions `Step(pos, d, k)` for `k < len`. */
  lemma WalkCells(cw: Crossword, pos: Pos, len: nat, d: Direction)
    requires WalkInBounds(cw, pos, len, d)
    ensures forall k :: 0 <= k < len ==> InBounds(cw, Step(pos, d, k))
    ensures forall k :: 0 <= k < len ==> OnWalk(pos, len, d, Step(pos, d, k)) && WalkIndex(pos, len, d, Step(pos, d, k)) == k
  {
  }

  // ---------------------------------------------------------------------------
  // Patterns
  // ---------------------------------------------------------------------------

  /** A non-`Black` cell read as a pattern entry. */
  function Entry(cell: Cell): Option<char>
    requires cell != Black
  {
    match cell
    case Empty => None
    case Letter(c) => Some(c)
  }

  /** A pattern entry written as a cell. */
  function CellOf(e: Option<char>): (cell: Cell)
    ensures cell != Black && Entry(cell) == e
  {
    match e
    case None => Empty
    case Some(c) => Letter(c)
  }

  /** `get_pattern` (and `get_pattern_across`/`get_pattern_down`, and the identical
      `get_across`/`get_down`): the walk's cells as a pattern. A `Black` cell on
      the walk panics. */
  function GetPattern(cw: Crossword, pos: Pos, len: nat, d: Direction): (r: CharPattern)
    requires Valid(cw)
    requires WalkOpen(cw, pos, len, d)
    ensures |r| == len
    ensures forall k :: 0 <= k < len ==> CellOf(r[k]) == At(cw, Step(pos, d, k))
  {
    WalkCells(cw, pos, len, d);
    seq(len, k requires 0 <= k < len => Entry(At(cw, Step(pos, d, k))))
  }

  /** `set_pattern` (and `set_pattern_across`/`set_pattern_down`): writes the
      pattern along the walk, `Some(c)` as `Letter(c)` and `None` as `Empty`,
      one cell after another. Cells off the walk are untouched. */
  function SetPattern(cw: Crossword, p: CharPattern, pos: Pos, d: Direction): (r: Crossword)
    requires Valid(cw)
    requires WalkInBounds(cw, pos, |p|, d)
    ensures Valid(r) && r.width == cw.width && r.height == cw.height
    ensures forall q :: InBounds(cw, q) ==>
      At(r, q) == (if OnWalk(pos, |p|, d, q) then CellOf(p[WalkIndex(pos, |p|, d, q)]) else At(cw, q))
    decreases |p|
  {
    if |p| == 0 then cw
    else
      var next := Step(pos, d, 1);
      var mid := Put(cw, pos, CellOf(p[0]));
      var r := SetPattern(mid, p[1..], next, d);
      forall q | InBounds(cw, q)
        ensures At(r, q) == if OnWalk(pos, |p|, d, q) then CellOf(p[WalkIndex(pos, |p|, d, q)]) else At(cw, q)
      {
        WalkStepCell(p, pos, d, q, At(cw, q), At(mid, q), At(r, q));
      }
      r
  }

  /** One cell of `set_pattern`: writing the first entry at `pos` and then the
      rest of the pattern from the next cell on gives, at any cell `q`, what
      writing the whole pattern from `pos` gives. */
  lemma WalkStepCell(p: CharPattern, pos: Pos, d: Direction, q: Pos, before: Cell, mid: Cell, after: Cell)
    requires |p| > 0
    requires mid == if q == pos then CellOf(p[0]) else before
    requires after == if OnWalk(Step(pos, d, 1), |p| - 1, d, q) then CellOf(p[1..][WalkIndex(Step(pos, d, 1), |p| - 1, d, q)]) else mid
    ensures after == if OnWalk(pos, |p|, d, q) then CellOf(p[WalkIndex(pos, |p|, d, q)]) else before
  {
  }

  /** The pattern that fixes every letter of `word`. */
  function FixedPattern(word: string): (p: CharPattern)
    ensures |p| == |word|
    ensures forall k :: 0 <= k < |word| ==> p[k] == Some(word[k])
  {
    seq(|word|, k requires 0 <= k < |word| => Some(word[k]))
  }

  /** `set_word`: writes `Letter(c)` for each character of `word` along the walk,
      which is `set_pattern` of the fully fixed pattern. */
  function SetWord(cw: Crossword, word: string, pos: Pos, d: Direction): (r: Crossword)
    requires Valid(cw)
    requires WalkInBounds(cw, pos, |word|, d)
    ensures Valid(r) && r.width == cw.width && r.height == cw.height
    ensures forall q :: InBounds(cw, q) ==>
      At(r, q) == (if OnWalk(pos, |word|, d, q) then Letter(word[WalkIndex(pos, |word|, d, q)]) else At(cw, q))
  {
    SetPattern(cw, FixedPattern(word), pos, d)
  }

  /** Writing a pattern and reading the same walk back gives the pattern. */
  lemma PatternRoundTrip(cw: Crossword, p: CharPattern, pos: Pos, d: Direction)
    requires Valid(cw)
    requires WalkInBounds(cw, pos, |p|, d)
    ensures WalkOpen(SetPattern(cw, p, pos, d), pos, |p|, d)
    ensures GetPattern(SetPattern(cw, p, pos, d), pos, |p|, d) == p
  {
    var r := SetPattern(cw, p, pos, d);
    WalkCells(cw, pos, |p|, d);
    assert forall k :: 0 <= k < |p| ==> At(r, Step(pos, d, k)) == CellOf(p[k]);
  }

  /** Reading a walk and writing the pattern back over any grid that differs from
      the original only on that walk restores the original grid. */
  lemma RestorePattern(cw: Crossword, changed: Crossword, pos: Pos, len: nat, d: Direction)
    requires Valid(cw) && Valid(changed)
    requires changed.width == cw.width && changed.height == cw.height
    requires WalkOpen(cw, pos, len, d)
    requires forall q :: InBounds(cw, q) && !OnWalk(pos, len, d, q) ==> At(changed, q) == At(cw, q)
    ensures SetPattern(changed, GetPattern(cw, pos, len, d), pos, d) == cw
  {
    var p := GetPattern(cw, pos, len, d);
    var r := SetPattern(changed, p, pos, d);
    forall q | InBounds(cw, q) ensures At(r, q) == At(cw, q) {
      if OnWalk(pos, len, d, q) {
        var k := WalkIndex(pos, len, d, q);
        assert CellOf(p[k]) == At(cw, Step(pos, d, k));
      } else {
        assert At(changed, q) == At(cw, q);
      }
    }
    SameCells(r, cw);
  }

  // ---------------------------------------------------------------------------
  // Cell classes preserved by the filler
  // ---------------------------------------------------------------------------

  /** The two grids have the same size and `Black` cells in the same places. */
  ghost predicate SameBlack(a: Crossword, b: Crossword)
    requires Valid(a) && Valid(b)
  {
    && a.width == b.width && a.height == b.height
    && forall q :: InBounds(a, q) ==> (At(a, q) == Black <==> At(b, q) == Black)
  }

  /** Every letter in the grid is an ASCII letter, as the matcher requires of
      the patterns read from it. */
  ghost predicate LettersOk(cw: Crossword)
    requires Valid(cw)
  {
    forall q :: InBounds(cw, q) && At(cw, q).Letter? ==> IsAsciiLetter(At(cw, q).c)
  }

  /** A walk that avoids `Black` in one grid avoids it in any grid with the same `Black` cells. */
  lemma WalkOpenSameBlack(a: Crossword, b: Crossword, pos: Pos, len: nat, d: Direction)
    requires Valid(a) && Valid(b) && SameBlack(a, b)
    requires WalkOpen(a, pos, len, d)
    ensures WalkOpen(b, pos, len, d)
  {
    WalkCells(a, pos, len, d);
  }
}
