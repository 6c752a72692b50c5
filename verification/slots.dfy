/**
 The slot lists of src/crossword.rs (`across_positions`, `down_positions`): the
 maximal runs of non-`Black` cells of every row (columns for `Down`), listed
 line by line in scan order.

 Each line is scanned as the source's inner loop does: a non-`Black` cell that
 opens the line or follows a `Black` cell starts a run, a `Black` cell after a
 non-`Black` cell closes the open run, and after the loop the run still open at
 the end of the line is added. `ScanFrom` carries the loop's state (the cell
 index `x`, the current `start` and the runs found so far) as parameters.
 */
module Slots {
  import opened Common
  import opened Grid

  /** A run of `len` cells of one line beginning at offset `start`. */
  datatype Run = Run(start: nat, len: nat)

  /** A slot of the crossword: where it begins and how many cells it has. */
  datatype Slot = Slot(pos: Pos, len: nat)

  // ---------------------------------------------------------------------------
  // Runs of one line
  // ---------------------------------------------------------------------------

  /** `r` is a maximal run of non-`Black` cells of `line`. */
  predicate IsRun(line: seq<Cell>, r: Run) {
    && r.len >= 1
    && r.start + r.len <= |line|
    && (forall k :: r.start <= k < r.start + r.len ==> line[k] != Black)
    && (r.start == 0 || line[r.start - 1] == Black)
    && (r.start + r.len == |line| || line[r.start + r.len] == Black)
  }

  /** `a` ends, with at least one cell between, before `b` starts. */
  predicate RunBefore(a: Run, b: Run) {
    a.start + a.len < b.start
  }

  predicate RunCovers(runs: seq<Run>, x: nat) {
    exists i :: 0 <= i < |runs| && runs[i].start <= x < runs[i].start + runs[i].len
  }

  /** `runs` lists maximal runs of `line` from left to right, and every
      non-`Black` cell of the line lies in one of them. */
  predicate RunList(line: seq<Cell>, runs: seq<Run>) {
    && (forall i :: 0 <= i < |runs| ==> IsRun(line, runs[i]))
    && (forall i, j :: 0 <= i < j < |runs| ==> RunBefore(runs[i], runs[j]))
    && (forall x {:trigger RunCovers(runs, x)} :: 0 <= x < |line| && line[x] != Black ==> RunCovers(runs, x))
  }

  /** The inner loop of `across_positions`/`down_positions` from cell `x` on,
      with `start` the beginning of the current run and `acc` the runs closed
      so far. The check after the loop reads the last cell of the line, so
      the line must not be empty. */
  function ScanFrom(line: seq<Cell>, x: nat, start: nat, acc: seq<Run>): seq<Run>
    requires |line| >= 1
    requires start <= x <= |line|
    decreases |line| - x
  {
    if x == |line| then
      if line[|line| - 1] != Black && start < |line| then acc + [Run(start, |line| - start)] else acc
    else
      var start' := if line[x] != Black && (x == 0 || line[x - 1] == Black) then x else start;
      var acc' := if line[x] == Black && x != 0 && line[x - 1] != Black then acc + [Run(start, x - start)] else acc;
      ScanFrom(line, x + 1, start', acc')
  }

  /** The runs of one non-empty line. */
  function ScanLine(line: seq<Cell>): seq<Run>
    requires |line| >= 1
  {
    ScanFrom(line, 0, 0, [])
  }

  /** The state of the scan after cells `0 .. x - 1`: `acc` holds the maximal
      runs that have closed, in order, and if cell `x - 1` is not `Black` the
      open run begins at `start`. Every non-`Black` cell seen so far is in a
      closed run or the open one. */
  predicate ScanState(line: seq<Cell>, x: nat, start: nat, acc: seq<Run>)
    requires x <= |line|
  {
    && start <= x
    && (forall i :: 0 <= i < |acc| ==> IsRun(line, acc[i]) && acc[i].start + acc[i].len < x)
    && (forall i, j :: 0 <= i < j < |acc| ==> RunBefore(acc[i], acc[j]))
    && (x > 0 && line[x - 1] != Black ==>
          && start < x
          && (start == 0 || line[start - 1] == Black)
          && (forall k :: start <= k < x ==> line[k] != Black)
          && (forall i :: 0 <= i < |acc| ==> RunBefore(acc[i], Run(start, x - start))))
    && (forall y {:trigger RunCovers(acc, y)} :: 0 <= y < x && line[y] != Black ==>
          RunCovers(acc, y) || (line[x - 1] != Black && start <= y))
  }

  lemma RunCoversAppend(runs: seq<Run>, r: Run, y: nat)
    requires RunCovers(runs, y) || r.start <= y < r.start + r.len
    ensures RunCovers(runs + [r], y)
  {
    var all := runs + [r];
    if RunCovers(runs, y) {
      var i :| 0 <= i < |runs| && runs[i].start <= y < runs[i].start + runs[i].len;
      assert all[i] == runs[i];
    } else {
      assert all[|runs|] == r;
    }
  }

  /** A non-`Black` cell after a `Black` cell (or at the start) opens a run. */
  lemma ScanOpen(line: seq<Cell>, x: nat, start: nat, acc: seq<Run>)
    requires x < |line| && line[x] != Black && (x == 0 || line[x - 1] == Black)
    requires ScanState(line, x, start, acc)
    ensures ScanState(line, x + 1, x, acc)
  {
  }

  /** A non-`Black` cell after a non-`Black` cell extends the open run. */
  lemma ScanExtend(line: seq<Cell>, x: nat, start: nat, acc: seq<Run>)
    requires 0 < x < |line| && line[x] != Black && line[x - 1] != Black
    requires ScanState(line, x, start, acc)
    ensures ScanState(line, x + 1, start, acc)
  {
  }

  /** A `Black` cell after a non-`Black` cell closes the open run. */
  lemma ScanClose(line: seq<Cell>, x: nat, start: nat, acc: seq<Run>)
    requires 0 < x < |line| && line[x] == Black && line[x - 1] != Black
    requires ScanState(line, x, start, acc)
    ensures start < x && ScanState(line, x + 1, start, acc + [Run(start, x - start)])
  {
    var r := Run(start, x - start);
    var acc' := acc + [r];
    assert IsRun(line, r);
    forall i | 0 <= i < |acc'| ensures IsRun(line, acc'[i]) && acc'[i].start + acc'[i].len < x + 1 {
      if i < |acc| {
        assert acc'[i] == acc[i];
      }
    }
    forall i, j | 0 <= i < j < |acc'| ensures RunBefore(acc'[i], acc'[j]) {
      assert acc'[i] == acc[i];
      if j < |acc| {
        assert acc'[j] == acc[j];
      }
    }
    forall y | 0 <= y < x + 1 && line[y] != Black ensures RunCovers(acc', y) {
      RunCoversAppend(acc, r, y);
    }
  }

  /** A `Black` cell after a `Black` cell (or at the start) changes nothing. */
  lemma ScanSkip(line: seq<Cell>, x: nat, start: nat, acc: seq<Run>)
    requires x < |line| && line[x] == Black && (x == 0 || line[x - 1] == Black)
    requires ScanState(line, x, start, acc)
    ensures ScanState(line, x + 1, start, acc)
  {
  }

  /** The scan state at the end of the line, after the final check, is a complete run list. */
  lemma ScanFinish(line: seq<Cell>, start: nat, acc: seq<Run>)
    requires |line| >= 1
    requires ScanState(line, |line|, start, acc)
    ensures RunList(line, if line[|line| - 1] != Black && start < |line| then acc + [Run(start, |line| - start)] else acc)
  {
    if line[|line| - 1] != Black {
      ScanFinishOpen(line, start, acc);
    } else {
      ScanFinishClosed(line, start, acc);
    }
  }

  /** A line ending in a `Black` cell has no open run left: the closed runs are all of them. */
  lemma ScanFinishClosed(line: seq<Cell>, start: nat, acc: seq<Run>)
    requires |line| >= 1 && line[|line| - 1] == Black
    requires ScanState(line, |line|, start, acc)
    ensures RunList(line, acc)
  {
  }

  /** A line ending in a non-`Black` cell closes its open run at the end of the line. */
  lemma ScanFinishOpen(line: seq<Cell>, start: nat, acc: seq<Run>)
    requires |line| >= 1 && line[|line| - 1] != Black
    requires ScanState(line, |line|, start, acc)
    ensures start < |line| && RunList(line, acc + [Run(start, |line| - start)])
  {
    var r := Run(start, |line| - start);
    var acc' := acc + [r];
    assert IsRun(line, r);
    forall i | 0 <= i < |acc'| ensures IsRun(line, acc'[i]) {
      if i < |acc| {
        assert acc'[i] == acc[i];
      }
    }
    forall i, j | 0 <= i < j < |acc'| ensures RunBefore(acc'[i], acc'[j]) {
      assert acc'[i] == acc[i];
      if j < |acc| {
        assert acc'[j] == acc[j];
      }
    }
    forall y | 0 <= y < |line| && line[y] != Black ensures RunCovers(acc', y) {
      RunCoversAppend(acc, r, y);
    }
  }

  /** One unfolding of the scan at a cell that starts a run. */
  lemma ScanFromOpens(line: seq<Cell>, x: nat, start: nat, acc: seq<Run>)
    requires start <= x < |line| && line[x] != Black && (x == 0 || line[x - 1] == Black)
    ensures ScanFrom(line, x, start, acc) == ScanFrom(line, x + 1, x, acc)
  {
  }

  /** One unfolding of the scan at a cell that neither starts nor ends a run. */
  lemma ScanFromKeeps(line: seq<Cell>, x: nat, start: nat, acc: seq<Run>)
    requires start <= x < |line|
    requires !(line[x] != Black && (x == 0 || line[x - 1] == Black))
    requires !(line[x] == Black && x != 0 && line[x - 1] != Black)
    ensures ScanFrom(line, x, start, acc) == ScanFrom(line, x + 1, start, acc)
  {
  }

  /** One unfolding of the scan at a `Black` cell that ends a run. */
  lemma ScanFromCloses(line: seq<Cell>, x: nat, start: nat, acc: seq<Run>)
    requires start <= x && 0 < x < |line| && line[x] == Black && line[x - 1] != Black
    ensures ScanFrom(line, x, start, acc) == ScanFrom(line, x + 1, start, acc + [Run(start, x - start)])
  {
  }

  /** One cell of the scan: the state after the cell, and the scan's result
      is unchanged by taking the step. */
  lemma ScanAdvance(line: seq<Cell>, x: nat, start: nat, acc: seq<Run>) returns (start': nat, acc': seq<Run>)
    requires x < |line|
    requires ScanState(line, x, start, acc)
    ensures ScanState(line, x + 1, start', acc')
    ensures ScanFrom(line, x, start, acc) == ScanFrom(line, x + 1, start', acc')
  {
    if line[x] == Black && x != 0 && line[x - 1] != Black {
      ScanClose(line, x, start, acc);
      ScanFromCloses(line, x, start, acc);
      start', acc' := start, acc + [Run(start, x - start)];
    } else if line[x] != Black && (x == 0 || line[x - 1] == Black) {
      ScanOpen(line, x, start, acc);
      ScanFromOpens(line, x, start, acc);
      start', acc' := x, acc;
    } else if line[x] != Black {
      ScanExtend(line, x, start, acc);
      ScanFromKeeps(line, x, start, acc);
      start', acc' := start, acc;
    } else {
      ScanSkip(line, x, start, acc);
      ScanFromKeeps(line, x, start, acc);
      start', acc' := start, acc;
    }
  }

  /** The scan of a line lists its maximal non-`Black` runs from left to right
      and misses no non-`Black` cell. */
  lemma ScanLineRuns(line: seq<Cell>)
    requires |line| >= 1
    ensures RunList(line, ScanLine(line))
  {
    var x, start, acc := 0, 0, [];
    while x < |line|
      invariant x <= |line|
      invariant ScanState(line, x, start, acc)
      invariant ScanFrom(line, x, start, acc) == ScanLine(line)
      decreases |line| - x
    {
      start, acc := ScanAdvance(line, x, start, acc);
      x := x + 1;
    }
    ScanFinish(line, start, acc);
  }

  lemma RunsOverlap(line: seq<Cell>, a: Run, b: Run, x: nat)
    requires IsRun(line, a) && IsRun(line, b)
    requires a.start <= x < a.start + a.len && b.start <= x < b.start + b.len
    ensures a == b
  {
    if a.start < b.start {
      assert false;
    }
    if b.start < a.start {
      assert false;
    }
    if a.len < b.len {
      assert false;
    }
    if b.len < a.len {
      assert false;
    }
  }

  lemma FirstIsElement<T>(s: seq<T>)
    ensures |s| > 0 ==> s[0] in s
  {
  }

  /** Two ordered run lists with the same runs are equal. */
  lemma {:induction false} OrderedSameRuns(a: seq<Run>, b: seq<Run>)
    requires forall i, j :: 0 <= i < j < |a| ==> RunBefore(a[i], a[j])
    requires forall i, j :: 0 <= i < j < |b| ==> RunBefore(b[i], b[j])
    requires forall r :: r in a <==> r in b
    ensures a == b
  {
    FirstIsElement(b);
    if |a| > 0 {
      assert a[0] in b && b[0] in a;
      var i :| 0 <= i < |b| && b[i] == a[0];
      var j :| 0 <= j < |a| && a[j] == b[0];
      if i > 0 {
        assert false;
      }
      forall r ensures r in a[1..] <==> r in b[1..] {
        if r in a[1..] {
          var k :| 0 <= k < |a[1..]| && a[1..][k] == r;
          assert RunBefore(a[0], a[k + 1]) && r != a[0];
          assert a[k + 1] == r && r in a;
          var l :| 0 <= l < |b| && b[l] == r;
          assert l != 0;
          assert b[1..][l - 1] == r;
        }
        if r in b[1..] {
          var k :| 0 <= k < |b[1..]| && b[1..][k] == r;
          assert RunBefore(b[0], b[k + 1]) && r != b[0];
          assert b[k + 1] == r && r in b;
          var l :| 0 <= l < |a| && a[l] == r;
          assert l != 0;
          assert a[1..][l - 1] == r;
        }
      }
      OrderedSameRuns(a[1..], b[1..]);
      assert a == [a[0]] + a[1..] && b == [b[0]] + b[1..];
    }
  }

  /** A line has only one complete run list, so the scan returns exactly the
      maximal runs of the line. */
  lemma RunListUnique(line: seq<Cell>, a: seq<Run>, b: seq<Run>)
    requires RunList(line, a) && RunList(line, b)
    ensures a == b
  {
    forall r | r in a ensures r in b {
      var i :| 0 <= i < |a| && a[i] == r;
      assert line[r.start] != Black && RunCovers(b, r.start);
      var j :| 0 <= j < |b| && b[j].start <= r.start < b[j].start + b[j].len;
      RunsOverlap(line, r, b[j], r.start);
    }
    forall r | r in b ensures r in a {
      var i :| 0 <= i < |b| && b[i] == r;
      assert line[r.start] != Black && RunCovers(a, r.start);
      var j :| 0 <= j < |a| && a[j].start <= r.start < a[j].start + a[j].len;
      RunsOverlap(line, r, a[j], r.start);
    }
    OrderedSameRuns(a, b);
  }

  /** `a` and `b` have the same length and `Black` cells in the same places. */
  predicate SameMask(a: seq<Cell>, b: seq<Cell>) {
    && |a| == |b|
    && forall k :: 0 <= k < |a| ==> (a[k] == Black <==> b[k] == Black)
  }

  lemma {:induction false} ScanFromMask(a: seq<Cell>, b: seq<Cell>, x: nat, start: nat, acc: seq<Run>)
    requires |a| >= 1 && start <= x <= |a|
    requires SameMask(a, b)
    ensures ScanFrom(a, x, start, acc) == ScanFrom(b, x, start, acc)
    decreases |a| - x
  {
    if x < |a| {
      var start' := if a[x] != Black && (x == 0 || a[x - 1] == Black) then x else start;
      var acc' := if a[x] == Black && x != 0 && a[x - 1] != Black then acc + [Run(start, x - start)] else acc;
      ScanFromMask(a, b, x + 1, start', acc');
    }
  }

  // ---------------------------------------------------------------------------
  // Lines of the grid
  // ---------------------------------------------------------------------------

  /** The number of lines scanned in direction `d`: rows for `Across`, columns for `Down`. */
  function LineCount(cw: Crossword, d: Direction): nat {
    match d
    case Across => cw.height
    case Down => cw.width
  }

  /** The number of cells in each line scanned in direction `d`. */
  function LineLength(cw: Crossword, d: Direction): nat {
    match d
    case Across => cw.width
    case Down => cw.height
  }

  /** Cell `k` of line `i`: column `k` of row `i` for `Across`, row `k` of column `i` for `Down`. */
  function LinePos(d: Direction, i: nat, k: nat): (p: Pos)
    ensures LineOf(d, p) == i && OffsetOf(d, p) == k
  {
    match d
    case Across => Pos(k, i)
    case Down => Pos(i, k)
  }

  /** The line index of a position, and its offset along the line. */
  function LineOf(d: Direction, p: Pos): nat {
    match d
    case Across => p.y
    case Down => p.x
  }

  function OffsetOf(d: Direction, p: Pos): nat {
    match d
    case Across => p.x
    case Down => p.y
  }

  /** Line `i` of the grid in direction `d`, as a sequence of cells. */
  function Line(cw: Crossword, d: Direction, i: nat): (line: seq<Cell>)
    requires Valid(cw) && i < LineCount(cw, d)
    ensures |line| == LineLength(cw, d)
    ensures forall k :: 0 <= k < |line| ==> InBounds(cw, LinePos(d, i, k)) && line[k] == At(cw, LinePos(d, i, k))
  {
    seq(LineLength(cw, d), k requires 0 <= k < LineLength(cw, d) => At(cw, LinePos(d, i, k)))
  }

  /** The runs of line `i` as slots of the grid. */
  function Lift(d: Direction, i: nat, runs: seq<Run>): (r: seq<Slot>)
    ensures |r| == |runs|
    ensures forall k :: 0 <= k < |runs| ==> r[k] == Slot(LinePos(d, i, runs[k].start), runs[k].len)
  {
    seq(|runs|, k requires 0 <= k < |runs| => Slot(LinePos(d, i, runs[k].start), runs[k].len))
  }

  /** `across_positions` needs a last column for every row it scans, and
      `down_positions` a last row for every column. */
  predicate Scannable(cw: Crossword, d: Direction) {
    LineCount(cw, d) == 0 || LineLength(cw, d) >= 1
  }

  /** The slots of lines `i` onwards, line by line. */
  function PositionsFrom(cw: Crossword, d: Direction, i: nat): seq<Slot>
    requires Valid(cw) && Scannable(cw, d)
    requires i <= LineCount(cw, d)
    decreases LineCount(cw, d) - i
  {
    if i == LineCount(cw, d) then []
    else Lift(d, i, ScanLine(Line(cw, d, i))) + PositionsFrom(cw, d, i + 1)
  }

  /** `across_positions` (`d == Across`) and `down_positions` (`d == Down`):
      the maximal slots of the grid in scan order, covering every non-`Black` cell. */
  function Positions(cw: Crossword, d: Direction): (r: seq<Slot>)
    requires Valid(cw) && Scannable(cw, d)
    ensures SlotList(cw, d, r)
  {
    PositionsFromMaximal(cw, d, 0);
    PositionsFromOrdered(cw, d, 0);
    PositionsFromCover(cw, d, 0);
    PositionsFrom(cw, d, 0)
  }

  // ---------------------------------------------------------------------------
  // Properties of the slot lists
  // ---------------------------------------------------------------------------

  /** The slot's cells are inside the grid and none is `Black`. */
  predicate SlotOpen(cw: Crossword, s: Slot, d: Direction)
    requires Valid(cw)
  {
    WalkOpen(cw, s.pos, s.len, d)
  }

  /** `s` is a maximal run of non-`Black` cells in direction `d`: it has at least
      one cell, and the cells just before and just after it are `Black` or off
      the grid. */
  predicate IsMaximalSlot(cw: Crossword, s: Slot, d: Direction)
    requires Valid(cw)
  {
    && s.len >= 1
    && SlotOpen(cw, s, d)
    && (OffsetOf(d, s.pos) == 0 ||
        At(cw, LinePos(d, LineOf(d, s.pos), OffsetOf(d, s.pos) - 1)) == Black)
    && (OffsetOf(d, s.pos) + s.len == LineLength(cw, d) ||
        At(cw, LinePos(d, LineOf(d, s.pos), OffsetOf(d, s.pos) + s.len)) == Black)
  }

  /** `s` comes before `t` in scan order: on an earlier line, or on the same
      line and ending at least one cell before `t` starts. */
  predicate SlotBefore(d: Direction, s: Slot, t: Slot) {
    || LineOf(d, s.pos) < LineOf(d, t.pos)
    || (LineOf(d, s.pos) == LineOf(d, t.pos) && OffsetOf(d, s.pos) + s.len < OffsetOf(d, t.pos))
  }

  predicate Covered(slots: seq<Slot>, d: Direction, q: Pos) {
    exists j :: 0 <= j < |slots| && OnWalk(slots[j].pos, slots[j].len, d, q)
  }

  /** The slot list of `cw` in direction `d`: maximal slots, in scan order,
      and every non-`Black` cell lies on one of them. */
  ghost predicate SlotList(cw: Crossword, d: Direction, slots: seq<Slot>)
    requires Valid(cw)
  {
    && (forall j :: 0 <= j < |slots| ==> IsMaximalSlot(cw, slots[j], d))
    && (forall i, j :: 0 <= i < j < |slots| ==> SlotBefore(d, slots[i], slots[j]))
    && (forall q :: InBounds(cw, q) && At(cw, q) != Black ==> Covered(slots, d, q))
  }

  lemma WalkOnLine(cw: Crossword, d: Direction, i: nat, start: nat, k: nat)
    ensures Step(LinePos(d, i, start), d, k) == LinePos(d, i, start + k)
  {
  }

  /** The cells of a run of line `i` form an open walk of the grid. */
  lemma RunWalkOpen(cw: Crossword, d: Direction, i: nat, r: Run)
    requires Valid(cw) && i < LineCount(cw, d)
    requires IsRun(Line(cw, d, i), r)
    ensures SlotOpen(cw, Slot(LinePos(d, i, r.start), r.len), d)
  {
    var line := Line(cw, d, i);
    var pos := LinePos(d, i, r.start);
    forall k | 0 <= k < r.len ensures At(cw, Step(pos, d, k)) != Black {
      WalkOnLine(cw, d, i, r.start, k);
      assert line[r.start + k] != Black;
    }
    WalkOnLine(cw, d, i, r.start, r.len - 1);
    assert InBounds(cw, LinePos(d, i, r.start + r.len - 1));
  }

  /** A maximal run of line `i` is a maximal slot of the grid. */
  lemma RunIsSlot(cw: Crossword, d: Direction, i: nat, r: Run)
    requires Valid(cw) && i < LineCount(cw, d)
    requires IsRun(Line(cw, d, i), r)
    ensures IsMaximalSlot(cw, Slot(LinePos(d, i, r.start), r.len), d)
  {
    var line := Line(cw, d, i);
    RunWalkOpen(cw, d, i, r);
    if r.start > 0 {
      assert line[r.start - 1] == Black;
    }
    if r.start + r.len < |line| {
      assert line[r.start + r.len] == Black;
    }
  }

  /** A cell on line `i` lies on a slot of that line when its run list covers it. */
  lemma CoveredOnLine(cw: Crossword, d: Direction, i: nat, runs: seq<Run>, q: Pos)
    requires Valid(cw) && i < LineCount(cw, d)
    requires InBounds(cw, q) && LineOf(d, q) == i
    requires RunCovers(runs, OffsetOf(d, q))
    ensures Covered(Lift(d, i, runs), d, q)
  {
    var slots := Lift(d, i, runs);
    var j :| 0 <= j < |runs| && runs[j].start <= OffsetOf(d, q) < runs[j].start + runs[j].len;
    assert OnWalk(slots[j].pos, slots[j].len, d, q);
  }

  lemma CoveredAppend(a: seq<Slot>, b: seq<Slot>, d: Direction, q: Pos)
    requires Covered(a, d, q) || Covered(b, d, q)
    ensures Covered(a + b, d, q)
  {
    if Covered(a, d, q) {
      var j :| 0 <= j < |a| && OnWalk(a[j].pos, a[j].len, d, q);
      assert (a + b)[j] == a[j];
    } else {
      var j :| 0 <= j < |b| && OnWalk(b[j].pos, b[j].len, d, q);
      assert (a + b)[|a| + j] == b[j];
    }
  }

  /** The slots of one line are maximal and lie on that line. */
  lemma LineSlotsMaximal(cw: Crossword, d: Direction, i: nat)
    requires Valid(cw) && Scannable(cw, d) && i < LineCount(cw, d)
    ensures var here := Lift(d, i, ScanLine(Line(cw, d, i)));
      forall j :: 0 <= j < |here| ==> IsMaximalSlot(cw, here[j], d) && LineOf(d, here[j].pos) == i
  {
    var line := Line(cw, d, i);
    var runs := ScanLine(line);
    var here := Lift(d, i, runs);
    ScanLineRuns(line);
    forall j | 0 <= j < |here| ensures IsMaximalSlot(cw, here[j], d) && LineOf(d, here[j].pos) == i {
      RunIsSlot(cw, d, i, runs[j]);
    }
  }

  /** The slots of one line lie on that line, from left to right. */
  lemma LineSlotsOrdered(cw: Crossword, d: Direction, i: nat)
    requires Valid(cw) && Scannable(cw, d) && i < LineCount(cw, d)
    ensures var here := Lift(d, i, ScanLine(Line(cw, d, i)));
      && (forall j :: 0 <= j < |here| ==> LineOf(d, here[j].pos) == i)
      && (forall j, k :: 0 <= j < k < |here| ==> SlotBefore(d, here[j], here[k]))
  {
    var line := Line(cw, d, i);
    var runs := ScanLine(line);
    var here := Lift(d, i, runs);
    ScanLineRuns(line);
    forall j, k | 0 <= j < k < |here| ensures SlotBefore(d, here[j], here[k]) {
      assert RunBefore(runs[j], runs[k]);
    }
  }

  /** The slots of lines `i` onwards are maximal and lie on lines `i` and later. */
  lemma {:induction false} PositionsFromMaximal(cw: Crossword, d: Direction, i: nat)
    requires Valid(cw) && Scannable(cw, d) && i <= LineCount(cw, d)
    ensures forall j :: 0 <= j < |PositionsFrom(cw, d, i)| ==>
      IsMaximalSlot(cw, PositionsFrom(cw, d, i)[j], d) && LineOf(d, PositionsFrom(cw, d, i)[j].pos) >= i
    decreases LineCount(cw, d) - i
  {
    if i < LineCount(cw, d) {
      var here := Lift(d, i, ScanLine(Line(cw, d, i)));
      var rest := PositionsFrom(cw, d, i + 1);
      var slots := here + rest;
      LineSlotsMaximal(cw, d, i);
      PositionsFromMaximal(cw, d, i + 1);
      forall j | 0 <= j < |slots| ensures IsMaximalSlot(cw, slots[j], d) && LineOf(d, slots[j].pos) >= i {
        if j < |here| {
          assert slots[j] == here[j];
        } else {
          assert slots[j] == rest[j - |here|];
        }
      }
    }
  }

  /** The slots of lines `i` onwards lie on lines `i` and later. */
  lemma {:induction false} PositionsFromLines(cw: Crossword, d: Direction, i: nat)
    requires Valid(cw) && Scannable(cw, d) && i <= LineCount(cw, d)
    ensures forall j :: 0 <= j < |PositionsFrom(cw, d, i)| ==> LineOf(d, PositionsFrom(cw, d, i)[j].pos) >= i
    decreases LineCount(cw, d) - i
  {
    if i < LineCount(cw, d) {
      var here := Lift(d, i, ScanLine(Line(cw, d, i)));
      var rest := PositionsFrom(cw, d, i + 1);
      PositionsFromLines(cw, d, i + 1);
      var slots := here + rest;
      assert PositionsFrom(cw, d, i) == slots;
      forall j | 0 <= j < |slots| ensures LineOf(d, slots[j].pos) >= i {
        if j >= |here| {
          assert slots[j] == rest[j - |here|];
          assert LineOf(d, rest[j - |here|].pos) >= i + 1;
        } else {
          assert slots[j] == here[j];
          assert LineOf(d, here[j].pos) == i;
        }
      }
    }
  }

  /** The slots of lines `i` onwards come in scan order. */
  lemma {:induction false} PositionsFromOrdered(cw: Crossword, d: Direction, i: nat)
    requires Valid(cw) && Scannable(cw, d) && i <= LineCount(cw, d)
    ensures forall j, k :: 0 <= j < k < |PositionsFrom(cw, d, i)| ==>
      SlotBefore(d, PositionsFrom(cw, d, i)[j], PositionsFrom(cw, d, i)[k])
    decreases LineCount(cw, d) - i
  {
    if i < LineCount(cw, d) {
      var here := Lift(d, i, ScanLine(Line(cw, d, i)));
      var rest := PositionsFrom(cw, d, i + 1);
      var slots := here + rest;
      LineSlotsOrdered(cw, d, i);
      PositionsFromOrdered(cw, d, i + 1);
      PositionsFromLines(cw, d, i + 1);
      forall j, k | 0 <= j < k < |slots| ensures SlotBefore(d, slots[j], slots[k]) {
        if k < |here| {
          assert slots[j] == here[j] && slots[k] == here[k];
        } else if j >= |here| {
          assert slots[j] == rest[j - |here|] && slots[k] == rest[k - |here|];
        } else {
          assert slots[j] == here[j] && slots[k] == rest[k - |here|];
        }
      }
    }
  }

  /** A non-`Black` cell lies on a slot of its own line. */
  lemma LineCovered(cw: Crossword, d: Direction, q: Pos)
    requires Valid(cw) && Scannable(cw, d)
    requires InBounds(cw, q) && At(cw, q) != Black
    ensures LineOf(d, q) < LineCount(cw, d)
    ensures Covered(Lift(d, LineOf(d, q), ScanLine(Line(cw, d, LineOf(d, q)))), d, q)
  {
    var i := LineOf(d, q);
    var line := Line(cw, d, i);
    ScanLineRuns(line);
    assert LinePos(d, i, OffsetOf(d, q)) == q;
    assert line[OffsetOf(d, q)] == At(cw, q);
    CoveredOnLine(cw, d, i, ScanLine(line), q);
  }

  /** Every non-`Black` cell on lines `i` onwards lies on one of their slots. */
  lemma {:induction false} PositionsFromCover(cw: Crossword, d: Direction, i: nat)
    requires Valid(cw) && Scannable(cw, d) && i <= LineCount(cw, d)
    ensures forall q :: InBounds(cw, q) && LineOf(d, q) >= i && At(cw, q) != Black ==> Covered(PositionsFrom(cw, d, i), d, q)
    decreases LineCount(cw, d) - i
  {
    if i < LineCount(cw, d) {
      var here := Lift(d, i, ScanLine(Line(cw, d, i)));
      var rest := PositionsFrom(cw, d, i + 1);
      PositionsFromCover(cw, d, i + 1);
      forall q | InBounds(cw, q) && LineOf(d, q) >= i && At(cw, q) != Black ensures Covered(here + rest, d, q) {
        if LineOf(d, q) == i {
          LineCovered(cw, d, q);
        }
        CoveredAppend(here, rest, d, q);
      }
    }
  }

  /** The slot lists depend only on where the `Black` cells are: filling in
      letters never changes them. */
  lemma {:induction false} PositionsDependOnBlack(a: Crossword, b: Crossword, d: Direction, i: nat)
    requires Valid(a) && Valid(b) && SameBlack(a, b)
    requires Scannable(a, d) && i <= LineCount(a, d)
    ensures Scannable(b, d)
    ensures PositionsFrom(a, d, i) == PositionsFrom(b, d, i)
    decreases LineCount(a, d) - i
  {
    if i < LineCount(a, d) {
      var la := Line(a, d, i);
      var lb := Line(b, d, i);
      assert SameMask(la, lb);
      ScanFromMask(la, lb, 0, 0, []);
      PositionsDependOnBlack(a, b, d, i + 1);
    }
  }
}
