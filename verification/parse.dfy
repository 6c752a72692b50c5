/**
 `Crossword::from_str` of src/crossword.rs: reads a grid from text.

 The text is trimmed of leading and trailing white space (Rust's `str::trim`,
 the Unicode `White_Space` property). Then every character is read in turn:
 '□' (U+25A1) is an empty cell, '■' (U+25A0) a black cell, `A`–`Z` a letter
 and `a`–`z` its upper-case letter; a newline ends the current row, and the
 first row ending fixes the width that every later row ending must match;
 any other white space is skipped, and any other character is an error. The
 source panics on each error; here they are the `ParseError` values.

 `FromStr` follows the source as written. Two of its behaviours look
 unintended: the row after the last newline is never compared with the width,
 and a text without any newline has no width and is rejected as an empty
 pattern. `FromStrChecked` is the corrected reading, which checks the last
 row and takes a single row's length as the width.
 */
module GridParse {
  import opened Common
  import opened Grid
  import Slots

  const EMPTY_GLYPH: char := '\U{25A1}'
  const BLACK_GLYPH: char := '\U{25A0}'

  datatype ParseError = InconsistentWidth | InvalidChar(c: char) | EmptyPattern

  /** The loop state of `from_str`: the finished rows, the row being read, and
      the width fixed by the first newline. The source's column counter `x` is
      always the length of the current row. */
  datatype ParseState = ParseState(rows: seq<seq<Cell>>, current: seq<Cell>, width: Option<nat>)

  /** Rust's `char::is_whitespace`: the characters with the Unicode
      `White_Space` property. */
  predicate IsWhitespace(c: char) {
    || ('\t' <= c <= '\r')
    || c == ' '
    || c == '\U{0085}'
    || c == '\U{00A0}'
    || c == '\U{1680}'
    || ('\U{2000}' <= c <= '\U{200A}')
    || c == '\U{2028}'
    || c == '\U{2029}'
    || c == '\U{202F}'
    || c == '\U{205F}'
    || c == '\U{3000}'
  }

  // ---------------------------------------------------------------------------
  // str::trim
  // ---------------------------------------------------------------------------

  function TrimStart(s: string): (r: string)
    ensures |r| <= |s| && r == s[|s| - |r|..]
    ensures forall k :: 0 <= k < |s| - |r| ==> IsWhitespace(s[k])
    ensures |r| > 0 ==> !IsWhitespace(r[0])
    decreases |s|
  {
    if |s| > 0 && IsWhitespace(s[0]) then
      var r := TrimStart(s[1..]);
      assert forall k :: 1 <= k < |s| - |r| ==> s[k] == s[1..][k - 1];
      r
    else s
  }

  function TrimEnd(s: string): (r: string)
    ensures |r| <= |s| && r == s[..|r|]
    ensures forall k :: |r| <= k < |s| ==> IsWhitespace(s[k])
    ensures |r| > 0 ==> !IsWhitespace(r[|r| - 1])
    decreases |s|
  {
    if |s| > 0 && IsWhitespace(s[|s| - 1]) then
      var r := TrimEnd(s[..|s| - 1]);
      assert forall k :: |r| <= k < |s| - 1 ==> s[k] == s[..|s| - 1][k];
      r
    else s
  }

  /** Every character of `s` before `i` and from `j` on is white space. */
  predicate BlankOutside(s: string, i: nat, j: nat) {
    && i <= j <= |s|
    && (forall k :: 0 <= k < i ==> IsWhitespace(s[k]))
    && (forall k :: j <= k < |s| ==> IsWhitespace(s[k]))
  }

  /** `str::trim`: `s` without its leading and trailing white space. */
  function Trim(s: string): (r: string)
    ensures |r| > 0 ==> !IsWhitespace(r[0]) && !IsWhitespace(r[|r| - 1])
    ensures exists i: nat, j: nat :: BlankOutside(s, i, j) && r == s[i..j]
  {
    var a := TrimStart(s);
    var r := TrimEnd(a);
    TrimEndOfStart(s, a, r);
    r
  }

  lemma TrimEndOfStart(s: string, a: string, r: string)
    requires |a| <= |s| && a == s[|s| - |a|..]
    requires forall k :: 0 <= k < |s| - |a| ==> IsWhitespace(s[k])
    requires |r| <= |a| && r == a[..|r|]
    requires forall k :: |r| <= k < |a| ==> IsWhitespace(a[k])
    ensures exists i: nat, j: nat :: BlankOutside(s, i, j) && r == s[i..j]
  {
    var i: nat, j: nat := |s| - |a|, |s| - |a| + |r|;
    forall k | j <= k < |s| ensures IsWhitespace(s[k]) {
      assert s[k] == a[k - i];
    }
    assert r == s[i..j];
    assert BlankOutside(s, i, j);
  }

  lemma TrimUnchanged(s: string)
    requires |s| > 0 ==> !IsWhitespace(s[0]) && !IsWhitespace(s[|s| - 1])
    ensures Trim(s) == s
  {
  }

  // ---------------------------------------------------------------------------
  // The loop
  // ---------------------------------------------------------------------------

  /** One iteration of the loop of `from_str` on character `c`. */
  function Step(st: ParseState, c: char): Result<ParseState, ParseError> {
    if c == EMPTY_GLYPH then Ok(st.(current := st.current + [Empty]))
    else if c == BLACK_GLYPH then Ok(st.(current := st.current + [Black]))
    else if c == '\n' then
      if st.width.Some? && |st.current| != st.width.value then Err(InconsistentWidth)
      else
        var width := if st.width.Some? then st.width else Some(|st.current|);
        Ok(ParseState(st.rows + [st.current], [], width))
    else if IsAsciiUpper(c) then Ok(st.(current := st.current + [Letter(c)]))
    else if IsAsciiLower(c) then Ok(st.(current := st.current + [Letter(ToUpper(c))]))
    else if !IsWhitespace(c) then Err(InvalidChar(c))
    else Ok(st)
  }

  /** The loop of `from_str` over the characters of `t`, stopping at the first error. */
  function Parse(t: string, st: ParseState): Result<ParseState, ParseError>
    decreases |t|
  {
    if |t| == 0 then Ok(st)
    else
      match Step(st, t[0])
      case Err(e) => Err(e)
      case Ok(st') => Parse(t[1..], st')
  }

  const START: ParseState := ParseState([], [], None)

  /** The end of `from_str` as written: the grid is the finished rows and the
      current one, with the width fixed by the first newline, which must exist. */
  function Finish(st: ParseState): Result<Crossword, ParseError> {
    if st.width.None? then Err(EmptyPattern)
    else Ok(Crossword(st.width.value, |st.rows| + 1, st.rows + [st.current]))
  }

  /** The end of `from_str` as evidently intended: the last row must have the
      width too, and a single row sets the width itself; only a text with no
      cells at all is an empty pattern. */
  function FinishChecked(st: ParseState): Result<Crossword, ParseError> {
    if st.width.None? then
      if |st.current| == 0 then Err(EmptyPattern)
      else Ok(Crossword(|st.current|, 1, [st.current]))
    else if |st.current| != st.width.value then Err(InconsistentWidth)
    else Ok(Crossword(st.width.value, |st.rows| + 1, st.rows + [st.current]))
  }

  /** `from_str` as written. A text holding a character it does not accept is
      rejected, and an invalid-character error names such a character. */
  function FromStr(s: string): (r: Result<Crossword, ParseError>)
    ensures (exists k :: 0 <= k < |Trim(s)| && !Accepted(Trim(s)[k])) ==> r.Err?
    ensures r.Err? && r.error.InvalidChar? ==> r.error.c in Trim(s) && !Accepted(r.error.c)
  {
    ParseRejects(Trim(s), START);
    match Parse(Trim(s), START)
    case Err(e) => Err(e)
    case Ok(st) => Finish(st)
  }

  /** `from_str` with the corrected end. It reports every error of the loop as
      `from_str` does, and where both accept a text they return the same grid,
      in particular whenever `from_str` returns a well-formed one. */
  function FromStrChecked(s: string): (r: Result<Crossword, ParseError>)
    ensures FromStr(s).Err? && !FromStr(s).error.EmptyPattern? ==> r == FromStr(s)
    ensures r.Ok? && FromStr(s).Ok? ==> r == FromStr(s)
    ensures FromStr(s).Ok? && Valid(FromStr(s).value) ==> r == FromStr(s)
  {
    match Parse(Trim(s), START)
    case Err(e) => Err(e)
    case Ok(st) =>
      FinishAgrees(st);
      FinishChecked(st)
  }

  /** The two ends of the loop agree whenever both accept, and whenever the one
      as written yields a well-formed grid. */
  lemma FinishAgrees(st: ParseState)
    ensures Finish(st).Ok? && FinishChecked(st).Ok? ==> FinishChecked(st) == Finish(st)
    ensures Finish(st).Ok? && Valid(Finish(st).value) ==> FinishChecked(st) == Finish(st)
  {
    if Finish(st).Ok? && Valid(Finish(st).value) {
      assert Finish(st).value.grid[|st.rows|] == st.current;
    }
  }

  /** The loop stops at a character it does not accept, and reports it. */
  lemma {:induction false} ParseRejects(t: string, st: ParseState)
    ensures (exists k :: 0 <= k < |t| && !Accepted(t[k])) ==> Parse(t, st).Err?
    ensures Parse(t, st).Err? && Parse(t, st).error.InvalidChar? ==>
              Parse(t, st).error.c in t && !Accepted(Parse(t, st).error.c)
    decreases |t|
  {
    if |t| > 0 && Step(st, t[0]).Ok? {
      ParseRejects(t[1..], Step(st, t[0]).value);
      assert forall k :: 1 <= k < |t| ==> t[k] == t[1..][k - 1];
      assert forall c :: c in t[1..] ==> c in t;
    }
  }

  // ---------------------------------------------------------------------------
  // White space inside the text
  // ---------------------------------------------------------------------------

  /** White space that ends no row: everything `char::is_whitespace` accepts
      except the newline. */
  predicate IsBlank(c: char) {
    IsWhitespace(c) && c != '\n'
  }

  /** `t` with every blank removed; all other characters, newlines included,
      kept in order. */
  function DropBlanks(t: string): (r: string)
    ensures |r| <= |t|
    ensures forall k :: 0 <= k < |r| ==> !IsBlank(r[k]) && r[k] in t
    ensures |t| > 0 && !IsWhitespace(t[0]) ==> |r| > 0 && r[0] == t[0]
    ensures |t| > 0 && !IsWhitespace(t[|t| - 1]) ==> |r| > 0 && r[|r| - 1] == t[|t| - 1]
    decreases |t|
  {
    if |t| == 0 then []
    else
      var rest := DropBlanks(t[1..]);
      assert forall c :: c in t[1..] ==> c in t;
      assert |t| > 1 ==> t[1..][|t[1..]| - 1] == t[|t| - 1];
      if IsBlank(t[0]) then rest else [t[0]] + rest
  }

  /** The loop of `from_str` skips blanks: a text parses exactly as the text
      with its blanks removed, from any state. */
  lemma {:induction false} ParseDropBlanks(t: string, st: ParseState)
    ensures Parse(t, st) == Parse(DropBlanks(t), st)
    decreases |t|
  {
    if |t| > 0 {
      var rest := DropBlanks(t[1..]);
      if IsBlank(t[0]) {
        assert Step(st, t[0]) == Ok(st);
        ParseDropBlanks(t[1..], st);
      } else {
        var u := [t[0]] + rest;
        assert u[0] == t[0] && u[1..] == rest;
        match Step(st, t[0])
        case Err(_) =>
        case Ok(st') => ParseDropBlanks(t[1..], st');
      }
    }
  }

  /** `from_str` ignores blanks inside the trimmed text: spaces between glyphs
      and indentation of rows change nothing, and rows are told apart by
      newlines alone. */
  lemma FromStrDropBlanks(s: string)
    ensures FromStr(s) == FromStr(DropBlanks(Trim(s)))
    ensures FromStrChecked(s) == FromStrChecked(DropBlanks(Trim(s)))
  {
    var t := Trim(s);
    var u := DropBlanks(t);
    TrimUnchanged(u);
    ParseDropBlanks(t, START);
  }

  /** A row written with a space after every glyph but the last. */
  function Spaced(row: string): (r: string)
    ensures |row| > 0 ==> |r| == 2 * |row| - 1
    decreases |row|
  {
    if |row| <= 1 then row else [row[0], ' '] + Spaced(row[1..])
  }

  /** Spacing out a row of glyphs and letters does not change what it reads
      as: removing the blanks gives the row back. */
  lemma {:induction false} DropSpaced(row: string)
    requires forall k :: 0 <= k < |row| ==> !IsBlank(row[k])
    ensures DropBlanks(Spaced(row)) == row
    decreases |row|
  {
    if |row| > 0 {
      var c, rest := row[0], row[1..];
      assert !IsBlank(c);
      assert row == [c] + rest;
      if |rest| == 0 {
        DropKeep(c, []);
      } else {
        var tail := Spaced(rest);
        assert forall k :: 0 <= k < |rest| ==> !IsBlank(rest[k]) by {
          forall k | 0 <= k < |rest| ensures !IsBlank(rest[k]) {
            assert rest[k] == row[k + 1];
          }
        }
        SpacedCons(row);
        calc {
          DropBlanks(Spaced(row));
          DropBlanks([c] + ([' '] + tail));
          { DropKeep(c, [' '] + tail); }
          [c] + DropBlanks([' '] + tail);
          { DropSkip(' ', tail); }
          [c] + DropBlanks(tail);
          { DropSpaced(rest); }
          [c] + rest;
        }
      }
    }
  }

  lemma SpacedCons(row: string)
    requires |row| > 1
    ensures Spaced(row) == [row[0]] + ([' '] + Spaced(row[1..]))
  {
  }

  lemma DropKeep(c: char, rest: string)
    requires !IsBlank(c)
    ensures DropBlanks([c] + rest) == [c] + DropBlanks(rest)
  {
    assert ([c] + rest)[1..] == rest;
  }

  lemma DropSkip(c: char, rest: string)
    requires IsBlank(c)
    ensures DropBlanks([c] + rest) == DropBlanks(rest)
  {
    assert ([c] + rest)[1..] == rest;
  }

  // ---------------------------------------------------------------------------
  // What a successful parse guarantees
  // ---------------------------------------------------------------------------

  /** Every letter of the row is an upper-case ASCII letter. */
  predicate RowUpper(row: seq<Cell>) {
    forall k :: 0 <= k < |row| ==> row[k].Letter? ==> IsAsciiUpper(row[k].c)
  }

  /** The characters `from_str` accepts. */
  predicate Accepted(c: char) {
    c == EMPTY_GLYPH || c == BLACK_GLYPH || IsAsciiLetter(c) || IsWhitespace(c)
  }

  /** The state after the first character of a trimmed text: every finished row
      has the width, which is positive, and the current row is not empty before
      the first newline; all letters are upper case. */
  predicate Consistent(st: ParseState) {
    && (st.width.None? <==> |st.rows| == 0)
    && (st.width.Some? ==> st.width.value >= 1)
    && (st.width.None? ==> |st.current| >= 1)
    && (forall r :: r in st.rows ==> |r| == st.width.value && RowUpper(r))
    && RowUpper(st.current)
  }

  lemma StepConsistent(st: ParseState, c: char)
    requires Consistent(st)
    ensures Step(st, c).Ok? ==> Consistent(Step(st, c).value)
  {
  }

  lemma {:induction false} ParseConsistent(t: string, st: ParseState)
    requires Consistent(st)
    ensures Parse(t, st).Ok? ==> Consistent(Parse(t, st).value)
    decreases |t|
  {
    if |t| > 0 {
      StepConsistent(st, t[0]);
      if Step(st, t[0]).Ok? {
        ParseConsistent(t[1..], Step(st, t[0]).value);
      }
    }
  }

  /** A text that parses holds only glyphs, ASCII letters and white space. */
  lemma {:induction false} ParseAccepted(t: string, st: ParseState)
    ensures Parse(t, st).Ok? ==> forall k :: 0 <= k < |t| ==> Accepted(t[k])
    decreases |t|
  {
    if |t| > 0 && Step(st, t[0]).Ok? {
      ParseAccepted(t[1..], Step(st, t[0]).value);
      assert forall k :: 1 <= k < |t| ==> t[k] == t[1..][k - 1];
    }
  }

  /** Parsing a trimmed text from the start: empty text leaves the start state,
      and otherwise any successful parse is `Consistent`. */
  lemma ParseTrimmed(t: string)
    requires |t| > 0 ==> !IsWhitespace(t[0])
    ensures |t| == 0 ==> Parse(t, START) == Ok(START)
    ensures Parse(t, START).Ok? && |t| > 0 ==> Consistent(Parse(t, START).value)
  {
    if |t| > 0 && Step(START, t[0]).Ok? {
      ParseConsistent(t[1..], Step(START, t[0]).value);
    }
  }

  /** Whatever `from_str` returns has at least two rows, a positive width, every
      row but the last of that width, only upper-case letters, and comes from a
      text of glyphs, ASCII letters and white space. The last row's length is
      not constrained. */
  lemma FromStrShape(s: string)
    ensures FromStr(s).Ok? ==>
      var cw := FromStr(s).value;
      && cw.width >= 1 && cw.height >= 2 && |cw.grid| == cw.height
      && (forall y :: 0 <= y < cw.height - 1 ==> |cw.grid[y]| == cw.width)
      && (forall y :: 0 <= y < cw.height ==> RowUpper(cw.grid[y]))
    ensures FromStr(s).Ok? ==> forall k :: 0 <= k < |Trim(s)| ==> Accepted(Trim(s)[k])
  {
    var t := Trim(s);
    ParseTrimmed(t);
    ParseAccepted(t, START);
    if Parse(t, START).Ok? && |t| > 0 {
      FinishRows(Parse(t, START).value);
    }
  }

  /** Every row but the last has the width, and all letters are upper case. */
  lemma FinishRows(st: ParseState)
    requires Consistent(st)
    ensures Finish(st).Ok? ==>
      var cw := Finish(st).value;
      && cw.width >= 1 && cw.height >= 2 && |cw.grid| == cw.height
      && (forall y :: 0 <= y < cw.height - 1 ==> |cw.grid[y]| == cw.width)
      && (forall y :: 0 <= y < cw.height ==> RowUpper(cw.grid[y]))
  {
    if Finish(st).Ok? {
      var cw := Finish(st).value;
      forall y | 0 <= y < cw.height ensures RowUpper(cw.grid[y]) && (y < cw.height - 1 ==> |cw.grid[y]| == cw.width) {
        if y < |st.rows| {
          assert cw.grid[y] == st.rows[y] && st.rows[y] in st.rows;
        }
      }
    }
  }

  /** Every letter of the grid is an upper-case ASCII letter. */
  ghost predicate LettersUpper(cw: Crossword)
    requires Valid(cw)
  {
    forall q :: InBounds(cw, q) && At(cw, q).Letter? ==> IsAsciiUpper(At(cw, q).c)
  }

  /** Every row of the grid has its width and only upper-case letters. */
  lemma FinishCheckedRows(st: ParseState)
    requires Consistent(st)
    ensures FinishChecked(st).Ok? ==>
      var cw := FinishChecked(st).value;
      && Valid(cw) && cw.width >= 1 && cw.height >= 1
      && forall y :: 0 <= y < cw.height ==> RowUpper(cw.grid[y])
  {
    if FinishChecked(st).Ok? {
      var cw := FinishChecked(st).value;
      forall y | 0 <= y < cw.height ensures |cw.grid[y]| == cw.width && RowUpper(cw.grid[y]) {
        if y < |st.rows| {
          assert cw.grid[y] == st.rows[y] && st.rows[y] in st.rows;
        }
      }
    }
  }

  lemma RowsUpperLetters(cw: Crossword)
    requires Valid(cw)
    requires forall y :: 0 <= y < cw.height ==> RowUpper(cw.grid[y])
    ensures LettersUpper(cw) && LettersOk(cw)
  {
    forall q | InBounds(cw, q) && At(cw, q).Letter? ensures IsAsciiUpper(At(cw, q).c) {
      assert RowUpper(cw.grid[q.y]);
    }
  }

  /** The corrected parser returns only well-formed grids of at least one row
      and one column, whose letters are upper case, so the filler can run on them. */
  lemma FromStrCheckedValid(s: string)
    ensures FromStrChecked(s).Ok? ==>
      var cw := FromStrChecked(s).value;
      && Valid(cw) && cw.width >= 1 && cw.height >= 1
      && LettersUpper(cw) && LettersOk(cw)
      && Slots.Scannable(cw, Across) && Slots.Scannable(cw, Down)
  {
    var t := Trim(s);
    ParseTrimmed(t);
    if FromStrChecked(s).Ok? && |t| > 0 {
      var st := Parse(t, START).value;
      FinishCheckedRows(st);
      RowsUpperLetters(FinishChecked(st).value);
    }
  }

  /** Upper-casing a character does not change what `from_str` does with it. */
  lemma StepIgnoresCase(st: ParseState, c: char)
    ensures Step(st, ToUpper(c)) == Step(st, c)
  {
  }

  // ---------------------------------------------------------------------------
  // Glyph text of a grid, and the round trip
  // ---------------------------------------------------------------------------

  /** The glyph of one cell. */
  function Glyph(cell: Cell): char {
    match cell
    case Empty => EMPTY_GLYPH
    case Black => BLACK_GLYPH
    case Letter(c) => c
  }

  /** The glyphs of one row. */
  function RowText(row: seq<Cell>): (t: string)
    ensures |t| == |row|
    ensures forall k :: 0 <= k < |row| ==> t[k] == Glyph(row[k])
  {
    seq(|row|, k requires 0 <= k < |row| => Glyph(row[k]))
  }

  /** The rows' glyphs joined by newlines, the layout `from_str` reads. */
  function GridText(rows: seq<seq<Cell>>): string
    requires |rows| >= 1
  {
    if |rows| == 1 then RowText(rows[0])
    else RowText(rows[0]) + "\n" + GridText(rows[1..])
  }

  /** The text of a grid starts with its first cell and ends with its last. */
  lemma {:induction false} GridTextEnds(rows: seq<seq<Cell>>)
    requires |rows| >= 1 && forall y :: 0 <= y < |rows| ==> |rows[y]| >= 1
    ensures |GridText(rows)| >= 1
    ensures GridText(rows)[0] == Glyph(rows[0][0])
    ensures GridText(rows)[|GridText(rows)| - 1] == Glyph(rows[|rows| - 1][|rows[|rows| - 1]| - 1])
  {
    if |rows| > 1 {
      GridTextEnds(rows[1..]);
    }
  }

  lemma {:induction false} ParseAppend(a: string, b: string, st: ParseState)
    ensures Parse(a + b, st) == match Parse(a, st) case Err(e) => Err(e) case Ok(st') => Parse(b, st')
    decreases |a|
  {
    if |a| == 0 {
      assert a + b == b;
    } else {
      assert (a + b)[0] == a[0] && (a + b)[1..] == a[1..] + b;
      if Step(st, a[0]).Ok? {
        ParseAppend(a[1..], b, Step(st, a[0]).value);
      }
    }
  }

  /** The glyph of a cell whose letter is upper case is no white space, and
      reading it appends the cell to the current row. */
  lemma StepGlyph(st: ParseState, cell: Cell)
    requires cell.Letter? ==> IsAsciiUpper(cell.c)
    ensures !IsWhitespace(Glyph(cell)) && Glyph(cell) != '\n'
    ensures Step(st, Glyph(cell)) == Ok(st.(current := st.current + [cell]))
  {
  }

  /** Reading the glyphs of a row of upper-case cells appends the row to the current one. */
  lemma {:induction false} ParseRow(row: seq<Cell>, st: ParseState)
    requires RowUpper(row)
    ensures Parse(RowText(row), st) == Ok(st.(current := st.current + row))
    decreases |row|
  {
    var t := RowText(row);
    if |row| == 0 {
      assert st.current + row == st.current;
    } else {
      assert t[1..] == RowText(row[1..]);
      var st' := st.(current := st.current + [row[0]]);
      StepGlyph(st, row[0]);
      assert Parse(t, st) == Parse(RowText(row[1..]), st');
      ParseRow(row[1..], st');
      assert st'.current + row[1..] == st.current + row;
    }
  }

  /** Moving the first row onto the finished rows keeps the finished prefix. */
  lemma ShiftRows(done: seq<seq<Cell>>, rows: seq<seq<Cell>>)
    requires |rows| >= 2
    ensures (done + [rows[0]]) + rows[1..][..|rows| - 2] == done + rows[..|rows| - 1]
  {
    assert rows[..|rows| - 1] == [rows[0]] + rows[1..][..|rows| - 2];
  }

  /** A newline after a row of the declared width (or the first row) finishes it. */
  lemma ParseNewline(st: ParseState, rest: string, w: nat)
    requires |st.current| == w && (st.width.None? || st.width == Some(w))
    ensures Parse("\n" + rest, st) == Parse(rest, ParseState(st.rows + [st.current], [], Some(w)))
  {
    assert Step(st, '\n') == Ok(ParseState(st.rows + [st.current], [], Some(w)));
    assert ("\n" + rest)[0] == '\n' && ("\n" + rest)[1..] == rest;
  }

  /** Reading the text of rows of width `w`, starting between rows, finishes
      every row but the last and leaves the last one current. */
  lemma {:induction false} ParseRows(rows: seq<seq<Cell>>, w: nat, st: ParseState)
    requires |rows| >= 1
    requires forall y :: 0 <= y < |rows| ==> |rows[y]| == w && RowUpper(rows[y])
    requires st.current == [] && (st.width.None? || st.width == Some(w))
    ensures Parse(GridText(rows), st) ==
      Ok(ParseState(st.rows + rows[..|rows| - 1], rows[|rows| - 1], if |rows| > 1 then Some(w) else st.width))
    decreases |rows|
  {
    var first := st.(current := rows[0]);
    ParseRow(rows[0], st);
    assert st.current + rows[0] == rows[0];
    if |rows| == 1 {
      assert st.rows + rows[..0] == st.rows;
    } else {
      var next := ParseState(st.rows + [rows[0]], [], Some(w));
      var rest := GridText(rows[1..]);
      assert GridText(rows) == RowText(rows[0]) + ("\n" + rest);
      ParseAppend(RowText(rows[0]), "\n" + rest, st);
      ParseNewline(first, rest, w);
      ParseRows(rows[1..], w, next);
      ShiftRows(st.rows, rows);
    }
  }

  /** The text of a grid is already trimmed, and reading it from the start
      finishes every row but the last. */
  lemma ParseGridText(rows: seq<seq<Cell>>, w: nat)
    requires |rows| >= 1 && w >= 1
    requires forall y :: 0 <= y < |rows| ==> |rows[y]| == w && RowUpper(rows[y])
    ensures Trim(GridText(rows)) == GridText(rows)
    ensures Parse(GridText(rows), START) ==
      Ok(ParseState(rows[..|rows| - 1], rows[|rows| - 1], if |rows| > 1 then Some(w) else None))
  {
    GridTextTrimmed(rows, w);
    ParseRows(rows, w, START);
    assert [] + rows[..|rows| - 1] == rows[..|rows| - 1];
  }

  /** The text of a grid starts and ends with a glyph, so trimming keeps it whole. */
  lemma GridTextTrimmed(rows: seq<seq<Cell>>, w: nat)
    requires |rows| >= 1 && w >= 1
    requires forall y :: 0 <= y < |rows| ==> |rows[y]| == w && RowUpper(rows[y])
    ensures Trim(GridText(rows)) == GridText(rows)
  {
    GridTextEnds(rows);
    var last := rows[|rows| - 1];
    assert RowUpper(rows[0]) && RowUpper(last);
    StepGlyph(START, rows[0][0]);
    StepGlyph(START, last[|last| - 1]);
    TrimUnchanged(GridText(rows));
  }

  /** The glyph text of a well-formed grid with upper-case letters parses back
      to the same grid under the corrected parser; the parser as written gives
      it back too when it has two rows or more. */
  lemma RoundTrip(cw: Crossword)
    requires Valid(cw) && cw.width >= 1 && cw.height >= 1
    requires forall y :: 0 <= y < cw.height ==> RowUpper(cw.grid[y])
    ensures FromStrChecked(GridText(cw.grid)) == Ok(cw)
    ensures cw.height >= 2 ==> FromStr(GridText(cw.grid)) == Ok(cw)
  {
    ParseGridText(cw.grid, cw.width);
    assert cw.grid[..cw.height - 1] + [cw.grid[cw.height - 1]] == cw.grid;
    if cw.height == 1 {
      assert [cw.grid[0]] == cw.grid;
    }
  }

  // ---------------------------------------------------------------------------
  // The two discrepancies
  // ---------------------------------------------------------------------------

  /** As written, a last row shorter than the others is accepted and yields a
      grid whose rows do not all have the declared width. */
  lemma RaggedLastRowAccepted(s: string)
    requires s == [EMPTY_GLYPH, EMPTY_GLYPH, '\n', EMPTY_GLYPH]
    ensures FromStr(s) == Ok(Crossword(2, 2, [[Empty, Empty], [Empty]]))
    ensures !Valid(FromStr(s).value)
    ensures FromStrChecked(s) == Err(InconsistentWidth)
  {
    var last := ParseState([[Empty, Empty]], [Empty], Some(2));
    RaggedTrim(s);
    RaggedParse();
    FromStrFinish(s, last);
    RaggedFinish();
  }

  /** Finishing after the ragged text: the grid as written, the error as intended. */
  lemma RaggedFinish()
    ensures var last := ParseState([[Empty, Empty]], [Empty], Some(2));
      && Finish(last) == Ok(Crossword(2, 2, [[Empty, Empty], [Empty]]))
      && FinishChecked(last) == Err(InconsistentWidth)
      && !Valid(Crossword(2, 2, [[Empty, Empty], [Empty]]))
  {
    assert [[Empty, Empty]] + [[Empty]] == [[Empty, Empty], [Empty]];
    assert |[[Empty, Empty], [Empty]][1]| == 1;
  }

  /** Both readings of a text end by finishing the state its trimmed parse reaches. */
  lemma FromStrFinish(s: string, st: ParseState)
    requires Parse(Trim(s), START) == Ok(st)
    ensures FromStr(s) == Finish(st) && FromStrChecked(s) == FinishChecked(st)
  {
  }

  lemma RaggedTrim(s: string)
    requires s == [EMPTY_GLYPH, EMPTY_GLYPH, '\n', EMPTY_GLYPH]
    ensures Trim(s) == s
  {
  }

  /** The states the parser passes through on the two-cell row, the newline
      and the one-cell row. */
  lemma RaggedParse()
    ensures Parse([EMPTY_GLYPH, EMPTY_GLYPH, '\n', EMPTY_GLYPH], START) == Ok(ParseState([[Empty, Empty]], [Empty], Some(2)))
  {
    var s := [EMPTY_GLYPH, EMPTY_GLYPH, '\n', EMPTY_GLYPH];
    var s1 := ParseState([], [Empty], None);
    var s2 := ParseState([], [Empty, Empty], None);
    var s4 := ParseState([[Empty, Empty]], [Empty], Some(2));
    RaggedParseTail();
    assert s[1..] == [EMPTY_GLYPH, '\n', EMPTY_GLYPH] && s[1..][1..] == ['\n', EMPTY_GLYPH];
    assert s1.current + [Empty] == [Empty, Empty] && START.current + [Empty] == [Empty];
    assert Step(s1, EMPTY_GLYPH) == Ok(s2) && Step(START, EMPTY_GLYPH) == Ok(s1);
    assert Parse(s[1..], s1) == Ok(s4);
  }

  lemma RaggedParseTail()
    ensures Parse(['\n', EMPTY_GLYPH], ParseState([], [Empty, Empty], None)) == Ok(ParseState([[Empty, Empty]], [Empty], Some(2)))
  {
    var s2 := ParseState([], [Empty, Empty], None);
    var s3 := ParseState([[Empty, Empty]], [], Some(2));
    var s4 := ParseState([[Empty, Empty]], [Empty], Some(2));
    assert s3.current + [Empty] == [Empty];
    assert Step(s3, EMPTY_GLYPH) == Ok(s4);
    assert Parse([EMPTY_GLYPH], s3) == Ok(s4) by {
      assert [EMPTY_GLYPH][1..] == [];
    }
    assert s2.rows + [s2.current] == [[Empty, Empty]] && |s2.current| == 2;
    assert Step(s2, '\n') == Ok(s3);
    assert ['\n', EMPTY_GLYPH][1..] == [EMPTY_GLYPH];
  }

  /** As written, a grid of one row is rejected as an empty pattern, even with
      a trailing newline, which trimming removes; the corrected parser reads it. */
  lemma SingleRowRejected(row: seq<Cell>)
    requires |row| >= 1 && RowUpper(row)
    ensures FromStr(RowText(row)) == Err(EmptyPattern)
    ensures FromStr(RowText(row) + "\n") == Err(EmptyPattern)
    ensures FromStrChecked(RowText(row)) == Ok(Crossword(|row|, 1, [row]))
  {
    var t := RowText(row);
    assert GridText([row]) == t;
    ParseGridText([row], |row|);
    StepGlyph(START, row[0]);
    StepGlyph(START, row[|row| - 1]);
    var u := t + "\n";
    assert u[0] == t[0] && u[|u| - 1] == '\n' && u[..|u| - 1] == t;
    assert TrimStart(u) == u;
    assert TrimEnd(u) == TrimEnd(t) == t;
    assert Trim(u) == t;
  }
}
