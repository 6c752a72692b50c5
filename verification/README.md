# Crossword filler: a Dafny model

This project models the core of a crossword filler written in Rust. The
filler reads a grid of empty cells, black cells and letters. It finds every
across and down slot, meaning every maximal run of non-black cells. It then
fills the slots from a dictionary with a most-constrained-slot backtracking
search. The model covers three parts:

- `WordTrie` (`trie.dfy`, src/trie.rs): the wildcard word index. It is a
  26-letter prefix tree, specified throughout against `Words(t)`, the set of
  words it stores. `insert`, `find`, `find_random`, `find_one_random` and
  `count_matches` are modelled. The random generator only hands out a
  rotation offset in `[0, 26)` at each wildcard node. It is modelled as a
  stream `draw` of offsets plus the index `n` of the next draw, and every
  property holds for every stream.
- `Matching` (`matcher.dfy`, src/matcher.rs): the letter/index adapter.
  - It converts ASCII letters of either case to trie indices, and indices
    back to upper-case letters.
  - It counts inserted words per length.
  - It answers pattern queries through the trie.
- `Grid`, `Slots`, `Filler` and `GridParse` (`grid.dfy`, `slots.dfy`,
  `filler.dfy`, `parse.dfy`, src/crossword.rs):
  - the board, with reads and writes of slot patterns;
  - the across/down slot scans;
  - `choice_pos`, with its memo of match counts;
  - `fill_recursive` and `fill`;
  - `from_str`.

  The search is a pure function. It threads the grid, the cache and the
  draw index through the calls and returns them in an `Outcome`.

`Common` (`common.dfy`) holds `Option`/`Result`, the ASCII predicates, the
64-bit `usize::MAX` constant and facts about duplicate-free sequences.

The main results are these:

- The trie's queries return exactly the stored words that fit a pattern.
  Each such word appears once, and the random variants return a permutation
  of the same list.
- The slot scans list exactly the maximal slots in scan order.
- `choice_pos` picks the first slot with the fewest matches, and across wins
  ties.
- `fill` never changes which cells are black. It only turns empty cells into
  letters and lower-case letters into upper case, and it restores the grid
  when it fails.
- `fill` succeeds whenever a completion exists, whatever the random draws
  and for any dictionary. For a dictionary of fewer than `usize::MAX` words
  it succeeds exactly when a completion exists, and the grid it leaves is
  such a completion.

Three behaviours of the source are decided explicitly:

- **Word order.** In src/trie.rs the helpers build every word leaf-to-root.
  `find` and `find_random` (src/trie.rs:34-37 and 75-78) reverse the words
  in a `for` loop that consumes the vector and then return the moved vector,
  so as written they do not compile and never return reversed words.
  `find_one_random` (src/trie.rs:124-130) does reverse its word in place and
  returns it; on its path the defect is in the helper, whose wildcard branch
  returns `Some(*word)` out of a mutable borrow (src/trie.rs:157 and 166),
  which does not compile. The model returns words root-to-leaf, in pattern
  order, as all three wrappers evidently intend. This is what
  src/matcher.rs:56 and the filler rely on.
- **Panics.** Out-of-range indexing, `char_to_int` on a non-letter,
  `int_to_char` beyond 25, a black cell in `get_pattern`, and `width-1` on an
  empty grid are all preconditions. The three panics of `from_str` are
  instead `ParseError` values, so that its error cases can be stated.
- **Parser quirks.** `from_str` rejects a one-row grid and never checks the
  last row's width. `GridParse.FromStr` keeps both behaviours.
  `GridParse.FromStrChecked` is the corrected reading; see Findings.

## Model

| member | source | states |
|---|---|---|
| WordTrie.New | src/trie.rs:10-19 | a new trie is well formed and stores no word |
| WordTrie.Insert | src/trie.rs:21-30 | inserting keeps the trie well formed; only the child on the word's first letter changes, and the empty word sets the end-of-word flag |
| WordTrie.InsertWords | src/trie.rs:21-30 | after `insert(w)` the stored words are the old ones plus `w`: no other word is added or removed |
| WordTrie.InsertMembership | src/trie.rs:21-30 | `v` is stored after `insert(w)` iff it was stored before or is `w` |
| WordTrie.InsertIdempotent | src/trie.rs:24-29 | inserting the same word twice gives the same trie as inserting it once |
| WordTrie.InsertThenFind | src/trie.rs:21-30 | after `insert(w)` the fully fixed pattern of `w` is found exactly as `[w]`, and its count is 1 |
| WordTrie.WordsNil | src/trie.rs:41-46 | the empty pattern matches at a node iff that node ends a word |
| WordTrie.Find | src/trie.rs:40-71 | every word returned fits the pattern: same length, equal at every fixed position |
| WordTrie.FindEnumerates | src/trie.rs:32-71 | `find(p)` holds every stored word that fits `p` exactly once, and nothing else |
| WordTrie.CountMatches | src/trie.rs:174-193 | `count_matches`: the recursive count, with the same descent as `find`. It carries no contract of its own; what it computes is stated by `WordTrie.CountIsFindLength` and `WordTrie.CountMatchesBound` |
| WordTrie.CountIsFindLength | src/trie.rs:174-193 | `count_matches(p)` equals the number of words `find(p)` returns |
| WordTrie.CountMatchesBound | src/trie.rs:174-193 | `count_matches(p)` is at most the number of stored words |
| WordTrie.Rotation | src/trie.rs:101-119 | the rotated child order (`skip(off)` then `take(off)`) visits every letter exactly once |
| WordTrie.FindRandom | src/trie.rs:73-122 | every word `find_random(p)` returns fits the pattern, and the draw index never goes back |
| WordTrie.FindRandomEnumerates | src/trie.rs:81-122 | for every stream of offsets, `find_random(p)` holds every stored word that fits `p` exactly once, and nothing else |
| WordTrie.FindRandomIsPermutation | src/trie.rs:73-122 | for every stream of offsets, `find_random(p)` is a permutation of `find(p)` |
| WordTrie.FindOneRandom | src/trie.rs:124-172 | a returned word fits the pattern, and the draw index never goes back |
| WordTrie.FindOneRandomSound | src/trie.rs:132-172 | `find_one_random(p)` is `None` iff no stored word fits `p`, and otherwise returns a stored word |
| WordTrie.FindOneRandomInFind | src/trie.rs:124-172 | `find_one_random(p)` is `None` iff `find(p)` is empty, and otherwise returns a member of `find(p)` |
| Matching.CharToInt | src/matcher.rs:71-79 | only ASCII letters are accepted; the result is below 26 and is the position of the letter's upper-case form |
| Matching.IntToChar | src/matcher.rs:81-87 | only indices below 26 are accepted; the result is an upper-case letter that `char_to_int` maps back to the index |
| Matching.CharRoundTrip | src/matcher.rs:71-87 | `int_to_char(char_to_int(c))` is `c` in upper case |
| Matching.CharToIntIgnoresCase | src/matcher.rs:71-79 | a letter and its upper-case form have the same index |
| Matching.IsUppercaseStr | src/matcher.rs:89-96 | true iff every character is an upper-case ASCII letter, so true for the empty string |
| Matching.Decode | src/matcher.rs:56 | decoding gives an upper-case string of the same length that encodes back to the indices |
| Matching.DecodeEncode | src/matcher.rs:54-56 | encoding then decoding upper-cases a word, and is the identity on upper-case words |
| Matching.New | src/matcher.rs:13-18 | a new matcher stores no word, counts 0 for every length, and its table agrees with its trie |
| Matching.Insert | src/matcher.rs:33-43 | a word of ASCII letters is stored; the count for its length goes up by one, even for a repeated word; every other count is unchanged; the table grows to the word's length plus one when needed |
| Matching.WordCountByLength | src/matcher.rs:45-51 | for a matcher whose table agrees with its trie, the count for a length is positive iff the dictionary holds a word of that length |
| Matching.InsertKeepsLengths | src/matcher.rs:33-43 | `insert` keeps the length table in agreement with the trie: every stored word's length has a positive count, and every positive count has a stored word |
| Matching.InsertAllLengths | src/matcher.rs:33-51 | a matcher built by inserting a list of words keeps its length table in agreement with its trie |
| Matching.InsertAllWords | src/matcher.rs:33-43 | after inserting a list, the trie stores exactly the encodings of the listed words |
| Matching.InsertAllCounts | src/matcher.rs:39-51 | after inserting a list, `word_count_by_length(len)` is the number of listed words of length `len`, repeats included, so 0 beyond the table |
| Matching.Find | src/matcher.rs:53-57 | every returned string is upper case and agrees, ignoring case, with every fixed letter of the pattern |
| Matching.FindIff | src/matcher.rs:53-57 | a word is returned iff it is in the dictionary and agrees with the pattern; no word is returned twice |
| Matching.FindVecRandom | src/matcher.rs:59-63 | for every stream of offsets, the result is a permutation of `find(p)` |
| Matching.CountMatches | src/matcher.rs:65-68 | `count_matches(p)` equals the length of `find(p)` |
| Matching.CountMatchesBound | src/matcher.rs:65-68 | `count_matches(p)` is at most the number of distinct dictionary words |
| Matching.InDictionaryIsFound | src/matcher.rs:53-57 | a word is in the dictionary iff the all-wildcard pattern of its length finds it |
| Grid.New | src/crossword.rs:32-38 | a new grid has the given size and every cell empty |
| Grid.At | src/crossword.rs:248-254 | `Index<Pos>`: the cell at column `x` of row `y`; an in-bounds position is required where the source's indexing panics. It carries no contract of its own: what a write does to it is stated by `Grid.Put` |
| Grid.Put | src/crossword.rs:256-260 | writing a cell changes that cell and no other |
| Grid.GetPattern | src/crossword.rs:179-214 | needs a walk inside the grid with no black cell; reads `len` entries, `None` for an empty cell and `Some(c)` for a letter |
| Grid.SetPattern | src/crossword.rs:216-245 | the walk's cells receive the pattern, `Some(c)` as a letter and `None` as empty; every other cell is unchanged |
| Grid.SetWord | src/crossword.rs:86-97 | the walk's cells receive the word's letters; every other cell is unchanged |
| Grid.PatternRoundTrip | src/crossword.rs:179-245 | reading a walk right after writing a pattern to it gives the pattern back |
| Grid.RestorePattern | src/crossword.rs:311 | writing back the pattern read before a change on the walk restores the grid exactly |
| Slots.ScanLineRuns | src/crossword.rs:101-120 | the scan of one row lists exactly the maximal non-black runs of that row, each of length at least 1, left to right |
| Slots.RunListUnique | src/crossword.rs:101-120 | a line has only one ordered list of its maximal runs, so the scan's result is determined |
| Slots.Positions | src/crossword.rs:99-147 | `across_positions`/`down_positions` list only maximal black-free slots, in scan order, and every non-black cell lies on one of them |
| Slots.PositionsDependOnBlack | src/crossword.rs:104-110 | two grids with black cells in the same places have the same slot lists |
| Filler.Lookup | src/crossword.rs:321-329 | the score is the matcher's count for the slot's pattern, whether it comes from the cache or not; the cache keeps mapping every key to its count |
| Filler.BestFrom | src/crossword.rs:319-334 | after the loop the best slot is the first one with the lowest score and its score is that score; with no slots nothing is chosen and the score stays at the `usize::MAX` sentinel; the cache invariant is kept |
| Filler.ChoicePos | src/crossword.rs:316-360 | picks the first across slot with the lowest score unless a down slot scores strictly lower; the index points at the slot; `None` only when one list is empty and the other scores at least the sentinel; the cache invariant is kept |
| Filler.ChoiceNoneIffEmpty | src/crossword.rs:316-360 | with fewer than `usize::MAX` dictionary words, `choice_pos` is `None` iff both slot lists are empty |
| Filler.WriteWord | src/crossword.rs:307 | writing a word that agrees with the slot's pattern keeps black cells, only fills empty cells or upper-cases letters, and makes the slot spell the word |
| Filler.FillRecursive | src/crossword.rs:288-314 | black cells never change and cells only gain letters; on failure the grid equals the grid on entry; on success every remaining slot spells a dictionary word |
| Filler.FillChosen | src/crossword.rs:293-313 | once a slot is chosen (reading its pattern, fetching its matches, removing it from its list), black cells never change; on failure the grid is unchanged; on success every slot of both lists, the chosen one included, spells a dictionary word |
| Filler.TryWords | src/crossword.rs:306-313 | each match is written and searched; a failed one is undone; on success the chosen slot and all remaining slots spell dictionary words |
| Filler.Fill | src/crossword.rs:284-286 | `fill` changes only empty cells (and letter case); on failure it leaves the grid unchanged; on success the grid completes every across and down slot |
| Filler.FillRecursiveComplete | src/crossword.rs:288-314 | if some completion of the grid fills every remaining slot, `fill_recursive` succeeds, whatever the draws |
| Filler.FillSucceedsIffSolvable | src/crossword.rs:284-314 | `fill` succeeds whenever a completion exists, for any dictionary and any draws; with fewer than `usize::MAX` words it succeeds iff a completion exists, and on success the grid is one |
| Filler.SolutionFillsEveryCell | src/crossword.rs:99-122 | in a completion every non-black cell holds an upper-case letter and the black cells are those of the original grid |
| GridParse.Trim | src/crossword.rs:41 | the trimmed text is the slice of the input left after removing all leading and all trailing white space: everything cut off is white space, and the result neither starts nor ends with it |
| GridParse.FromStr | src/crossword.rs:40-84 | a text holding a character other than the glyphs, ASCII letters and white space is rejected, and an invalid-character error names such a character of the trimmed text; how blanks inside the text are skipped is stated by `GridParse.FromStrDropBlanks` |
| GridParse.FromStrChecked | src/crossword.rs:40-84 | the corrected parser reports every error of the loop exactly as `from_str` does; where both accept a text, and whenever `from_str` yields a well-formed grid, they return the same grid |
| GridParse.ParseDropBlanks | src/crossword.rs:45-78 | the loop skips every white-space character other than the newline: from any state, a text parses exactly as the text with those characters removed |
| GridParse.FromStrDropBlanks | src/crossword.rs:40-84 | `from_str` (as written and corrected) gives the same result on a text and on its trimmed form with all non-newline white space removed, so indentation and spaces between glyphs, as in src/main.rs:15-28, change nothing and rows are separated by newlines alone |
| GridParse.DropSpaced | src/crossword.rs:73 | a row written with a space between its glyphs reads back as the row without spaces |
| GridParse.ParseRejects | src/crossword.rs:45-78 | the loop stops on a character it does not accept and reports that character |
| GridParse.ParseAccepted | src/crossword.rs:46-77 | a text that parses holds only the two glyphs, ASCII letters and white space; any other character is an error |
| GridParse.StepIgnoresCase | src/crossword.rs:67-72 | a lower-case letter is read exactly as its upper-case form |
| GridParse.FromStrShape | src/crossword.rs:40-84 | a grid from `from_str` has at least two rows and a positive width, every row but the last has that width, and all its letters are upper case |
| GridParse.FromStrCheckedValid | src/crossword.rs:40-84 | with the width check applied to every row, a parsed grid is well formed, at least 1x1, holds only upper-case letters and can be scanned for slots |
| GridParse.RoundTrip | src/crossword.rs:40-84 | the glyph text of a well-formed grid parses back to that grid; `from_str` as written does so for grids of two rows or more |
| GridParse.RaggedLastRowAccepted | src/crossword.rs:55-83 | "□□\n□" is accepted as written and gives a grid whose second row is one cell short; the checked parser rejects it |
| GridParse.SingleRowRejected | src/crossword.rs:79-81 | a one-row grid is rejected as an empty pattern, with or without a trailing newline; the checked parser reads it as a 1-row grid |

## Left out

- src/main.rs: the command-line driver, its timing and `thread_rng` are outside the core.
- `Matcher::from_file`: the file reading and the Unicode `to_uppercase` of each line are I/O and library code. Its filter `is_uppercase_str` and the insertion of a list of words (`Matching.InsertAll`) are modelled.
- `fmt::Display for Crossword`: console rendering is out of scope. `GridParse.GridText` is only the glyph layout that `from_str` reads, with no spaces between cells.
- The random generator: it is a stream of offsets in `[0, 26)`, and every property is stated for every stream.
- `Box` and heap layout: the trie is an inductive datatype, and the alphabet is fixed at the one instantiation, 26.
- `usize` overflow: counts are unbounded naturals. The only 64-bit value kept is the `usize::MAX` starting score of `choice_pos`.
- `HashMap` hashing: the cache is a `map` from patterns to counts.
- The running time of the search: only termination is proved. The measure is the number of remaining slots.
- `get_across` and `get_down`: they are the same code as `get_pattern_across` and `get_pattern_down` and are modelled by `Grid.GetPattern`.
- The source's `x` column counter in `from_str` is not a separate variable: it always equals the length of the current row.
- Filler.FillRecursive: the success guarantee assumes fewer than `usize::MAX` dictionary words, because the `usize::MAX` sentinel of `choice_pos` can otherwise end the search while slots remain.
- Filler.FillChosen: its success guarantee assumes fewer than `usize::MAX` dictionary words, for the same reason.
- Filler.TryWords: its success guarantee assumes fewer than `usize::MAX` dictionary words, for the same reason.
- Filler.Fill: the completion guarantee on success assumes fewer than `usize::MAX` dictionary words, for the same reason.
- Filler.Fill: only rectangular grids (`Grid.Valid`) are modelled. `from_str` can also hand `fill` a grid whose last row differs in length (see Findings). With a longer last row the source's scans never read past `width` (src/crossword.rs:101-147), so `fill` works on the first `width` cells of each row and leaves the extra cells untouched. With a shorter last row the scans index past its end and panic. Neither behaviour is modelled.
- Slots.Positions: requires a rectangular grid, for the same reason as `Filler.Fill`.
- GridParse.FromStrShape: it says nothing about the last row's length, because the source does not check it (see Findings).

## Findings

| source | as written | input that shows it | evidently intended | confidence | as-written member | corrected member |
|---|---|---|---|---|---|---|
| src/crossword.rs:55-83 | the width is compared only when a newline is read, so the row after the last newline is never checked | "□□\n□" yields a grid of width 2 whose second row has one cell, on which `fill` panics when the across scan indexes the missing cell; "□\n□□" yields a grid of width 1 whose second row has two cells, on which `fill` works on the first column only and leaves the extra cell untouched | every row, the last included, has the first row's width, or the input is rejected as inconsistent | high, not executed | GridParse.RaggedLastRowAccepted | GridParse.FromStrCheckedValid |
| src/crossword.rs:79-81 | the width is set only by a newline, and trimming removes a trailing newline, so a grid of one row is rejected as an empty pattern | "□□□" (or "□□□\n") | a single row is a grid whose width is its length; only text with no cells is an empty pattern | medium, not executed | GridParse.SingleRowRejected | GridParse.RoundTrip |
