/**
 The backtracking filler of src/crossword.rs (`fill`, `fill_recursive`,
 `choice_pos`).

 The search repeatedly picks the open slot with the fewest dictionary matches
 (`choice_pos`, which memoises counts per pattern in a cache), tries its
 matches in random order, and recurses on the remaining slots; a failed branch
 writes the slot's old pattern back. The grid, the cache and the position in
 the stream of random draws are threaded through the calls and returned in an
 `Outcome`.

 The results below say that the search only ever turns empty cells into
 letters (and letters into their upper-case form), leaves the grid as it found
 it when it fails, and — for a dictionary smaller than `usize::MAX` words —
 succeeds exactly when some filling of every slot with dictionary words exists.
 */
module Filler {
  import opened Common
  import opened Grid
  import opened Slots
  import WordTrie
  import Matching

  /** The memo of `choice_pos`: pattern to number of matches. */
  type Cache = map<CharPattern, nat>

  /** A slot picked by `choice_pos`: the slot, its index in its list, and the list. */
  datatype Choice = Choice(slot: Slot, index: nat, dir: Direction)

  /** What `fill_recursive` leaves behind: its result, the grid, the next
      unused draw and the cache. */
  datatype Outcome = Outcome(filled: bool, grid: Crossword, next: nat, cache: Cache)

  // ---------------------------------------------------------------------------
  // How the grid may change during the search
  // ---------------------------------------------------------------------------

  /** A cell may change only as the filler changes it: `Black` stays `Black`, an
      empty cell may receive a letter, and a letter stays or becomes upper case. */
  predicate CellEvolves(a: Cell, b: Cell) {
    match a
    case Black => b == Black
    case Empty => b != Black
    case Letter(c) => b == a || b == Letter(ToUpper(c))
  }

  ghost predicate Evolves(a: Crossword, b: Crossword) {
    && Valid(a) && Valid(b)
    && a.width == b.width && a.height == b.height
    && forall q :: InBounds(a, q) ==> CellEvolves(At(a, q), At(b, q))
  }

  lemma ToUpperIdempotent(c: char)
    ensures ToUpper(ToUpper(c)) == ToUpper(c)
  {
  }

  lemma EvolvesRefl(a: Crossword)
    requires Valid(a)
    ensures Evolves(a, a)
  {
  }

  lemma EvolvesTrans(a: Crossword, b: Crossword, c: Crossword)
    requires Evolves(a, b) && Evolves(b, c)
    ensures Evolves(a, c)
  {
    forall q | InBounds(a, q) ensures CellEvolves(At(a, q), At(c, q)) {
      if At(a, q).Letter? {
        ToUpperIdempotent(At(a, q).c);
      }
    }
  }

  lemma EvolvesSameBlack(a: Crossword, b: Crossword)
    requires Evolves(a, b)
    ensures SameBlack(a, b)
  {
  }

  predicate SlotsOpen(cw: Crossword, slots: seq<Slot>, d: Direction)
    requires Valid(cw)
  {
    forall s :: s in slots ==> SlotOpen(cw, s, d)
  }

  lemma SlotsOpenEvolves(a: Crossword, b: Crossword, slots: seq<Slot>, d: Direction)
    requires Evolves(a, b) && SlotsOpen(a, slots, d)
    ensures SlotsOpen(b, slots, d)
  {
    forall s | s in slots ensures SlotOpen(b, s, d) {
      EvolvesSameBlack(a, b);
      WalkOpenSameBlack(a, b, s.pos, s.len, d);
    }
  }

  // ---------------------------------------------------------------------------
  // Slots holding dictionary words
  // ---------------------------------------------------------------------------

  /** The cells of slot `s` hold the letters of `w`, in order. */
  ghost predicate Spells(g: Crossword, s: Slot, d: Direction, w: string)
    requires Valid(g)
  {
    && |w| == s.len
    && WalkInBounds(g, s.pos, s.len, d)
    && forall k :: 0 <= k < s.len ==> At(g, Step(s.pos, d, k)) == Letter(w[k])
  }

  /** Slot `s` of `g` spells a word of the matcher's dictionary. */
  ghost predicate HoldsWord(m: Matching.Matcher, g: Crossword, s: Slot, d: Direction)
    requires Valid(g)
  {
    exists w :: Matching.InDictionary(m, w) && Spells(g, s, d, w)
  }

  ghost predicate AllHold(m: Matching.Matcher, g: Crossword, slots: seq<Slot>, d: Direction)
    requires Valid(g)
  {
    forall s :: s in slots ==> HoldsWord(m, g, s, d)
  }

  /** Upper-case letters survive every later step of the search. */
  lemma SpellsEvolves(a: Crossword, b: Crossword, s: Slot, d: Direction, w: string)
    requires Evolves(a, b) && Spells(a, s, d, w) && AllAsciiUpper(w)
    ensures Spells(b, s, d, w)
  {
    WalkCells(a, s.pos, s.len, d);
    forall k | 0 <= k < s.len ensures At(b, Step(s.pos, d, k)) == Letter(w[k]) {
      assert CellEvolves(At(a, Step(s.pos, d, k)), At(b, Step(s.pos, d, k)));
    }
  }

  lemma AllHoldEvolves(m: Matching.Matcher, a: Crossword, b: Crossword, slots: seq<Slot>, d: Direction)
    requires Evolves(a, b) && AllHold(m, a, slots, d)
    ensures AllHold(m, b, slots, d)
  {
    forall s | s in slots ensures HoldsWord(m, b, s, d) {
      var w :| Matching.InDictionary(m, w) && Spells(a, s, d, w);
      SpellsEvolves(a, b, s, d, w);
    }
  }

  /** A slot spelling `w` reads as the fully fixed pattern of `w`. */
  lemma SpellsPattern(g: Crossword, s: Slot, d: Direction, w: string)
    requires Valid(g) && Spells(g, s, d, w)
    ensures SlotOpen(g, s, d)
    ensures GetPattern(g, s.pos, s.len, d) == FixedPattern(w)
  {
    WalkCells(g, s.pos, s.len, d);
    var p := GetPattern(g, s.pos, s.len, d);
    forall k | 0 <= k < s.len ensures p[k] == Some(w[k]) {
      assert CellOf(p[k]) == Letter(w[k]);
    }
  }

  /** A slot holding a word reads as a fully fixed pattern, and its word is one
      `find` returns for the all-empty pattern of the slot's length. */
  lemma HoldsWordFound(m: Matching.Matcher, g: Crossword, s: Slot, d: Direction)
    requires Matching.Valid(m) && Valid(g) && HoldsWord(m, g, s, d)
    ensures SlotOpen(g, s, d)
    ensures exists w :: GetPattern(g, s.pos, s.len, d) == FixedPattern(w) && w in Matching.Find(m, Matching.Wildcards(s.len))
  {
    var w :| Matching.InDictionary(m, w) && Spells(g, s, d, w);
    SpellsPattern(g, s, d, w);
    Matching.InDictionaryIsFound(m, w);
  }

  // ---------------------------------------------------------------------------
  // Scores and the cache
  // ---------------------------------------------------------------------------

  /** A pattern read from a grid whose letters are ASCII letters can be given
      to the matcher. */
  lemma PatternFromLetters(cw: Crossword, pos: Pos, len: nat, d: Direction)
    requires Valid(cw) && WalkOpen(cw, pos, len, d) && LettersOk(cw)
    ensures Matching.PatternLetters(GetPattern(cw, pos, len, d))
  {
    WalkCells(cw, pos, len, d);
  }

  /** The number of dictionary words that fit slot `s` as the grid stands. */
  function Score(m: Matching.Matcher, cw: Crossword, s: Slot, d: Direction): nat
    requires Matching.Valid(m) && Valid(cw) && LettersOk(cw) && SlotOpen(cw, s, d)
  {
    PatternFromLetters(cw, s.pos, s.len, d);
    Matching.CountMatches(m, GetPattern(cw, s.pos, s.len, d))
  }

  /** Every cached count is the matcher's count for its pattern. */
  ghost predicate CacheOk(m: Matching.Matcher, cache: Cache)
    requires Matching.Valid(m)
  {
    forall p :: p in cache ==> Matching.PatternLetters(p) && cache[p] == Matching.CountMatches(m, p)
  }

  /** The score of one slot, read from the cache or counted and cached: the
      cache never changes a score. */
  function Lookup(m: Matching.Matcher, cw: Crossword, s: Slot, d: Direction, cache: Cache): (r: (nat, Cache))
    requires Matching.Valid(m) && Valid(cw) && LettersOk(cw) && SlotOpen(cw, s, d)
    requires CacheOk(m, cache)
    ensures r.0 == Score(m, cw, s, d)
    ensures CacheOk(m, r.1)
  {
    var cells := GetPattern(cw, s.pos, s.len, d);
    PatternFromLetters(cw, s.pos, s.len, d);
    if cells in cache then (cache[cells], cache)
    else
      var score := Matching.CountMatches(m, cells);
      (score, cache[cells := score])
  }

  // ---------------------------------------------------------------------------
  // choice_pos
  // ---------------------------------------------------------------------------

  ghost predicate Scorable(m: Matching.Matcher, cw: Crossword, slots: seq<Slot>, d: Direction) {
    Matching.Valid(m) && Valid(cw) && LettersOk(cw) && SlotsOpen(cw, slots, d)
  }

  /** The score of every slot of the list. */
  function Scores(m: Matching.Matcher, cw: Crossword, slots: seq<Slot>, d: Direction): (r: seq<nat>)
    requires Scorable(m, cw, slots, d)
    ensures |r| == |slots|
    ensures forall j :: 0 <= j < |slots| ==> r[j] == Score(m, cw, slots[j], d)
  {
    seq(|slots|, j requires 0 <= j < |slots| => Score(m, cw, slots[j], d))
  }

  /** The state of one loop of `choice_pos` after slots `0 .. i - 1`: no best
      slot and the sentinel score before the first slot; afterwards the best
      slot is the first one with the least score so far. */
  predicate BestSoFar(scores: seq<nat>, i: nat, best: Option<nat>, bestScore: nat)
    requires i <= |scores|
  {
    && (best.None? <==> i == 0)
    && (best.None? ==> bestScore == USIZE_MAX)
    && (best.Some? ==>
          && best.value < i
          && bestScore == scores[best.value]
          && (forall j :: 0 <= j < i ==> bestScore <= scores[j])
          && (forall j :: 0 <= j < best.value ==> bestScore < scores[j]))
  }

  /** Scoring slot `i` keeps the loop state: a strictly smaller score (or the
      first slot) takes over, anything else leaves the best slot in place. */
  lemma BestStep(scores: seq<nat>, i: nat, best: Option<nat>, bestScore: nat)
    requires i < |scores| && BestSoFar(scores, i, best, bestScore)
    ensures if best.None? || scores[i] < bestScore then BestSoFar(scores, i + 1, Some(i), scores[i])
            else BestSoFar(scores, i + 1, best, bestScore)
  {
  }

  /** One loop of `choice_pos` from slot `i` on. */
  function BestFrom(m: Matching.Matcher, cw: Crossword, slots: seq<Slot>, d: Direction,
                    i: nat, best: Option<nat>, bestScore: nat, cache: Cache): (r: (Option<nat>, nat, Cache))
    requires Scorable(m, cw, slots, d) && i <= |slots|
    requires CacheOk(m, cache)
    requires BestSoFar(Scores(m, cw, slots, d), i, best, bestScore)
    ensures BestSoFar(Scores(m, cw, slots, d), |slots|, r.0, r.1)
    ensures CacheOk(m, r.2)
    decreases |slots| - i
  {
    if i == |slots| then (best, bestScore, cache)
    else
      var (score, cache') := Lookup(m, cw, slots[i], d, cache);
      BestStep(Scores(m, cw, slots, d), i, best, bestScore);
      if best.None? || score < bestScore then BestFrom(m, cw, slots, d, i + 1, Some(i), score, cache')
      else BestFrom(m, cw, slots, d, i + 1, best, bestScore, cache')
  }

  /** Entry `k` is the least score, and no earlier entry ties with it. */
  predicate FirstMin(scores: seq<nat>, k: nat) {
    && k < |scores|
    && (forall j :: 0 <= j < |scores| ==> scores[k] <= scores[j])
    && (forall j :: 0 <= j < k ==> scores[k] < scores[j])
  }

  predicate AtLeast(scores: seq<nat>, bound: nat) {
    forall j :: 0 <= j < |scores| ==> scores[j] >= bound
  }

  /** `choice_pos`: the across slot with the least score, unless a down slot
      scores strictly less; ties inside a list go to the earlier slot. Both
      best scores start at the `usize::MAX` sentinel, so with no across slots
      a down slot is chosen only when its score is below the sentinel. */
  function ChoicePos(m: Matching.Matcher, cw: Crossword, across: seq<Slot>, down: seq<Slot>, cache: Cache): (r: (Option<Choice>, Cache))
    requires Scorable(m, cw, across, Across) && Scorable(m, cw, down, Down)
    requires CacheOk(m, cache)
    ensures CacheOk(m, r.1)
    ensures r.0.Some? && r.0.value.dir == Across ==>
      var k := r.0.value.index;
      && FirstMin(Scores(m, cw, across, Across), k)
      && r.0.value.slot == across[k]
      && AtLeast(Scores(m, cw, down, Down), Scores(m, cw, across, Across)[k])
    ensures r.0.Some? && r.0.value.dir == Down ==>
      var k := r.0.value.index;
      && FirstMin(Scores(m, cw, down, Down), k)
      && r.0.value.slot == down[k]
      && AtLeast(Scores(m, cw, across, Across), Scores(m, cw, down, Down)[k] + 1)
      && (|across| == 0 ==> Scores(m, cw, down, Down)[k] < USIZE_MAX)
    ensures r.0.None? <==>
      || (|across| == 0 && AtLeast(Scores(m, cw, down, Down), USIZE_MAX))
      || (|down| == 0 && AtLeast(Scores(m, cw, across, Across), USIZE_MAX + 1))
  {
    var (acrossBest, acrossScore, cache1) := BestFrom(m, cw, across, Across, 0, None, USIZE_MAX, cache);
    var (downBest, downScore, cache2) := BestFrom(m, cw, down, Down, 0, None, USIZE_MAX, cache1);
    CompareBest(Scores(m, cw, across, Across), Scores(m, cw, down, Down), acrossBest, acrossScore, downBest, downScore);
    if acrossScore <= downScore then
      var choice := if acrossBest.Some? then Some(Choice(across[acrossBest.value], acrossBest.value, Across)) else None;
      (choice, cache2)
    else
      var choice := if downBest.Some? then Some(Choice(down[downBest.value], downBest.value, Down)) else None;
      (choice, cache2)
  }

  /** The comparison at the end of `choice_pos`, on the two finished loops:
      the across pick wins ties, and a missing pick means its list was empty. */
  lemma CompareBest(sa: seq<nat>, sd: seq<nat>, ba: Option<nat>, scoreA: nat, bd: Option<nat>, scoreD: nat)
    requires BestSoFar(sa, |sa|, ba, scoreA) && BestSoFar(sd, |sd|, bd, scoreD)
    ensures scoreA <= scoreD && ba.Some? ==> FirstMin(sa, ba.value) && AtLeast(sd, sa[ba.value])
    ensures scoreD < scoreA && bd.Some? ==>
      && FirstMin(sd, bd.value) && AtLeast(sa, sd[bd.value] + 1)
      && (|sa| == 0 ==> sd[bd.value] < USIZE_MAX)
    ensures (if scoreA <= scoreD then ba.None? else bd.None?) <==>
      || (|sa| == 0 && AtLeast(sd, USIZE_MAX))
      || (|sd| == 0 && AtLeast(sa, USIZE_MAX + 1))
  {
  }

  /** With fewer than `usize::MAX` dictionary words every score is below the
      sentinel, and `choice_pos` returns `None` exactly when both lists are empty. */
  lemma ChoiceNoneIffEmpty(m: Matching.Matcher, cw: Crossword, across: seq<Slot>, down: seq<Slot>, cache: Cache)
    requires Scorable(m, cw, across, Across) && Scorable(m, cw, down, Down)
    requires CacheOk(m, cache)
    ensures |WordTrie.Words(m.trie)| < USIZE_MAX ==>
      (ChoicePos(m, cw, across, down, cache).0.None? <==> |across| == 0 && |down| == 0)
  {
    var r := ChoicePos(m, cw, across, down, cache);
    var sa := Scores(m, cw, across, Across);
    var sd := Scores(m, cw, down, Down);
    if |WordTrie.Words(m.trie)| < USIZE_MAX {
      if |down| > 0 {
        ScoreBound(m, cw, down[0], Down);
        assert !AtLeast(sd, USIZE_MAX);
      }
      if |across| > 0 {
        ScoreBound(m, cw, across[0], Across);
        assert !AtLeast(sa, USIZE_MAX + 1);
      }
    }
  }

  lemma ScoreBound(m: Matching.Matcher, cw: Crossword, s: Slot, d: Direction)
    requires Matching.Valid(m) && Valid(cw) && LettersOk(cw) && SlotOpen(cw, s, d)
    ensures Score(m, cw, s, d) <= |WordTrie.Words(m.trie)|
  {
    PatternFromLetters(cw, s.pos, s.len, d);
    Matching.CountMatchesBound(m, GetPattern(cw, s.pos, s.len, d));
  }

  // ---------------------------------------------------------------------------
  // Writing a match into its slot
  // ---------------------------------------------------------------------------

  /** Writing a dictionary word that agrees with the slot's pattern only fills
      empty cells and upper-cases letters, and leaves the slot spelling the word. */
  lemma WriteWord(m: Matching.Matcher, cw: Crossword, s: Slot, d: Direction, pattern: CharPattern, w: string)
    requires Valid(cw) && LettersOk(cw) && SlotOpen(cw, s, d)
    requires pattern == GetPattern(cw, s.pos, s.len, d)
    requires Matching.InDictionary(m, w) && Matching.Agrees(w, pattern)
    ensures Evolves(cw, SetWord(cw, w, s.pos, d))
    ensures LettersOk(SetWord(cw, w, s.pos, d))
    ensures Spells(SetWord(cw, w, s.pos, d), s, d, w)
  {
    WriteWordEvolves(cw, s, d, pattern, w);
    WriteWordLetters(cw, s, d, w);
    WriteWordSpells(cw, s, d, w);
  }

  /** A letter that agrees with the pattern entry read from a cell is a change
      the filler may make to that cell. */
  lemma WrittenCellEvolves(before: Cell, e: Option<char>, c: char)
    requires CellOf(e) == before
    requires e.Some? ==> c == ToUpper(e.value)
    ensures CellEvolves(before, Letter(c))
  {
  }

  lemma WriteWordEvolves(cw: Crossword, s: Slot, d: Direction, pattern: CharPattern, w: string)
    requires Valid(cw) && SlotOpen(cw, s, d)
    requires pattern == GetPattern(cw, s.pos, s.len, d)
    requires Matching.Agrees(w, pattern)
    ensures Evolves(cw, SetWord(cw, w, s.pos, d))
  {
    var r := SetWord(cw, w, s.pos, d);
    forall q | InBounds(cw, q) ensures CellEvolves(At(cw, q), At(r, q)) {
      if OnWalk(s.pos, s.len, d, q) {
        var k := WalkIndex(s.pos, s.len, d, q);
        WrittenCellEvolves(At(cw, q), pattern[k], w[k]);
      }
    }
  }

  lemma WriteWordLetters(cw: Crossword, s: Slot, d: Direction, w: string)
    requires Valid(cw) && LettersOk(cw)
    requires |w| == s.len && WalkInBounds(cw, s.pos, s.len, d)
    requires AllAsciiUpper(w)
    ensures LettersOk(SetWord(cw, w, s.pos, d))
  {
    var r := SetWord(cw, w, s.pos, d);
    forall q | InBounds(r, q) && At(r, q).Letter? ensures IsAsciiLetter(At(r, q).c) {
      if OnWalk(s.pos, s.len, d, q) {
        var k := WalkIndex(s.pos, s.len, d, q);
        assert IsAsciiUpper(w[k]);
      }
    }
  }

  lemma WriteWordSpells(cw: Crossword, s: Slot, d: Direction, w: string)
    requires Valid(cw)
    requires |w| == s.len && WalkInBounds(cw, s.pos, s.len, d)
    ensures Spells(SetWord(cw, w, s.pos, d), s, d, w)
  {
    var r := SetWord(cw, w, s.pos, d);
    WalkCells(cw, s.pos, s.len, d);
    forall k | 0 <= k < s.len ensures At(r, Step(s.pos, d, k)) == Letter(w[k]) {
      assert WalkIndex(s.pos, s.len, d, Step(s.pos, d, k)) == k;
    }
  }

  /** Every match the matcher returns for a pattern is a dictionary word that agrees with it. */
  lemma MatchesAgree(m: Matching.Matcher, pattern: CharPattern, matches: seq<string>)
    requires Matching.Valid(m) && Matching.PatternLetters(pattern)
    requires multiset(matches) == multiset(Matching.Find(m, pattern))
    ensures forall w :: w in matches ==> Matching.InDictionary(m, w) && Matching.Agrees(w, pattern)
  {
    Matching.FindIff(m, pattern);
    forall w | w in matches ensures Matching.InDictionary(m, w) && Matching.Agrees(w, pattern) {
      assert w in multiset(matches);
    }
  }

  // ---------------------------------------------------------------------------
  // fill_recursive
  // ---------------------------------------------------------------------------

  /** What every call of the search needs: a matcher, a grid of ASCII letters,
      open slots and a correct cache. */
  ghost predicate SearchReady(m: Matching.Matcher, cw: Crossword, across: seq<Slot>, down: seq<Slot>, cache: Cache) {
    && Matching.Valid(m) && Valid(cw) && LettersOk(cw)
    && SlotsOpen(cw, across, Across) && SlotsOpen(cw, down, Down)
    && CacheOk(m, cache)
  }

  /** `fill_recursive`: pick a slot with `choice_pos`; with none left the grid is
      filled. Otherwise try the slot's matches in the order `find_vec_random`
      gives, recursing on the other slots after each; a slot with no match fails. */
  function FillRecursive(m: Matching.Matcher, cw: Crossword, across: seq<Slot>, down: seq<Slot>,
                         draw: nat -> WordTrie.Offset, n: nat, cache: Cache): (r: Outcome)
    requires SearchReady(m, cw, across, down, cache)
    ensures Evolves(cw, r.grid) && LettersOk(r.grid) && CacheOk(m, r.cache) && r.next >= n
    ensures !r.filled ==> r.grid == cw
    ensures r.filled && |WordTrie.Words(m.trie)| < USIZE_MAX ==>
      AllHold(m, r.grid, across, Across) && AllHold(m, r.grid, down, Down)
    decreases |across| + |down|, 2
  {
    var (choice, cache1) := ChoicePos(m, cw, across, down, cache);
    ChoiceInList(m, cw, across, down, cache);
    if choice.None? then
      ChoiceNoneIffEmpty(m, cw, across, down, cache);
      EvolvesRefl(cw);
      Outcome(true, cw, n, cache1)
    else
      FillChosen(m, cw, across, down, choice.value, draw, n, cache1)
  }

  /** `c` names a slot of its list by its index. */
  predicate InList(c: Choice, across: seq<Slot>, down: seq<Slot>) {
    && (c.dir == Across ==> c.index < |across| && c.slot == across[c.index])
    && (c.dir == Down ==> c.index < |down| && c.slot == down[c.index])
  }

  lemma ChoiceInList(m: Matching.Matcher, cw: Crossword, across: seq<Slot>, down: seq<Slot>, cache: Cache)
    requires Scorable(m, cw, across, Across) && Scorable(m, cw, down, Down)
    requires CacheOk(m, cache)
    ensures ChoicePos(m, cw, across, down, cache).0.Some? ==> InList(ChoicePos(m, cw, across, down, cache).0.value, across, down)
  {
  }

  /** The list `slots` of direction `d` without the chosen slot, if it was chosen from it. */
  function Remaining(slots: seq<Slot>, d: Direction, c: Choice): (r: seq<Slot>)
    requires c.dir == d ==> c.index < |slots|
    ensures |r| == if c.dir == d then |slots| - 1 else |slots|
    ensures forall s :: s in r ==> s in slots
  {
    if c.dir == d then RemoveAt(slots, c.index) else slots
  }

  /** The rest of `fill_recursive` once `choice_pos` has picked slot `c`: read
      its pattern, fetch the matches in random order, fail if there are none,
      and otherwise try them on the remaining slots. */
  function FillChosen(m: Matching.Matcher, cw: Crossword, across: seq<Slot>, down: seq<Slot>, c: Choice,
                      draw: nat -> WordTrie.Offset, n: nat, cache: Cache): (r: Outcome)
    requires SearchReady(m, cw, across, down, cache)
    requires InList(c, across, down)
    ensures Evolves(cw, r.grid) && LettersOk(r.grid) && CacheOk(m, r.cache) && r.next >= n
    ensures !r.filled ==> r.grid == cw
    ensures r.filled && |WordTrie.Words(m.trie)| < USIZE_MAX ==>
      AllHold(m, r.grid, across, Across) && AllHold(m, r.grid, down, Down)
    decreases |across| + |down|, 1
  {
    assert c.slot in (if c.dir == Across then across else down);
    var pattern := GetPattern(cw, c.slot.pos, c.slot.len, c.dir);
    PatternFromLetters(cw, c.slot.pos, c.slot.len, c.dir);
    var (matches, n1) := Matching.FindVecRandom(m, pattern, draw, n);
    MatchesAgree(m, pattern, matches);
    EvolvesRefl(cw);
    if |matches| == 0 then Outcome(false, cw, n1, cache)
    else
      var across' := Remaining(across, Across, c);
      var down' := Remaining(down, Down, c);
      var r := TryWords(m, cw, c.slot, c.dir, pattern, matches, 0, across', down', draw, n1, cache);
      var done := r.filled && |WordTrie.Words(m.trie)| < USIZE_MAX;
      RemainingHold(done, m, r.grid, across, Across, c, across');
      RemainingHold(done, m, r.grid, down, Down, c, down');
      r
  }

  /** Every slot of a list holds a word once the chosen slot and the rest of
      its list do. */
  lemma RemainingHold(done: bool, m: Matching.Matcher, g: Crossword, slots: seq<Slot>, d: Direction, c: Choice, rest: seq<Slot>)
    requires Valid(g)
    requires c.dir == d ==> c.index < |slots| && c.slot == slots[c.index]
    requires rest == Remaining(slots, d, c)
    requires done ==> HoldsWord(m, g, c.slot, c.dir) && AllHold(m, g, rest, d)
    ensures done ==> AllHold(m, g, slots, d)
  {
  }

  /** The loop over the matches of the chosen slot, from match `i` on: write
      the match, recurse, and on failure write the slot's old pattern back. */
  function TryWords(m: Matching.Matcher, cw: Crossword, slot: Slot, dir: Direction, pattern: CharPattern,
                    matches: seq<string>, i: nat, across: seq<Slot>, down: seq<Slot>,
                    draw: nat -> WordTrie.Offset, n: nat, cache: Cache): (r: Outcome)
    requires SearchReady(m, cw, across, down, cache)
    requires SlotOpen(cw, slot, dir) && pattern == GetPattern(cw, slot.pos, slot.len, dir)
    requires forall w :: w in matches ==> Matching.InDictionary(m, w) && Matching.Agrees(w, pattern)
    requires i <= |matches|
    ensures Evolves(cw, r.grid) && LettersOk(r.grid) && CacheOk(m, r.cache) && r.next >= n
    ensures !r.filled ==> r.grid == cw
    ensures r.filled && |WordTrie.Words(m.trie)| < USIZE_MAX ==>
      HoldsWord(m, r.grid, slot, dir) && AllHold(m, r.grid, across, Across) && AllHold(m, r.grid, down, Down)
    decreases |across| + |down| + 1, 0, |matches| - i
  {
    EvolvesRefl(cw);
    if i == |matches| then Outcome(false, cw, n, cache)
    else
      var w := matches[i];
      assert w in matches;
      assert Matching.Agrees(w, pattern);
      assert |pattern| == slot.len;
      assert |w| == slot.len;
      var filled := SetWord(cw, w, slot.pos, dir);
      WriteWord(m, cw, slot, dir, pattern, w);
      SlotsOpenEvolves(cw, filled, across, Across);
      SlotsOpenEvolves(cw, filled, down, Down);
      var sub := FillRecursive(m, filled, across, down, draw, n, cache);
      if sub.filled then
        EvolvesTrans(cw, filled, sub.grid);
        SpellsEvolves(filled, sub.grid, slot, dir, w);
        sub
      else
        RestorePattern(cw, filled, slot.pos, slot.len, dir);
        var restored := SetPattern(sub.grid, pattern, slot.pos, dir);
        TryWords(m, restored, slot, dir, pattern, matches, i + 1, across, down, draw, sub.next, sub.cache)
  }

  // ---------------------------------------------------------------------------
  // fill
  // ---------------------------------------------------------------------------

  /** `across_positions` and `down_positions` can both scan the grid. */
  predicate Fillable(cw: Crossword) {
    Valid(cw) && Scannable(cw, Across) && Scannable(cw, Down)
  }

  /** `g` completes `cw`: it only fills empty cells and upper-cases letters, and
      every across and down slot of `cw` spells a dictionary word. */
  ghost predicate Solution(m: Matching.Matcher, cw: Crossword, g: Crossword)
    requires Fillable(cw)
  {
    && Evolves(cw, g)
    && AllHold(m, g, Positions(cw, Across), Across)
    && AllHold(m, g, Positions(cw, Down), Down)
  }

  lemma SlotListOpen(cw: Crossword, d: Direction)
    requires Fillable(cw)
    ensures SlotsOpen(cw, Positions(cw, d), d)
  {
    var slots := Positions(cw, d);
    forall s | s in slots ensures SlotOpen(cw, s, d) {
      var j :| 0 <= j < |slots| && slots[j] == s;
    }
  }

  /** `fill`: the search over every across and down slot with an empty cache. */
  function Fill(m: Matching.Matcher, cw: Crossword, draw: nat -> WordTrie.Offset, n: nat): (r: Outcome)
    requires Matching.Valid(m) && Fillable(cw) && LettersOk(cw)
    ensures Evolves(cw, r.grid) && LettersOk(r.grid)
    ensures !r.filled ==> r.grid == cw
    ensures r.filled && |WordTrie.Words(m.trie)| < USIZE_MAX ==> Solution(m, cw, r.grid)
  {
    SlotListOpen(cw, Across);
    SlotListOpen(cw, Down);
    FillRecursive(m, cw, Positions(cw, Across), Positions(cw, Down), draw, n, map[])
  }

  // ---------------------------------------------------------------------------
  // Success exactly when a solution exists
  // ---------------------------------------------------------------------------

  /** A word that a completion of `cw` spells in slot `s` agrees with the
      pattern `s` has in `cw`. */
  lemma SolutionAgrees(cw: Crossword, sol: Crossword, s: Slot, d: Direction, w: string)
    requires Evolves(cw, sol) && SlotOpen(cw, s, d)
    requires Spells(sol, s, d, w) && AllAsciiUpper(w)
    ensures Matching.Agrees(w, GetPattern(cw, s.pos, s.len, d))
  {
    var p := GetPattern(cw, s.pos, s.len, d);
    WalkCells(cw, s.pos, s.len, d);
    forall k | 0 <= k < |p| && p[k].Some? ensures w[k] == ToUpper(p[k].value) {
      var q := Step(s.pos, d, k);
      assert CellOf(p[k]) == At(cw, q);
      assert CellEvolves(At(cw, q), At(sol, q));
    }
  }

  /** After writing the word a completion spells in slot `s`, the completion
      still completes the grid. */
  lemma WrittenEvolves(cw: Crossword, sol: Crossword, s: Slot, d: Direction, w: string)
    requires Evolves(cw, sol) && SlotOpen(cw, s, d)
    requires Spells(sol, s, d, w)
    ensures Evolves(SetWord(cw, w, s.pos, d), sol)
  {
    var filled := SetWord(cw, w, s.pos, d);
    WalkCells(cw, s.pos, s.len, d);
    forall q | InBounds(filled, q) ensures CellEvolves(At(filled, q), At(sol, q)) {
      if OnWalk(s.pos, s.len, d, q) {
        var k := WalkIndex(s.pos, s.len, d, q);
        assert At(sol, Step(s.pos, d, k)) == Letter(w[k]);
      }
    }
  }

  lemma AllHoldSubset(m: Matching.Matcher, g: Crossword, slots: seq<Slot>, sub: seq<Slot>, d: Direction)
    requires Valid(g) && AllHold(m, g, slots, d)
    requires forall s :: s in sub ==> s in slots
    ensures AllHold(m, g, sub, d)
  {
  }

  /** If some completion of the grid fills every listed slot with dictionary
      words, `fill_recursive` succeeds, whatever the random draws. */
  lemma {:induction false} FillRecursiveComplete(m: Matching.Matcher, cw: Crossword, across: seq<Slot>, down: seq<Slot>,
                                                 draw: nat -> WordTrie.Offset, n: nat, cache: Cache, sol: Crossword)
    requires SearchReady(m, cw, across, down, cache)
    requires Evolves(cw, sol) && AllHold(m, sol, across, Across) && AllHold(m, sol, down, Down)
    ensures FillRecursive(m, cw, across, down, draw, n, cache).filled
    decreases |across| + |down|, 2
  {
    var (choice, cache1) := ChoicePos(m, cw, across, down, cache);
    ChoiceInList(m, cw, across, down, cache);
    if choice.Some? {
      FillChosenComplete(m, cw, across, down, choice.value, draw, n, cache1, sol);
    }
  }

  lemma {:induction false} FillChosenComplete(m: Matching.Matcher, cw: Crossword, across: seq<Slot>, down: seq<Slot>, c: Choice,
                                              draw: nat -> WordTrie.Offset, n: nat, cache: Cache, sol: Crossword)
    requires SearchReady(m, cw, across, down, cache)
    requires InList(c, across, down)
    requires Evolves(cw, sol) && AllHold(m, sol, across, Across) && AllHold(m, sol, down, Down)
    ensures FillChosen(m, cw, across, down, c, draw, n, cache).filled
    decreases |across| + |down|, 1
  {
    assert c.slot in (if c.dir == Across then across else down);
    var pattern := GetPattern(cw, c.slot.pos, c.slot.len, c.dir);
    PatternFromLetters(cw, c.slot.pos, c.slot.len, c.dir);
    var (matches, n1) := Matching.FindVecRandom(m, pattern, draw, n);
    MatchesAgree(m, pattern, matches);
    var w :| Matching.InDictionary(m, w) && Spells(sol, c.slot, c.dir, w);
    SolutionAgrees(cw, sol, c.slot, c.dir, w);
    Matching.FindIff(m, pattern);
    assert w in multiset(matches);
    var k :| 0 <= k < |matches| && matches[k] == w;
    var across' := Remaining(across, Across, c);
    var down' := Remaining(down, Down, c);
    AllHoldSubset(m, sol, across, across', Across);
    AllHoldSubset(m, sol, down, down', Down);
    TryWordsComplete(m, cw, c.slot, c.dir, pattern, matches, 0, across', down', draw, n1, cache, sol, k);
  }

  lemma {:induction false} TryWordsComplete(m: Matching.Matcher, cw: Crossword, slot: Slot, dir: Direction, pattern: CharPattern,
                                            matches: seq<string>, i: nat, across: seq<Slot>, down: seq<Slot>,
                                            draw: nat -> WordTrie.Offset, n: nat, cache: Cache, sol: Crossword, k: nat)
    requires SearchReady(m, cw, across, down, cache)
    requires SlotOpen(cw, slot, dir) && pattern == GetPattern(cw, slot.pos, slot.len, dir)
    requires forall w :: w in matches ==> Matching.InDictionary(m, w) && Matching.Agrees(w, pattern)
    requires i <= k < |matches|
    requires Evolves(cw, sol) && AllHold(m, sol, across, Across) && AllHold(m, sol, down, Down)
    requires Spells(sol, slot, dir, matches[k])
    ensures TryWords(m, cw, slot, dir, pattern, matches, i, across, down, draw, n, cache).filled
    decreases |across| + |down| + 1, 0, |matches| - i
  {
    var w := matches[i];
    assert w in matches;
    var filled := SetWord(cw, w, slot.pos, dir);
    WriteWord(m, cw, slot, dir, pattern, w);
    SlotsOpenEvolves(cw, filled, across, Across);
    SlotsOpenEvolves(cw, filled, down, Down);
    var sub := FillRecursive(m, filled, across, down, draw, n, cache);
    if i == k {
      WrittenEvolves(cw, sol, slot, dir, w);
      FillRecursiveComplete(m, filled, across, down, draw, n, cache, sol);
    } else if !sub.filled {
      RestorePattern(cw, filled, slot.pos, slot.len, dir);
      TryWordsComplete(m, cw, slot, dir, pattern, matches, i + 1, across, down, draw, sub.next, sub.cache, sol, k);
    }
  }

  /** `fill` succeeds whenever the grid has a completion, whatever the random
      draws and however large the dictionary. For a dictionary of fewer than
      `usize::MAX` words the converse holds too: it succeeds exactly when a
      completion exists, and the grid it leaves is one. */
  lemma FillSucceedsIffSolvable(m: Matching.Matcher, cw: Crossword, draw: nat -> WordTrie.Offset, n: nat)
    requires Matching.Valid(m) && Fillable(cw) && LettersOk(cw)
    ensures (exists g :: Solution(m, cw, g)) ==> Fill(m, cw, draw, n).filled
    ensures |WordTrie.Words(m.trie)| < USIZE_MAX ==>
              (Fill(m, cw, draw, n).filled <==> exists g :: Solution(m, cw, g))
    ensures |WordTrie.Words(m.trie)| < USIZE_MAX && Fill(m, cw, draw, n).filled ==>
              Solution(m, cw, Fill(m, cw, draw, n).grid)
  {
    if g :| Solution(m, cw, g) {
      SlotListOpen(cw, Across);
      SlotListOpen(cw, Down);
      FillRecursiveComplete(m, cw, Positions(cw, Across), Positions(cw, Down), draw, n, map[], g);
    }
  }

  /** In a completion every cell that is not `Black` holds an upper-case letter,
      since every such cell lies on an across slot. */
  lemma SolutionFillsEveryCell(m: Matching.Matcher, cw: Crossword, g: Crossword)
    requires Fillable(cw) && Solution(m, cw, g)
    ensures forall q :: InBounds(cw, q) ==> (At(cw, q) == Black <==> At(g, q) == Black)
    ensures forall q :: InBounds(cw, q) && At(cw, q) != Black ==> At(g, q).Letter? && IsAsciiUpper(At(g, q).c)
  {
    var slots := Positions(cw, Across);
    forall q | InBounds(cw, q) && At(cw, q) != Black ensures At(g, q).Letter? && IsAsciiUpper(At(g, q).c) {
      assert Covered(slots, Across, q);
      var j :| 0 <= j < |slots| && OnWalk(slots[j].pos, slots[j].len, Across, q);
      var s := slots[j];
      assert s in slots;
      var w :| Matching.InDictionary(m, w) && Spells(g, s, Across, w);
      var k := WalkIndex(s.pos, s.len, Across, q);
      assert At(g, q) == Letter(w[k]);
    }
    forall q | InBounds(cw, q) ensures At(cw, q) == Black <==> At(g, q) == Black {
      assert CellEvolves(At(cw, q), At(g, q));
    }
  }
}
