/**
 The letter/index adapter of src/matcher.rs. A matcher owns a 26-letter word
 trie and a table counting the inserted words per length. It converts
 case-insensitive ASCII letters to trie letter indices and back (always to
 upper case), and answers the filler's pattern queries by delegating to the
 trie. Patterns are sequences of `Option<char>`: `Some(c)` is a letter the
 slot already holds, `None` an empty cell.
 */
module Matching {
  import opened Common
  import WordTrie

  datatype Matcher = Matcher(trie: WordTrie.Trie, wordCountByLength: seq<nat>)

  type CharPattern = seq<Option<char>>

  predicate Valid(m: Matcher) {
    WordTrie.Valid(m.trie)
  }

  // ---------------------------------------------------------------------------
  // Letters and indices
  // ---------------------------------------------------------------------------

  /** `char_to_int`: the alphabet position of an ASCII letter of either case;
      any other character panics. */
  function CharToInt(c: char): (i: nat)
    requires IsAsciiLetter(c)
    ensures i < WordTrie.ALPHABET_SIZE
    ensures ToUpper(c) == ('A' as int + i) as char
  {
    if 'A' <= c <= 'Z' then c as int - 'A' as int
    else c as int - 'a' as int
  }

  /** `int_to_char`: the upper-case letter at an alphabet position; any larger
      index panics. */
  function IntToChar(i: nat): (c: char)
    requires i < WordTrie.ALPHABET_SIZE
    ensures IsAsciiUpper(c)
    ensures CharToInt(c) == i
  {
    (i + 'A' as int) as char
  }

  /** Converting a letter to its index and back gives the letter in upper case. */
  lemma CharRoundTrip(c: char)
    requires IsAsciiLetter(c)
    ensures IntToChar(CharToInt(c)) == ToUpper(c)
  {
  }

  /** Letters that differ only in case have the same index. */
  lemma CharToIntIgnoresCase(c: char)
    requires IsAsciiLetter(c)
    ensures CharToInt(ToUpper(c)) == CharToInt(c)
  {
  }

  /** `is_uppercase_str`: whether every character is an upper-case ASCII letter
      (true for the empty string). */
  method IsUppercaseStr(s: string) returns (b: bool)
    ensures b <==> AllAsciiUpper(s)
  {
    var i := 0;
    while i < |s|
      invariant 0 <= i <= |s|
      invariant forall k :: 0 <= k < i ==> IsAsciiUpper(s[k])
    {
      if !IsAsciiUpper(s[i]) {
        return false;
      }
      i := i + 1;
    }
    return true;
  }

  // ---------------------------------------------------------------------------
  // Words and patterns in both alphabets
  // ---------------------------------------------------------------------------

  function Encode(s: string): (w: WordTrie.Word)
    requires AllAsciiLetters(s)
    ensures |w| == |s|
    ensures WordTrie.WordInRange(w)
    ensures forall i :: 0 <= i < |s| ==> w[i] == CharToInt(s[i])
  {
    seq(|s|, i requires 0 <= i < |s| => CharToInt(s[i]))
  }

  function Decode(w: WordTrie.Word): (s: string)
    requires WordTrie.WordInRange(w)
    ensures |s| == |w|
    ensures AllAsciiUpper(s)
    ensures forall i :: 0 <= i < |w| ==> s[i] == IntToChar(w[i])
    ensures Encode(s) == w
  {
    var s := seq(|w|, i requires 0 <= i < |w| => IntToChar(w[i]));
    assert AllAsciiLetters(s);
    assert forall i :: 0 <= i < |w| ==> Encode(s)[i] == w[i];
    s
  }

  /** Decoding a word's indices gives the word back in upper case. */
  lemma DecodeEncode(s: string)
    requires AllAsciiLetters(s)
    ensures Decode(Encode(s)) == seq(|s|, i requires 0 <= i < |s| => ToUpper(s[i]))
    ensures AllAsciiUpper(s) ==> Decode(Encode(s)) == s
  {
    forall i | 0 <= i < |s| ensures Decode(Encode(s))[i] == ToUpper(s[i]) {
      CharRoundTrip(s[i]);
    }
  }

  /** Every fixed entry of the pattern is an ASCII letter (`char_to_int` panics otherwise). */
  predicate PatternLetters(p: CharPattern) {
    forall i :: 0 <= i < |p| ==> p[i].Some? ==> IsAsciiLetter(p[i].value)
  }

  function EncodePattern(p: CharPattern): (q: WordTrie.Pattern)
    requires PatternLetters(p)
    ensures |q| == |p|
    ensures WordTrie.PatternInRange(q)
    ensures forall i :: 0 <= i < |p| ==> q[i].Some? == p[i].Some?
    ensures forall i :: 0 <= i < |p| && p[i].Some? ==> q[i].value == CharToInt(p[i].value)
  {
    seq(|p|, i requires 0 <= i < |p| =>
      match p[i]
      case None => None
      case Some(c) => Some(CharToInt(c)))
  }

  function DecodeAll(ws: seq<WordTrie.Word>): (r: seq<string>)
    requires forall k :: 0 <= k < |ws| ==> WordTrie.WordInRange(ws[k])
    ensures |r| == |ws|
    ensures forall s :: s in r <==> exists k :: 0 <= k < |ws| && s == Decode(ws[k])
    ensures NoDup(ws) ==> NoDup(r)
  {
    var r := seq(|ws|, k requires 0 <= k < |ws| => Decode(ws[k]));
    assert forall i, j :: 0 <= i < |ws| && 0 <= j < |ws| && r[i] == r[j] ==> ws[i] == ws[j] by {
      forall i, j | 0 <= i < |ws| && 0 <= j < |ws| && r[i] == r[j] ensures ws[i] == ws[j] {
        assert Encode(r[i]) == ws[i] && Encode(r[j]) == ws[j];
      }
    }
    forall s ensures s in r <==> exists k :: 0 <= k < |ws| && s == Decode(ws[k]) {
      if s in r {
        var k :| 0 <= k < |r| && r[k] == s;
      }
      if exists k :: 0 <= k < |ws| && s == Decode(ws[k]) {
        var k :| 0 <= k < |ws| && s == Decode(ws[k]);
        assert r[k] == s;
      }
    }
    r
  }

  /** `w` has the pattern's length and holds the upper-case form of every fixed letter. */
  predicate Agrees(w: string, p: CharPattern) {
    && |w| == |p|
    && forall i :: 0 <= i < |p| ==> p[i].Some? ==> w[i] == ToUpper(p[i].value)
  }

  /** `w` is an upper-case word whose letters spell a word stored in the trie. */
  ghost predicate InDictionary(m: Matcher, w: string) {
    && AllAsciiUpper(w)
    && Encode(w) in WordTrie.Words(m.trie)
  }

  // ---------------------------------------------------------------------------
  // Construction
  // ---------------------------------------------------------------------------

  /** `Matcher::new`: an empty trie and an empty length table. */
  function New(): (m: Matcher)
    ensures Valid(m)
    ensures WordTrie.Words(m.trie) == {}
    ensures forall len :: WordCountByLength(m, len) == 0
    ensures LengthsCounted(m)
  {
    Matcher(WordTrie.New(), [])
  }

  /** `Matcher::insert`: stores the word's letters in the trie and adds one to
      the count of its length, growing the table with zeros when needed. A
      character that is not an ASCII letter panics. */
  function Insert(m: Matcher, word: string): (r: Matcher)
    requires Valid(m)
    requires AllAsciiLetters(word)
    ensures Valid(r)
    ensures WordTrie.Words(r.trie) == WordTrie.Words(m.trie) + {Encode(word)}
    ensures WordCountByLength(r, |word|) == WordCountByLength(m, |word|) + 1
    ensures forall len :: len != |word| ==> WordCountByLength(r, len) == WordCountByLength(m, len)
    ensures |r.wordCountByLength| == if |word| < |m.wordCountByLength| then |m.wordCountByLength| else |word| + 1
  {
    var w := Encode(word);
    WordTrie.InsertWords(m.trie, w);
    var table :=
      if |w| >= |m.wordCountByLength| then m.wordCountByLength + seq(|w| + 1 - |m.wordCountByLength|, _ => 0)
      else m.wordCountByLength;
    Matcher(WordTrie.Insert(m.trie, w), table[|w| := table[|w|] + 1])
  }

  /** `word_count_by_length`: the number of inserted words of length `len`,
      0 for any length beyond the table. */
  function WordCountByLength(m: Matcher, len: nat): (r: nat)
    ensures LengthsCounted(m) ==> (r > 0 <==> exists w :: w in WordTrie.Words(m.trie) && |w| == len)
  {
    if len >= |m.wordCountByLength| then 0 else m.wordCountByLength[len]
  }

  /** The length table and the trie agree on which lengths occur: the length of
      every stored word has a positive count, and every positive count belongs
      to the length of some stored word. */
  ghost predicate LengthsCounted(m: Matcher) {
    && (forall w :: w in WordTrie.Words(m.trie) ==> |w| < |m.wordCountByLength| && m.wordCountByLength[|w|] > 0)
    && (forall len :: 0 <= len < |m.wordCountByLength| && m.wordCountByLength[len] > 0 ==>
          exists w :: w in WordTrie.Words(m.trie) && |w| == len)
  }

  /** `insert` keeps the length table in step with the trie. */
  lemma InsertKeepsLengths(m: Matcher, word: string)
    requires Valid(m) && AllAsciiLetters(word)
    requires LengthsCounted(m)
    ensures LengthsCounted(Insert(m, word))
  {
    var r := Insert(m, word);
    var w := Encode(word);
    forall v | v in WordTrie.Words(r.trie) ensures |v| < |r.wordCountByLength| && r.wordCountByLength[|v|] > 0 {
      if v != w {
        assert v in WordTrie.Words(m.trie);
        assert WordCountByLength(m, |v|) > 0;
      }
      assert WordCountByLength(r, |v|) > 0;
    }
    forall len | 0 <= len < |r.wordCountByLength| && r.wordCountByLength[len] > 0
      ensures exists v :: v in WordTrie.Words(r.trie) && |v| == len
    {
      if len == |word| {
        assert w in WordTrie.Words(r.trie) && |w| == len;
      } else {
        assert WordCountByLength(r, len) > 0;
        assert WordCountByLength(m, len) > 0;
        var v :| v in WordTrie.Words(m.trie) && |v| == len;
        assert v in WordTrie.Words(r.trie);
      }
    }
  }

  /** A matcher filled by inserting `words` in order into a new matcher. */
  function InsertAll(words: seq<string>): (m: Matcher)
    requires forall k :: 0 <= k < |words| ==> AllAsciiLetters(words[k])
    ensures Valid(m)
  {
    if |words| == 0 then New()
    else Insert(InsertAll(words[..|words| - 1]), words[|words| - 1])
  }

  /** A matcher built by inserting a list of words keeps its length table in
      step with its trie. */
  lemma {:induction false} InsertAllLengths(words: seq<string>)
    requires forall k :: 0 <= k < |words| ==> AllAsciiLetters(words[k])
    ensures LengthsCounted(InsertAll(words))
  {
    if |words| > 0 {
      var init := words[..|words| - 1];
      InsertAllLengths(init);
      InsertKeepsLengths(InsertAll(init), words[|words| - 1]);
    }
  }

  /** How many entries of `words` have length `len`, repeated entries included. */
  function CountOfLength(words: seq<string>, len: nat): nat {
    if |words| == 0 then 0
    else CountOfLength(words[..|words| - 1], len) + (if |words[|words| - 1]| == len then 1 else 0)
  }

  /** The trie letters of the listed words. */
  ghost function EncodedWords(words: seq<string>): set<WordTrie.Word>
    requires forall k :: 0 <= k < |words| ==> AllAsciiLetters(words[k])
  {
    set k | 0 <= k < |words| :: Encode(words[k])
  }

  /** After inserting a list of words, the trie stores exactly those words. */
  lemma {:induction false} InsertAllWords(words: seq<string>)
    requires forall k :: 0 <= k < |words| ==> AllAsciiLetters(words[k])
    ensures WordTrie.Words(InsertAll(words).trie) == EncodedWords(words)
  {
    if |words| > 0 {
      var init := words[..|words| - 1];
      var last := words[|words| - 1];
      InsertAllWords(init);
      assert InsertAll(words) == Insert(InsertAll(init), last);
      EncodedWordsSnoc(words);
    }
  }

  lemma EncodedWordsSnoc(words: seq<string>)
    requires |words| > 0
    requires forall k :: 0 <= k < |words| ==> AllAsciiLetters(words[k])
    ensures EncodedWords(words) == EncodedWords(words[..|words| - 1]) + {Encode(words[|words| - 1])}
  {
    var init := words[..|words| - 1];
    var last := words[|words| - 1];
    forall v | v in EncodedWords(words) ensures v in EncodedWords(init) || v == Encode(last) {
      var k :| 0 <= k < |words| && v == Encode(words[k]);
      if k < |init| {
        assert init[k] == words[k];
      }
    }
    forall v | v in EncodedWords(init) ensures v in EncodedWords(words) {
      var k :| 0 <= k < |init| && v == Encode(init[k]);
      assert init[k] == words[k];
    }
  }

  /** The length table counts every insertion, so a word inserted twice is
      stored once in the trie but counted twice. */
  lemma {:induction false} InsertAllCounts(words: seq<string>, len: nat)
    requires forall k :: 0 <= k < |words| ==> AllAsciiLetters(words[k])
    ensures WordCountByLength(InsertAll(words), len) == CountOfLength(words, len)
  {
    if |words| > 0 {
      InsertAllCounts(words[..|words| - 1], len);
    }
  }

  // ---------------------------------------------------------------------------
  // Queries
  // ---------------------------------------------------------------------------

  /** `find`: the dictionary words matching the pattern, in upper case. */
  function Find(m: Matcher, p: CharPattern): (r: seq<string>)
    requires Valid(m)
    requires PatternLetters(p)
    ensures forall w :: w in r ==> AllAsciiUpper(w) && Agrees(w, p)
  {
    var ws := WordTrie.Find(m.trie, EncodePattern(p));
    FindWordsInRange(m, p);
    var r := DecodeAll(ws);
    assert forall w :: w in r ==> AllAsciiUpper(w) && Agrees(w, p) by {
      forall w | w in r ensures AllAsciiUpper(w) && Agrees(w, p) {
        var k :| 0 <= k < |ws| && w == Decode(ws[k]);
        DecodedAgrees(ws[k], p);
      }
    }
    r
  }

  lemma FindWordsInRange(m: Matcher, p: CharPattern)
    requires Valid(m)
    requires PatternLetters(p)
    ensures forall k :: 0 <= k < |WordTrie.Find(m.trie, EncodePattern(p))| ==>
      WordTrie.WordInRange(WordTrie.Find(m.trie, EncodePattern(p))[k])
  {
    var ws := WordTrie.Find(m.trie, EncodePattern(p));
    WordTrie.FindEnumerates(m.trie, EncodePattern(p));
    forall k | 0 <= k < |ws| ensures WordTrie.WordInRange(ws[k]) {
      WordTrie.WordsInRange(m.trie, ws[k]);
    }
  }

  /** A trie word fits the encoded pattern exactly when its decoding agrees with the pattern. */
  lemma DecodedAgrees(v: WordTrie.Word, p: CharPattern)
    requires WordTrie.WordInRange(v)
    requires PatternLetters(p)
    ensures WordTrie.Fits(v, EncodePattern(p)) <==> Agrees(Decode(v), p)
  {
    var q := EncodePattern(p);
    if |v| == |p| {
      forall i | 0 <= i < |p| && p[i].Some?
        ensures v[i] == q[i].value <==> Decode(v)[i] == ToUpper(p[i].value)
      {
        CharRoundTrip(p[i].value);
      }
    }
  }

  /** `find(p)` lists, without repetition, exactly the dictionary words that agree with `p`. */
  lemma FindIff(m: Matcher, p: CharPattern)
    requires Valid(m)
    requires PatternLetters(p)
    ensures NoDup(Find(m, p))
    ensures forall w :: w in Find(m, p) <==> InDictionary(m, w) && Agrees(w, p)
  {
    var q := EncodePattern(p);
    var ws := WordTrie.Find(m.trie, q);
    WordTrie.FindEnumerates(m.trie, q);
    FindWordsInRange(m, p);
    forall w ensures w in Find(m, p) <==> InDictionary(m, w) && Agrees(w, p) {
      if w in Find(m, p) {
        var k :| 0 <= k < |ws| && w == Decode(ws[k]);
        DecodedAgrees(ws[k], p);
      }
      if InDictionary(m, w) && Agrees(w, p) {
        var v := Encode(w);
        DecodeEncode(w);
        DecodedAgrees(v, p);
        assert v in ws;
        var k :| 0 <= k < |ws| && ws[k] == v;
        assert w == Decode(ws[k]);
      }
    }
  }

  /** `find_vec_random`: the matches of `p` in the order `find_random` gives,
      drawing rotation offsets from `draw` starting at index `n`. */
  function FindVecRandom(m: Matcher, p: CharPattern, draw: nat -> WordTrie.Offset, n: nat): (r: (seq<string>, nat))
    requires Valid(m)
    requires PatternLetters(p)
    ensures r.1 >= n
    ensures multiset(r.0) == multiset(Find(m, p))
  {
    var q := EncodePattern(p);
    var (ws, n1) := WordTrie.FindRandom(m.trie, q, draw, n);
    WordTrie.FindRandomEnumerates(m.trie, q, draw, n);
    WordTrie.FindEnumerates(m.trie, q);
    assert forall k :: 0 <= k < |ws| ==> WordTrie.WordInRange(ws[k]) by {
      forall k | 0 <= k < |ws| ensures WordTrie.WordInRange(ws[k]) {
        WordTrie.WordsInRange(m.trie, ws[k]);
      }
    }
    FindWordsInRange(m, p);
    var r := DecodeAll(ws);
    var f := Find(m, p);
    assert forall w :: w in r <==> w in f by {
      var fs := WordTrie.Find(m.trie, q);
      forall w ensures w in r <==> w in f {
        if w in r {
          var k :| 0 <= k < |ws| && w == Decode(ws[k]);
          assert ws[k] in fs;
          var j :| 0 <= j < |fs| && fs[j] == ws[k];
        }
        if w in f {
          var k :| 0 <= k < |fs| && w == Decode(fs[k]);
          assert fs[k] in ws;
          var j :| 0 <= j < |ws| && ws[j] == fs[k];
        }
      }
    }
    SameElementsPermutation(r, f);
    (r, n1)
  }

  /** `count_matches`: the number of dictionary words that agree with `p`, which
      is the number of words `find(p)` returns. */
  function CountMatches(m: Matcher, p: CharPattern): (r: nat)
    requires Valid(m)
    requires PatternLetters(p)
    ensures r == |Find(m, p)|
  {
    var q := EncodePattern(p);
    WordTrie.CountIsFindLength(m.trie, q);
    WordTrie.CountMatches(m.trie, q)
  }

  /** No pattern has more matches than the dictionary has distinct words. */
  lemma CountMatchesBound(m: Matcher, p: CharPattern)
    requires Valid(m)
    requires PatternLetters(p)
    ensures CountMatches(m, p) <= |WordTrie.Words(m.trie)|
  {
    WordTrie.CountMatchesBound(m.trie, EncodePattern(p));
  }

  /** The pattern of `len` empty cells. */
  function Wildcards(len: nat): (p: CharPattern)
    ensures |p| == len && PatternLetters(p)
    ensures forall w :: Agrees(w, p) <==> |w| == len
  {
    seq(len, _ => None)
  }

  /** A word is in the dictionary exactly when `find` returns it for the
      all-empty pattern of its length. */
  lemma InDictionaryIsFound(m: Matcher, w: string)
    requires Valid(m)
    ensures InDictionary(m, w) <==> w in Find(m, Wildcards(|w|))
  {
    FindIff(m, Wildcards(|w|));
  }
}
