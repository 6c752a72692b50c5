/**
 The wildcard word index of src/trie.rs: a prefix tree over a fixed alphabet
 whose nodes hold one optional child per letter and an end-of-word flag.

 Words are sequences of letter indices. A query pattern has one entry per
 position: `Some(c)` fixes the letter, `None` is a wildcard. Every query is
 specified against `Words(t)`, the set of words the tree stores.

 Word order. The Rust helpers `find_reverse`, `find_reverse_random` and
 `find_one_reverse_random` build each word leaf-to-root by pushing the letter
 after the recursive call, so each word comes out reversed. `find` and
 `find_random` (src/trie.rs:34-37, 75-78) reverse the words in a `for` loop
 that takes the vector by value and then return that vector, which has been
 moved away; as written they neither compile nor hand back reversed words.
 `find_one_random` (src/trie.rs:124-130) does reverse its word in place
 through `as_mut` and returns it; the defect on its path is in the helper,
 whose wildcard branch returns `Some(*word)` out of a mutable borrow
 (src/trie.rs:157, 166), which does not compile either. The callers (the
 matcher and the filler) need root-to-leaf words in pattern order, which is
 what the evident intent of all three wrappers is, so this model builds the
 words in that order directly: the letter of an edge is PREPENDED to the
 words found below it.

 Random order. The random generator only supplies a rotation offset in
 `[0, ALPHABET_SIZE)` each time a wildcard node is visited. It is modelled as
 a stream `draw` of such offsets together with the index `n` of the next
 draw; the functions return the index after their last draw, so the stream is
 threaded exactly as the generator is.
 */
module WordTrie {
  import opened Common

  /** The alphabet size the matcher instantiates the trie with (`Trie<26>`). */
  const ALPHABET_SIZE: nat := 26

  type Word = seq<nat>
  type Pattern = seq<Option<nat>>

  /** A rotation offset handed out by the random generator (`gen_range(0..ALPHABET_SIZE)`). */
  type Offset = o: nat | o < ALPHABET_SIZE

  datatype Trie = Trie(children: seq<Option<Trie>>, endOfWord: bool)

  /** Every node has one child slot per letter. */
  predicate Valid(t: Trie) {
    && |t.children| == ALPHABET_SIZE
    && forall i :: 0 <= i < |t.children| ==> ValidChild(t.children[i])
  }

  predicate ValidChild(c: Option<Trie>) {
    match c
    case None => true
    case Some(child) => Valid(child)
  }

  predicate WordInRange(w: Word) {
    forall i :: 0 <= i < |w| ==> w[i] < ALPHABET_SIZE
  }

  predicate PatternInRange(p: Pattern) {
    forall i :: 0 <= i < |p| ==> p[i].Some? ==> p[i].value < ALPHABET_SIZE
  }

  /** `w` has the pattern's length and agrees with it at every fixed position. */
  predicate Fits(w: Word, p: Pattern) {
    && |w| == |p|
    && forall i :: 0 <= i < |p| ==> p[i].Some? ==> w[i] == p[i].value
  }

  // ---------------------------------------------------------------------------
  // Abstraction: the set of stored words
  // ---------------------------------------------------------------------------

  /** The words stored in `t`: the empty word when `t` ends a word, and every
      word of a child prefixed with that child's letter. */
  ghost function Words(t: Trie): set<Word>
    decreases t, 1
  {
    (if t.endOfWord then {[]} else {}) + ChildWords(t, 0)
  }

  /** The words stored below the children of `t` with letter `i` or more. */
  ghost function ChildWords(t: Trie, i: nat): set<Word>
    decreases t, 0, |t.children| - i
  {
    if i >= |t.children| then {}
    else
      var here := match t.children[i]
        case None => {}
        case Some(child) => Prefixed(i, Words(child));
      here + ChildWords(t, i + 1)
  }

  ghost function Prefixed(c: nat, ws: set<Word>): (r: set<Word>)
    ensures forall w :: w in r <==> |w| > 0 && w[0] == c && w[1..] in ws
  {
    var r := set w | w in ws :: [c] + w;
    assert forall w :: |w| > 0 && w[0] == c && w[1..] in ws ==> w == [c] + w[1..];
    r
  }

  lemma {:induction false} ChildWordsMembership(t: Trie, i: nat, w: Word)
    ensures w in ChildWords(t, i) <==>
      && |w| > 0 && i <= w[0] < |t.children|
      && t.children[w[0]].Some? && w[1..] in Words(t.children[w[0]].value)
    decreases |t.children| - i
  {
    if i < |t.children| {
      ChildWordsMembership(t, i + 1, w);
      match t.children[i]
      case None =>
        assert ChildWords(t, i) == ChildWords(t, i + 1);
      case Some(child) =>
        assert ChildWords(t, i) == Prefixed(i, Words(child)) + ChildWords(t, i + 1);
    }
  }

  /** The empty word is stored exactly when the root ends a word. */
  lemma WordsNil(t: Trie)
    ensures [] in Words(t) <==> t.endOfWord
  {
    ChildWordsMembership(t, 0, []);
  }

  /** `[c] + w` is stored exactly when the child for `c` exists and stores `w`. */
  lemma WordsCons(t: Trie, c: nat, w: Word)
    ensures [c] + w in Words(t) <==>
      c < |t.children| && t.children[c].Some? && w in Words(t.children[c].value)
  {
    ChildWordsMembership(t, 0, [c] + w);
    assert ([c] + w)[1..] == w;
  }

  /** Every stored word of a valid trie is spelled with letters of the alphabet. */
  lemma {:induction false} WordsInRange(t: Trie, w: Word)
    requires Valid(t)
    requires w in Words(t)
    ensures WordInRange(w)
    decreases |w|
  {
    if |w| > 0 {
      assert w == [w[0]] + w[1..];
      WordsCons(t, w[0], w[1..]);
      assert ValidChild(t.children[w[0]]);
      WordsInRange(t.children[w[0]].value, w[1..]);
    }
  }

  // ---------------------------------------------------------------------------
  // Construction
  // ---------------------------------------------------------------------------

  /** `Trie::new`: a node with no children that ends no word. */
  function New(): (t: Trie)
    ensures Valid(t)
    ensures Words(t) == {}
  {
    var t := Trie(seq(ALPHABET_SIZE, _ => None), false);
    assert forall w :: w !in Words(t) by {
      forall w ensures w !in Words(t) {
        if |w| == 0 {
          WordsNil(t);
        } else {
          assert w == [w[0]] + w[1..];
          WordsCons(t, w[0], w[1..]);
        }
      }
    }
    t
  }

  /** `Trie::insert`: walks `w` from the root, creating missing children, and
      marks the last node as the end of a word. Only the child on `w`'s path
      is replaced. */
  function Insert(t: Trie, w: Word): (r: Trie)
    requires Valid(t)
    requires WordInRange(w)
    ensures Valid(r)
    ensures |w| == 0 ==> r.children == t.children && r.endOfWord
    ensures |w| > 0 ==> r.endOfWord == t.endOfWord && r.children[w[0]].Some?
    ensures |w| > 0 ==> forall c :: 0 <= c < ALPHABET_SIZE && c != w[0] ==> r.children[c] == t.children[c]
    decreases |w|
  {
    if |w| == 0 then
      t.(endOfWord := true)
    else
      var child := match t.children[w[0]]
        case None => New()
        case Some(c) => c;
      assert ValidChild(t.children[w[0]]);
      t.(children := t.children[w[0] := Some(Insert(child, w[1..]))])
  }

  /** After `insert(w)` the stored words are the old ones plus `w`: nothing else
      is added or removed. */
  lemma {:induction false} InsertWords(t: Trie, w: Word)
    requires Valid(t)
    requires WordInRange(w)
    ensures Words(Insert(t, w)) == Words(t) + {w}
    decreases |w|
  {
    var r := Insert(t, w);
    forall v ensures v in Words(r) <==> v in Words(t) || v == w {
      InsertMembership(t, w, v);
    }
  }

  lemma {:induction false} InsertMembership(t: Trie, w: Word, v: Word)
    requires Valid(t)
    requires WordInRange(w)
    ensures v in Words(Insert(t, w)) <==> v in Words(t) || v == w
    decreases |w|
  {
    var r := Insert(t, w);
    if |v| == 0 {
      WordsNil(r);
      WordsNil(t);
    } else {
      assert v == [v[0]] + v[1..];
      WordsCons(r, v[0], v[1..]);
      WordsCons(t, v[0], v[1..]);
      if |w| > 0 && v[0] == w[0] {
        var child := match t.children[w[0]]
          case None => New()
          case Some(c) => c;
        assert ValidChild(t.children[w[0]]);
        assert r.children[w[0]] == Some(Insert(child, w[1..]));
        InsertMembership(child, w[1..], v[1..]);
        assert w == [w[0]] + w[1..];
        if t.children[w[0]].None? {
          assert Words(child) == {};
        }
      }
    }
  }

  /** Inserting a word twice gives the same trie as inserting it once. */
  lemma {:induction false} InsertIdempotent(t: Trie, w: Word)
    requires Valid(t)
    requires WordInRange(w)
    ensures Insert(Insert(t, w), w) == Insert(t, w)
    decreases |w|
  {
    if |w| > 0 {
      var child := match t.children[w[0]]
        case None => New()
        case Some(c) => c;
      assert ValidChild(t.children[w[0]]);
      var once := Insert(t, w);
      assert once.children[w[0]] == Some(Insert(child, w[1..]));
      InsertIdempotent(child, w[1..]);
      assert once.children[w[0] := Some(Insert(Insert(child, w[1..]), w[1..]))] == once.children;
    }
  }

  // ---------------------------------------------------------------------------
  // Deterministic enumeration: `find` / `find_reverse`
  // ---------------------------------------------------------------------------

  /** Each word of `ws` with the letter `c` in front. */
  function Prepend(c: nat, ws: seq<Word>): (r: seq<Word>)
    ensures |r| == |ws|
    ensures forall w :: w in r <==> |w| > 0 && w[0] == c && w[1..] in ws
    ensures NoDup(ws) ==> NoDup(r)
  {
    var r := seq(|ws|, k requires 0 <= k < |ws| => [c] + ws[k]);
    assert forall k :: 0 <= k < |ws| ==> r[k][1..] == ws[k];
    assert forall w :: |w| > 0 && w[0] == c && w[1..] in ws ==> w in r by {
      forall w | |w| > 0 && w[0] == c && w[1..] in ws ensures w in r {
        var k :| 0 <= k < |ws| && ws[k] == w[1..];
        assert r[k] == w;
      }
    }
    r
  }

  /** `r` lists, without repetition, exactly the stored words of `t` that fit `p`. */
  ghost predicate Enumerates(r: seq<Word>, t: Trie, p: Pattern) {
    && NoDup(r)
    && forall w :: w in r <==> w in Words(t) && Fits(w, p)
  }

  /** The words of a child with its letter in front are the stored words that
      start with that letter. */
  lemma PrependEnumerates(t: Trie, c: nat, found: seq<Word>, q: Pattern)
    requires c < |t.children| && t.children[c].Some?
    requires Enumerates(found, t.children[c].value, q)
    ensures NoDup(Prepend(c, found))
    ensures forall w :: w in Prepend(c, found) <==>
      w in Words(t) && |w| > 0 && w[0] == c && Fits(w[1..], q)
  {
    forall w | |w| > 0 && w[0] == c
      ensures w in Words(t) <==> w[1..] in Words(t.children[c].value)
    {
      assert w == [c] + w[1..];
      WordsCons(t, c, w[1..]);
    }
  }

  /** `Fits` read one position at a time. */
  lemma FitsCons(w: Word, p: Pattern)
    requires |p| > 0
    ensures Fits(w, p) <==>
      |w| > 0 && (p[0].Some? ==> w[0] == p[0].value) && Fits(w[1..], p[1..])
  {
    if |w| > 0 && |w| == |p| {
      assert forall i :: 0 <= i < |p| - 1 ==> w[1..][i] == w[i + 1] && p[1..][i] == p[i + 1];
      if Fits(w[1..], p[1..]) && (p[0].Some? ==> w[0] == p[0].value) {
        forall i | 0 <= i < |p| && p[i].Some? ensures w[i] == p[i].value {
          if i > 0 {
            assert w[1..][i - 1] == w[i];
          }
        }
      }
    }
  }

  /** The stored words that fit a pattern starting with a wildcard. */
  lemma WildcardMatches(t: Trie, p: Pattern)
    requires Valid(t)
    requires |p| > 0 && p[0].None?
    ensures forall w :: w in Words(t) && Fits(w, p) <==>
      w in Words(t) && |w| > 0 && w[0] < ALPHABET_SIZE && Fits(w[1..], p[1..])
  {
    forall w | w in Words(t)
      ensures Fits(w, p) <==> |w| > 0 && w[0] < ALPHABET_SIZE && Fits(w[1..], p[1..])
    {
      WordsInRange(t, w);
      FitsCons(w, p);
    }
  }

  /** The stored words that fit a pattern starting with the fixed letter `c`. */
  lemma FixedMatches(t: Trie, p: Pattern, c: nat)
    requires |p| > 0 && p[0] == Some(c) && c < |t.children|
    ensures forall w :: w in Words(t) && Fits(w, p) <==>
      && |w| > 0 && w[0] == c && t.children[c].Some?
      && w[1..] in Words(t.children[c].value) && Fits(w[1..], p[1..])
  {
    forall w
      ensures w in Words(t) && Fits(w, p) <==>
        && |w| > 0 && w[0] == c && t.children[c].Some?
        && w[1..] in Words(t.children[c].value) && Fits(w[1..], p[1..])
    {
      FitsCons(w, p);
      if |w| > 0 {
        assert w == [w[0]] + w[1..];
        WordsCons(t, w[0], w[1..]);
      }
    }
  }

  /** No stored word starts with a letter whose child is missing. */
  lemma MissingChild(t: Trie, c: nat, w: Word)
    requires c < |t.children| && t.children[c].None?
    requires |w| > 0 && w[0] == c
    ensures w !in Words(t)
  {
    assert w == [c] + w[1..];
    WordsCons(t, c, w[1..]);
  }

  /** `find`: the stored words that fit `p`, children visited in letter order. */
  function Find(t: Trie, p: Pattern): (r: seq<Word>)
    requires Valid(t)
    requires PatternInRange(p)
    ensures forall w :: w in r ==> Fits(w, p)
    decreases t, 1
  {
    if |p| == 0 then
      if t.endOfWord then [[]] else []
    else
      match p[0]
      case Some(c) =>
        (assert ValidChild(t.children[c]);
         match t.children[c]
         case None => []
         case Some(child) => Prepend(c, Find(child, p[1..])))
      case None => FindChildren(t, p[1..], 0)
  }

  /** The wildcard step of `find`: the words below children `i..ALPHABET_SIZE`
      that fit `q` after their first letter. */
  function FindChildren(t: Trie, q: Pattern, i: nat): (r: seq<Word>)
    requires Valid(t)
    requires PatternInRange(q)
    requires i <= |t.children|
    ensures forall w :: w in r ==> |w| > 0 && i <= w[0] && Fits(w[1..], q)
    decreases t, 0, |t.children| - i
  {
    if i == |t.children| then []
    else
      var here := match t.children[i]
        case None => []
        case Some(child) => (assert ValidChild(t.children[i]); Prepend(i, Find(child, q)));
      here + FindChildren(t, q, i + 1)
  }

  /** A fixed first letter: the matches are the child's matches with that letter in front. */
  lemma EnumeratesFixed(t: Trie, p: Pattern, c: nat, below: seq<Word>)
    requires Valid(t)
    requires |p| > 0 && p[0] == Some(c) && c < ALPHABET_SIZE
    requires t.children[c].Some? ==> Enumerates(below, t.children[c].value, p[1..])
    ensures Enumerates(if t.children[c].Some? then Prepend(c, below) else [], t, p)
  {
    var r := if t.children[c].Some? then Prepend(c, below) else [];
    forall w ensures w in r <==> w in Words(t) && Fits(w, p) {
      if |w| > 0 {
        assert w == [w[0]] + w[1..];
        WordsCons(t, w[0], w[1..]);
      }
    }
  }

  /** `find` enumerates the matches of `p` exactly once each. */
  lemma {:induction false} FindEnumerates(t: Trie, p: Pattern)
    requires Valid(t)
    requires PatternInRange(p)
    ensures Enumerates(Find(t, p), t, p)
    decreases t, 1
  {
    var r := Find(t, p);
    if |p| == 0 {
      WordsNil(t);
    } else {
      match p[0]
      case Some(c) =>
        assert ValidChild(t.children[c]);
        if t.children[c].Some? {
          FindEnumerates(t.children[c].value, p[1..]);
          EnumeratesFixed(t, p, c, Find(t.children[c].value, p[1..]));
        } else {
          EnumeratesFixed(t, p, c, []);
        }
      case None =>
        FindChildrenEnumerates(t, p[1..], 0);
        EnumeratesWildcard(t, p, FindChildren(t, p[1..], 0));
    }
  }

  /** A wildcard first letter: the matches are the words below any child whose
      rest fits the rest of the pattern. */
  lemma EnumeratesWildcard(t: Trie, p: Pattern, found: seq<Word>)
    requires |p| > 0 && p[0].None?
    requires NoDup(found)
    requires forall w :: w in found <==> w in Words(t) && |w| > 0 && 0 <= w[0] && Fits(w[1..], p[1..])
    ensures Enumerates(found, t, p)
  {
    forall w ensures w in found <==> w in Words(t) && Fits(w, p) {
      if |w| > 0 {
        assert Fits(w, p) <==> Fits(w[1..], p[1..]);
      }
    }
  }

  /** The words found below children `i..` are exactly the stored words whose
      first letter is `i` or more and whose rest fits `q`. */
  lemma {:induction false} FindChildrenEnumerates(t: Trie, q: Pattern, i: nat)
    requires Valid(t)
    requires PatternInRange(q)
    requires i <= |t.children|
    ensures NoDup(FindChildren(t, q, i))
    ensures forall w :: w in FindChildren(t, q, i) <==>
      w in Words(t) && |w| > 0 && i <= w[0] && Fits(w[1..], q)
    decreases t, 0, |t.children| - i
  {
    if i < |t.children| {
      var here := match t.children[i]
        case None => []
        case Some(child) => Prepend(i, Find(child, q));
      var rest := FindChildren(t, q, i + 1);
      FindChildrenEnumerates(t, q, i + 1);
      assert ValidChild(t.children[i]);
      if t.children[i].Some? {
        FindEnumerates(t.children[i].value, q);
      }
      NoDupAppend(here, rest);
      forall w ensures w in here + rest <==> w in Words(t) && |w| > 0 && i <= w[0] && Fits(w[1..], q) {
        if |w| > 0 {
          assert w == [w[0]] + w[1..];
          WordsCons(t, w[0], w[1..]);
        }
      }
    } else {
      forall w | w in Words(t) && |w| > 0
        ensures w[0] < |t.children|
      {
        WordsInRange(t, w);
      }
    }
  }

  // ---------------------------------------------------------------------------
  // Counting: `count_matches`
  // ---------------------------------------------------------------------------

  /** `count_matches`: the number of stored words that fit `p`. */
  function CountMatches(t: Trie, p: Pattern): nat
    requires Valid(t)
    requires PatternInRange(p)
    decreases t, 1
  {
    if |p| == 0 then
      if t.endOfWord then 1 else 0
    else
      match p[0]
      case Some(c) =>
        (assert ValidChild(t.children[c]);
         match t.children[c]
         case None => 0
         case Some(child) => CountMatches(child, p[1..]))
      case None => CountChildren(t, p[1..], 0)
  }

  /** The wildcard step of `count_matches`: the sum over children `i..`. */
  function CountChildren(t: Trie, q: Pattern, i: nat): nat
    requires Valid(t)
    requires PatternInRange(q)
    requires i <= |t.children|
    decreases t, 0, |t.children| - i
  {
    if i == |t.children| then 0
    else
      var here := match t.children[i]
        case None => 0
        case Some(child) => (assert ValidChild(t.children[i]); CountMatches(child, q));
      here + CountChildren(t, q, i + 1)
  }

  /** `count_matches(p)` is the number of words `find(p)` returns. */
  lemma {:induction false} CountIsFindLength(t: Trie, p: Pattern)
    requires Valid(t)
    requires PatternInRange(p)
    ensures CountMatches(t, p) == |Find(t, p)|
    decreases t, 1
  {
    if |p| > 0 {
      match p[0]
      case Some(c) =>
        assert ValidChild(t.children[c]);
        if t.children[c].Some? {
          CountIsFindLength(t.children[c].value, p[1..]);
        }
      case None =>
        CountChildrenIsLength(t, p[1..], 0);
    }
  }

  lemma {:induction false} CountChildrenIsLength(t: Trie, q: Pattern, i: nat)
    requires Valid(t)
    requires PatternInRange(q)
    requires i <= |t.children|
    ensures CountChildren(t, q, i) == |FindChildren(t, q, i)|
    decreases t, 0, |t.children| - i
  {
    if i < |t.children| {
      assert ValidChild(t.children[i]);
      if t.children[i].Some? {
        CountIsFindLength(t.children[i].value, q);
      }
      CountChildrenIsLength(t, q, i + 1);
    }
  }

  /** `count_matches(p)` counts exactly the stored words that fit `p`, and so never
      exceeds the number of stored words. */
  lemma CountMatchesBound(t: Trie, p: Pattern)
    requires Valid(t)
    requires PatternInRange(p)
    ensures CountMatches(t, p) <= |Words(t)|
  {
    CountIsFindLength(t, p);
    FindEnumerates(t, p);
    NoDupBoundedBySet(Find(t, p), Words(t));
  }

  // ---------------------------------------------------------------------------
  // Randomised enumeration: `find_random` / `find_reverse_random`
  // ---------------------------------------------------------------------------

  /** The letters `lo..hi` in increasing order. */
  function Range(lo: nat, hi: nat): (r: seq<nat>)
    requires lo <= hi
    ensures |r| == hi - lo
    ensures forall k :: 0 <= k < |r| ==> r[k] == lo + k
    decreases hi - lo
  {
    if lo == hi then [] else [lo] + Range(lo + 1, hi)
  }

  /** The child order of a wildcard node given the offset `off`: the children
      from `off` on (`skip(off)`), then those before it (`take(off)`). */
  function Rotation(off: Offset): (r: seq<nat>)
    ensures NoDup(r)
    ensures forall c: nat :: c in r <==> c < ALPHABET_SIZE
  {
    var high := Range(off, ALPHABET_SIZE);
    var low := Range(0, off);
    var r := high + low;
    assert forall c: nat :: c < ALPHABET_SIZE ==> c in r by {
      forall c: nat | c < ALPHABET_SIZE ensures c in r {
        if c >= off {
          assert high[c - off] == c;
        } else {
          assert low[c] == c;
        }
      }
    }
    NoDupAppend(high, low);
    r
  }

  /** `find_random`: the matches of `p`, where each wildcard node takes one
      offset from `draw` (starting at `n`) and visits its children in rotated
      order. Below a fixed letter the search continues with the deterministic
      `find` (src/trie.rs:91), so it draws no further offsets there. Returns
      the matches and the index of the next unused draw. */
  function FindRandom(t: Trie, p: Pattern, draw: nat -> Offset, n: nat): (r: (seq<Word>, nat))
    requires Valid(t)
    requires PatternInRange(p)
    ensures r.1 >= n
    ensures forall w :: w in r.0 ==> Fits(w, p)
    decreases t, 1
  {
    if |p| == 0 then
      (if t.endOfWord then [[]] else [], n)
    else
      match p[0]
      case Some(c) =>
        (assert ValidChild(t.children[c]);
         match t.children[c]
         case None => ([], n)
         case Some(child) => (Prepend(c, Find(child, p[1..])), n))
      case None => FindRandomOver(t, p[1..], Rotation(draw(n)), draw, n + 1)
  }

  /** The wildcard step of `find_random`: the children listed in `order`, each
      searched with the draws left over by the previous one. */
  function FindRandomOver(t: Trie, q: Pattern, order: seq<nat>, draw: nat -> Offset, n: nat): (r: (seq<Word>, nat))
    requires Valid(t)
    requires PatternInRange(q)
    requires forall k :: 0 <= k < |order| ==> order[k] < ALPHABET_SIZE
    ensures r.1 >= n
    ensures forall w :: w in r.0 ==> |w| > 0 && w[0] in order && Fits(w[1..], q)
    decreases t, 0, |order|
  {
    if |order| == 0 then ([], n)
    else
      var c := order[0];
      match t.children[c]
      case None => FindRandomOver(t, q, order[1..], draw, n)
      case Some(child) =>
        assert ValidChild(t.children[c]);
        var (found, n1) := FindRandom(child, q, draw, n);
        var (rest, n2) := FindRandomOver(t, q, order[1..], draw, n1);
        (Prepend(c, found) + rest, n2)
  }

  /** `find_random` enumerates the matches of `p` exactly once each, whatever the offsets. */
  lemma {:induction false} FindRandomEnumerates(t: Trie, p: Pattern, draw: nat -> Offset, n: nat)
    requires Valid(t)
    requires PatternInRange(p)
    ensures Enumerates(FindRandom(t, p, draw, n).0, t, p)
    decreases t, 1
  {
    if |p| == 0 {
      WordsNil(t);
    } else {
      match p[0]
      case Some(c) =>
        assert ValidChild(t.children[c]);
        if t.children[c].Some? {
          FindEnumerates(t.children[c].value, p[1..]);
          EnumeratesFixed(t, p, c, Find(t.children[c].value, p[1..]));
        } else {
          EnumeratesFixed(t, p, c, []);
        }
      case None =>
        FindRandomOverEnumerates(t, p[1..], Rotation(draw(n)), draw, n + 1);
        WildcardMatches(t, p);
    }
  }

  lemma {:induction false} FindRandomOverEnumerates(t: Trie, q: Pattern, order: seq<nat>, draw: nat -> Offset, n: nat)
    requires Valid(t)
    requires PatternInRange(q)
    requires forall k :: 0 <= k < |order| ==> order[k] < ALPHABET_SIZE
    requires NoDup(order)
    ensures NoDup(FindRandomOver(t, q, order, draw, n).0)
    ensures forall w :: w in FindRandomOver(t, q, order, draw, n).0 <==>
      w in Words(t) && |w| > 0 && w[0] in order && Fits(w[1..], q)
    decreases t, 0, |order|
  {
    if |order| > 0 {
      var c := order[0];
      var tail := order[1..];
      OrderTail(order);
      assert ValidChild(t.children[c]);
      match t.children[c]
      case None =>
        FindRandomOverEnumerates(t, q, tail, draw, n);
        forall w | w in Words(t) && |w| > 0 && w[0] == c
          ensures false
        {
          MissingChild(t, c, w);
        }
      case Some(child) =>
        var (found, n1) := FindRandom(child, q, draw, n);
        var (rest, n2) := FindRandomOver(t, q, tail, draw, n1);
        FindRandomEnumerates(child, q, draw, n);
        PrependEnumerates(t, c, found, q);
        FindRandomOverEnumerates(t, q, tail, draw, n1);
        NoDupAppend(Prepend(c, found), rest);
    }
  }

  /** Splitting a duplicate-free child order into its head and tail. */
  lemma OrderTail(order: seq<nat>)
    requires |order| > 0 && NoDup(order)
    ensures NoDup(order[1..])
    ensures order[0] !in order[1..]
    ensures forall x :: x in order <==> x == order[0] || x in order[1..]
  {
    var tail := order[1..];
    assert order == [order[0]] + tail;
    forall i, j | 0 <= i < j < |tail| ensures tail[i] != tail[j] {
      assert tail[i] == order[i + 1] && tail[j] == order[j + 1];
    }
    forall k | 0 <= k < |tail| ensures tail[k] != order[0] {
      assert tail[k] == order[k + 1];
    }
  }

  /** For every stream of offsets, `find_random(p)` is a permutation of `find(p)`. */
  lemma FindRandomIsPermutation(t: Trie, p: Pattern, draw: nat -> Offset, n: nat)
    requires Valid(t)
    requires PatternInRange(p)
    ensures multiset(FindRandom(t, p, draw, n).0) == multiset(Find(t, p))
  {
    FindRandomEnumerates(t, p, draw, n);
    FindEnumerates(t, p);
    SameElementsPermutation(FindRandom(t, p, draw, n).0, Find(t, p));
  }

  // ---------------------------------------------------------------------------
  // Random sampling: `find_one_random` / `find_one_reverse_random`
  // ---------------------------------------------------------------------------

  /** `find_one_random`: the first match met when every wildcard node visits its
      children in the rotated order given by its offset; `None` when there is
      none. Unlike `find_random`, the search below a fixed letter stays random. */
  function FindOneRandom(t: Trie, p: Pattern, draw: nat -> Offset, n: nat): (r: (Option<Word>, nat))
    requires Valid(t)
    requires PatternInRange(p)
    ensures r.1 >= n
    ensures r.0.Some? ==> Fits(r.0.value, p)
    decreases t, 1
  {
    if |p| == 0 then
      (if t.endOfWord then Some([]) else None, n)
    else
      match p[0]
      case Some(c) =>
        (assert ValidChild(t.children[c]);
         match t.children[c]
         case None => (None, n)
         case Some(child) =>
           var (found, n1) := FindOneRandom(child, p[1..], draw, n);
           (if found.Some? then Some([c] + found.value) else None, n1))
      case None => FindOneOver(t, p[1..], Rotation(draw(n)), draw, n + 1)
  }

  /** The wildcard step of `find_one_random`: the first child in `order` below
      which a match is found. */
  function FindOneOver(t: Trie, q: Pattern, order: seq<nat>, draw: nat -> Offset, n: nat): (r: (Option<Word>, nat))
    requires Valid(t)
    requires PatternInRange(q)
    requires forall k :: 0 <= k < |order| ==> order[k] < ALPHABET_SIZE
    ensures r.1 >= n
    ensures r.0.Some? ==> |r.0.value| > 0 && r.0.value[0] in order && Fits(r.0.value[1..], q)
    decreases t, 0, |order|
  {
    if |order| == 0 then (None, n)
    else
      var c := order[0];
      match t.children[c]
      case None => FindOneOver(t, q, order[1..], draw, n)
      case Some(child) =>
        assert ValidChild(t.children[c]);
        var (found, n1) := FindOneRandom(child, q, draw, n);
        if found.Some? then
          assert ([c] + found.value)[1..] == found.value;
          (Some([c] + found.value), n1)
        else
          FindOneOver(t, q, order[1..], draw, n1)
  }

  /** `find_one_random(p)` is `None` exactly when no stored word fits `p`, and
      otherwise returns a stored word that fits `p`, whatever the offsets. */
  lemma {:induction false} FindOneRandomSound(t: Trie, p: Pattern, draw: nat -> Offset, n: nat)
    requires Valid(t)
    requires PatternInRange(p)
    ensures FindOneRandom(t, p, draw, n).0.None? <==> forall w :: w in Words(t) ==> !Fits(w, p)
    ensures FindOneRandom(t, p, draw, n).0.Some? ==> FindOneRandom(t, p, draw, n).0.value in Words(t)
    decreases t, 1
  {
    var r := FindOneRandom(t, p, draw, n).0;
    if |p| == 0 {
      WordsNil(t);
    } else {
      match p[0]
      case Some(c) =>
        assert ValidChild(t.children[c]);
        FixedMatches(t, p, c);
        if t.children[c].Some? {
          var child := t.children[c].value;
          FindOneRandomSound(child, p[1..], draw, n);
          if r.Some? {
            WordsCons(t, c, FindOneRandom(child, p[1..], draw, n).0.value);
          }
        }
      case None =>
        FindOneOverSound(t, p[1..], Rotation(draw(n)), draw, n + 1);
        WildcardMatches(t, p);
    }
  }

  lemma {:induction false} FindOneOverSound(t: Trie, q: Pattern, order: seq<nat>, draw: nat -> Offset, n: nat)
    requires Valid(t)
    requires PatternInRange(q)
    requires forall k :: 0 <= k < |order| ==> order[k] < ALPHABET_SIZE
    ensures FindOneOver(t, q, order, draw, n).0.None? <==>
      forall w :: w in Words(t) && |w| > 0 && w[0] in order ==> !Fits(w[1..], q)
    ensures FindOneOver(t, q, order, draw, n).0.Some? ==> FindOneOver(t, q, order, draw, n).0.value in Words(t)
    decreases t, 0, |order|
  {
    if |order| > 0 {
      var c := order[0];
      var tail := order[1..];
      assert forall x :: x in order <==> x == c || x in tail by {
        assert order == [c] + tail;
      }
      assert ValidChild(t.children[c]);
      forall w | |w| > 0 && w[0] == c
        ensures w in Words(t) <==> t.children[c].Some? && w[1..] in Words(t.children[c].value)
      {
        assert w == [w[0]] + w[1..];
        WordsCons(t, w[0], w[1..]);
      }
      match t.children[c]
      case None =>
        FindOneOverSound(t, q, tail, draw, n);
      case Some(child) =>
        var (found, n1) := FindOneRandom(child, q, draw, n);
        FindOneRandomSound(child, q, draw, n);
        if found.Some? {
          WordsCons(t, c, found.value);
          assert ([c] + found.value)[1..] == found.value;
          assert ([c] + found.value)[0] == c;
        } else {
          FindOneOverSound(t, q, tail, draw, n1);
        }
    }
  }

  /** `find_one_random(p)` is `None` iff `find(p)` is empty, and otherwise one of `find(p)`'s words. */
  lemma FindOneRandomInFind(t: Trie, p: Pattern, draw: nat -> Offset, n: nat)
    requires Valid(t)
    requires PatternInRange(p)
    ensures FindOneRandom(t, p, draw, n).0.None? <==> |Find(t, p)| == 0
    ensures FindOneRandom(t, p, draw, n).0.Some? ==> FindOneRandom(t, p, draw, n).0.value in Find(t, p)
  {
    FindOneRandomSound(t, p, draw, n);
    FindEnumerates(t, p);
    if |Find(t, p)| > 0 {
      assert Find(t, p)[0] in Find(t, p);
    }
  }

  // ---------------------------------------------------------------------------
  // Single words
  // ---------------------------------------------------------------------------

  /** The pattern that fixes every letter of `w`. */
  function Fixed(w: Word): (p: Pattern)
    ensures |p| == |w|
    ensures forall v :: Fits(v, p) <==> v == w
  {
    var p := seq(|w|, i requires 0 <= i < |w| => Some(w[i]));
    assert forall v :: Fits(v, p) ==> v == w by {
      forall v | Fits(v, p) ensures v == w {
        assert forall i :: 0 <= i < |w| ==> v[i] == w[i];
      }
    }
    p
  }

  /** After `insert(w)`, `find` of the all-fixed pattern `w` returns exactly `[w]`
      and `count_matches` of it is 1. */
  lemma InsertThenFind(t: Trie, w: Word)
    requires Valid(t)
    requires WordInRange(w)
    ensures PatternInRange(Fixed(w))
    ensures Find(Insert(t, w), Fixed(w)) == [w]
    ensures CountMatches(Insert(t, w), Fixed(w)) == 1
  {
    var r := Insert(t, w);
    var found := Find(r, Fixed(w));
    InsertWords(t, w);
    FindEnumerates(r, Fixed(w));
    CountIsFindLength(r, Fixed(w));
    assert forall v :: v in found <==> v == w;
    SameElementsPermutation(found, [w]);
    assert found[0] == w;
  }
}
