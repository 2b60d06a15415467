/** The TranslationPair entity: an undirected edge between two words of
    different languages, stored once with the smaller id first. */
module PairRules {
  import opened Records
  import opened WordRules

  /** The condition both validation blocks test: the pair's words exist,
      the first id is below the second, and their languages differ. */
  predicate PairAllowed(words: map<Id, Word>, p: Pair) {
    && p.first in words && p.second in words
    && p.first < p.second
    && words[p.first].language != words[p.second].language
  }

  /** The table invariant: every stored pair passes both validation blocks. */
  predicate PairsValid(words: map<Id, Word>, pairs: set<Pair>) {
    forall p :: p in pairs ==> PairAllowed(words, p)
  }

  /** The argument order `TranslationPair.add` settles on: the smaller id first. */
  function Canonical(a: Id, b: Id): (p: Pair)
    ensures p.first <= p.second
    ensures {p.first, p.second} == {a, b}
  {
    if a > b then Pair(b, a) else Pair(a, b)
  }

  /** The errors that saving pair `p` collects: the uniqueness validation and
      the two validation blocks, whose guards also fail when a word is missing. */
  function PairErrors(words: map<Id, Word>, pairs: set<Pair>, p: Pair): (errs: set<PairError>)
    ensures PairTaken in errs <==> p in pairs
    ensures PairNotOrdered in errs <==> !(p.first in words && p.second in words && p.first < p.second)
    ensures PairSameLanguage in errs
            <==> !(p.first in words && p.second in words && words[p.first].language != words[p.second].language)
    ensures errs == {} <==> p !in pairs && PairAllowed(words, p)
  {
    var ordered := p.first in words && p.second in words && p.first < p.second;
    var crossLanguage := p.first in words && p.second in words && words[p.first].language != words[p.second].language;
    (if p in pairs then {PairTaken} else {})
    + (if ordered then {} else {PairNotOrdered})
    + (if crossLanguage then {} else {PairSameLanguage})
  }

  /** What `TranslationPair.add(a, b)` returns: the stored pair under the
      canonical key when there is one, else the newly saved pair, else the
      validation errors. */
  function AddResult(words: map<Id, Word>, pairs: set<Pair>, a: Id, b: Id): (r: Result<Pair, set<PairError>>)
    ensures r.Ok? ==> r.value == Canonical(a, b)
    ensures r.Err? ==> r.error != {} && PairTaken !in r.error
  {
    var key := Canonical(a, b);
    if key in pairs then Ok(key)
    else if PairErrors(words, pairs, key) == {} then Ok(key)
    else Err(PairErrors(words, pairs, key))
  }

  /** The pair table after `TranslationPair.add(a, b)`. */
  function AddedPairs(words: map<Id, Word>, pairs: set<Pair>, a: Id, b: Id): (after: set<Pair>)
    ensures pairs <= after && after - pairs <= {Canonical(a, b)}
    ensures AddResult(words, pairs, a, b).Err? ==> after == pairs
  {
    if AddResult(words, pairs, a, b).Ok? then pairs + {Canonical(a, b)} else pairs
  }

  /** `add(a, b)` and `add(b, a)` store and return the same pair. */
  lemma AddArgumentOrder(words: map<Id, Word>, pairs: set<Pair>, a: Id, b: Id)
    ensures AddResult(words, pairs, a, b) == AddResult(words, pairs, b, a)
    ensures AddedPairs(words, pairs, a, b) == AddedPairs(words, pairs, b, a)
  {
    assert Canonical(a, b) == Canonical(b, a);
  }

  /** On a valid table, `add(a, b)` succeeds exactly when the words exist,
      are distinct and belong to different languages. */
  lemma AddSucceedsIff(words: map<Id, Word>, pairs: set<Pair>, a: Id, b: Id)
    requires PairsValid(words, pairs)
    ensures AddResult(words, pairs, a, b).Ok?
            <==> a in words && b in words && a != b && words[a].language != words[b].language
  {
    var key := Canonical(a, b);
    if key in pairs {
      assert PairAllowed(words, key);
    }
  }

  /** Every insertion keeps the table invariant. */
  lemma AddKeepsPairsValid(words: map<Id, Word>, pairs: set<Pair>, a: Id, b: Id)
    requires PairsValid(words, pairs)
    ensures PairsValid(words, AddedPairs(words, pairs, a, b))
  {
    var key := Canonical(a, b);
    if key !in pairs && AddResult(words, pairs, a, b).Ok? {
      assert PairErrors(words, pairs, key) == {};
    }
  }

  /** A word can never be paired with itself: both validation blocks reject
      it and nothing is stored. */
  lemma AddSelfRejected(words: map<Id, Word>, pairs: set<Pair>, a: Id)
    requires PairsValid(words, pairs)
    ensures AddResult(words, pairs, a, a) == Err(PairErrors(words, pairs, Pair(a, a)))
    ensures PairNotOrdered in AddResult(words, pairs, a, a).error
    ensures PairSameLanguage in AddResult(words, pairs, a, a).error
    ensures AddedPairs(words, pairs, a, a) == pairs
  {
    assert Pair(a, a) !in pairs;
  }

  /** Two words of one language are never paired: the language block rejects
      them and nothing is stored. */
  lemma AddSameLanguageRejected(words: map<Id, Word>, pairs: set<Pair>, a: Id, b: Id)
    requires PairsValid(words, pairs)
    requires a in words && b in words && words[a].language == words[b].language
    ensures AddResult(words, pairs, a, b).Err?
    ensures PairSameLanguage in AddResult(words, pairs, a, b).error
    ensures AddedPairs(words, pairs, a, b) == pairs
  {
    assert Canonical(a, b) !in pairs;
  }

  /** The stored pairs that join `a` and `b`, in either order. */
  function Between(pairs: set<Pair>, a: Id, b: Id): set<Pair> {
    set p | p in pairs && {p.first, p.second} == {a, b}
  }

  /** On a canonically ordered table, at most one stored pair joins two words. */
  lemma AtMostOneEdge(pairs: set<Pair>, a: Id, b: Id)
    requires Ordered(pairs)
    ensures Between(pairs, a, b) <= {Canonical(a, b)}
    ensures |Between(pairs, a, b)| <= 1
  {
    forall p | p in Between(pairs, a, b) ensures p == Canonical(a, b) {
      assert p.first < p.second;
      if a < b {
        assert p.first == a && p.second == b;
      } else if b < a {
        assert p.first == b && p.second == a;
      }
    }
    var s := Between(pairs, a, b);
    if s != {} {
      assert s == {Canonical(a, b)};
    }
  }

  /** `add` is find-or-create: repeating it, in either argument order, returns
      the same pair, stores nothing more, and leaves exactly one pair between
      the two words. */
  lemma AddIdempotent(words: map<Id, Word>, pairs: set<Pair>, a: Id, b: Id)
    requires PairsValid(words, pairs)
    requires AddResult(words, pairs, a, b).Ok?
    ensures var after := AddedPairs(words, pairs, a, b);
            && AddResult(words, after, a, b) == AddResult(words, pairs, a, b)
            && AddResult(words, after, b, a) == AddResult(words, pairs, a, b)
            && AddedPairs(words, after, a, b) == after
            && AddedPairs(words, after, b, a) == after
            && Between(after, a, b) == {Canonical(a, b)}
  {
    var after := AddedPairs(words, pairs, a, b);
    var key := Canonical(a, b);
    assert key in after;
    AddArgumentOrder(words, after, a, b);
    AddKeepsPairsValid(words, pairs, a, b);
    AtMostOneEdge(after, a, b);
    assert key in Between(after, a, b);
  }

  /** A pair valid in the table stays valid when a word is added. */
  lemma PairsValidUnderNewWord(words: map<Id, Word>, pairs: set<Pair>, id: Id, w: Word)
    requires PairsValid(words, pairs)
    requires id !in words
    ensures PairsValid(words[id := w], pairs)
  {
    forall p | p in pairs ensures PairAllowed(words[id := w], p) {
      assert PairAllowed(words, p);
    }
  }

  /** After a successful `add(a, b)` each word lists the other among its
      translations, and the translations of every other word are unchanged. */
  lemma AddLinksBothWays(words: map<Id, Word>, pairs: set<Pair>, a: Id, b: Id, w: Id)
    requires AddResult(words, pairs, a, b).Ok?
    ensures b in Translations(AddedPairs(words, pairs, a, b), a)
    ensures a in Translations(AddedPairs(words, pairs, a, b), b)
    ensures w != a && w != b ==> Translations(AddedPairs(words, pairs, a, b), w) == Translations(pairs, w)
  {
    var key := Canonical(a, b);
    assert Linked(AddedPairs(words, pairs, a, b), a, b);
    if w != a && w != b {
      forall v ensures v in Translations(AddedPairs(words, pairs, a, b), w) <==> v in Translations(pairs, w) {
        assert Pair(w, v) != key && Pair(v, w) != key;
      }
    }
  }
}
