/** The Word entity: a required name unique within its own language, and
    the symmetric `translations` lookup over the pair table. */
module WordRules {
  import opened Records

  /** Some stored word under `language` already carries `name`. */
  predicate NameInUseIn(words: map<Id, Word>, name: string, language: Id) {
    exists id :: id in words && words[id].name == name && words[id].language == language
  }

  /** The table invariant the validations keep: every word has a present
      name and an existing language, and no language holds a name twice. */
  predicate WordsValid(languages: map<Id, Language>, words: map<Id, Word>) {
    && (forall id :: id in words ==> !IsBlank(words[id].name) && words[id].language in languages)
    && (forall i, j ::
          i in words && j in words && words[i].name == words[j].name && words[i].language == words[j].language
          ==> i == j)
  }

  /** The errors that saving a new word `name` under `language` collects;
      the uniqueness validation skips a blank name. */
  function WordErrors(languages: map<Id, Language>, words: map<Id, Word>, name: string, language: Id)
    : (errs: set<WordError>)
    ensures WordNameBlank in errs <==> IsBlank(name)
    ensures WordLanguageMissing in errs <==> language !in languages
    ensures WordNameTaken in errs <==> !IsBlank(name) && NameInUseIn(words, name, language)
  {
    (if IsBlank(name) then {WordNameBlank} else {})
    + (if language !in languages then {WordLanguageMissing} else {})
    + (if !IsBlank(name) && NameInUseIn(words, name, language) then {WordNameTaken} else {})
  }

  /** The validations accept a new word exactly when storing it under a
      fresh id keeps the table invariant. */
  lemma WordAcceptedIff(languages: map<Id, Language>, words: map<Id, Word>, id: Id, name: string, language: Id)
    requires WordsValid(languages, words)
    requires id !in words
    ensures WordErrors(languages, words, name, language) == {}
            <==> WordsValid(languages, words[id := Word(name, language)])
  {
    var after := words[id := Word(name, language)];
    if WordsValid(languages, after) {
      assert !IsBlank(after[id].name) && after[id].language in languages;
      forall other | other in words
        ensures words[other].name != name || words[other].language != language
      {
        assert after[other] == words[other] && other != id;
      }
    }
  }

  /** Uniqueness is scoped: storing word `name` under `language` makes a
      second save of that name in that language fail (as taken, or as blank
      if the name is blank) and changes nothing about whether it is free in
      any other language. */
  lemma NameScopedToLanguage(
    languages: map<Id, Language>, words: map<Id, Word>, id: Id, name: string, language: Id, other: Id)
    requires id !in words
    requires other != language
    ensures WordErrors(languages, words[id := Word(name, language)], name, language) != {}
    ensures !IsBlank(name) ==> WordNameTaken in WordErrors(languages, words[id := Word(name, language)], name, language)
    ensures WordErrors(languages, words[id := Word(name, language)], name, other)
            == WordErrors(languages, words, name, other)
  {
    var after := words[id := Word(name, language)];
    assert id in after && after[id].name == name && after[id].language == language;
    if NameInUseIn(after, name, other) {
      var w :| w in after && after[w].name == name && after[w].language == other;
      assert w != id && w in words && words[w] == after[w];
    }
    if NameInUseIn(words, name, other) {
      var w :| w in words && words[w].name == name && words[w].language == other;
      assert w != id && w in after && after[w] == words[w];
    }
  }

  /** Adding a language keeps the word table valid. */
  lemma WordsValidUnderNewLanguage(languages: map<Id, Language>, words: map<Id, Word>, id: Id, l: Language)
    requires WordsValid(languages, words)
    ensures WordsValid(languages[id := l], words)
  {
  }

  // translations

  /** The words `w` is linked to, looking from both sides of the table. */
  predicate Linked(pairs: set<Pair>, w: Id, v: Id) {
    Pair(w, v) in pairs || Pair(v, w) in pairs
  }

  /** The seconds of the pairs whose first is `w`. */
  function FirstSide(pairs: set<Pair>, w: Id): set<Id> {
    set p | p in pairs && p.first == w :: p.second
  }

  /** The firsts of the pairs whose second is `w`. */
  function SecondSide(pairs: set<Pair>, w: Id): set<Id> {
    set p | p in pairs && p.second == w :: p.first
  }

  /** `Word#translations`: both one-sided queries joined without duplicates;
      it reads the pair table and changes nothing. */
  function Translations(pairs: set<Pair>, w: Id): (r: set<Id>)
    ensures forall v :: v in r <==> Linked(pairs, w, v)
  {
    assert forall v :: v in FirstSide(pairs, w) <==> Pair(w, v) in pairs by {
      forall v | Pair(w, v) in pairs ensures v in FirstSide(pairs, w) {
        var p := Pair(w, v);
        assert p in pairs && p.first == w;
      }
    }
    assert forall v :: v in SecondSide(pairs, w) <==> Pair(v, w) in pairs by {
      forall v | Pair(v, w) in pairs ensures v in SecondSide(pairs, w) {
        var p := Pair(v, w);
        assert p in pairs && p.second == w;
      }
    }
    FirstSide(pairs, w) + SecondSide(pairs, w)
  }

  /** Every stored pair is in canonical order. */
  predicate Ordered(pairs: set<Pair>) {
    forall p :: p in pairs ==> p.first < p.second
  }

  /** The stored pairs that touch `w`. */
  function Incident(pairs: set<Pair>, w: Id): set<Pair> {
    set p | p in pairs && (p.first == w || p.second == w)
  }

  /** Lookup is symmetric: `v` is a translation of `w` exactly when `w` is
      one of `v`. */
  lemma TranslationsSymmetric(pairs: set<Pair>, w: Id, v: Id)
    ensures v in Translations(pairs, w) <==> w in Translations(pairs, v)
  {
  }

  /** With canonically ordered pairs the two one-sided queries never overlap:
      the first side holds only larger ids and the second only smaller ones,
      and a word is never its own translation. */
  lemma SidesDisjoint(pairs: set<Pair>, w: Id)
    requires Ordered(pairs)
    ensures forall v :: v in FirstSide(pairs, w) ==> w < v
    ensures forall v :: v in SecondSide(pairs, w) ==> v < w
    ensures w !in Translations(pairs, w)
  {
  }

  /** The word at the other end of a pair touching `w`. */
  function Other(p: Pair, w: Id): Id {
    if p.first == w then p.second else p.first
  }

  /** Removing one stored pair from an ordered table removes exactly its other
      end from the translations of each word it touches, and nothing else. */
  lemma TranslationsWithout(pairs: set<Pair>, p: Pair, w: Id)
    requires Ordered(pairs) && p in pairs
    ensures p in Incident(pairs, w) ==>
              && Other(p, w) !in Translations(pairs - {p}, w)
              && Translations(pairs, w) == Translations(pairs - {p}, w) + {Other(p, w)}
    ensures p !in Incident(pairs, w) ==> Translations(pairs, w) == Translations(pairs - {p}, w)
  {
    var rest := pairs - {p};
    if p.first == w || p.second == w {
      var v := Other(p, w);
      assert p == Pair(w, v) || p == Pair(v, w);
      assert !Linked(rest, w, v);
    }
  }

  /** Removing one stored pair from the table removes it from the incident
      pairs of each word it touches, and nothing else. */
  lemma IncidentWithout(pairs: set<Pair>, p: Pair, w: Id)
    requires p in pairs
    ensures p in Incident(pairs, w) ==> Incident(pairs, w) == Incident(pairs - {p}, w) + {p}
    ensures p !in Incident(pairs, w) ==> Incident(pairs, w) == Incident(pairs - {p}, w)
    ensures p !in Incident(pairs - {p}, w)
  {
  }

  /** With canonically ordered pairs, the union drops nothing and merges
      nothing: each stored pair touching `w` yields exactly one translation. */
  lemma {:induction false} TranslationsCount(pairs: set<Pair>, w: Id)
    requires Ordered(pairs)
    ensures |Translations(pairs, w)| == |Incident(pairs, w)|
    decreases pairs
  {
    if pairs == {} {
      assert Translations(pairs, w) == {};
      assert Incident(pairs, w) == {};
    } else {
      var p :| p in pairs;
      var rest := pairs - {p};
      TranslationsCount(rest, w);
      TranslationsWithout(pairs, p, w);
      IncidentWithout(pairs, p, w);
    }
  }
}
