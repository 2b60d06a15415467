/** The three tables held in memory, with the Serial counters that hand out
    ids, and the operations that insert into them. */
module Dictionary {
  import opened Records
  import opened LanguageRules
  import opened WordRules
  import opened PairRules

  class Store {
    var languages: map<Id, Language>
    var words: map<Id, Word>
    var pairs: set<Pair>
    var nextLanguageId: Id
    var nextWordId: Id

    /** Every table satisfies what its validations enforce, and the counters
        lie above every id they have handed out. */
    ghost predicate Valid()
      reads this
    {
      && LanguagesValid(languages)
      && WordsValid(languages, words)
      && PairsValid(words, pairs)
      && IdsBelow(languages, nextLanguageId)
      && IdsBelow(words, nextWordId)
    }

    /** An empty database; Serial ids start at 1. */
    constructor ()
      ensures Valid()
      ensures languages == map[] && words == map[] && pairs == {}
      ensures nextLanguageId == 1 && nextWordId == 1
    {
      languages, words, pairs := map[], map[], {};
      nextLanguageId, nextWordId := 1, 1;
    }

    /** Saves a new Language: on success it is stored under a fresh id; on
        any validation error nothing changes. */
    method CreateLanguage(name: string) returns (r: Result<Id, set<LanguageError>>)
      requires Valid()
      modifies this
      ensures Valid()
      ensures r == if LanguageErrors(old(languages), name) == {} then Ok(old(nextLanguageId))
                   else Err(LanguageErrors(old(languages), name))
      ensures r.Ok? ==> r.value !in old(languages)
      ensures r.Ok? ==> languages == old(languages)[r.value := Language(name)] && nextLanguageId == r.value + 1
      ensures r.Err? ==> languages == old(languages) && nextLanguageId == old(nextLanguageId)
      ensures words == old(words) && pairs == old(pairs) && nextWordId == old(nextWordId)
    {
      var errs := LanguageErrors(languages, name);
      if errs != {} {
        return Err(errs);
      }
      var id := nextLanguageId;
      LanguageAcceptedIff(languages, id, name);
      WordsValidUnderNewLanguage(languages, words, id, Language(name));
      languages := languages[id := Language(name)];
      nextLanguageId := nextLanguageId + 1;
      r := Ok(id);
    }

    /** Saves a new Word under a language: on success it is stored under a
        fresh id; on any validation error nothing changes. */
    method CreateWord(name: string, language: Id) returns (r: Result<Id, set<WordError>>)
      requires Valid()
      modifies this
      ensures Valid()
      ensures r == if WordErrors(old(languages), old(words), name, language) == {} then Ok(old(nextWordId))
                   else Err(WordErrors(old(languages), old(words), name, language))
      ensures r.Ok? ==> r.value !in old(words)
      ensures r.Ok? ==> words == old(words)[r.value := Word(name, language)] && nextWordId == r.value + 1
      ensures r.Err? ==> words == old(words) && nextWordId == old(nextWordId)
      ensures languages == old(languages) && pairs == old(pairs) && nextLanguageId == old(nextLanguageId)
    {
      var errs := WordErrors(languages, words, name, language);
      if errs != {} {
        return Err(errs);
      }
      var id := nextWordId;
      WordAcceptedIff(languages, words, id, name, language);
      PairsValidUnderNewWord(words, pairs, id, Word(name, language));
      words := words[id := Word(name, language)];
      nextWordId := nextWordId + 1;
      r := Ok(id);
    }

    /** `TranslationPair.add(a, b)` (and `Word#add_translation`): puts the
        smaller id first, returns the stored pair under that key if there is
        one, and otherwise validates and saves it. */
    method AddTranslation(a: Id, b: Id) returns (r: Result<Pair, set<PairError>>)
      requires Valid()
      modifies this
      ensures Valid()
      ensures r == AddResult(old(words), old(pairs), a, b)
      ensures pairs == AddedPairs(old(words), old(pairs), a, b)
      ensures r.Ok? ==> b in Translations(pairs, a) && a in Translations(pairs, b)
      ensures languages == old(languages) && words == old(words)
      ensures nextLanguageId == old(nextLanguageId) && nextWordId == old(nextWordId)
    {
      var first, second := a, b;
      if first > second {
        first, second := second, first;
      }
      var key := Pair(first, second);
      assert key == Canonical(a, b);
      if key in pairs {
        r := Ok(key);
      } else {
        var errs := PairErrors(words, pairs, key);
        if errs != {} {
          return Err(errs);
        }
        pairs := pairs + {key};
        r := Ok(key);
      }
      AddLinksBothWays(words, old(pairs), a, b, a);
    }
  }

  /** Builds a dictionary holding the languages English (1) and French (2). */
  method ExampleLanguages() returns (store: Store)
    ensures fresh(store) && store.Valid()
    ensures store.languages == map[1 := Language("English"), 2 := Language("French")]
    ensures store.words == map[] && store.pairs == {} && store.nextWordId == 1
  {
    store := new Store();
    assert !IsWhitespace("English"[0]);
    var english := store.CreateLanguage("English");
    assert english == Ok(1);
    assert !IsWhitespace("French"[0]);
    assert store.languages == map[1 := Language("English")];
    assert !NameInUse(store.languages, "French");
    var french := store.CreateLanguage("French");
    assert french == Ok(2);
  }

  /** Adds English "cat" (1) and French "chat" (2) to the example languages. */
  method ExampleStore() returns (store: Store)
    ensures fresh(store) && store.Valid()
    ensures store.words == map[1 := Word("cat", 1), 2 := Word("chat", 2)]
    ensures store.pairs == {} && store.nextWordId == 3
  {
    store := ExampleLanguages();
    assert !IsWhitespace("cat"[0]);
    var cat := store.CreateWord("cat", 1);
    assert cat == Ok(1);
    assert !IsWhitespace("chat"[0]);
    assert store.words == map[1 := Word("cat", 1)];
    assert !NameInUseIn(store.words, "chat", 2);
    var chat := store.CreateWord("chat", 2);
    assert chat == Ok(2);
  }

  /** English "cat" is linked to French "chat": the link is found from both
      sides, repeating it changes nothing, and a second French word joins
      the translations of "cat". */
  method TranslationScenario() {
    var store := ExampleStore();
    var link := store.AddTranslation(1, 2);
    assert link == Ok(Pair(1, 2));
    assert store.pairs == {Pair(1, 2)};
    assert Translations(store.pairs, 1) == {2};
    assert Translations(store.pairs, 2) == {1};

    var again := store.AddTranslation(2, 1);
    assert again == Ok(Pair(1, 2));
    assert store.pairs == {Pair(1, 2)};

    assert !IsWhitespace("chaton"[0]);
    assert !NameInUseIn(store.words, "chaton", 2);
    var chaton := store.CreateWord("chaton", 2);
    assert chaton == Ok(3);
    var link2 := store.AddTranslation(1, 3);
    assert link2 == Ok(Pair(1, 3));
    assert Translations(store.pairs, 1) == {2, 3};
  }
}
