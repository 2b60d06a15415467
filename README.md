# Dictionary: languages, words and translation pairs

This project models the data layer of a small dictionary application. The
layer has three persisted entities:

- a **Language** with a required name that is unique among all languages;
- a **Word** with a required name that is unique only within its own language;
- a **TranslationPair**, an undirected edge between two words of different
  languages.

A translation pair is stored once, keyed `(first, second)`, with the smaller
word id first. `TranslationPair.add(a, b)` swaps its arguments into that
order and then does a find-or-create. `Word#translations` looks the word up
on both sides of the pair table and joins the results without duplicates.

The database is modelled as one `Store` object (`store.dfy`). It holds:

- `languages` and `words`: maps from id to row;
- `pairs`: a set of canonical `Pair(first, second)` keys;
- two Serial counters that hand out fresh ids, starting at 1.

Each save either stores its row and returns `Ok`, or returns `Err` with the
set of validation errors the ORM collected and leaves the store unchanged.
What each save does is specified by pure functions in the entity modules:
`LanguageRules` (`language.dfy`), `WordRules` (`word.dfy`) and `PairRules`
(`translation_pair.dfy`). The lemmas there prove the following:

- each validation accepts exactly the rows that keep its table's invariant;
- the argument order of `add` does not matter;
- self-pairs and same-language pairs are rejected;
- at most one edge joins two words, and `add` is idempotent;
- lookup is symmetric, and each stored edge yields exactly one translation.

`Dictionary.TranslationScenario` is a client of the store's contracts. It
links English "cat" to French "chat". The link is visible from both words,
and repeating it changes nothing. Linking "chaton" as well gives "cat" the
translations {"chat", "chaton"}.

Modelling decisions, where the code leaves something to the ORM or the
model abstracts it:

- The code has no explicit `a.id != b.id` check and no not-found error. A
  self-pair fails only the two validation blocks (`first.id < second.id`,
  and different languages), and the model reports both errors.
- Words are referenced by id. The model treats an id with no stored word as
  a missing association, which the nil guards of both blocks reject.
- `:required => true` on a String is the ORM's presence validation. It
  rejects a value that has no non-whitespace character (`IsBlank`). The
  uniqueness validations skip a blank value, so a blank name is reported
  only as blank.
- The uniqueness validation of the pair key (model.rb:56) is modelled.
  `add` looks the key up before it creates anything, so in a single-threaded
  store that validation never fires (`AddResult` proves it).
- Validation errors are sets of error kinds. The ORM collects every failing
  validation, and the model does not keep their order or message text.

## Model

| member | source | states |
|---|---|---|
| LanguageRules.LanguageErrors | model.rb:24-27 | a new language's name is reported blank exactly when it has no non-whitespace character, and taken exactly when it is not blank and some stored language has that name |
| LanguageRules.LanguageAcceptedIff | model.rb:20-28 | validation passes for a name exactly when storing it under a fresh id keeps all language names present and pairwise distinct |
| LanguageRules.DuplicateLanguageRejected | model.rb:27 | once a language with a name is stored, creating another with the same name fails, and reports it taken when the name is not blank |
| WordRules.WordErrors | model.rb:34-37 | a new word is reported blank iff its name is blank, missing-language iff its language does not exist, and taken iff its name is not blank and its language already holds a word of that name |
| WordRules.WordAcceptedIff | model.rb:30-37 | validation passes for a word exactly when storing it under a fresh id keeps every word's name present, its language existing, and names unique within each language |
| WordRules.NameScopedToLanguage | model.rb:37 | after storing a word, a second save of its name in its own language fails (as taken when the name is not blank), and whether it is free in any other language is unchanged |
| WordRules.Translations | model.rb:39-43 | `v` is among the translations of `w` exactly when a stored pair joins them with `w` on either side |
| WordRules.TranslationsSymmetric | model.rb:39-43 | `v` is a translation of `w` exactly when `w` is a translation of `v` |
| WordRules.SidesDisjoint | model.rb:39-42 | on a canonically ordered table, the first-side query yields only larger ids and the second-side query only smaller ones, so they never overlap and a word never translates itself |
| WordRules.TranslationsCount | model.rb:39-43 | on a canonically ordered table, the number of translations equals the number of stored pairs touching the word: the union loses and merges nothing |
| PairRules.Canonical | model.rb:79 | the swapped pair holds the same two ids with the smaller first |
| PairRules.PairErrors | model.rb:56-76 | a pair is reported taken iff its key is stored, unordered iff a word is missing or first id is not below second, same-language iff a word is missing or their languages agree; no errors iff the key is new and both blocks pass |
| PairRules.AddResult | model.rb:78-81 | a successful `add(a, b)` returns the pair with the smaller id first; a failed one reports a nonempty error set that never contains the uniqueness error |
| PairRules.AddedPairs | model.rb:78-81 | `add` only ever adds the canonical pair, and a failed `add` leaves the pair table unchanged |
| PairRules.AddArgumentOrder | model.rb:78-80 | `add(a, b)` and `add(b, a)` return the same result and leave the same pair table |
| PairRules.AddSucceedsIff | model.rb:58-81 | on a valid table, `add(a, b)` succeeds exactly when both words exist, are distinct and are in different languages |
| PairRules.AddKeepsPairsValid | model.rb:56-81 | every stored pair links two existing words of different languages with the smaller id first, and `add` keeps this |
| PairRules.AddSelfRejected | model.rb:58-66 | `add(a, a)` fails with both the ordering and the language error and stores nothing |
| PairRules.AddSameLanguageRejected | model.rb:68-76 | `add` on two words of one language fails with the language error and stores nothing |
| PairRules.AtMostOneEdge | model.rb:56-66 | on a canonically ordered table, at most one stored pair joins two words, and it is the canonical one |
| PairRules.AddIdempotent | model.rb:78-81 | after a successful `add(a, b)`, repeating it in either order returns the same pair, stores nothing more, and exactly one pair joins the two words |
| PairRules.AddLinksBothWays | model.rb:39-47 | after a successful `add(a, b)`, `b` is among the translations of `a` and `a` among those of `b`, and every other word's translations are unchanged |
| Dictionary.Store.CreateLanguage | model.rb:20-28 | saving a language returns a fresh id and stores it exactly when validation passes, otherwise returns the errors and changes nothing; the store invariant is kept |
| Dictionary.Store.CreateWord | model.rb:30-37 | saving a word returns a fresh id and stores it exactly when validation passes, otherwise returns the errors and changes nothing; the store invariant is kept |
| Dictionary.Store.AddTranslation | model.rb:78-81 | the method returns `AddResult` and leaves `AddedPairs` as the pair table, changes no other table, keeps the store invariant, and on success links the words both ways |

## Left out

- The web layer (main.rb) is not modelled: routing, Slim and SCSS rendering, redirects, and the empty handlers.
- The word search (main.rb:25) is not modelled. It hands the pattern to the database's SQL `LIKE` matcher, whose semantics the application does not define.
- Database configuration and bootstrap (model.rb:5-18, 84-85) are not modelled. A failed save is an `Err` result with the store unchanged, whether or not the ORM raises.
- Concurrency is not modelled. Two callers racing past a uniqueness check against the database constraint cannot happen in this single-threaded store.
- Persistence and SQLite's id generation are replaced by in-memory maps and counters that start at 1. ORM association loading is replaced by id lookups.
- Words are referenced only by id. A Word object that was never saved has a nil id, and the source's `a.id > b.id` then raises. The model cannot express such an object.
- `Language has n, :words` (model.rb:25) gets no query of its own. A word's `language` field carries the relation.
- `Word#add_translation` (model.rb:45-47) only calls `TranslationPair.add(self, word)`, so `Store.AddTranslation` models both.
- WordRules.Translations: returns a set of word ids. The order of the Ruby array is not modelled: the queries run in key order, so it holds the seconds in ascending order, then the firsts in ascending order.
- Names are strings, so a nil name cannot be expressed. It would fail the presence validation in the same way as a blank string.
- Validation error messages are modelled as error kinds, not message texts.
- The ORM's default 50-character limit on String properties is not modelled. That limit is a framework default that the source never states.
