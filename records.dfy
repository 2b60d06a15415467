/** The three persisted entities of the dictionary, the validation errors
    the ORM can report for them, and the presence rule of `:required`. */
module Records {

  /** Serial identities handed out by the store. */
  type Id = nat

  /** A save either succeeds with a value or fails with the set of
      validation errors that the ORM collected. */
  datatype Result<T, E> = Ok(value: T) | Err(error: E)

  /** A row of the language table; its id is the key under which it is stored. */
  datatype Language = Language(name: string)

  /** A row of the word table: its name and the id of the language it belongs to. */
  datatype Word = Word(name: string, language: Id)

  /** A row of the translation-pair table, keyed by both word ids. */
  datatype Pair = Pair(first: Id, second: Id)

  datatype LanguageError = LanguageNameBlank | LanguageNameTaken

  datatype WordError = WordNameBlank | WordLanguageMissing | WordNameTaken

  datatype PairError =
    | PairTaken         // the (first, second) key is already stored
    | PairNotOrdered    // a word is missing or first id is not below second id
    | PairSameLanguage  // a word is missing or both words share a language

  /** The characters a Ruby regular expression matches with `\s`. */
  predicate IsWhitespace(c: char) {
    c == ' ' || c == '\t' || c == '\n' || c == '\U{B}' || c == '\U{C}' || c == '\r'
  }

  /** A value the presence validation behind `:required => true` rejects:
      a string without any non-whitespace character. */
  predicate IsBlank(s: string) {
    forall i :: 0 <= i < |s| ==> IsWhitespace(s[i])
  }

  /** Every id stored in `m` lies below the next id the counter hands out. */
  predicate IdsBelow<T>(m: map<Id, T>, next: Id) {
    forall id :: id in m ==> id < next
  }
}
