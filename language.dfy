/** The Language entity: a required name that is unique among all languages. */
module LanguageRules {
  import opened Records

  /** Some stored language already carries `name` (exact match). */
  predicate NameInUse(languages: map<Id, Language>, name: string) {
    exists id :: id in languages && languages[id].name == name
  }

  /** The table invariant the validations keep: names are present and unique. */
  predicate LanguagesValid(languages: map<Id, Language>) {
    && (forall id :: id in languages ==> !IsBlank(languages[id].name))
    && (forall i, j :: i in languages && j in languages && languages[i].name == languages[j].name ==> i == j)
  }

  /** The errors that saving a new language called `name` collects; the
      uniqueness validation skips a blank name. */
  function LanguageErrors(languages: map<Id, Language>, name: string): (errs: set<LanguageError>)
    ensures LanguageNameBlank in errs <==> IsBlank(name)
    ensures LanguageNameTaken in errs <==> !IsBlank(name) && NameInUse(languages, name)
  {
    (if IsBlank(name) then {LanguageNameBlank} else {})
    + (if !IsBlank(name) && NameInUse(languages, name) then {LanguageNameTaken} else {})
  }

  /** The validations accept a new language exactly when storing it under a
      fresh id keeps the table invariant. */
  lemma LanguageAcceptedIff(languages: map<Id, Language>, id: Id, name: string)
    requires LanguagesValid(languages)
    requires id !in languages
    ensures LanguageErrors(languages, name) == {} <==> LanguagesValid(languages[id := Language(name)])
  {
    var after := languages[id := Language(name)];
    if LanguagesValid(after) {
      assert !IsBlank(after[id].name);
      forall other | other in languages ensures languages[other].name != name {
        assert after[other] == languages[other] && other != id;
      }
    }
  }

  /** Once a language called `name` is stored, creating another one with
      the same name fails: as taken, or as blank if the name is blank. */
  lemma DuplicateLanguageRejected(languages: map<Id, Language>, id: Id, name: string)
    ensures LanguageErrors(languages[id := Language(name)], name) != {}
    ensures !IsBlank(name) ==> LanguageNameTaken in LanguageErrors(languages[id := Language(name)], name)
  {
    var after := languages[id := Language(name)];
    assert id in after && after[id].name == name;
  }
}
