/** The page's language preference: a session field that starts as "marathi" and
    that the sidebar button flips between the two languages of the translation table. */
module Language {

  const English: string := "english"
  const Marathi: string := "marathi"
  const DefaultLanguage: string := Marathi

  /** The keys of the translation table. */
  const TranslationKeys: set<string> := {English, Marathi}

  /** The language after one press of the toggle: "english" becomes "marathi" and every
      other value becomes "english". */
  function Toggled(language: string): (r: string)
    ensures r in TranslationKeys
    ensures r != language
    ensures language in TranslationKeys ==> TranslationKeys == {language, r}
  {
    if language == English then Marathi else English
  }

  /** Two presses restore a language of the table. */
  lemma ToggledTwice(language: string)
    requires language in TranslationKeys
    ensures Toggled(Toggled(language)) == language
  {
  }

  /** The session state that holds the language. */
  class Session {
    var language: string

    /** Every value the field takes selects an entry of the translation table. */
    predicate Valid()
      reads this
    {
      language in TranslationKeys
    }

    /** A new session starts in Marathi. */
    constructor ()
      ensures Valid()
      ensures language == DefaultLanguage
    {
      language := DefaultLanguage;
    }

    /** The key the page uses to look up its captions. */
    function CurrentLanguage(): (key: string)
      reads this
      requires Valid()
      ensures key == language
      ensures key in TranslationKeys
    {
      language
    }

    /** The sidebar button's callback. */
    method ToggleLanguage()
      modifies this
      ensures language == Toggled(old(language))
      ensures Valid()
      ensures language != old(language)
    {
      if language == English {
        language := Marathi;
      } else {
        language := English;
      }
    }
  }

  /** Pressing the button twice leaves the session's language as it was. */
  method ToggleTwice(s: Session)
    requires s.Valid()
    modifies s
    ensures s.Valid() && s.language == old(s.language)
  {
    s.ToggleLanguage();
    s.ToggleLanguage();
    ToggledTwice(old(s.language));
  }
}
