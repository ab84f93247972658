/**
 * `DoggoTranslator` of the original JavaScript revision (src/index.ts): the
 * language is a plain string checked against ['en'], the dictionary is always
 * the bundled `en_translations`, and a sentence that is not a string is
 * answered like the empty one.
 */
module LegacyJsTranslator {
  import opened WordReplace
  import opened EntryFold
  import opened LegacyLanguages

  /** The JavaScript value passed as the sentence: a string or anything else. */
  datatype SentenceArg = Text(value: string) | NotText

  class DoggoTranslator {
    /** `en_translations`, whose contents are not part of this model. */
    const enTranslations: Dictionary
    var language: string
    /** The messages logged so far. */
    ghost var diagnostics: seq<string>

    /** `new DoggoTranslator(language)`: sets the language as `setLanguage` does. */
    constructor (language: string, enTranslations: Dictionary)
      ensures this.enTranslations == enTranslations
      ensures this.language == (if LanguageAvailable(language) then language else DefaultLanguage)
      ensures diagnostics == (if LanguageAvailable(language) then [] else [UnknownLanguageMessage])
    {
      this.enTranslations := enTranslations;
      this.language := DefaultLanguage;
      diagnostics := [];
      new;
      SetLanguage(language);
    }

    /**
     * `translateSentence(sentence, reverse)`: "Bork" for a non-string or empty
     * sentence; otherwise the dictionary loop, with key and value exchanged
     * when `reverse` is truthy (`reverse` stands for its truthiness).
     */
    method TranslateSentence(sentence: SentenceArg, reverse: bool) returns (r: string)
      ensures (sentence.NotText? || sentence.value == "") ==> r == "Bork"
      ensures sentence.Text? && sentence.value != "" ==> r == FoldEntries(sentence.value, enTranslations, reverse, WholeWord)
    {
      if sentence.NotText? || sentence.value == "" {
        return "Bork";
      }
      var languageFile := GetLanguageFile();
      r := ApplyEntries(sentence.value, languageFile, reverse);
    }

    /**
     * `setLanguage(l)`: keeps `l` when it is in `getLanguages()`, otherwise logs
     * and falls back to 'en'.
     */
    method SetLanguage(language: string)
      modifies this`language, this`diagnostics
      ensures this.language == (if language in GetLanguages() then language else DefaultLanguage)
      ensures diagnostics == old(diagnostics) + (if LanguageAvailable(language) then [] else [UnknownLanguageMessage])
    {
      if LanguageAvailable(language) {
        this.language := language;
      } else {
        diagnostics := diagnostics + [UnknownLanguageMessage];
        this.language := DefaultLanguage;
      }
    }

    /** `_getLanguageFile()`: the 'en' case and the default case return the same dictionary. */
    function GetLanguageFile(): (r: Dictionary)
      reads this
      ensures r == enTranslations
    {
      match language
      case "en" => enTranslations
      case _ => enTranslations
    }
  }
}
