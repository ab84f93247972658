/**
 * `DoggoTranslator` of the first TypeScript revision (src/doggo-translator-ts.ts):
 * the JavaScript revision with typed parameters and a `defaultResponse` field.
 * The file uses `en_translations` without importing it; the model takes it
 * as the bundled dictionary.
 */
module LegacyTsTranslator {
  import opened WordReplace
  import opened EntryFold
  import opened LegacyLanguages

  class DoggoTranslator {
    /** `defaultResponse`. */
    const defaultResponse: string := "Bork"
    /** `en_translations`, whose contents are not part of this model. */
    const enTranslations: Dictionary
    var language: string
    /** The messages logged so far. */
    ghost var diagnostics: seq<string>

    /** `new DoggoTranslator(languageToken)`: sets the language as `setLanguage` does. */
    constructor (languageToken: string, enTranslations: Dictionary)
      ensures this.enTranslations == enTranslations
      ensures language == (if LanguageAvailable(languageToken) then languageToken else DefaultLanguage)
      ensures diagnostics == (if LanguageAvailable(languageToken) then [] else [UnknownLanguageMessage])
    {
      this.enTranslations := enTranslations;
      language := DefaultLanguage;
      diagnostics := [];
      new;
      SetLanguage(languageToken);
    }

    /**
     * `translateSentence(s, reverse)`: the empty sentence gives the default
     * response; any other runs the dictionary loop, reversed on request.
     */
    method TranslateSentence(sourceSentence: string, reverse: bool) returns (r: string)
      ensures sourceSentence == "" ==> r == "Bork"
      ensures sourceSentence != "" ==> r == FoldEntries(sourceSentence, enTranslations, reverse, WholeWord)
    {
      if sourceSentence == "" {
        return defaultResponse;
      }
      var languageFile := GetLanguageFile();
      r := ApplyEntries(sourceSentence, languageFile, reverse);
    }

    /** `setLanguage(l)`: only 'en' is accepted; anything else is logged and replaced by 'en'. */
    method SetLanguage(language: string)
      modifies this`language, this`diagnostics
      ensures this.language == DefaultLanguage
      ensures diagnostics == old(diagnostics) + (if language == DefaultLanguage then [] else [UnknownLanguageMessage])
    {
      if LanguageAvailable(language) {
        this.language := language;
      } else {
        diagnostics := diagnostics + [UnknownLanguageMessage];
        this.language := DefaultLanguage;
      }
    }

    /** `getLanguageFile()`: the same dictionary whatever the language. */
    function GetLanguageFile(): (r: Dictionary)
      reads this
      ensures r == enTranslations
    {
      match language
      case "en" => enTranslations
      case _ => enTranslations
    }
  }
}
