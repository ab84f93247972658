/**
 * `LocaleLoaderService`: holds the active translations map. The bundled
 * English dictionary (`EN_TRANSLATIONS`), whose contents are not part of this
 * model, is given to the constructor.
 */
module LocaleLoader {
  import opened EntryFold
  import ErrorService

  const NoTranslationsMessage: string := ErrorService.BuildError("No translations found in TranslationsMap.")

  /** The keys of a dictionary. */
  function KeySet(m: Dictionary): set<string> {
    set e | e in m :: e.0
  }

  class LocaleLoaderService {
    /** `EN_TRANSLATIONS`. */
    const enTranslations: Dictionary
    /** `translationsMap`, initially `{}`. */
    var translationsMap: Dictionary
    /** The messages logged so far. */
    ghost var diagnostics: seq<string>

    constructor (enTranslations: Dictionary)
      ensures this.enTranslations == enTranslations
      ensures translationsMap == [] && diagnostics == []
    {
      this.enTranslations := enTranslations;
      translationsMap := [];
      diagnostics := [];
    }

    /** `setTranslationsMap(m)`: the map is replaced by `m`, whatever it held before. */
    method SetTranslationsMap(newTranslationsMap: Dictionary)
      modifies this`translationsMap
      ensures translationsMap == newTranslationsMap
    {
      translationsMap := newTranslationsMap;
    }

    /**
     * `loadLibraryTranslations(token)`: the `english` case and the default case
     * both install the English dictionary, so every token, known or not, does.
     */
    method LoadLibraryTranslations(token: string)
      modifies this`translationsMap
      ensures translationsMap == enTranslations
    {
      SetTranslationsMap(enTranslations);
    }

    /** `translationMapHasTranslations`: `Object.keys(map).length > 0`, that is, some key is present. */
    function TranslationMapHasTranslations(): (r: bool)
      reads this
      ensures r <==> KeySet(translationsMap) != {}
    {
      if |translationsMap| > 0 then
        assert translationsMap[0].0 in KeySet(translationsMap);
        true
      else
        false
    }

    /**
     * `getTranslationsMap()`: returns the map without changing it; an empty map
     * is only reported in the log.
     */
    method GetTranslationsMap() returns (m: Dictionary)
      modifies this`diagnostics
      ensures m == translationsMap
      ensures diagnostics == old(diagnostics) + (if m == [] then [NoTranslationsMessage] else [])
    {
      if !TranslationMapHasTranslations() {
        diagnostics := diagnostics + [NoTranslationsMessage];
      }
      m := translationsMap;
    }
  }
}
