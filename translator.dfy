/**
 * `DoggoTranslator`, current revision: a language token, a locale loader
 * holding the active dictionary, and `translateSentence`, which runs the
 * dictionary loop over a non-empty sentence.
 */
module Translator {
  import opened Results
  import opened WordReplace
  import opened EntryFold
  import opened Tokens
  import opened LocaleLoader
  import ErrorService

  const InvalidConfigMessage: string := ErrorService.BuildError(
    "Invalid Config Provided. You must provide at least one of the following: \n\t`languageToken` or `userTranslationsMap`")

  /** `DoggoTranslatorConfig`: two optional fields. */
  datatype Config = Config(languageToken: Option<string>, userTranslationsMap: Option<Dictionary>)

  /** `config.languageToken` is truthy: present and not the empty string. */
  predicate TokenGiven(config: Config) {
    config.languageToken.Some? && config.languageToken.value != ""
  }

  /**
   * `configValidation` does not throw: a config is given, with a truthy
   * language token or a user map (an object is always truthy).
   */
  predicate ConfigValid(config: Option<Config>) {
    config.Some? && (TokenGiven(config.value) || config.value.userTranslationsMap.Some?)
  }

  class DoggoTranslator {
    /** `defaultResponse`, the answer to an empty sentence. */
    const defaultResponse: string := "Bork"
    /** `defaultLanguage`, the `english` token. */
    const defaultLanguage: string
    /** The language-token enum the translator consults. */
    const tokens: TokenEnum
    const localeLoaderService: LocaleLoaderService
    var languageToken: string
    /** The messages logged so far by this translator. */
    ghost var diagnostics: seq<string>

    ghost predicate Valid() {
      tokens.Valid() && defaultLanguage == tokens.English()
    }

    /** The message logged when `setLanguage` falls back to the default language. */
    function UnknownLanguageMessage(): string {
      ErrorService.BuildError("The language was not found, defaulting to " + defaultLanguage)
    }

    /** The token `setLanguage(t)` settles on: `t` when available, the default language otherwise. */
    function SelectedLanguage(t: string): string {
      if LanguageAvailable(tokens, t) then t else defaultLanguage
    }

    /**
     * What `setUpTranslator(config)` logs: the fallback warning of `setLanguage`
     * when there is no user map and the configured token is not available.
     * (With a user map the `userDefined` token is selected, which always is.)
     */
    function SetUpMessages(config: Config): seq<string>
      requires ConfigValid(Some(config))
      reads this
    {
      if config.userTranslationsMap.None? && !LanguageAvailable(tokens, config.languageToken.value)
      then [UnknownLanguageMessage()] else []
    }

    /**
     * `new DoggoTranslator(config)` for a config that passes validation: a user
     * map is installed under the `userDefined` token; otherwise the configured
     * language is selected as by `setLanguage`.
     */
    constructor (config: Config, tokens: TokenEnum, enTranslations: Dictionary)
      requires tokens.Valid() && ConfigValid(Some(config))
      ensures Valid() && this.tokens == tokens
      ensures fresh(localeLoaderService) && localeLoaderService.enTranslations == enTranslations
      ensures config.userTranslationsMap.Some? ==>
        && languageToken == tokens.UserDefined()
        && localeLoaderService.translationsMap == config.userTranslationsMap.value
      ensures config.userTranslationsMap.None? ==>
        && languageToken == SelectedLanguage(config.languageToken.value)
        && localeLoaderService.translationsMap == enTranslations
      ensures diagnostics == SetUpMessages(config)
      ensures localeLoaderService.diagnostics == []
    {
      defaultLanguage := tokens.English();
      this.tokens := tokens;
      localeLoaderService := new LocaleLoaderService(enTranslations);
      languageToken := "";
      diagnostics := [];
      new;
      SetUpTranslator(config);
    }

    /**
     * Construction with validation: it fails with the configuration error
     * exactly when no config, or a config with neither a truthy
     * `languageToken` nor a `userTranslationsMap`, is given.
     */
    static method Create(config: Option<Config>, tokens: TokenEnum, enTranslations: Dictionary)
      returns (r: Result<DoggoTranslator>)
      requires tokens.Valid()
      ensures r.Failure? <==> !ConfigValid(config)
      ensures r.Failure? ==> r.error == InvalidConfigMessage
      ensures r.Success? ==> fresh(r.value) && r.value.Valid() && r.value.tokens == tokens
      ensures r.Success? && config.value.userTranslationsMap.Some? ==>
        && r.value.languageToken == tokens.UserDefined()
        && r.value.localeLoaderService.translationsMap == config.value.userTranslationsMap.value
      ensures r.Success? && config.value.userTranslationsMap.None? ==>
        && r.value.languageToken == r.value.SelectedLanguage(config.value.languageToken.value)
        && r.value.localeLoaderService.translationsMap == enTranslations
      ensures r.Success? ==> r.value.diagnostics == r.value.SetUpMessages(config.value)
      ensures r.Success? ==> r.value.localeLoaderService.diagnostics == []
    {
      if !ConfigValid(config) {
        return Failure(InvalidConfigMessage);
      }
      var translator := new DoggoTranslator(config.value, tokens, enTranslations);
      return Success(translator);
    }

    /**
     * `translateSentence(s, reverse)`: the empty sentence gives "Bork" without
     * consulting the loader; any other sentence is run through the active
     * dictionary, key to value, or value to key in reverse.
     */
    method TranslateSentence(sourceSentence: string, reverse: bool) returns (r: string)
      requires Valid()
      modifies localeLoaderService`diagnostics
      ensures sourceSentence == "" ==> r == "Bork" && localeLoaderService.diagnostics == old(localeLoaderService.diagnostics)
      ensures sourceSentence != "" ==> r == FoldEntries(sourceSentence, localeLoaderService.translationsMap, reverse, WholeWord)
      ensures sourceSentence != "" ==>
        localeLoaderService.diagnostics == old(localeLoaderService.diagnostics)
          + (if localeLoaderService.translationsMap == [] then [NoTranslationsMessage] else [])
    {
      if sourceSentence == "" {
        return defaultResponse;
      }
      var languageFile := localeLoaderService.GetTranslationsMap();
      r := ApplyEntries(sourceSentence, languageFile, reverse);
    }

    /** `getAllLanguageTokens()`: exactly the tokens `setLanguage` accepts. */
    function GetAllLanguageTokens(): (r: seq<string>)
      ensures forall t :: t in r <==> LanguageAvailable(tokens, t)
    {
      AllLanguageTokens(tokens)
    }

    /**
     * `setLanguage(t)`: adopts `t` when it is an available token and falls back
     * to the default language (logging a diagnostic) otherwise; either way the
     * loader installs the English dictionary.
     */
    method SetLanguage(languageToken: string)
      requires Valid()
      modifies this, localeLoaderService
      ensures LanguageAvailable(tokens, languageToken) ==> this.languageToken == languageToken
      ensures !LanguageAvailable(tokens, languageToken) ==> this.languageToken == tokens.English()
      ensures localeLoaderService.translationsMap == localeLoaderService.enTranslations
      ensures localeLoaderService.diagnostics == old(localeLoaderService.diagnostics)
      ensures diagnostics == old(diagnostics)
        + (if LanguageAvailable(tokens, languageToken) then [] else [UnknownLanguageMessage()])
    {
      if !LanguageAvailable(tokens, languageToken) {
        diagnostics := diagnostics + [UnknownLanguageMessage()];
        this.languageToken := defaultLanguage;
        localeLoaderService.LoadLibraryTranslations(languageToken);
        return;
      }
      this.languageToken := languageToken;
      localeLoaderService.LoadLibraryTranslations(languageToken);
    }

    /**
     * `setUpTranslator(config)`: without a user map the configured token is
     * selected; with one, the `userDefined` token is selected and the user map
     * then replaces the dictionary that selection loaded.
     */
    method SetUpTranslator(config: Config)
      requires Valid() && ConfigValid(Some(config))
      modifies this, localeLoaderService
      ensures config.userTranslationsMap.Some? ==>
        && languageToken == tokens.UserDefined()
        && localeLoaderService.translationsMap == config.userTranslationsMap.value
      ensures config.userTranslationsMap.None? ==>
        && languageToken == SelectedLanguage(config.languageToken.value)
        && localeLoaderService.translationsMap == localeLoaderService.enTranslations
      ensures diagnostics == old(diagnostics) + SetUpMessages(config)
      ensures localeLoaderService.diagnostics == old(localeLoaderService.diagnostics)
    {
      if config.userTranslationsMap.None? {
        SetLanguage(config.languageToken.value);
        return;
      }
      NamedTokensAvailable(tokens);
      SetLanguage(tokens.UserDefined());
      localeLoaderService.SetTranslationsMap(config.userTranslationsMap.value);
    }
  }
}
