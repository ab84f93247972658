# Doggo translator: a Dafny model of the translation engine

The doggo translator rewrites a sentence word by word using a dictionary of
(key, value) entries: every case-insensitive whole-word occurrence of a key is
replaced by its value, with the casing of the matched word carried over to
the replacement (all caps, capitalized, or as written). The entries are applied
one after the other, in dictionary order, each to the output of the previous
one. Translating in reverse swaps key and value in every entry. An empty
sentence is answered with the constant "Bork".

The same engine appears in three revisions of the `DoggoTranslator` class. The
current one (src/doggo-translator-ts/doggo-translator-ts.ts) keeps its dictionary
in a `LocaleLoaderService` and checks language tokens with `TokensService`. The
two older ones (src/index.ts, src/doggo-translator-ts.ts) accept only the
language 'en' and always use the bundled English dictionary.

Modules, one per component:

- `Casing`: ASCII `toUpperCase`, `capitalizeFirstCharacter` / `_ucfirst`, and
  the case-mirroring replacement callback.
- `Escaping`: `escapeRegex` / `_escapeRegex`, plus a reading of the escaped
  pattern as the literal text it matches.
- `WordReplace`: the global, case-insensitive `\b(key)\b` replace, which is
  `translateSingleEntry` / `_translateSingleEntry`.
- `EntryFold`: the dictionary loop of `translateSentence`, shared by all three
  revisions. It is a `while` loop proved against a left-fold function.
- `Tokens`: `TokensService` over the language-token enum.
- `LegacyLanguages`: `getLanguages` and `languageAvailable` of the older revisions.
- `ErrorService`: the library prefix of diagnostic messages.
- `LocaleLoader`: `LocaleLoaderService`, a class whose map field is replaced in place.
- `Translator`: the current `DoggoTranslator`.
- `LegacyJsTranslator`: the src/index.ts revision.
- `LegacyTsTranslator`: the src/doggo-translator-ts.ts revision.
- `SuffixExtension`: an extension, see below.
- `Results`: `Option` and `Result`.

Modelling choices:

- Strings are `seq<char>`. A dictionary is a sequence of (key, value) pairs with
  distinct keys, in iteration order.
- A word character is ASCII `[A-Za-z0-9_]`. `\b` holds where exactly one side
  is a word character; the ends of the string count as non-word.
- Case-insensitive matching and `toUpperCase` are ASCII-only.
- The global replace scans the original input from left to right. Matches do
  not overlap, and text a replacement produced is not scanned again by the
  same entry. A later entry does scan it.
- An empty key is modelled as the source treats it: the pattern `\b()\b`
  matches at every word boundary. The replacement is inserted there and the
  scan moves on by one character.
- Keys reach the matcher through `EscapeRegex` and then `PatternLiteral`.
  The lemma `EscapeRegexIsLiteral` proves that this yields the key itself, so
  every key is matched literally.
- The language-token enum is not part of this model. It is a `TokenEnum` value:
  its (name, value) members in declaration order, among them `english` and
  `userDefined`. The bundled English dictionary (`EN_TRANSLATIONS`,
  `en_translations`) is not part of this model either. The constructors take
  it as a parameter.
- Diagnostics written to the console are recorded in a ghost `diagnostics` list
  instead.
- The configuration error thrown by the constructor becomes the `Failure`
  result of `DoggoTranslator.Create`. The constructor itself requires a valid
  config.
- `configValidation` uses JavaScript truthiness: an empty-string
  `languageToken` counts as absent, and a user map (an object) is always present.
- The older TypeScript revision uses `en_translations` without importing it. The
  model takes it to be the bundled dictionary, as in the JavaScript revision.
- The older revisions' string helpers (src/index.ts:111-125, 136-138, 149-151;
  src/doggo-translator-ts.ts:91-105, 111-113, 120-122) have the same bodies as
  the current ones. They are modelled once: `TranslateSingleEntry`,
  `CapitalizeFirst` and `EscapeRegex`.

Extension (`SuffixExtension`): the test file
src/doggo-translator-ts/doggo-translator-ts.spec.ts exercises a later revision
whose source is not part of this model. That revision splits the dictionary into
`words` and `suffixes`, runs `replaceWholeWords` and then `replaceSuffixes`, and
uses `transformSuffixes`. The model assumes that `transformSuffixes` is the
single-entry replace with the pattern `(suffix)\b`, a boundary after the suffix
only. Its test supports this: "Running" becomes "Runnin". A boundary before the
suffix as well would leave "Running" unchanged, so the test rules that reading out.

## Model

| member | source | states |
|---|---|---|
| Casing.Upper | src/doggo-translator-ts/doggo-translator-ts.ts:122-123 | `toUpperCase` keeps the length and maps each character through `UpperChar`: each lower-case ASCII letter becomes the upper-case letter at the same alphabet position, every other character is kept, and the result holds no lower-case letter |
| Casing.CapitalizeFirst | src/doggo-translator-ts/doggo-translator-ts.ts:138-142 | keeps the length and every character after index 0, upper-cases index 0, maps "" to "" |
| Casing.UpperFixedIffAllCaps | src/doggo-translator-ts/doggo-translator-ts.ts:122 | `match === match.toUpperCase()` holds exactly when the match has no lower-case letter, including matches without letters |
| Casing.CapitalizeFixedIffStartsCapitalized | src/doggo-translator-ts/doggo-translator-ts.ts:126 | `match === capitalizeFirstCharacter(match)` holds exactly when the match is empty or does not start with a lower-case letter |
| Casing.UpperOfCapitalized | src/doggo-translator-ts/doggo-translator-ts.ts:127 | capitalizing the first character does not change the text up to case |
| Casing.MirrorCase | src/doggo-translator-ts/doggo-translator-ts.ts:121-131 | the replacement equals `replace` up to case; an all-caps match gives it upper-cased, a capitalized match gives it capitalized, any other match gives it verbatim |
| Casing.CapitalizeExamples | src/doggo-translator-ts/doggo-translator-ts.test.ts:181-186 | "testing" capitalizes to "Testing"; "" stays "" |
| Casing.MirrorCaseWordExamples | src/doggo-translator-ts/doggo-translator-ts.test.ts:174-178 | "Testing" with replacement "test" gives "Test"; a capitalized match capitalizes, a lower-case match keeps the replacement as written |
| Casing.MirrorCaseAllCapsExamples | src/doggo-translator-ts/doggo-translator-ts.ts:122-123 | an all-caps match, and a match without letters such as "42", upper-cases the replacement |
| Escaping.EscapeRegex | src/doggo-translator-ts/doggo-translator-ts.ts:149-151 | the result is one character longer than the input per character of the escaped class |
| Escaping.EscapeRegexIsLiteral | src/doggo-translator-ts/doggo-translator-ts.ts:149-151 | the escaped key is a literal pattern (no unescaped syntax character, no backslash before a letter or digit) whose matched text is exactly the key |
| Escaping.EscapeRegexConcat | src/doggo-translator-ts/doggo-translator-ts.ts:150 | escaping works character by character: it distributes over concatenation |
| Escaping.EscapeRegexPlain | src/doggo-translator-ts/doggo-translator-ts.ts:150 | a key with no special or whitespace character is its own pattern |
| Escaping.EscapeRegexAllEscaped | src/doggo-translator-ts/doggo-translator-ts.ts:150 | a key of special characters becomes each character behind exactly one backslash, in order |
| Escaping.EscapeRegexTestInput | src/doggo-translator-ts/doggo-translator-ts.test.ts:189-194 | `-[]{}()*+?.,^$\|#` escapes to each character behind its own backslash |
| Escaping.EscapeRegexMixedExample | src/doggo-translator-ts/doggo-translator-ts.ts:149-151 | in "a.b c" only the dot and the space get a backslash |
| WordReplace.IsBoundary | src/doggo-translator-ts/doggo-translator-ts.ts:121 | definition of `\b`: exactly one side of the position is an ASCII word character, the outside of the string counting as non-word |
| WordReplace.MatchesAt | src/doggo-translator-ts/doggo-translator-ts.ts:121 | definition of a match of `\b(lit)\b` with flag `i` at a position: the next `|lit|` characters equal `lit` up to case, with `\b` on both sides (after only, for suffixes) |
| WordReplace.ReplaceFrom | src/doggo-translator-ts/doggo-translator-ts.ts:121-131 | definition of the global replace scan from a position; characterized by `ReplaceCopiesGap`, `ReplaceNextMatch`, `ReplaceLastMatch` and `ReplaceWithoutMatch` |
| WordReplace.ReplaceAll | src/doggo-translator-ts/doggo-translator-ts.ts:121 | definition of `input.replace(pattern, callback)` with flags `g` and `i`: the scan from position 0 |
| WordReplace.ReplaceEscaped | src/doggo-translator-ts/doggo-translator-ts.ts:119-121 | replacing through the escaped key is replacing the key itself, literally |
| WordReplace.TranslateSingleEntry | src/doggo-translator-ts/doggo-translator-ts.ts:118-132 | the single-entry translation is the whole-word replace of `find` taken literally |
| WordReplace.ReplaceCopiesGap | src/doggo-translator-ts/doggo-translator-ts.ts:121 | text at positions where nothing matches is copied to the output unchanged and in order |
| WordReplace.ReplaceNextMatch | src/doggo-translator-ts/doggo-translator-ts.ts:121-131 | left-to-right, non-overlapping: for a non-empty key, output is the gap, the case-mirrored replacement of the first match, then the scan from the end of that match |
| WordReplace.ReplaceLastMatch | src/doggo-translator-ts/doggo-translator-ts.ts:121-131 | when the only match ends the input, the output is the text before it followed by the case-mirrored replacement |
| WordReplace.ReplaceWithoutMatch | src/doggo-translator-ts/doggo-translator-ts.ts:121 | a key that matches nowhere leaves the input unchanged |
| WordReplace.GluedOccurrenceIsKept | src/doggo-translator-ts/doggo-translator-ts.ts:121 | an occurrence of a non-empty key that ends in a word character and is followed by one is not a match, for words and suffixes alike |
| WordReplace.ReplaceKeepsAllCaps | src/doggo-translator-ts/doggo-translator-ts.test.ts:164-172 | upper-case input gives upper-case output |
| WordReplace.StandaloneWord | src/doggo-translator-ts/doggo-translator-ts.ts:121-131 | a sentence that is one occurrence, in any casing, of a non-empty key that starts and ends with a word character becomes the case-mirrored replacement |
| WordReplace.CapitalizedMatchExample | src/doggo-translator-ts/doggo-translator-ts.test.ts:174-178 | "Testing" with the entry (testing, test) gives "Test" |
| WordReplace.GluedMatchExample | src/doggo-translator-ts/doggo-translator-ts.ts:121 | "string" inside "strings" is left alone |
| WordReplace.NoRematchOfOwnOutputExample | src/doggo-translator-ts/doggo-translator-ts.ts:121 | the entry (dog, dog dog) turns "dog" into "dog dog" and does not rescan its own output |
| EntryFold.ApplyEntries | src/doggo-translator-ts/doggo-translator-ts.ts:40-50 | the loop's final sentence is the ordered fold of single-entry translation over the entries, swapped in reverse |
| EntryFold.FoldEntries | src/doggo-translator-ts/doggo-translator-ts.ts:40-50 | definition of the loop's result: single-entry translation applied entry by entry in dictionary order; characterized by `FoldAppend`, `FoldReverseIsSwapped` and `FoldWithoutMatch` |
| EntryFold.FoldAppend | src/doggo-translator-ts/doggo-translator-ts.ts:40-50 | running the loop over two parts of the dictionary in turn equals running it over the whole |
| EntryFold.FoldReverseIsSwapped | src/doggo-translator-ts/doggo-translator-ts.ts:44-48 | reverse translation is forward translation of the dictionary with every key and value exchanged |
| EntryFold.FoldWithoutMatch | src/doggo-translator-ts/doggo-translator-ts.ts:40-50 | when no find string matches in the input, the output equals the input |
| EntryFold.ChainedEntriesExample | src/doggo-translator-ts/doggo-translator-ts.ts:40-50 | a later entry rewrites an earlier entry's output: (a, b) then (b, c) turn "a" into "c" |
| EntryFold.UntranslatableExample | src/doggo-translator-ts/doggo-translator-ts.test.ts:24-31 | with the dictionary {nope: nopers}, "failure" comes back unchanged |
| Tokens.AllLanguageTokenKeys | src/i18n/tokens.service.ts:4-6 | the enum's member names in declaration order |
| Tokens.AllLanguageTokens | src/i18n/tokens.service.ts:8-10 | the enum's token values in declaration order |
| Tokens.Occurrences | src/i18n/tokens.service.ts:13 | the filter keeps only `t`, once per occurrence of `t` in the list, so it is non-empty exactly when `t` occurs |
| Tokens.LanguageAvailable | src/i18n/tokens.service.ts:12-15 | a token is available exactly when it is one of the enum's values |
| Tokens.NamedTokensAvailable | src/i18n/tokens.service.ts:12-15 | `english` and `userDefined` are available |
| Tokens.TokensServiceExamples | src/i18n/tokens.service.spec.ts:7-31 | the values contain `english`, the keys contain the first member name, `english` is available and a non-token such as "asdf" is not |
| LegacyLanguages.IndexOf | src/index.ts:97 | `indexOf` gives the first index of the element, and -1 exactly when it is absent |
| LegacyLanguages.GetLanguages | src/index.ts:50-52 | the list of languages is the single element 'en' |
| LegacyLanguages.LanguageAvailable | src/index.ts:96-98 | a language is available exactly when it is in `getLanguages()`, that is, when it is 'en' |
| LocaleLoader.LocaleLoaderService.constructor | src/i18n/locale-loader.service.ts:6 | a fresh loader holds the empty map |
| LocaleLoader.LocaleLoaderService.SetTranslationsMap | src/i18n/locale-loader.service.ts:8-10 | the map becomes exactly the given one, overwriting the earlier one |
| LocaleLoader.LocaleLoaderService.LoadLibraryTranslations | src/i18n/locale-loader.service.ts:12-19 | every token, known or not, installs the English dictionary |
| LocaleLoader.LocaleLoaderService.TranslationMapHasTranslations | src/i18n/locale-loader.service.ts:28-30 | holds exactly when the map has at least one key |
| LocaleLoader.LocaleLoaderService.GetTranslationsMap | src/i18n/locale-loader.service.ts:21-26 | returns the map unchanged; an empty map only adds a diagnostic |
| ErrorService.BuildError | src/util/error.service.ts:16-18 | definition of the message text: the library prefix `[DoggoTranslatorTS] ` followed by the message |
| Translator.ConfigValid | src/doggo-translator-ts/doggo-translator-ts.ts:76-82 | definition of a config `configValidation` accepts: present, with a truthy `languageToken` or a `userTranslationsMap`; `Create` fails exactly when it does not hold |
| Translator.DoggoTranslator.constructor | src/doggo-translator-ts/doggo-translator-ts.ts:23-26 | a user map ends as the active map under `userDefined`; otherwise the configured token or the default is selected and English is loaded; the translator's log holds the unknown-language message exactly when there is no user map and the token is not available, and the loader's log is empty |
| Translator.DoggoTranslator.Create | src/doggo-translator-ts/doggo-translator-ts.ts:76-82 | construction fails exactly when the config is absent or has neither a truthy `languageToken` nor a `userTranslationsMap`; on success the logs are as the constructor leaves them |
| Translator.DoggoTranslator.TranslateSentence | src/doggo-translator-ts/doggo-translator-ts.ts:33-53 | an empty sentence gives "Bork" with no map lookup; any other gives the fold over the active map, reversed on request, and the loader logs the no-translations message exactly when the active map is empty |
| Translator.DoggoTranslator.GetAllLanguageTokens | src/doggo-translator-ts/doggo-translator-ts.ts:58-60 | the listed tokens are exactly the ones `setLanguage` accepts |
| Translator.DoggoTranslator.SetLanguage | src/doggo-translator-ts/doggo-translator-ts.ts:66-74 | the token becomes `t` when available and `english` otherwise, with a diagnostic; the English map is loaded either way |
| Translator.DoggoTranslator.SetUpTranslator | src/doggo-translator-ts/doggo-translator-ts.ts:84-90 | with a user map the token is `userDefined` and the map is the user map; otherwise it is `setLanguage(languageToken)`, which appends the unknown-language message exactly when the token is not available; the loader's log is unchanged |
| LegacyJsTranslator.DoggoTranslator.constructor | src/index.ts:9-11 | the language starts as `setLanguage(language)` leaves it, and the log holds the unknown-language message exactly when `language` is not available |
| LegacyJsTranslator.DoggoTranslator.TranslateSentence | src/index.ts:22-43 | a non-string or empty sentence gives "Bork"; any other gives the fold over `en_translations`, swapped when `reverse` is truthy |
| LegacyJsTranslator.DoggoTranslator.SetLanguage | src/index.ts:59-68 | the language becomes `l` when it is in `getLanguages()` and 'en' otherwise, with a diagnostic |
| LegacyJsTranslator.DoggoTranslator.GetLanguageFile | src/index.ts:78-85 | the same dictionary for every language value |
| LegacyTsTranslator.DoggoTranslator.constructor | src/doggo-translator-ts.ts:14-16 | the language starts as `setLanguage(languageToken)` leaves it, and the log holds the unknown-language message exactly when `languageToken` is not available |
| LegacyTsTranslator.DoggoTranslator.TranslateSentence | src/doggo-translator-ts.ts:23-43 | an empty sentence gives "Bork"; any other gives the fold over the dictionary, swapped when `reverse` is set |
| LegacyTsTranslator.DoggoTranslator.SetLanguage | src/doggo-translator-ts.ts:56-63 | whatever the argument, the language ends as 'en'; a diagnostic is logged exactly when the argument was not 'en' |
| LegacyTsTranslator.DoggoTranslator.GetLanguageFile | src/doggo-translator-ts.ts:68-75 | the same dictionary for every language value |
| SuffixExtension.TransformSuffixes | src/doggo-translator-ts/doggo-translator-ts.spec.ts:241-271 | (extension) suffix replacement is the replace with a boundary required only after the suffix |
| SuffixExtension.ReplaceWholeWords | src/doggo-translator-ts/doggo-translator-ts.spec.ts:151-177 | (extension) definition: the dictionary loop over the `words` entries with whole-word matching |
| SuffixExtension.ReplaceSuffixes | src/doggo-translator-ts/doggo-translator-ts.spec.ts:179-205 | (extension) definition: the dictionary loop over the `suffixes` entries with suffix matching |
| SuffixExtension.TranslateSentence | src/doggo-translator-ts/doggo-translator-ts.spec.ts:41-72 | (extension) definition: "Bork" for the empty sentence, otherwise whole words first and suffixes second; `WithoutSuffixesIsWordLoop` ties it to the flat loop |
| SuffixExtension.WithoutSuffixesIsWordLoop | src/doggo-translator-ts/doggo-translator-ts.spec.ts:41-72 | (extension) with no suffixes the split-dictionary translation is the flat dictionary loop |
| SuffixExtension.SuffixMatchesInsideWord | src/doggo-translator-ts/doggo-translator-ts.spec.ts:268-271 | (extension) in "Running", "ing" at position 4 is a suffix match but not a whole-word match |
| SuffixExtension.SuffixLoopKeepsAllCaps | src/doggo-translator-ts/doggo-translator-ts.spec.ts:258-266 | (extension) upper-case input stays upper-case through the suffix loop |
| SuffixExtension.SuffixExample | src/doggo-translator-ts/doggo-translator-ts.spec.ts:268-271 | (extension) with (ing, in), "Running" becomes "Runnin" |

## Left out

- Console output and thrown errors (`ErrorService.logError`, `ErrorService.throw`, `logError`, `_logError`): diagnostics are a ghost list of messages, and the configuration error is a `Failure` result.
- File loading (`loadFile`) and the demo script node/index.js: file I/O, not part of this model.
- Dictionary contents (en-words, en-suffixes, en_translations) and the token enum's declaration: not part of this model. They are parameters.
- The full regular-expression engine: only the literal pattern that escaping produces, with `\b` on ASCII word characters, is modelled.
- Unicode case mapping: case-insensitive matching and `toUpperCase` act on ASCII letters only. JavaScript's `toUpperCase` also maps other letters, sometimes to longer text (ß to SS).
- JavaScript strings are UTF-16 code units; the model's characters are Unicode scalar values, so `charAt(0)` on a surrogate pair is not modelled.
- The `for…in` order rule that puts integer-like keys first: the dictionary is an ordered sequence.
- LegacyJsTranslator.DoggoTranslator.TranslateSentence: `reverse` stands for its truthiness as a boolean, and a non-string sentence is one `NotText` value.
- The private `languageAvailable` of the current class only delegates to `TokensService.languageAvailable`; the model calls `Tokens.LanguageAvailable` directly.
- Tests that only spy on calls ("should use string.replace", "should call static method on TokensService") state call structure, not behaviour.
- SuffixExtension.ReplaceWholeWords, SuffixExtension.ReplaceSuffixes and SuffixExtension.TranslateSentence: bodies assumed from the tests. The source of that revision is not part of this model, so these are definitions; `WithoutSuffixesIsWordLoop`, `SuffixLoopKeepsAllCaps` and `SuffixExample` state what is proved about them.
- The default argument `reverse = false` of `translateSentence` (src/doggo-translator-ts/doggo-translator-ts.ts:33): every model of `translateSentence` takes `reverse` as an explicit boolean, so a call without it is a call with `false`.
- LocaleLoader.LocaleLoaderService.SetTranslationsMap: `setTranslationsMap` stores the caller's object by reference (src/i18n/locale-loader.service.ts:9), so a later change to a user map would show in the active map. The model stores a value; that aliasing is not modelled.
- The shape of `EN_TRANSLATIONS` (src/i18n/locales/en/en.ts:5-8): it is an object `{ words, suffixes }` of two nested maps, while the flat loop of the current class reads it as one map from keys to strings. The model's `enTranslations` is the flat `Dictionary` that loop expects; what the loop does with the two nested maps at run time is not modelled.
- EntryFold.ApplyEntries, Translator.DoggoTranslator.TranslateSentence, LegacyJsTranslator.DoggoTranslator.TranslateSentence, LegacyTsTranslator.DoggoTranslator.TranslateSentence: the loop guard `languageFile.hasOwnProperty(key)` (src/doggo-translator-ts/doggo-translator-ts.ts:41, src/index.ts:30, src/doggo-translator-ts.ts:31) calls a property of the map itself. A map with an own key `hasOwnProperty`, such as the user map `{ hasOwnProperty: 'x', dog: 'woof' }`, shadows that method with a string, so the source throws a `TypeError` for every non-empty sentence. The model's `Dictionary` admits that key, and the model folds over it like any other entry; the throw is not modelled.
