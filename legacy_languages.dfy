/**
 * The language list of the two older revisions: `getLanguages()` is the
 * fixed list ['en'], and `languageAvailable(l)` tests
 * `getLanguages().indexOf(l) !== -1`.
 */
module LegacyLanguages {

  /** The only language of the older revisions, and their fallback. */
  const DefaultLanguage: string := "en"

  /** The message both older revisions log when `setLanguage` falls back to the default. */
  const UnknownLanguageMessage: string := "[DoggoTranslator]The language was not found, defaulting to EN"

  /** `getLanguages()`: the default language and nothing else. */
  function GetLanguages(): (r: seq<string>)
    ensures |r| == 1
    ensures DefaultLanguage in r
    ensures forall l :: l in r ==> l == DefaultLanguage
  {
    ["en"]
  }

  /** `Array.prototype.indexOf`: the first index holding `x`, or -1 when there is none. */
  function IndexOf(xs: seq<string>, x: string): (r: int)
    ensures -1 <= r < |xs|
    ensures r == -1 <==> x !in xs
    ensures r >= 0 ==> xs[r] == x && forall j :: 0 <= j < r ==> xs[j] != x
  {
    if xs == [] then -1
    else if xs[0] == x then 0
    else
      var k := IndexOf(xs[1..], x);
      if k == -1 then -1 else k + 1
  }

  /** `languageAvailable(l)`: only "en" is available. */
  function LanguageAvailable(language: string): (r: bool)
    ensures r <==> language in GetLanguages()
    ensures r <==> language == DefaultLanguage
  {
    IndexOf(GetLanguages(), language) != -1
  }
}
