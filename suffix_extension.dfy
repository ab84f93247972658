/**
 * EXTENSION, not part of the three revisions above: a later revision known only
 * from its test suite splits the dictionary into whole `words` and word-ending
 * `suffixes`, replaces the words first and the suffixes second, and replaces a
 * suffix wherever it ends a word. Its bodies are not available; the model
 * assumes that `transformSuffixes` is the single-entry replacement with the
 * pattern `(suffix)\b`, which is what its tests show ("Running" becomes
 * "Runnin" with the suffix entry (ing, in)).
 */
module SuffixExtension {
  import opened Casing
  import opened WordReplace
  import opened EntryFold

  /** `TranslationMapInterface`: whole-word entries and suffix entries (none by default). */
  datatype TranslationMap = TranslationMap(words: Dictionary, suffixes: Dictionary)

  /** `transformSuffixes(input, find, replace)`: the suffix pattern needs a boundary after it only. */
  function TransformSuffixes(input: string, find: string, replace: string): (r: string)
    ensures r == ReplaceAll(input, find, replace, SuffixEnd)
  {
    ReplaceEscaped(input, find, replace, SuffixEnd)
  }

  /** `replaceWholeWords(words, reverse, input)`: the dictionary loop over the words. */
  function ReplaceWholeWords(words: Dictionary, reverse: bool, input: string): string {
    FoldEntries(input, words, reverse, WholeWord)
  }

  /** `replaceSuffixes(suffixes, reverse, input)`: the same loop over the suffixes, with suffix patterns. */
  function ReplaceSuffixes(suffixes: Dictionary, reverse: bool, input: string): string {
    FoldEntries(input, suffixes, reverse, SuffixEnd)
  }

  /** `translateSentence(s, reverse)` of the later revision: words first, then suffixes. */
  function TranslateSentence(m: TranslationMap, sourceSentence: string, reverse: bool): string {
    if sourceSentence == "" then "Bork"
    else ReplaceSuffixes(m.suffixes, reverse, ReplaceWholeWords(m.words, reverse, sourceSentence))
  }

  /** With no suffixes the later revision translates exactly as the flat dictionary loop does. */
  lemma WithoutSuffixesIsWordLoop(words: Dictionary, sourceSentence: string, reverse: bool)
    requires sourceSentence != ""
    ensures TranslateSentence(TranslationMap(words, []), sourceSentence, reverse)
         == FoldEntries(sourceSentence, words, reverse, WholeWord)
  {
  }

  /**
   * Where the two patterns part: in "Running" the suffix "ing" at position 4
   * matches the suffix pattern, but not the whole-word one, since no word
   * boundary precedes it.
   */
  lemma SuffixMatchesInsideWord()
    ensures MatchesAt("Running", "ing", SuffixEnd, 4)
    ensures !MatchesAt("Running", "ing", WholeWord, 4)
  {
    var s := "Running";
    assert s[4..7] == "ing";
    assert Upper(s[4..7]) == Upper("ing");
    assert IsWordChar(s[3]) && IsWordChar(s[4]);
  }

  /** Upper-case input stays upper-case through the suffix loop (the "all caps" test). */
  lemma {:induction false} SuffixLoopKeepsAllCaps(s: string, suffixes: seq<Entry>, reverse: bool)
    requires IsAllCaps(s)
    ensures IsAllCaps(FoldEntries(s, suffixes, reverse, SuffixEnd))
    decreases |suffixes|
  {
    if suffixes != [] {
      var init := suffixes[..|suffixes| - 1];
      var last := Oriented(suffixes[|suffixes| - 1], reverse);
      SuffixLoopKeepsAllCaps(s, init, reverse);
      ReplaceKeepsAllCaps(FoldEntries(s, init, reverse, SuffixEnd), last.0, last.1, SuffixEnd, 0);
    }
  }

  lemma RunningFirstMatch()
    ensures forall q :: 0 <= q < 4 ==> !MatchesAt("Running", "ing", SuffixEnd, q)
    ensures MatchesAt("Running", "ing", SuffixEnd, 4)
  {
    var s := "Running";
    forall q | 0 <= q < 4 ensures !MatchesAt(s, "ing", SuffixEnd, q) {
      assert Upper(s[q..q + 3])[0] == UpperChar(s[q]);
    }
    assert s[4..7] == "ing";
    assert Upper(s[4..7]) == Upper("ing");
  }

  /** The test suite's example, one word of it: with (ing, in), "Running" becomes "Runnin". */
  lemma SuffixExample()
    ensures TransformSuffixes("Running", "ing", "in") == "Runnin"
  {
    var s := "Running";
    RunningFirstMatch();
    ReplaceLastMatch(s, "ing", "in", SuffixEnd, 4);
    assert s[4..] == "ing" && s[..4] == "Runn";
    assert !StartsCapitalized("ing");
  }
}
