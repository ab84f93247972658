/**
 * `translateSingleEntry` / `_translateSingleEntry`:
 * `input.replace(new RegExp('\\b(' + escapeRegex(find) + ')\\b', 'gi'), callback)`.
 *
 * The global replace scans the ORIGINAL input from left to right. At each
 * position it tries the pattern; a match is replaced by the callback's value
 * (`MirrorCase`) and the scan resumes after it, so matches never overlap and
 * replacement text is never scanned again by the same entry. An empty match
 * emits the replacement and the scan then copies one character and moves on.
 * Matching is case-insensitive through ASCII upper-casing, and `\b` is a
 * position where exactly one side is an ASCII word character.
 */
module WordReplace {
  import opened Casing
  import opened Escaping

  /** Which boundary assertions surround the literal: `\b(lit)\b`, or only `(lit)\b` for suffixes. */
  datatype Anchor = WholeWord | SuffixEnd

  /** `[A-Za-z0-9_]`, the word characters of `\b`. */
  predicate IsWordChar(c: char) {
    'a' <= c <= 'z' || 'A' <= c <= 'Z' || '0' <= c <= '9' || c == '_'
  }

  /** `\b` at position `p` of `s`; outside the string counts as a non-word character. */
  predicate IsBoundary(s: string, p: nat)
    requires p <= |s|
  {
    (p > 0 && IsWordChar(s[p - 1])) != (p < |s| && IsWordChar(s[p]))
  }

  /** The pattern for the literal `lit` matches `s` starting at position `p`. */
  predicate MatchesAt(s: string, lit: string, anchor: Anchor, p: nat)
    requires p <= |s|
  {
    && p + |lit| <= |s|
    && Upper(s[p..p + |lit|]) == Upper(lit)
    && (anchor == WholeWord ==> IsBoundary(s, p))
    && IsBoundary(s, p + |lit|)
  }

  /** The output of the global replace for the part of the scan that starts at position `p`. */
  function ReplaceFrom(s: string, lit: string, replace: string, anchor: Anchor, p: nat): string
    requires p <= |s|
    decreases |s| - p
  {
    if MatchesAt(s, lit, anchor, p) then
      var replaced := MirrorCase(s[p..p + |lit|], replace);
      if |lit| > 0 then replaced + ReplaceFrom(s, lit, replace, anchor, p + |lit|)
      else if p < |s| then replaced + [s[p]] + ReplaceFrom(s, lit, replace, anchor, p + 1)
      else replaced
    else if p < |s| then [s[p]] + ReplaceFrom(s, lit, replace, anchor, p + 1)
    else []
  }

  /** `s.replace(pattern, callback)` with the `g` and `i` flags, for a literal pattern. */
  function ReplaceAll(s: string, lit: string, replace: string, anchor: Anchor): string {
    ReplaceFrom(s, lit, replace, anchor, 0)
  }

  /** Replace through the escaped form of `find`, as the source builds its `RegExp`. */
  function ReplaceEscaped(input: string, find: string, replace: string, anchor: Anchor): (r: string)
    ensures r == ReplaceAll(input, find, replace, anchor)
  {
    EscapeRegexIsLiteral(find);
    ReplaceAll(input, PatternLiteral(EscapeRegex(find)), replace, anchor)
  }

  /**
   * `translateSingleEntry(input, find, replace)`: because the key is escaped,
   * the pattern matches `find` itself, whatever punctuation or spaces it holds.
   */
  function TranslateSingleEntry(input: string, find: string, replace: string): (r: string)
    ensures r == ReplaceAll(input, find, replace, WholeWord)
  {
    ReplaceEscaped(input, find, replace, WholeWord)
  }

  lemma ConsSlice(s: string, p: nat, k: nat)
    requires p < k <= |s|
    ensures [s[p]] + s[p + 1..k] == s[p..k]
  {
  }

  lemma AppendAssoc(a: string, b: string, c: string)
    ensures a + (b + c) == (a + b) + c
  {
  }

  /** One step of the scan at a non-empty match: the mirrored replacement, then the scan after the match. */
  lemma ReplaceFromAtMatch(s: string, lit: string, replace: string, anchor: Anchor, p: nat)
    requires p <= |s| && |lit| > 0 && MatchesAt(s, lit, anchor, p)
    ensures ReplaceFrom(s, lit, replace, anchor, p)
         == MirrorCase(s[p..p + |lit|], replace) + ReplaceFrom(s, lit, replace, anchor, p + |lit|)
  {
  }

  /** One step of the scan at an empty match inside the string: the replacement, the next character, then the scan after it. */
  lemma ReplaceFromAtEmptyMatch(s: string, lit: string, replace: string, anchor: Anchor, p: nat)
    requires p < |s| && |lit| == 0 && MatchesAt(s, lit, anchor, p)
    ensures ReplaceFrom(s, lit, replace, anchor, p)
         == MirrorCase(s[p..p], replace) + [s[p]] + ReplaceFrom(s, lit, replace, anchor, p + 1)
  {
  }

  /** One step of the scan where nothing matches: the character is copied. */
  lemma ReplaceFromAtMiss(s: string, lit: string, replace: string, anchor: Anchor, p: nat)
    requires p < |s| && !MatchesAt(s, lit, anchor, p)
    ensures ReplaceFrom(s, lit, replace, anchor, p) == [s[p]] + ReplaceFrom(s, lit, replace, anchor, p + 1)
  {
  }

  /**
   * Text between matches is copied unchanged and in order: if nothing matches
   * at positions `p` up to (not including) `k`, the output starts with `s[p..k]`.
   */
  lemma {:induction false} ReplaceCopiesGap(s: string, lit: string, replace: string, anchor: Anchor, p: nat, k: nat)
    requires p <= k <= |s|
    requires forall q :: p <= q < k ==> !MatchesAt(s, lit, anchor, q)
    ensures ReplaceFrom(s, lit, replace, anchor, p) == s[p..k] + ReplaceFrom(s, lit, replace, anchor, k)
    decreases k - p
  {
    if p < k {
      var rest := ReplaceFrom(s, lit, replace, anchor, k);
      ReplaceFromAtMiss(s, lit, replace, anchor, p);
      ReplaceCopiesGap(s, lit, replace, anchor, p + 1, k);
      calc {
        ReplaceFrom(s, lit, replace, anchor, p);
        [s[p]] + ReplaceFrom(s, lit, replace, anchor, p + 1);
        [s[p]] + (s[p + 1..k] + rest);
        { AppendAssoc([s[p]], s[p + 1..k], rest); }
        ([s[p]] + s[p + 1..k]) + rest;
        { ConsSlice(s, p, k); }
        s[p..k] + rest;
      }
    } else {
      assert s[p..k] == [];
    }
  }

  /**
   * The left-to-right, non-overlapping scan: when the first match at or after
   * `p` is at `k`, the output is the gap, the case-mirrored replacement of the
   * matched text, and the rest of the scan from the end of the match.
   */
  lemma ReplaceNextMatch(s: string, lit: string, replace: string, anchor: Anchor, p: nat, k: nat)
    requires |lit| > 0 && p <= k <= |s|
    requires forall q :: p <= q < k ==> !MatchesAt(s, lit, anchor, q)
    requires MatchesAt(s, lit, anchor, k)
    ensures ReplaceFrom(s, lit, replace, anchor, p)
         == s[p..k] + MirrorCase(s[k..k + |lit|], replace) + ReplaceFrom(s, lit, replace, anchor, k + |lit|)
  {
    ReplaceCopiesGap(s, lit, replace, anchor, p, k);
    ReplaceFromAtMatch(s, lit, replace, anchor, k);
    AppendAssoc(s[p..k], MirrorCase(s[k..k + |lit|], replace), ReplaceFrom(s, lit, replace, anchor, k + |lit|));
  }

  /** A single match that ends the input: the output is the text before it and the mirrored replacement. */
  lemma ReplaceLastMatch(s: string, lit: string, replace: string, anchor: Anchor, k: nat)
    requires |lit| > 0 && k + |lit| == |s|
    requires forall q :: 0 <= q < k ==> !MatchesAt(s, lit, anchor, q)
    requires MatchesAt(s, lit, anchor, k)
    ensures ReplaceAll(s, lit, replace, anchor) == s[..k] + MirrorCase(s[k..], replace)
  {
    assert s[0..k] == s[..k];
    assert s[k..k + |lit|] == s[k..];
    var tail := ReplaceFrom(s, lit, replace, anchor, |s|);
    assert tail == [];
    ReplaceNextMatch(s, lit, replace, anchor, 0, k);
    assert s[..k] + MirrorCase(s[k..], replace) + tail == s[..k] + MirrorCase(s[k..], replace);
  }

  /** When the pattern matches nowhere, the replace returns its input. */
  lemma ReplaceWithoutMatch(s: string, lit: string, replace: string, anchor: Anchor)
    requires forall q :: 0 <= q <= |s| ==> !MatchesAt(s, lit, anchor, q)
    ensures ReplaceAll(s, lit, replace, anchor) == s
  {
    ReplaceCopiesGap(s, lit, replace, anchor, 0, |s|);
    assert s[0..|s|] == s;
  }

  /** A match needs a boundary on both sides, so a key glued to a word character is never replaced. */
  lemma GluedOccurrenceIsKept(s: string, lit: string, p: nat)
    requires p + |lit| < |s| && IsWordChar(s[p + |lit|])
    requires |lit| > 0 && IsWordChar(s[p + |lit| - 1])
    ensures !MatchesAt(s, lit, WholeWord, p) && !MatchesAt(s, lit, SuffixEnd, p)
  {
  }

  /** A matched part of an upper-case input is replaced by upper-case text. */
  lemma MatchOfAllCapsIsAllCaps(s: string, lit: string, replace: string, anchor: Anchor, p: nat)
    requires p <= |s| && IsAllCaps(s) && MatchesAt(s, lit, anchor, p)
    ensures IsAllCaps(MirrorCase(s[p..p + |lit|], replace))
  {
    AllCapsSlice(s, p, p + |lit|);
  }

  /** Upper-case input stays upper-case: every match is all-caps, so its replacement is upper-cased. */
  lemma {:induction false} ReplaceKeepsAllCaps(s: string, lit: string, replace: string, anchor: Anchor, p: nat)
    requires p <= |s| && IsAllCaps(s)
    ensures IsAllCaps(ReplaceFrom(s, lit, replace, anchor, p))
    decreases |s| - p
  {
    if MatchesAt(s, lit, anchor, p) {
      var replaced := MirrorCase(s[p..p + |lit|], replace);
      MatchOfAllCapsIsAllCaps(s, lit, replace, anchor, p);
      if |lit| > 0 {
        ReplaceFromAtMatch(s, lit, replace, anchor, p);
        ReplaceKeepsAllCaps(s, lit, replace, anchor, p + |lit|);
        AllCapsConcat(replaced, ReplaceFrom(s, lit, replace, anchor, p + |lit|));
      } else if p < |s| {
        ReplaceFromAtEmptyMatch(s, lit, replace, anchor, p);
        ReplaceKeepsAllCaps(s, lit, replace, anchor, p + 1);
        AllCapsConcat(replaced, [s[p]]);
        AllCapsConcat(replaced + [s[p]], ReplaceFrom(s, lit, replace, anchor, p + 1));
      }
    } else if p < |s| {
      ReplaceFromAtMiss(s, lit, replace, anchor, p);
      ReplaceKeepsAllCaps(s, lit, replace, anchor, p + 1);
      AllCapsConcat([s[p]], ReplaceFrom(s, lit, replace, anchor, p + 1));
    }
  }

  /**
   * A sentence that is exactly one occurrence of `find` (any casing, starting
   * and ending with a word character) becomes the case-mirrored replacement.
   */
  lemma StandaloneWord(s: string, find: string, replace: string)
    requires |find| > 0 && |s| == |find| && Upper(s) == Upper(find)
    requires IsWordChar(s[0]) && IsWordChar(s[|s| - 1])
    ensures TranslateSingleEntry(s, find, replace) == MirrorCase(s, replace)
  {
    assert s[0..|find|] == s;
    assert MatchesAt(s, find, WholeWord, 0);
    assert ReplaceFrom(s, find, replace, WholeWord, |s|) == [];
  }

  /** The test suites' capitalized example: "Testing" with the entry (testing, test) gives "Test". */
  lemma CapitalizedMatchExample()
    ensures TranslateSingleEntry("Testing", "testing", "test") == "Test"
  {
    var s := "Testing";
    assert Upper(s[0..7]) == Upper("testing") by {
      assert s[0..7] == s;
      assert forall i :: 0 <= i < 7 ==> Upper(s)[i] == Upper("testing")[i];
    }
    assert MatchesAt(s, "testing", WholeWord, 0);
    assert ReplaceFrom(s, "testing", "test", WholeWord, 7) == [];
    MirrorCaseWordExamples();
  }

  /** "string" inside "strings" has no boundary after it, so it is left alone. */
  lemma GluedMatchExample()
    ensures TranslateSingleEntry("strings", "string", "test") == "strings"
  {
    var s := "strings";
    forall q | 0 <= q <= |s| ensures !MatchesAt(s, "string", WholeWord, q) {
      if q == 0 {
        assert IsWordChar(s[6]) && IsWordChar(s[5]);
      }
    }
    ReplaceWithoutMatch(s, "string", "test", WholeWord);
  }

  /** The replacement text is not scanned again by the same entry: (dog, dog dog) applied to "dog" stops after one round. */
  lemma NoRematchOfOwnOutputExample()
    ensures TranslateSingleEntry("dog", "dog", "dog dog") == "dog dog"
  {
    var s := "dog";
    assert s[0..3] == s;
    assert Upper(s[0..3]) == Upper("dog");
    assert MatchesAt(s, "dog", WholeWord, 0);
    assert ReplaceFrom(s, "dog", "dog dog", WholeWord, 3) == [];
    assert !StartsCapitalized(s);
  }
}
