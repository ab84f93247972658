/**
 * The dictionary loop of `translateSentence`: for every (key, value) entry in
 * iteration order the sentence is replaced by the single-entry translation of
 * itself, with find = key and replace = value, or the other way round when
 * translating in reverse. Later entries see the output of earlier ones.
 */
module EntryFold {
  import opened Casing
  import opened WordReplace

  /** One dictionary entry: (key, value). */
  type Entry = (string, string)

  /** No key occurs twice, as in a JavaScript object. */
  predicate DistinctKeys(entries: seq<Entry>) {
    forall i, j :: 0 <= i < j < |entries| ==> entries[i].0 != entries[j].0
  }

  /** A translation dictionary: its entries in iteration order, keys distinct. */
  type Dictionary = entries: seq<Entry> | DistinctKeys(entries)

  /** (find, replace) for an entry: (key, value) forward, (value, key) in reverse. */
  function Oriented(e: Entry, reverse: bool): Entry {
    if reverse then (e.1, e.0) else e
  }

  /** Every entry with key and value exchanged. */
  function Swapped(entries: seq<Entry>): (r: seq<Entry>)
    ensures |r| == |entries|
    ensures forall i :: 0 <= i < |r| ==> r[i] == (entries[i].1, entries[i].0)
  {
    seq(|entries|, i requires 0 <= i < |entries| => (entries[i].1, entries[i].0))
  }

  /** The sentence after the loop has run over `entries`, first entry first. */
  function FoldEntries(s: string, entries: seq<Entry>, reverse: bool, anchor: Anchor): string
    decreases |entries|
  {
    if entries == [] then s
    else
      var last := Oriented(entries[|entries| - 1], reverse);
      ReplaceEscaped(FoldEntries(s, entries[..|entries| - 1], reverse, anchor), last.0, last.1, anchor)
  }

  /**
   * The `for…in` loop over the dictionary, reassigning the sentence once per
   * entry; it computes the fold.
   */
  method ApplyEntries(sentence: string, entries: seq<Entry>, reverse: bool) returns (r: string)
    ensures r == FoldEntries(sentence, entries, reverse, WholeWord)
  {
    r := sentence;
    var i := 0;
    while i < |entries|
      invariant 0 <= i <= |entries|
      invariant r == FoldEntries(sentence, entries[..i], reverse, WholeWord)
    {
      var key, value := entries[i].0, entries[i].1;
      if !reverse {
        r := TranslateSingleEntry(r, key, value);
      } else {
        r := TranslateSingleEntry(r, value, key);
      }
      assert entries[..i + 1][..i] == entries[..i];
      i := i + 1;
    }
    assert entries[..i] == entries;
  }

  /** Running the loop over `a` and then over `b` is running it over `a + b`. */
  lemma {:induction false} FoldAppend(s: string, a: seq<Entry>, b: seq<Entry>, reverse: bool, anchor: Anchor)
    ensures FoldEntries(s, a + b, reverse, anchor)
         == FoldEntries(FoldEntries(s, a, reverse, anchor), b, reverse, anchor)
    decreases |b|
  {
    if b == [] {
      assert a + b == a;
    } else {
      var b' := b[..|b| - 1];
      assert (a + b)[..|a + b| - 1] == a + b';
      assert (a + b)[|a + b| - 1] == b[|b| - 1];
      FoldAppend(s, a, b', reverse, anchor);
    }
  }

  /** Reverse translation is forward translation with every key and value exchanged. */
  lemma {:induction false} FoldReverseIsSwapped(s: string, entries: seq<Entry>, anchor: Anchor)
    ensures FoldEntries(s, entries, true, anchor) == FoldEntries(s, Swapped(entries), false, anchor)
    decreases |entries|
  {
    if entries != [] {
      var init := entries[..|entries| - 1];
      assert Swapped(entries)[..|entries| - 1] == Swapped(init);
      FoldReverseIsSwapped(s, init, anchor);
    }
  }

  /**
   * If no find string of any entry matches anywhere in the sentence, every
   * entry leaves it unchanged, and so does the whole loop.
   */
  lemma {:induction false} FoldWithoutMatch(s: string, entries: seq<Entry>, reverse: bool, anchor: Anchor)
    requires forall i, q :: 0 <= i < |entries| && 0 <= q <= |s| ==> !MatchesAt(s, Oriented(entries[i], reverse).0, anchor, q)
    ensures FoldEntries(s, entries, reverse, anchor) == s
    decreases |entries|
  {
    if entries != [] {
      var init := entries[..|entries| - 1];
      var last := Oriented(entries[|entries| - 1], reverse);
      FoldWithoutMatch(s, init, reverse, anchor);
      ReplaceWithoutMatch(s, last.0, last.1, anchor);
    }
  }

  /** Text produced by one entry is matched again by a later one: (a, b) then (b, c) turns "a" into "c". */
  lemma ChainedEntriesExample()
    ensures FoldEntries("a", [("a", "b"), ("b", "c")], false, WholeWord) == "c"
  {
    var es := [("a", "b"), ("b", "c")];
    assert es[..1] == [("a", "b")];
    assert [("a", "b")][..0] == [];
    StandaloneWord("a", "a", "b");
    StandaloneWord("b", "b", "c");
  }

  /** The test suites' example: with the dictionary {nope: nopers}, "failure" comes back unchanged. */
  lemma UntranslatableExample()
    ensures FoldEntries("failure", [("nope", "nopers")], false, WholeWord) == "failure"
  {
    var s := "failure";
    forall i, q | 0 <= i < 1 && 0 <= q <= |s| ensures !MatchesAt(s, Oriented([("nope", "nopers")][i], false).0, WholeWord, q) {
      if q == 0 {
        assert Upper(s[0..4])[0] != Upper("nope")[0];
      }
    }
    FoldWithoutMatch(s, [("nope", "nopers")], false, WholeWord);
  }
}
