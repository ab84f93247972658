/**
 * The casing rules of the translation callback: `toUpperCase`, the
 * capitalize-first helper (`capitalizeFirstCharacter`, `_ucfirst`) and the
 * three-way case mirroring of a matched word onto its replacement.
 * Upper-casing is modelled on ASCII letters only.
 */
module Casing {

  /** An ASCII lower-case letter, the only characters `toUpperCase` changes here. */
  predicate IsLower(c: char) {
    'a' <= c <= 'z'
  }

  /** `toUpperCase` of a single character. */
  function UpperChar(c: char): (u: char)
    ensures !IsLower(u)
    ensures IsLower(c) ==> 'A' <= u <= 'Z' && u as int - 'A' as int == c as int - 'a' as int
    ensures !IsLower(c) ==> u == c
  {
    if IsLower(c) then (c as int - 32) as char else c
  }

  /** No lower-case letter anywhere: the strings `toUpperCase` leaves alone. */
  predicate IsAllCaps(s: string) {
    forall i :: 0 <= i < |s| ==> !IsLower(s[i])
  }

  /** Empty, or the first character is not a lower-case letter. */
  predicate StartsCapitalized(s: string) {
    s == [] || !IsLower(s[0])
  }

  /** `s.toUpperCase()`. */
  function Upper(s: string): (r: string)
    ensures |r| == |s| && IsAllCaps(r)
    ensures forall i :: 0 <= i < |s| ==> r[i] == UpperChar(s[i])
    ensures forall i :: 0 <= i < |s| && !IsLower(s[i]) ==> r[i] == s[i]
  {
    seq(|s|, i requires 0 <= i < |s| => UpperChar(s[i]))
  }

  /** `charAt(0).toUpperCase() + slice(1)`: only the first character may change. */
  function CapitalizeFirst(s: string): (r: string)
    ensures |r| == |s|
    ensures forall i :: 1 <= i < |s| ==> r[i] == s[i]
    ensures s != [] ==> r[0] == UpperChar(s[0])
    ensures StartsCapitalized(r)
  {
    if s == [] then [] else [UpperChar(s[0])] + s[1..]
  }

  lemma AllCapsConcat(a: string, b: string)
    requires IsAllCaps(a) && IsAllCaps(b)
    ensures IsAllCaps(a + b)
  {
    assert forall i :: 0 <= i < |a + b| ==> (a + b)[i] == if i < |a| then a[i] else b[i - |a|];
  }

  lemma AllCapsSlice(s: string, i: nat, j: nat)
    requires i <= j <= |s| && IsAllCaps(s)
    ensures IsAllCaps(s[i..j])
  {
    assert forall k :: 0 <= k < j - i ==> s[i..j][k] == s[i + k];
  }

  /** A string equals its upper-case form exactly when it holds no lower-case letter. */
  lemma UpperFixedIffAllCaps(s: string)
    ensures s == Upper(s) <==> IsAllCaps(s)
  {
    if IsAllCaps(s) {
      assert forall i :: 0 <= i < |s| ==> Upper(s)[i] == s[i];
    } else {
      var i :| 0 <= i < |s| && IsLower(s[i]);
      assert Upper(s)[i] != s[i];
    }
  }

  /** A string equals its capitalized form exactly when it starts capitalized. */
  lemma CapitalizeFixedIffStartsCapitalized(s: string)
    ensures s == CapitalizeFirst(s) <==> StartsCapitalized(s)
  {
    if s != [] && !IsLower(s[0]) {
      assert CapitalizeFirst(s) == [s[0]] + s[1..];
    }
  }

  /** Upper-casing after capitalizing the first character is upper-casing alone. */
  lemma UpperOfCapitalized(s: string)
    ensures Upper(CapitalizeFirst(s)) == Upper(s)
  {
    var c := CapitalizeFirst(s);
    assert forall i :: 0 <= i < |s| ==> Upper(c)[i] == Upper(s)[i] by {
      forall i | 0 <= i < |s| ensures Upper(c)[i] == Upper(s)[i] {
        if i == 0 {
          assert UpperChar(UpperChar(s[0])) == UpperChar(s[0]);
        }
      }
    }
  }

  /**
   * The replacement callback: the replacement takes the casing class of the
   * matched text. All-caps (which includes text without letters) wins over
   * capitalized; anything else keeps the replacement as written. In every
   * class the result is the replacement up to case.
   */
  function MirrorCase(matched: string, replace: string): (r: string)
    ensures Upper(r) == Upper(replace)
    ensures IsAllCaps(matched) ==> r == Upper(replace)
    ensures !IsAllCaps(matched) && StartsCapitalized(matched) ==> r == CapitalizeFirst(replace)
    ensures !StartsCapitalized(matched) ==> r == replace
  {
    UpperFixedIffAllCaps(matched);
    CapitalizeFixedIffStartsCapitalized(matched);
    UpperFixedIffAllCaps(Upper(replace));
    UpperOfCapitalized(replace);
    if matched == Upper(matched) then Upper(replace)
    else if matched == CapitalizeFirst(matched) then CapitalizeFirst(replace)
    else replace
  }

  /** The test suites' example for the capitalize-first helper, and the empty string. */
  lemma CapitalizeExamples()
    ensures CapitalizeFirst("testing") == "Testing"
    ensures CapitalizeFirst("") == ""
  {
  }

  /** Capitalized and lower-case matches: "Testing" with replacement "test" gives "Test", as in the test suites. */
  lemma MirrorCaseWordExamples()
    ensures MirrorCase("Testing", "test") == "Test"
    ensures MirrorCase("Run", "walk") == "Walk"
    ensures MirrorCase("run", "Walk") == "Walk"
  {
    assert !IsAllCaps("Testing") by { assert IsLower("Testing"[1]); }
    assert !IsAllCaps("Run") by { assert IsLower("Run"[1]); }
    assert CapitalizeFirst("test") == "Test";
    assert CapitalizeFirst("walk") == "Walk";
  }

  /** All-caps matches, including a match without letters, upper-case the replacement. */
  lemma MirrorCaseAllCapsExamples()
    ensures MirrorCase("RUN", "walk") == "WALK"
    ensures MirrorCase("42", "walk") == "WALK"
  {
    assert IsAllCaps("RUN");
    assert IsAllCaps("42");
    assert Upper("walk") == "WALK";
  }
}
