/**
 * `escapeRegex` / `_escapeRegex`: a dictionary key is turned into a regular
 * expression that matches the key literally, by putting a backslash in front
 * of every character of the class `[-[\]{}()*+?.,\\^$|#\s]`.
 * `PatternLiteral` reads such a pattern back as the text it matches.
 */
module Escaping {

  /** The punctuation listed in the escaping class. */
  predicate IsEscapedPunctuation(c: char) {
    c == '-' || c == '[' || c == ']' || c == '{' || c == '}' || c == '(' || c == ')' || c == '*' || c == '+' || c == '?' || c == '.' || c == ',' || c == '\\' || c == '^' || c == '$' || c == '|' || c == '#'
  }

  /** The whitespace class `\s` of ECMAScript regular expressions: white space and line terminators. */
  predicate IsWhitespace(c: char) {
    || c == '\t' || c == '\n' || c == '\U{B}' || c == '\U{C}' || c == '\r' || c == ' '
    || c == '\U{A0}' || c == '\U{1680}' || ('\U{2000}' <= c <= '\U{200A}')
    || c == '\U{2028}' || c == '\U{2029}' || c == '\U{202F}' || c == '\U{205F}'
    || c == '\U{3000}' || c == '\U{FEFF}'
  }

  /** The characters `escapeRegex` prefixes with a backslash. */
  predicate NeedsEscape(c: char) {
    IsEscapedPunctuation(c) || IsWhitespace(c)
  }

  /** Characters with a meaning of their own in a pattern, outside a character class. */
  predicate IsSyntaxChar(c: char) {
    c == '^' || c == '$' || c == '\\' || c == '.' || c == '*' || c == '+' || c == '?' || c == '(' || c == ')' || c == '[' || c == ']' || c == '{' || c == '}' || c == '|'
  }

  /** ASCII letters and digits: after a backslash these start a class, an assertion or a back-reference. */
  predicate IsAlphanumeric(c: char) {
    'a' <= c <= 'z' || 'A' <= c <= 'Z' || '0' <= c <= '9'
  }

  /** How many characters of `s` need escaping. */
  function EscapeCount(s: string): nat {
    if s == [] then 0 else (if NeedsEscape(s[0]) then 1 else 0) + EscapeCount(s[1..])
  }

  /**
   * A pattern in which every character stands for itself: syntax characters
   * occur only escaped, and every backslash escapes a character that is not
   * a letter or digit (an identity escape).
   */
  predicate IsLiteralPattern(p: string)
    decreases |p|
  {
    if p == [] then true
    else if p[0] == '\\' then |p| >= 2 && !IsAlphanumeric(p[1]) && IsLiteralPattern(p[2..])
    else !IsSyntaxChar(p[0]) && IsLiteralPattern(p[1..])
  }

  /** The text a literal pattern matches: an escape `\c` stands for `c`. */
  function PatternLiteral(p: string): string
    decreases |p|
  {
    if p == [] then []
    else if p[0] == '\\' && |p| >= 2 then [p[1]] + PatternLiteral(p[2..])
    else [p[0]] + PatternLiteral(p[1..])
  }

  /** `target.replace(/[-[\]{}()*+?.,\\^$|#\s]/g, '\\$&')`: one backslash more per escaped character. */
  function EscapeRegex(s: string): (r: string)
    ensures |r| == |s| + EscapeCount(s)
  {
    if s == [] then []
    else if NeedsEscape(s[0]) then ['\\', s[0]] + EscapeRegex(s[1..])
    else [s[0]] + EscapeRegex(s[1..])
  }

  /** The escaped key is a literal pattern, and the text it matches is exactly the key. */
  lemma {:induction false} EscapeRegexIsLiteral(s: string)
    ensures IsLiteralPattern(EscapeRegex(s))
    ensures PatternLiteral(EscapeRegex(s)) == s
  {
    if s != [] {
      EscapeRegexIsLiteral(s[1..]);
      var e := EscapeRegex(s[1..]);
      if NeedsEscape(s[0]) {
        var r := ['\\', s[0]] + e;
        assert r[2..] == e;
        assert !IsAlphanumeric(s[0]);
      } else {
        var r := [s[0]] + e;
        assert r[1..] == e;
        assert s[0] != '\\' && !IsSyntaxChar(s[0]);
      }
      assert [s[0]] + s[1..] == s;
    }
  }

  /** Escaping works character by character: it distributes over concatenation. */
  lemma {:induction false} EscapeRegexConcat(a: string, b: string)
    ensures EscapeRegex(a + b) == EscapeRegex(a) + EscapeRegex(b)
  {
    if a == [] {
      assert a + b == b;
    } else {
      assert (a + b)[0] == a[0];
      assert (a + b)[1..] == a[1..] + b;
      EscapeRegexConcat(a[1..], b);
    }
  }

  /** A key with nothing to escape is used as its own pattern. */
  lemma {:induction false} EscapeRegexPlain(s: string)
    requires forall i :: 0 <= i < |s| ==> !NeedsEscape(s[i])
    ensures EscapeRegex(s) == s
  {
    if s != [] {
      EscapeRegexPlain(s[1..]);
      assert [s[0]] + s[1..] == s;
    }
  }

  /** A key made only of escaped characters: each of them gets exactly one backslash in front. */
  lemma {:induction false} EscapeRegexAllEscaped(s: string)
    requires forall i :: 0 <= i < |s| ==> NeedsEscape(s[i])
    ensures |EscapeRegex(s)| == 2 * |s|
    ensures forall i :: 0 <= i < |s| ==> EscapeRegex(s)[2 * i] == '\\' && EscapeRegex(s)[2 * i + 1] == s[i]
  {
    if s != [] {
      var t := s[1..];
      assert forall i :: 0 <= i < |t| ==> NeedsEscape(t[i]) by {
        forall i | 0 <= i < |t| ensures NeedsEscape(t[i]) {
          assert t[i] == s[i + 1];
        }
      }
      EscapeRegexAllEscaped(t);
      var e := EscapeRegex(t);
      var r := EscapeRegex(s);
      assert NeedsEscape(s[0]);
      assert r == ['\\', s[0]] + e;
      forall i | 0 <= i < |s| ensures r[2 * i] == '\\' && r[2 * i + 1] == s[i] {
        if i > 0 {
          assert r[2 * i] == e[2 * (i - 1)];
          assert r[2 * i + 1] == e[2 * (i - 1) + 1];
          assert t[i - 1] == s[i];
        }
      }
    }
  }

  /**
   * The test suites' example: every character of `-[]{}()*+?.,^$|#` comes out
   * behind its own backslash, in the original order.
   */
  lemma EscapeRegexTestInput()
    ensures var s := "-[]{}()*+?.,^$|#";
      && |EscapeRegex(s)| == 32
      && forall i :: 0 <= i < |s| ==> EscapeRegex(s)[2 * i] == '\\' && EscapeRegex(s)[2 * i + 1] == s[i]
  {
    var s := "-[]{}()*+?.,^$|#";
    assert forall i :: 0 <= i < |s| ==> NeedsEscape(s[i]);
    EscapeRegexAllEscaped(s);
  }

  /** Letters stay as they are; a dot and a space each get one backslash. */
  lemma EscapeRegexMixedExample()
    ensures EscapeRegex("a.b c") == "a\\.b\\ c"
  {
    assert " c"[1..] == "c";
    assert EscapeRegex(" c") == "\\ c";
    assert "b c"[1..] == " c";
    assert ".b c"[1..] == "b c";
    assert EscapeRegex(".b c") == "\\.b\\ c";
    assert "a.b c"[1..] == ".b c";
  }
}
