/**
 * `TokensService`: static queries over the language-token enum. The enum's
 * declaration is not part of this model; it is represented by its members,
 * (key, value) pairs in declaration order, of which `english` and
 * `userDefined` are known to exist.
 */
module Tokens {

  /** A string enum: member names and their string values, in declaration order. */
  datatype TokenEnum = TokenEnum(members: seq<(string, string)>) {

    /** The members this translator relies on are declared. */
    predicate Valid() {
      HasKey(members, "english") && HasKey(members, "userDefined")
    }

    /** `LANGUAGE_TOKENS_ENUM.english`, the default language. */
    function English(): string
      requires Valid()
    {
      ValueOf(members, "english")
    }

    /** `LANGUAGE_TOKENS_ENUM.userDefined`, the token of a caller-supplied dictionary. */
    function UserDefined(): string
      requires Valid()
    {
      ValueOf(members, "userDefined")
    }
  }

  predicate HasKey(members: seq<(string, string)>, key: string) {
    exists i :: 0 <= i < |members| && members[i].0 == key
  }

  /** The value of the first member named `key`. */
  function ValueOf(members: seq<(string, string)>, key: string): (v: string)
    requires HasKey(members, key)
    ensures exists i :: 0 <= i < |members| && members[i] == (key, v)
  {
    if members[0].0 == key then members[0].1
    else
      assert HasKey(members[1..], key) by {
        var i :| 0 <= i < |members| && members[i].0 == key;
        assert members[1..][i - 1].0 == key;
      }
      var v := ValueOf(members[1..], key);
      assert exists i :: 0 <= i < |members| && members[i] == (key, v) by {
        var j :| 0 <= j < |members[1..]| && members[1..][j] == (key, v);
        assert members[j + 1] == (key, v);
      }
      v
  }

  /** `Object.keys(LANGUAGE_TOKENS_ENUM)`: the member names in declaration order. */
  function AllLanguageTokenKeys(e: TokenEnum): (r: seq<string>)
    ensures |r| == |e.members|
    ensures forall i :: 0 <= i < |r| ==> r[i] == e.members[i].0
  {
    seq(|e.members|, i requires 0 <= i < |e.members| => e.members[i].0)
  }

  /** `Object.values(LANGUAGE_TOKENS_ENUM)`: the token values in declaration order. */
  function AllLanguageTokens(e: TokenEnum): (r: seq<string>)
    ensures |r| == |e.members|
    ensures forall i :: 0 <= i < |r| ==> r[i] == e.members[i].1
  {
    seq(|e.members|, i requires 0 <= i < |e.members| => e.members[i].1)
  }

  /** `tokens.filter(token => token === t)`: the elements equal to `t`, one per occurrence. */
  function Occurrences(tokens: seq<string>, t: string): (r: seq<string>)
    ensures forall x :: x in r ==> x == t
    ensures |r| > 0 <==> t in tokens
    ensures |r| == multiset(tokens)[t]
  {
    if tokens == [] then []
    else
      var rest := Occurrences(tokens[1..], t);
      assert t in tokens <==> tokens[0] == t || t in tokens[1..];
      assert tokens == [tokens[0]] + tokens[1..];
      if tokens[0] == t then [t] + rest else rest
  }

  /** `languageAvailable(t)`: the filter for `t` is non-empty, that is, `t` is one of the token values. */
  function LanguageAvailable(e: TokenEnum, t: string): (r: bool)
    ensures r <==> t in AllLanguageTokens(e)
    ensures r <==> exists i :: 0 <= i < |e.members| && e.members[i].1 == t
  {
    var tokens := AllLanguageTokens(e);
    assert t in tokens <==> exists i :: 0 <= i < |e.members| && e.members[i].1 == t by {
      if t in tokens {
        var i :| 0 <= i < |tokens| && tokens[i] == t;
        assert e.members[i].1 == t;
      }
    }
    |Occurrences(tokens, t)| > 0
  }

  /** Both members the translator names are available tokens of a valid enum. */
  lemma NamedTokensAvailable(e: TokenEnum)
    requires e.Valid()
    ensures LanguageAvailable(e, e.English()) && LanguageAvailable(e, e.UserDefined())
  {
    var i :| 0 <= i < |e.members| && e.members[i] == ("english", e.English());
    var j :| 0 <= j < |e.members| && e.members[j] == ("userDefined", e.UserDefined());
  }

  /**
   * The test suites' expectations: the values contain `english`, the keys contain
   * the first member name, `english` is available, and a string that is no
   * token value (such as "asdf") is not.
   */
  lemma TokensServiceExamples(e: TokenEnum, unknown: string)
    requires e.Valid()
    requires unknown !in AllLanguageTokens(e)
    ensures e.English() in AllLanguageTokens(e)
    ensures e.members[0].0 in AllLanguageTokenKeys(e)
    ensures LanguageAvailable(e, e.English())
    ensures !LanguageAvailable(e, unknown)
  {
    NamedTokensAvailable(e);
    assert AllLanguageTokenKeys(e)[0] == e.members[0].0;
  }
}
