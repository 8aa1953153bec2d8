/** The scope field of FastAPI's OAuth2PasswordRequestForm. The client sends
    one string; the form splits it with Python's str.split() into the list
    that login reads as form_data.scopes (jwt_backend/main.py:109). */
module Forms {

  /** The characters Python's str.split() treats as whitespace. */
  predicate IsSpace(c: char) {
    || ('\U{09}' <= c <= '\U{0D}') || ('\U{1C}' <= c <= '\U{1F}') || c == ' '
    || c == '\U{85}' || c == '\U{A0}' || c == '\U{1680}' || ('\U{2000}' <= c <= '\U{200A}')
    || c == '\U{2028}' || c == '\U{2029}' || c == '\U{202F}' || c == '\U{205F}' || c == '\U{3000}'
  }

  /** A word str.split() can yield: non-empty, with no whitespace in it. */
  predicate ScopeToken(w: string) {
    |w| > 0 && forall i :: 0 <= i < |w| ==> !IsSpace(w[i])
  }

  /** The leading run of non-whitespace characters of `s`. */
  function LeadingWord(s: string): (w: string)
    ensures |w| <= |s| && w == s[..|w|]
    ensures forall i :: 0 <= i < |w| ==> !IsSpace(w[i])
    ensures |w| < |s| ==> IsSpace(s[|w|])
  {
    if s == [] || IsSpace(s[0]) then [] else [s[0]] + LeadingWord(s[1..])
  }

  /** str.split() with no separator: the maximal runs of non-whitespace
      characters, in order. */
  function Split(s: string): (words: seq<string>)
    ensures forall i :: 0 <= i < |words| ==> ScopeToken(words[i])
    decreases |s|
  {
    if s == [] then []
    else if IsSpace(s[0]) then Split(s[1..])
    else
      var w := LeadingWord(s);
      [w] + Split(s[|w|..])
  }

  /** The scope string a client builds from a list of scopes: the words
      joined by single spaces. */
  function JoinScopes(words: seq<string>): string {
    if words == [] then []
    else if |words| == 1 then words[0]
    else words[0] + " " + JoinScopes(words[1..])
  }

  /** A single word splits to itself. */
  lemma {:induction false} SplitWord(w: string)
    requires ScopeToken(w)
    ensures Split(w) == [w]
  {
    LeadingWordOfWord(w, []);
    assert w + [] == w;
    assert w[|w|..] == [];
  }

  /** The leading word of a word followed by whitespace (or nothing) is that
      word. */
  lemma {:induction false} LeadingWordOfWord(w: string, rest: string)
    requires ScopeToken(w)
    requires rest == [] || IsSpace(rest[0])
    ensures LeadingWord(w + rest) == w
    decreases |w|
  {
    if |w| > 1 {
      assert (w + rest)[1..] == w[1..] + rest;
      LeadingWordOfWord(w[1..], rest);
    } else {
      assert (w + rest)[1..] == rest;
    }
  }

  /** Splitting the scope string a client joins from words gives back the
      words. */
  lemma {:induction false} SplitJoin(words: seq<string>)
    requires forall i :: 0 <= i < |words| ==> ScopeToken(words[i])
    ensures Split(JoinScopes(words)) == words
    decreases |words|
  {
    if |words| == 1 {
      SplitWord(words[0]);
    } else if |words| > 1 {
      var w, rest := words[0], " " + JoinScopes(words[1..]);
      assert JoinScopes(words) == w + rest;
      LeadingWordOfWord(w, rest);
      assert (w + rest)[|w|..] == rest;
      assert rest[1..] == JoinScopes(words[1..]);
      SplitJoin(words[1..]);
    }
  }
}
