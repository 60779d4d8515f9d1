/** Locating a method in the controller's text (`findMethodInFile`): the plugin searches
    for the first match of `function\s+(name)\s*\(` and reports where the name starts. */
module MethodSearch {
  import opened Wrappers

  /** The characters `\s` stands for in a Java regex: space, tab, line feed, vertical tab,
      form feed and carriage return. */
  predicate IsRegexSpace(c: char) {
    c == ' ' || c == '\t' || c == '\n' || c == '\U{0B}' || c == '\U{0C}' || c == '\r'
  }

  /** The length of the run of `\s` characters starting at `from`. */
  function SpaceRun(s: string, from: nat): (n: nat)
    requires from <= |s|
    ensures from + n <= |s|
    ensures forall i :: from <= i < from + n ==> IsRegexSpace(s[i])
    ensures from + n == |s| || !IsRegexSpace(s[from + n])
    decreases |s| - from
  {
    if from == |s| || !IsRegexSpace(s[from]) then 0 else 1 + SpaceRun(s, from + 1)
  }

  const Keyword: string := "function"

  /** `name`, then `\s*`, then `(`, starting at `at`. Only the longest run of spaces can
      be followed by `(`, since `(` is not a space. */
  predicate NameThenParen(text: string, name: string, at: nat) {
    && at + |name| <= |text| && text[at..at + |name|] == name
    && var m := at + |name|;
       m + SpaceRun(text, m) < |text| && text[m + SpaceRun(text, m)] == '('
  }

  /** The pattern matches from `p` with `\s+` taking `k` characters. */
  predicate MatchWith(text: string, name: string, p: nat, k: nat) {
    && p + |Keyword| <= |text| && text[p..p + |Keyword|] == Keyword
    && 1 <= k <= SpaceRun(text, p + |Keyword|)
    && NameThenParen(text, name, p + |Keyword| + k)
  }

  /** The match a regex search reports: the leftmost start, and there the greedy `\s+`
      takes as many spaces as still lets the rest match. */
  ghost predicate FirstMatch(text: string, name: string, p: nat, k: nat) {
    && MatchWith(text, name, p, k)
    && (forall q: nat, k': nat :: q < p ==> !MatchWith(text, name, q, k'))
    && (forall k': nat :: k < k' ==> !MatchWith(text, name, p, k'))
  }

  /** `findMethodInFile`: where the name starts in the first declaration of the method,
      or None when the text declares no such method. The name is matched as literal text. */
  method FindMethodInFile(text: string, name: string) returns (r: Option<nat>)
    ensures r.None? <==> forall p: nat, k: nat :: !MatchWith(text, name, p, k)
    ensures r.Some? ==> exists p: nat, k: nat :: FirstMatch(text, name, p, k) && r.value == p + |Keyword| + k
  {
    var p := 0;
    while p + |Keyword| < |text|
      invariant forall q: nat, k: nat :: q < p ==> !MatchWith(text, name, q, k)
    {
      var k := GreedySpacesAt(text, name, p);
      if k > 0 {
        FoundFirst(text, name, p, k);
        return Some(p + |Keyword| + k);
      }
      p := p + 1;
    }
    NoRoomNoMatch(text, name, p);
    return None;
  }

  /** The number of spaces `\s+` takes in a match from `p`, trying the longest run first
      as a greedy quantifier does; 0 when the pattern does not match from `p`. */
  method GreedySpacesAt(text: string, name: string, p: nat) returns (k: nat)
    ensures k == 0 <==> forall k': nat :: !MatchWith(text, name, p, k')
    ensures k > 0 ==> MatchWith(text, name, p, k)
    ensures forall k': nat :: k < k' ==> !MatchWith(text, name, p, k')
  {
    if p + |Keyword| > |text| || text[p..p + |Keyword|] != Keyword {
      return 0;
    }
    k := SpaceRun(text, p + |Keyword|);
    while k >= 1
      invariant k <= SpaceRun(text, p + |Keyword|)
      invariant forall k': nat :: k < k' ==> !MatchWith(text, name, p, k')
    {
      if NameThenParen(text, name, p + |Keyword| + k) {
        assert MatchWith(text, name, p, k);
        return k;
      }
      k := k - 1;
    }
  }

  /** A greedy match from `p`, with no match from any earlier offset, is the one the
      search reports, and the name is found where it says. */
  lemma FoundFirst(text: string, name: string, p: nat, k: nat)
    requires MatchWith(text, name, p, k)
    requires forall q: nat, k': nat :: q < p ==> !MatchWith(text, name, q, k')
    requires forall k': nat :: k < k' ==> !MatchWith(text, name, p, k')
    ensures FirstMatch(text, name, p, k)
    ensures var at := p + |Keyword| + k; at + |name| <= |text| && text[at..at + |name|] == name
  {
  }

  /** A match needs the keyword and at least one space after it. */
  lemma NoRoomNoMatch(text: string, name: string, p: nat)
    requires |text| <= p + |Keyword|
    ensures forall q: nat, k: nat :: p <= q ==> !MatchWith(text, name, q, k)
  {
    forall q: nat, k: nat | p <= q && q + |Keyword| <= |text|
      ensures !MatchWith(text, name, q, k)
    {
      assert SpaceRun(text, q + |Keyword|) == 0;
    }
  }

  /** A declaration `function name(` written at offset `|pre|` is found there, the name
      starting right after `function `, unless an earlier match exists. */
  lemma DeclarationMatches(pre: string, name: string, post: string)
    requires name == [] || !IsRegexSpace(name[0])
    requires forall q: nat, k: nat :: q < |pre| ==> !MatchWith(pre + "function " + name + "(" + post, name, q, k)
    ensures FirstMatch(pre + "function " + name + "(" + post, name, |pre|, 1)
  {
    var text := pre + "function " + name + "(" + post;
    DeclarationShape(pre, name, post);
    assert MatchWith(text, name, |pre|, 1);
  }

  lemma DeclarationShape(pre: string, name: string, post: string)
    requires name == [] || !IsRegexSpace(name[0])
    ensures var text := pre + "function " + name + "(" + post;
            && |pre| + |Keyword| <= |text| && text[|pre|..|pre| + |Keyword|] == Keyword
            && SpaceRun(text, |pre| + |Keyword|) == 1
            && NameThenParen(text, name, |pre| + |Keyword| + 1)
  {
    var text := pre + "function " + name + "(" + post;
    var p := |pre|;
    assert text == pre + Keyword + " " + name + "(" + post;
    assert text[p..p + |Keyword|] == Keyword;
    assert text[p + 8] == ' ';
    var at := p + 9;
    assert text[at..at + |name|] == name;
    assert text[at + |name|] == '(';
    assert SpaceRun(text, at + |name|) == 0;
    if name != [] {
      assert text[at] == name[0];
    }
  }
}
