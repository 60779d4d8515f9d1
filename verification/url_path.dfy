/** What the user typed, reduced to a path (`extractPathFromUrl`).

    An `http://` or `https://` URL is reduced to its path component, split as in
    section 3 of RFC 3986: the authority (section 3.2) runs from after `//` to the first
    `/`, `?` or `#`; the path (section 3.3) runs from there to the first `?` (query,
    section 3.4) or `#` (fragment, section 3.5). Whether `java.net.URI` accepts the text is
    an oracle, `uriParses`; when it refuses, the fallback keeps everything from the first
    `/` at or after offset 8. Anything else is only trimmed. */
module UrlPath {
  import opened Wrappers
  import opened Text

  predicate IsHttpUrl(t: string) {
    StartsWith(t, "http://") || StartsWith(t, "https://")
  }

  /** Offset of the authority: just past `http://` or `https://`. */
  function AuthorityStart(t: string): nat
    requires IsHttpUrl(t)
  {
    if StartsWith(t, "http://") then 7 else 8
  }

  /** End of the authority (section 3.2 of RFC 3986): the first `/`, `?` or `#` after
      the scheme, or the end of the text. */
  function AuthorityEnd(t: string): (i: nat)
    requires IsHttpUrl(t)
    ensures AuthorityStart(t) <= i <= |t|
    ensures forall j :: AuthorityStart(t) <= j < i ==> t[j] !in {'/', '?', '#'}
    ensures i < |t| ==> t[i] in {'/', '?', '#'}
  {
    FirstOf(t, {'/', '?', '#'}, AuthorityStart(t))
  }

  /** The path component of an http(s) URL, per section 3.3 of RFC 3986: it starts where
      the authority ends and stops before the query or fragment. */
  function RfcPath(t: string): (p: string)
    requires IsHttpUrl(t)
    ensures '?' !in p && '#' !in p
    ensures p == [] || p[0] == '/'
    ensures var i := AuthorityEnd(t);
            i + |p| <= |t| && t[i..i + |p|] == p && (i + |p| == |t| || t[i + |p|] in {'?', '#'})
  {
    var i := AuthorityEnd(t);
    var e := FirstOf(t, {'?', '#'}, i);
    assert forall k :: 0 <= k < e - i ==> t[i..e][k] == t[i + k];
    t[i..e]
  }

  /** The `catch` branch: everything from the first `/` at or after offset 8, or `/` when
      there is none. The same offset is used for both schemes, and query and fragment are
      kept. */
  function FallbackPath(t: string): (p: string)
    ensures |t| > 8 && '/' in t[8..] ==>
              && 0 < |p| <= |t| - 8 && p == t[|t| - |p|..] && p[0] == '/'
              && '/' !in t[8..|t| - |p|]
    ensures !(|t| > 8 && '/' in t[8..]) ==> p == "/"
  {
    match IndexOf(t, '/', 8)
    case Some(i) =>
      assert t[8..][i - 8] == '/';
      t[i..]
    case None =>
      assert |t| > 8 ==> '/' !in t[8..];
      "/"
  }

  /** `extractPathFromUrl`: the trimmed input, reduced to its path when it is an http(s)
      URL; `uriParses` says whether `java.net.URI` accepts the trimmed text. */
  function ExtractPathFromUrl(input: string, uriParses: bool): (r: string)
    ensures !IsHttpUrl(Trim(input)) ==> r == Trim(input)
    ensures IsHttpUrl(Trim(input)) && uriParses ==> '?' !in r && '#' !in r && (r == [] || r[0] == '/')
    ensures IsHttpUrl(Trim(input)) && !uriParses ==> r == FallbackPath(Trim(input))
  {
    var trimmed := Trim(input);
    if IsHttpUrl(trimmed) then
      if uriParses then RfcPath(trimmed) else FallbackPath(trimmed)
    else
      trimmed
  }

  /** The parts of an http(s) URL, in the order they are written. */
  datatype Url = Url(secure: bool, authority: string, path: string,
                     query: Option<string>, fragment: Option<string>)

  /** A URL whose parts cannot be confused with their neighbours' delimiters, written
      without whitespace (which RFC 3986 does not allow in a URI). */
  predicate ValidUrl(u: Url) {
    && (forall i :: 0 <= i < |u.authority| ==> u.authority[i] !in {'/', '?', '#'})
    && (u.path == [] || u.path[0] == '/')
    && '?' !in u.path && '#' !in u.path
    && (u.query.Some? ==> '#' !in u.query.value)
    && NoWhitespace(u.authority) && NoWhitespace(u.path)
    && (u.query.Some? ==> NoWhitespace(u.query.value))
    && (u.fragment.Some? ==> NoWhitespace(u.fragment.value))
  }

  function Scheme(u: Url): string {
    if u.secure then "https://" else "http://"
  }

  /** The tail of the URL after the path: `?query` and `#fragment`, each when present. */
  function Tail(u: Url): string {
    (if u.query.Some? then "?" + u.query.value else "")
    + (if u.fragment.Some? then "#" + u.fragment.value else "")
  }

  /** The URL as text: scheme, `//`, authority, path, then query and fragment. */
  function Serialize(u: Url): string {
    Scheme(u) + u.authority + u.path + Tail(u)
  }

  lemma NoWhitespaceAppend(a: string, b: string)
    requires NoWhitespace(a) && NoWhitespace(b)
    ensures NoWhitespace(a + b)
  {
    assert forall i :: |a| <= i < |a + b| ==> (a + b)[i] == b[i - |a|];
  }

  lemma TailShape(u: Url)
    requires ValidUrl(u)
    ensures NoWhitespace(Tail(u))
    ensures Tail(u) == [] || Tail(u)[0] in {'?', '#'}
  {
    var q := if u.query.Some? then "?" + u.query.value else "";
    var f := if u.fragment.Some? then "#" + u.fragment.value else "";
    if u.query.Some? { NoWhitespaceAppend("?", u.query.value); }
    if u.fragment.Some? { NoWhitespaceAppend("#", u.fragment.value); }
    NoWhitespaceAppend(q, f);
  }

  lemma FirstOfIs(s: string, cs: set<char>, from: nat, r: nat)
    requires from <= r <= |s|
    requires forall j :: from <= j < r ==> s[j] !in cs
    requires r < |s| ==> s[r] in cs
    ensures FirstOf(s, cs, from) == r
    decreases r - from
  {
    if from < r {
      FirstOfIs(s, cs, from + 1, r);
    }
  }

  lemma SerializedIsHttp(u: Url)
    ensures IsHttpUrl(Serialize(u)) && AuthorityStart(Serialize(u)) == |Scheme(u)|
  {
    var t := Serialize(u);
    assert t[..|Scheme(u)|] == Scheme(u);
    if u.secure {
      assert t[4] == 's';
    }
  }

  lemma SerializedIsTrimmed(u: Url)
    requires ValidUrl(u)
    ensures Trim(Serialize(u)) == Serialize(u)
  {
    var sch := Scheme(u);
    TailShape(u);
    NoWhitespaceAppend(sch, u.authority);
    NoWhitespaceAppend(sch + u.authority, u.path);
    NoWhitespaceAppend(sch + u.authority + u.path, Tail(u));
  }

  /** A run `m` free of the characters `cs`, followed by one of them or by nothing, ends
      where the search for `cs` from its start stops. */
  lemma FirstOfRun(x: string, m: string, rest: string, cs: set<char>)
    requires forall j :: 0 <= j < |m| ==> m[j] !in cs
    requires rest == [] || rest[0] in cs
    ensures FirstOf(x + m + rest, cs, |x|) == |x| + |m|
  {
    var t := x + m + rest;
    var e := |x| + |m|;
    forall j | |x| <= j < e
      ensures t[j] !in cs
    {
      ConcatMiddle(x, m, rest, j - |x|);
    }
    if rest != [] {
      ConcatAfter(x, m, rest);
    }
    FirstOfIs(t, cs, |x|, e);
  }

  lemma ConcatMiddle(x: string, m: string, rest: string, k: nat)
    requires k < |m|
    ensures (x + m + rest)[|x| + k] == m[k]
  {
  }

  lemma ConcatAfter(x: string, m: string, rest: string)
    requires rest != []
    ensures (x + m + rest)[|x| + |m|] == rest[0]
  {
  }

  lemma SerializedAuthorityEnd(u: Url)
    requires ValidUrl(u)
    ensures IsHttpUrl(Serialize(u))
    ensures AuthorityEnd(Serialize(u)) == |Scheme(u)| + |u.authority|
  {
    SerializedIsHttp(u);
    TailShape(u);
    var rest := u.path + Tail(u);
    assert Serialize(u) == Scheme(u) + u.authority + rest;
    assert rest == [] || rest[0] in {'/', '?', '#'} by {
      if u.path != [] {
        assert rest[0] == u.path[0];
      } else {
        assert rest == Tail(u);
      }
    }
    FirstOfRun(Scheme(u), u.authority, rest, {'/', '?', '#'});
  }

  lemma SerializedPathEnd(u: Url)
    requires ValidUrl(u)
    ensures var i := |Scheme(u)| + |u.authority|;
            FirstOf(Serialize(u), {'?', '#'}, i) == i + |u.path|
  {
    TailShape(u);
    assert forall j :: 0 <= j < |u.path| ==> u.path[j] !in {'?', '#'};
    FirstOfRun(Scheme(u) + u.authority, u.path, Tail(u), {'?', '#'});
  }

  lemma SerializedRfcPath(u: Url)
    requires ValidUrl(u)
    ensures IsHttpUrl(Serialize(u)) && RfcPath(Serialize(u)) == u.path
  {
    var t := Serialize(u);
    var i := |Scheme(u)| + |u.authority|;
    SerializedAuthorityEnd(u);
    SerializedPathEnd(u);
    assert t == (Scheme(u) + u.authority) + u.path + Tail(u);
    assert t[i..i + |u.path|] == u.path;
  }

  /** The path of a serialised URL is recovered exactly: host, port, query and fragment
      are all dropped. */
  lemma ExtractPathOfSerialized(u: Url)
    requires ValidUrl(u)
    ensures ExtractPathFromUrl(Serialize(u), true) == u.path
  {
    SerializedIsTrimmed(u);
    SerializedRfcPath(u);
  }

  /** A bare path, with or without a leading `/`, query or fragment, is kept as typed. */
  lemma BarePathUnchanged(s: string, uriParses: bool)
    requires NoWhitespace(s)
    requires !IsHttpUrl(s)
    ensures ExtractPathFromUrl(s, uriParses) == s
  {
    assert Trim(s) == s;
  }

  /** Printable ASCII other than space is never whitespace. */
  lemma VisibleAscii(s: string)
    requires forall i :: 0 <= i < |s| ==> '!' <= s[i] <= '~'
    ensures NoWhitespace(s)
  {
  }

  /** Inputs the plugin's own tests check, as URLs built from their parts. */
  lemma QueryUrlValid()
    ensures ValidUrl(Url(false, "localhost:8000", "/users/123", Some("page=2"), None))
  {
    VisibleAscii("localhost:8000");
    VisibleAscii("/users/123");
    VisibleAscii("page=2");
  }

  lemma QueryUrlText()
    ensures Serialize(Url(false, "localhost:8000", "/users/123", Some("page=2"), None))
            == "http://localhost:8000/users/123?page=2"
  {
  }

  lemma FragmentUrlValid()
    ensures ValidUrl(Url(true, "example.com", "/about", Some("section=team"), Some("contact")))
  {
    VisibleAscii("example.com");
    VisibleAscii("/about");
    VisibleAscii("section=team");
    VisibleAscii("contact");
  }

  lemma FragmentUrlText()
    ensures Serialize(Url(true, "example.com", "/about", Some("section=team"), Some("contact")))
            == "https://example.com/about?section=team#contact"
  {
  }

  lemma ExtractPathExampleQuery()
    ensures ExtractPathFromUrl("http://localhost:8000/users/123?page=2", true) == "/users/123"
  {
    QueryUrlValid();
    QueryUrlText();
    ExtractPathOfSerialized(Url(false, "localhost:8000", "/users/123", Some("page=2"), None));
  }

  lemma ExtractPathExampleFragment()
    ensures ExtractPathFromUrl("https://example.com/about?section=team#contact", true) == "/about"
  {
    FragmentUrlValid();
    FragmentUrlText();
    ExtractPathOfSerialized(Url(true, "example.com", "/about", Some("section=team"), Some("contact")));
  }
}
