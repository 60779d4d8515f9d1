/** The route lookup (`findMatchingRoute`): the input and every route uri are normalised,
    then the routes are tried in listing order and the first one that matches gives the
    action. A route matches when its normalised uri equals the normalised input, or when
    the uri holds a placeholder and its compiled pattern accepts the whole input. */
module RouteLookup {
  import opened Wrappers
  import opened Text
  import opened Template
  import opened Matcher
  import opened UrlPath

  /** One entry of the route listing: its uri template, as it appears in the JSON text
      (so a `/` may be written `\/`), and its action. */
  datatype Route = Route(uri: string, action: string)

  /** Kotlin's `replace("\\/", "/")`: each `\/`, scanning left to right, becomes `/`. */
  function UnescapeSlashes(s: string): (r: string)
    ensures |r| <= |s|
    ensures '\\' !in s ==> r == s
    decreases |s|
  {
    if |s| >= 2 && s[0] == '\\' && s[1] == '/' then "/" + UnescapeSlashes(s[2..])
    else if s == [] then []
    else [s[0]] + UnescapeSlashes(s[1..])
  }

  /** A JSON encoder's optional escaping of the solidus: every `/` written as `\/`. */
  function EscapeSlashes(s: string): (r: string)
    ensures r == [] || r[0] != '/'
    ensures '/' !in s ==> r == s
    decreases |s|
  {
    if s == [] then []
    else (if s[0] == '/' then "\\/" else [s[0]]) + EscapeSlashes(s[1..])
  }

  /** Unescaping undoes the solidus escaping, whatever else the text holds. */
  lemma {:induction false} UnescapeEscape(s: string)
    ensures UnescapeSlashes(EscapeSlashes(s)) == s
    decreases |s|
  {
    if s != [] {
      var e := EscapeSlashes(s);
      var tail := EscapeSlashes(s[1..]);
      UnescapeEscape(s[1..]);
      if s[0] == '/' {
        assert e == "\\/" + tail;
        assert e[2..] == tail;
      } else {
        assert e == [s[0]] + tail;
        assert e[1..] == tail;
        assert |e| >= 2 ==> e[1] == tail[0];
        assert [s[0]] + s[1..] == s;
      }
    }
  }

  /** `removePrefix("/").removeSuffix("/")`: at most one `/` removed at each end. Where
      `s` starts with `/` exactly one character goes from the front; one goes from the back
      exactly when what is left still ends with `/`. */
  function StripSlashes(s: string): (r: string)
    ensures var i := if |s| > 0 && s[0] == '/' then 1 else 0;
            && i + |r| <= |s| && r == s[i..i + |r|]
            && (i + |r| == |s| || i + |r| == |s| - 1)
            && (i + |r| == |s| - 1 <==> |s| > i && s[|s| - 1] == '/')
  {
    assert StartsWith(s, "/") <==> |s| > 0 && s[0] == '/';
    var t := RemovePrefix(s, "/");
    assert EndsWith(t, "/") <==> |t| > 0 && t[|t| - 1] == '/';
    RemoveSuffix(t, "/")
  }

  /** Wrapping a path in at most one `/` on each side is undone by `StripSlashes`. */
  lemma StripSlashesInverse(x: string, lead: bool, trail: bool)
    requires x == [] || (x[0] != '/' && x[|x| - 1] != '/')
    ensures StripSlashes((if lead then "/" else "") + x + (if trail then "/" else "")) == x
  {
    var s := (if lead then "/" else "") + x + (if trail then "/" else "");
    var i := if lead then 1 else 0;
    assert s[i..i + |x|] == x;
  }

  /** A route uri as the plugin compares it: unescaped, then stripped of one `/` at each end. */
  function NormalizeUri(uri: string): string {
    StripSlashes(UnescapeSlashes(uri))
  }

  /** The user's input as the plugin compares it: reduced to its path, trimmed, then
      stripped of one `/` at each end. */
  function NormalizeCandidate(url: string, uriParses: bool): string {
    StripSlashes(Trim(ExtractPathFromUrl(url, uriParses)))
  }

  /** Whether one route accepts a normalised candidate, as the plugin decides it: by
      equality, or, when its uri holds a `{`, by the pattern the plugin compiles. */
  predicate RouteMatches(route: Route, candidate: string) {
    var u := NormalizeUri(route.uri);
    candidate == u || ('{' in u && Matches(Tokenize(u), candidate))
  }

  /** The same test with the corrected compilation, under which `p/{name?}` accepts `p`
      and `p/seg`. */
  predicate RouteMatchesIntended(route: Route, candidate: string) {
    var u := NormalizeUri(route.uri);
    candidate == u || ('{' in u && Matches(TokenizeIntended(u), candidate))
  }

  /** What a route accepts, stated without the matcher: its own normalised uri, or, for a
      uri with a placeholder, any instance of the template the plugin compiles. */
  lemma RouteMatchesIff(route: Route, candidate: string)
    ensures var u := NormalizeUri(route.uri);
            RouteMatches(route, candidate)
            <==> candidate == u || ('{' in u && IsInstance(Tokenize(u), candidate))
  {
    MatchesIffInstance(Tokenize(NormalizeUri(route.uri)), candidate);
  }

  /** The corrected test accepts the route's own uri or an instance of the corrected
      template, and agrees with the plugin's test for every uri whose compiled pattern
      holds no optional group. */
  lemma RouteMatchesIntendedIff(route: Route, candidate: string)
    ensures var u := NormalizeUri(route.uri);
            RouteMatchesIntended(route, candidate)
            <==> candidate == u || ('{' in u && IsInstance(TokenizeIntended(u), candidate))
    ensures Opt !in Tokenize(NormalizeUri(route.uri)) ==>
              (RouteMatchesIntended(route, candidate) <==> RouteMatches(route, candidate))
  {
    MatchesIffInstance(TokenizeIntended(NormalizeUri(route.uri)), candidate);
  }

  /** The position of the first element, in order, that `accepts` holds of. */
  function FirstIndex<T>(xs: seq<T>, accepts: T -> bool): (r: Option<nat>)
    ensures r.None? <==> forall i :: 0 <= i < |xs| ==> !accepts(xs[i])
    ensures r.Some? ==> && r.value < |xs| && accepts(xs[r.value])
                        && forall j :: 0 <= j < r.value ==> !accepts(xs[j])
    decreases |xs|
  {
    if xs == [] then None
    else if accepts(xs[0]) then Some(0)
    else
      match FirstIndex(xs[1..], accepts)
      case None => None
      case Some(i) => Some(i + 1)
  }

  /** `RouteMatches` with the candidate fixed, as a test on routes. */
  function AcceptsCandidate(candidate: string): Route -> bool {
    r => RouteMatches(r, candidate)
  }

  /** `RouteMatchesIntended` with the candidate fixed. */
  function AcceptsCandidateIntended(candidate: string): Route -> bool {
    r => RouteMatchesIntended(r, candidate)
  }

  /** The action of the first route, in listing order, that `accepts` holds of. */
  function FirstAction(routes: seq<Route>, accepts: Route -> bool): (r: Option<string>)
    ensures r.None? <==> forall i :: 0 <= i < |routes| ==> !accepts(routes[i])
    ensures r.Some? ==> exists i :: && 0 <= i < |routes| && routes[i].action == r.value
                                    && accepts(routes[i])
                                    && forall j :: 0 <= j < i ==> !accepts(routes[j])
  {
    match FirstIndex(routes, accepts)
    case None => None
    case Some(k) => Some(routes[k].action)
  }

  /** `findMatchingRoute`: the action of the first route accepting the normalised input;
      None exactly when no route accepts it. */
  function FindMatchingRoute(routes: seq<Route>, url: string, uriParses: bool): (r: Option<string>)
    ensures var c := NormalizeCandidate(url, uriParses);
            r.None? <==> forall i :: 0 <= i < |routes| ==> !RouteMatches(routes[i], c)
    ensures var c := NormalizeCandidate(url, uriParses);
            r.Some? ==> exists i :: && 0 <= i < |routes| && routes[i].action == r.value
                                    && RouteMatches(routes[i], c)
                                    && forall j :: 0 <= j < i ==> !RouteMatches(routes[j], c)
  {
    FirstAction(routes, AcceptsCandidate(NormalizeCandidate(url, uriParses)))
  }

  /** The lookup with the corrected compilation of optional placeholders. */
  function FindMatchingRouteIntended(routes: seq<Route>, url: string, uriParses: bool): (r: Option<string>)
    ensures var c := NormalizeCandidate(url, uriParses);
            r.None? <==> forall i :: 0 <= i < |routes| ==> !RouteMatchesIntended(routes[i], c)
    ensures var c := NormalizeCandidate(url, uriParses);
            r.Some? ==> exists i :: && 0 <= i < |routes| && routes[i].action == r.value
                                    && RouteMatchesIntended(routes[i], c)
                                    && forall j :: 0 <= j < i ==> !RouteMatchesIntended(routes[j], c)
  {
    FirstAction(routes, AcceptsCandidateIntended(NormalizeCandidate(url, uriParses)))
  }

  /** Two tests that agree on every element find the same first position. */
  lemma {:induction false} FirstIndexSame<T>(xs: seq<T>, f: T -> bool, g: T -> bool)
    requires forall i :: 0 <= i < |xs| ==> f(xs[i]) == g(xs[i])
    ensures FirstIndex(xs, f) == FirstIndex(xs, g)
    decreases |xs|
  {
    if xs != [] {
      assert f(xs[0]) == g(xs[0]);
      assert forall i :: 0 <= i < |xs[1..]| ==> xs[1..][i] == xs[i + 1];
      FirstIndexSame(xs[1..], f, g);
    }
  }

  /** Two tests that agree on every route give the same action. */
  lemma FirstActionSame(routes: seq<Route>, f: Route -> bool, g: Route -> bool)
    requires forall i :: 0 <= i < |routes| ==> f(routes[i]) == g(routes[i])
    ensures FirstAction(routes, f) == FirstAction(routes, g)
  {
    FirstIndexSame(routes, f, g);
  }

  /** When no listed uri compiles to a pattern with an optional group, the plugin's lookup
      and the corrected one give the same answer for every input. */
  lemma LookupsAgree(routes: seq<Route>, url: string, uriParses: bool)
    requires forall i :: 0 <= i < |routes| ==> Opt !in Tokenize(NormalizeUri(routes[i].uri))
    ensures FindMatchingRoute(routes, url, uriParses) == FindMatchingRouteIntended(routes, url, uriParses)
  {
    var c := NormalizeCandidate(url, uriParses);
    var f, g := AcceptsCandidate(c), AcceptsCandidateIntended(c);
    forall i | 0 <= i < |routes|
      ensures f(routes[i]) == g(routes[i])
    {
      RouteMatchesIntendedIff(routes[i], c);
    }
    FirstActionSame(routes, f, g);
  }

  /** Elements after the first accepted one are never consulted. */
  lemma {:induction false} FirstIndexAppendFound<T>(xs: seq<T>, extra: seq<T>, accepts: T -> bool)
    requires FirstIndex(xs, accepts).Some?
    ensures FirstIndex(xs + extra, accepts) == FirstIndex(xs, accepts)
    decreases |xs|
  {
    var all := xs + extra;
    assert all[0] == xs[0];
    if !accepts(xs[0]) {
      assert all[1..] == xs[1..] + extra;
      FirstIndexAppendFound(xs[1..], extra, accepts);
    }
  }

  /** A sequence with nothing accepted hands the search on to what follows it. */
  lemma FirstIndexAppendMissed<T>(xs: seq<T>, extra: seq<T>, accepts: T -> bool)
    requires FirstIndex(xs, accepts).None?
    ensures FirstIndex(xs + extra, accepts)
            == match FirstIndex(extra, accepts)
               case Some(k) => Some(|xs| + k)
               case None => None
  {
    match FirstIndex(extra, accepts)
    case None => FirstIndexAppendNone(xs, extra, accepts);
    case Some(k) => FirstIndexAppendShift(xs, extra, accepts, k);
  }

  /** Nothing accepted on either side: nothing accepted in the whole. */
  lemma FirstIndexAppendNone<T>(xs: seq<T>, extra: seq<T>, accepts: T -> bool)
    requires FirstIndex(xs, accepts).None? && FirstIndex(extra, accepts).None?
    ensures FirstIndex(xs + extra, accepts).None?
  {
    var all := xs + extra;
    forall i | 0 <= i < |all|
      ensures !accepts(all[i])
    {
      if i < |xs| {
        assert all[i] == xs[i];
      } else {
        assert all[i] == extra[i - |xs|];
      }
    }
  }

  /** Nothing accepted in `xs`: what is found in `extra` is found shifted by `|xs|`. */
  lemma FirstIndexAppendShift<T>(xs: seq<T>, extra: seq<T>, accepts: T -> bool, k: nat)
    requires FirstIndex(xs, accepts).None? && FirstIndex(extra, accepts) == Some(k)
    ensures FirstIndex(xs + extra, accepts) == Some(|xs| + k)
  {
    var all := xs + extra;
    forall j | 0 <= j < |xs| + k
      ensures !accepts(all[j])
    {
      if j < |xs| {
        assert all[j] == xs[j];
      } else {
        assert all[j] == extra[j - |xs|];
      }
    }
    assert all[|xs| + k] == extra[k];
    FirstIndexIs(all, accepts, |xs| + k);
  }

  /** An accepted position with nothing accepted before it is the one found. */
  lemma FirstIndexIs<T>(xs: seq<T>, accepts: T -> bool, i: nat)
    requires i < |xs| && accepts(xs[i])
    requires forall j :: 0 <= j < i ==> !accepts(xs[j])
    ensures FirstIndex(xs, accepts) == Some(i)
  {
    var r := FirstIndex(xs, accepts);
    assert r.Some?;
    assert !(r.value < i);
  }

  /** Listing more routes after a matching one never changes the lookup, and routes
      listed after a list that matches nothing are reached at their shifted positions. */
  lemma FirstIndexAppend<T>(xs: seq<T>, extra: seq<T>, accepts: T -> bool)
    ensures FirstIndex(xs + extra, accepts)
            == match FirstIndex(xs, accepts)
               case Some(i) => Some(i)
               case None =>
                 match FirstIndex(extra, accepts)
                 case Some(k) => Some(|xs| + k)
                 case None => None
  {
    if FirstIndex(xs, accepts).Some? {
      FirstIndexAppendFound(xs, extra, accepts);
    } else {
      FirstIndexAppendMissed(xs, extra, accepts);
    }
  }

  /** A route whose normalised uri is the normalised input `c` gives its action unless
      an earlier route accepts `c` first (`FindMatchingRoute` is this search on `c`). */
  lemma ExactRouteWins(routes: seq<Route>, c: string, i: nat)
    requires i < |routes| && NormalizeUri(routes[i].uri) == c
    requires forall j :: 0 <= j < i ==> !RouteMatches(routes[j], c)
    ensures FirstAction(routes, AcceptsCandidate(c)) == Some(routes[i].action)
  {
    assert AcceptsCandidate(c)(routes[i]);
    var k := FirstIndex(routes, AcceptsCandidate(c));
    assert k.Some?;
    assert k.value == i;
  }

  /** A uri with no `\` and no `/` at either end is compared as written. */
  lemma NormalizeUriPlain(u: string)
    requires '\\' !in u
    requires u == [] || (u[0] != '/' && u[|u| - 1] != '/')
    ensures NormalizeUri(u) == u
  {
    StripSlashesInverse(u, false, false);
    assert "" + u + "" == u;
  }

  /** A route `p/{name}` listed as written (no escaping, no slash at either end) accepts
      the input `p/` followed by any one segment, e.g. `users/{id}` accepts `users/123`. */
  lemma RequiredRouteAcceptsSegment(p: string, name: string, seg: string, action: string)
    requires ValidName(name) && '{' !in p && '}' !in p
    requires '\\' !in p && '\\' !in name
    requires p != [] && p[0] != '/'
    requires IsSegment(seg)
    ensures RouteMatches(Route(p + "/{" + name + "}", action), p + "/" + seg)
  {
    var u := p + "/{" + name + "}";
    var c := p + "/" + seg;
    assert '\\' !in u;
    assert u[0] == p[0] && u[|u| - 1] == '}';
    NormalizeUriPlain(u);
    assert u[|p| + 1] == '{';
    TrailingRequiredTokens(p, name);
    MatchesLitsReq(p + "/", c);
    assert c[..|p + "/"|] == p + "/";
    assert c[|p + "/"|..] == seg;
    assert Matches(Tokenize(u), c);
  }

  /** A bare path typed without whitespace and without `/` at its ends reaches the
      lookup as typed. */
  lemma BareCandidate(s: string, uriParses: bool)
    requires NoWhitespace(s) && !IsHttpUrl(s)
    requires s == [] || (s[0] != '/' && s[|s| - 1] != '/')
    ensures NormalizeCandidate(s, uriParses) == s
  {
    BarePathUnchanged(s, uriParses);
    assert Trim(s) == s;
    StripSlashesInverse(s, false, false);
    assert "" + s + "" == s;
  }

  /** With a single route listed, the lookup gives its action exactly when it accepts the
      normalised input. */
  lemma SingleRouteLookup(route: Route, url: string, uriParses: bool)
    ensures var c := NormalizeCandidate(url, uriParses);
            FindMatchingRoute([route], url, uriParses)
            == if RouteMatches(route, c) then Some(route.action) else None
    ensures var c := NormalizeCandidate(url, uriParses);
            FindMatchingRouteIntended([route], url, uriParses)
            == if RouteMatchesIntended(route, c) then Some(route.action) else None
  {
    var c := NormalizeCandidate(url, uriParses);
    FirstIndexOne(route, AcceptsCandidate(c));
    FirstIndexOne(route, AcceptsCandidateIntended(c));
  }

  /** A one-element sequence is searched by testing its element. */
  lemma FirstIndexOne<T>(x: T, accepts: T -> bool)
    ensures FirstIndex([x], accepts) == if accepts(x) then Some(0) else None
  {
    assert [x][1..] == [];
  }

  /** How `p/seg` sits against the shapes the two patterns for `p/{name?}` accept. */
  lemma SegmentInputShape(p: string, seg: string)
    requires IsSegment(seg)
    ensures var c := p + "/" + seg;
            && c != p && c != p + "/" && !StartsWith(c, p + "//")
            && StartsWith(c, p + "/") && c[|p| + 1..] == seg
  {
    var c := p + "/" + seg;
    assert c[..|p| + 1] == p + "/" && c[|p| + 1..] == seg;
    assert |c| > |p| + 1;
    assert !StartsWith(c, p + "//") by { assert c[|p| + 1] == seg[0]; }
  }

  /** Route `p/{name?}` under both tests, for the input `p/seg`. */
  lemma OptionalRouteOnSegment(p: string, name: string, seg: string, action: string)
    requires ValidName(name) && '{' !in p && '}' !in p && '\\' !in p && '\\' !in name
    requires p != [] && p[0] != '/'
    requires IsSegment(seg) && '{' !in seg
    ensures !RouteMatches(Route(p + "/{" + name + "?}", action), p + "/" + seg)
    ensures RouteMatchesIntended(Route(p + "/{" + name + "?}", action), p + "/" + seg)
  {
    var u := p + "/{" + name + "?}";
    var c := p + "/" + seg;
    OptionalUriPlain(p, name);
    SegmentInputShape(p, seg);
    assert c != u by { assert '{' in u && '{' !in c; }
    OptionalPlaceholderAsWritten(p, name, c);
    OptionalPlaceholderIntended(p, name, c);
  }

  /** Route `p/{name?}` under both tests, for the input `p//seg`. */
  lemma OptionalRouteOnDoubleSlash(p: string, name: string, seg: string, action: string)
    requires ValidName(name) && '{' !in p && '}' !in p && '\\' !in p && '\\' !in name
    requires p != [] && p[0] != '/'
    requires IsSegment(seg) && '{' !in seg
    ensures RouteMatches(Route(p + "/{" + name + "?}", action), p + "//" + seg)
    ensures !RouteMatchesIntended(Route(p + "/{" + name + "?}", action), p + "//" + seg)
  {
    var u := p + "/{" + name + "?}";
    var c := p + "//" + seg;
    OptionalUriPlain(p, name);
    assert c[..|p| + 2] == p + "//" && c[|p| + 2..] == seg;
    assert c[|p| + 1..] == "/" + seg;
    assert c != u by { assert '{' in u && '{' !in c; }
    OptionalPlaceholderAsWritten(p, name, c);
    OptionalPlaceholderIntended(p, name, c);
    assert c != p;
  }

  /** The finding through the whole lookup: with only `p/{name?}` listed, the plugin finds
      nothing for `p/seg` (`posts/5` for `posts/{id?}`), where the corrected lookup finds
      the route. */
  lemma OptionalRouteMissesSegment(p: string, name: string, seg: string, action: string, uriParses: bool)
    requires ValidName(name) && '{' !in p && '}' !in p && '\\' !in p && '\\' !in name
    requires p != [] && p[0] != '/'
    requires IsSegment(seg) && '{' !in seg
    requires NoWhitespace(p + "/" + seg) && !IsHttpUrl(p + "/" + seg)
    ensures FindMatchingRoute([Route(p + "/{" + name + "?}", action)], p + "/" + seg, uriParses) == None
    ensures FindMatchingRouteIntended([Route(p + "/{" + name + "?}", action)], p + "/" + seg, uriParses)
            == Some(action)
  {
    var c := p + "/" + seg;
    assert c[0] == p[0] && c[|c| - 1] == seg[|seg| - 1];
    BareCandidate(c, uriParses);
    OptionalRouteOnSegment(p, name, seg, action);
    SingleRouteLookup(Route(p + "/{" + name + "?}", action), c, uriParses);
  }

  /** And the other way round: the plugin's lookup sends `p//seg` to `p/{name?}`, where the
      corrected lookup finds nothing. */
  lemma OptionalRouteTakesDoubleSlash(p: string, name: string, seg: string, action: string, uriParses: bool)
    requires ValidName(name) && '{' !in p && '}' !in p && '\\' !in p && '\\' !in name
    requires p != [] && p[0] != '/'
    requires IsSegment(seg) && '{' !in seg
    requires NoWhitespace(p + "//" + seg) && !IsHttpUrl(p + "//" + seg)
    ensures FindMatchingRoute([Route(p + "/{" + name + "?}", action)], p + "//" + seg, uriParses)
            == Some(action)
    ensures FindMatchingRouteIntended([Route(p + "/{" + name + "?}", action)], p + "//" + seg, uriParses)
            == None
  {
    var c := p + "//" + seg;
    assert c[0] == p[0] && c[|c| - 1] == seg[|seg| - 1];
    BareCandidate(c, uriParses);
    OptionalRouteOnDoubleSlash(p, name, seg, action);
    SingleRouteLookup(Route(p + "/{" + name + "?}", action), c, uriParses);
  }

  /** `p//` typed as a bare path loses only its last `/` before the comparison. */
  lemma TrailingDoubleSlashCandidate(p: string, uriParses: bool)
    requires p != [] && p[0] != '/'
    requires NoWhitespace(p + "//") && !IsHttpUrl(p + "//")
    ensures NormalizeCandidate(p + "//", uriParses) == p + "/"
  {
    var s := p + "//";
    BarePathUnchanged(s, uriParses);
    assert Trim(s) == s;
    assert s[0] == p[0] && s[|s| - 1] == '/';
    assert s[..|s| - 1] == p + "/";
  }

  /** Route `p/{name?}` under both tests, for the input `p/`: the plugin's group matches
      empty, the corrected pattern wants `p` or a segment after the `/`. */
  lemma OptionalRouteOnTrailingSlash(p: string, name: string, action: string)
    requires ValidName(name) && '{' !in p && '}' !in p && '\\' !in p && '\\' !in name
    requires p != [] && p[0] != '/'
    ensures RouteMatches(Route(p + "/{" + name + "?}", action), p + "/")
    ensures !RouteMatchesIntended(Route(p + "/{" + name + "?}", action), p + "/")
  {
    var u := p + "/{" + name + "?}";
    var c := p + "/";
    OptionalUriPlain(p, name);
    assert c != u by { assert '{' in u && '{' !in c; }
    OptionalPlaceholderAsWritten(p, name, c);
    OptionalPlaceholderIntended(p, name, c);
    assert c[|p| + 1..] == [];
    assert c != p;
  }

  /** The plugin's lookup also sends `p//` to `p/{name?}`: the input is compared as `p/`,
      which the group accepts empty. The corrected lookup finds nothing. */
  lemma OptionalRouteTakesTrailingDoubleSlash(p: string, name: string, action: string, uriParses: bool)
    requires ValidName(name) && '{' !in p && '}' !in p && '\\' !in p && '\\' !in name
    requires p != [] && p[0] != '/'
    requires NoWhitespace(p + "//") && !IsHttpUrl(p + "//")
    ensures FindMatchingRoute([Route(p + "/{" + name + "?}", action)], p + "//", uriParses)
            == Some(action)
    ensures FindMatchingRouteIntended([Route(p + "/{" + name + "?}", action)], p + "//", uriParses)
            == None
  {
    TrailingDoubleSlashCandidate(p, uriParses);
    OptionalRouteOnTrailingSlash(p, name, action);
    SingleRouteLookup(Route(p + "/{" + name + "?}", action), p + "//", uriParses);
  }

  /** A route `p/{name?}` listed as written is compared as written. */
  lemma OptionalUriPlain(p: string, name: string)
    requires '\\' !in p && '\\' !in name && p != [] && p[0] != '/'
    ensures NormalizeUri(p + "/{" + name + "?}") == p + "/{" + name + "?}"
  {
    var u := p + "/{" + name + "?}";
    assert '\\' !in u;
    assert u[0] == p[0] && u[|u| - 1] == '}';
    NormalizeUriPlain(u);
  }
}
