/** Full-string matching of a compiled route template, standing in for
    `normalizedUrl.matches(Regex("^$pattern$"))`: a literal token matches its character,
    `Req` (`[^/]+`) one or more characters other than `/`, and `Opt` (`(/[^/]+)?`) either
    nothing or a `/` followed by such characters. */
module Matcher {
  import opened Text
  import opened Template

  /** One path segment: non-empty and without `/`. */
  predicate IsSegment(p: string) {
    |p| > 0 && '/' !in p
  }

  /** Whether all of `s` matches the token sequence. */
  function Matches(ts: seq<Tok>, s: string): bool
    decreases |ts|, 0, 0
  {
    if ts == [] then s == []
    else match ts[0]
      case Lit(c) => |s| > 0 && s[0] == c && Matches(ts[1..], s[1..])
      case Req => SegmentThen(ts[1..], s, 1)
      case Opt => Matches(ts[1..], s) || (|s| > 0 && s[0] == '/' && SegmentThen(ts[1..], s[1..], 1))
  }

  /** Whether some segment `s[..m]` with `k <= m` is followed by a match of `rest`; the
      caller has already seen that `s[..k - 1]` holds no `/`. */
  function SegmentThen(rest: seq<Tok>, s: string, k: nat): bool
    requires 1 <= k
    decreases |rest|, 1, |s| - k
  {
    if k > |s| || s[k - 1] == '/' then false
    else Matches(rest, s[k..]) || SegmentThen(rest, s, k + 1)
  }

  /** The text one token may stand for. */
  predicate PieceFits(t: Tok, p: string) {
    match t
    case Lit(c) => p == [c]
    case Req => IsSegment(p)
    case Opt => p == [] || (p[0] == '/' && IsSegment(p[1..]))
  }

  /** One piece of text per token, each allowed by its token. */
  predicate Fits(ts: seq<Tok>, pieces: seq<string>) {
    |pieces| == |ts| && forall i :: 0 <= i < |ts| ==> PieceFits(ts[i], pieces[i])
  }

  function Flatten(pieces: seq<string>): string
    decreases |pieces|
  {
    if pieces == [] then [] else pieces[0] + Flatten(pieces[1..])
  }

  /** The language of a token sequence, stated without any search: `s` can be cut into
      one fitting piece per token. */
  ghost predicate IsInstance(ts: seq<Tok>, s: string) {
    exists pieces :: Fits(ts, pieces) && Flatten(pieces) == s
  }

  lemma {:induction false} SegmentReach(rest: seq<Tok>, s: string, k: nat, m: nat)
    requires 1 <= k <= m <= |s|
    requires '/' !in s[..m]
    requires Matches(rest, s[m..])
    ensures SegmentThen(rest, s, k)
    decreases m - k
  {
    assert s[k - 1] == s[..m][k - 1];
    if k < m {
      SegmentReach(rest, s, k + 1, m);
    }
  }

  lemma {:induction false} SegmentWitness(rest: seq<Tok>, s: string, k: nat)
    requires 1 <= k
    requires k - 1 <= |s| && '/' !in s[..k - 1]
    requires SegmentThen(rest, s, k)
    ensures exists m :: k <= m <= |s| && '/' !in s[..m] && Matches(rest, s[m..])
    decreases |s| - k
  {
    assert s[..k] == s[..k - 1] + [s[k - 1]];
    if !Matches(rest, s[k..]) {
      SegmentWitness(rest, s, k + 1);
    }
  }

  lemma FlattenCons(p: string, pieces: seq<string>)
    ensures Flatten([p] + pieces) == p + Flatten(pieces)
  {
    assert ([p] + pieces)[1..] == pieces;
  }

  /** One fitting piece in front of a match of the rest is a match of the whole. */
  lemma MatchesStep(t: Tok, p: string, rest: seq<Tok>, tail: string)
    requires PieceFits(t, p) && Matches(rest, tail)
    ensures Matches([t] + rest, p + tail)
  {
    var ts := [t] + rest;
    var s := p + tail;
    assert ts[0] == t && ts[1..] == rest;
    match t
    case Lit(c) =>
      assert s[1..] == tail;
    case Req =>
      assert s[..|p|] == p && s[|p|..] == tail;
      SegmentReach(rest, s, 1, |p|);
    case Opt =>
      if p == [] {
        assert s == tail;
      } else {
        OptStep(p, rest, tail);
      }
  }

  lemma OptStep(p: string, rest: seq<Tok>, tail: string)
    requires p != [] && p[0] == '/' && IsSegment(p[1..]) && Matches(rest, tail)
    ensures |p + tail| > 0 && (p + tail)[0] == '/' && SegmentThen(rest, (p + tail)[1..], 1)
  {
    var t := (p + tail)[1..];
    assert t == p[1..] + tail;
    assert t[..|p| - 1] == p[1..] && t[|p| - 1..] == tail;
    SegmentReach(rest, t, 1, |p| - 1);
  }

  /** Every fitting cut of `s` is found by the matcher. */
  lemma {:induction false} InstanceMatches(ts: seq<Tok>, pieces: seq<string>)
    requires Fits(ts, pieces)
    ensures Matches(ts, Flatten(pieces))
    decreases |ts|
  {
    if ts != [] {
      assert Fits(ts[1..], pieces[1..]);
      InstanceMatches(ts[1..], pieces[1..]);
      MatchesStep(ts[0], pieces[0], ts[1..], Flatten(pieces[1..]));
      assert ts == [ts[0]] + ts[1..];
    }
  }

  /** A fitting piece in front of a fitting cut of the rest is a fitting cut. */
  lemma ConsInstance(t: Tok, p: string, rest: seq<Tok>, ps: seq<string>)
    requires PieceFits(t, p) && Fits(rest, ps)
    ensures Fits([t] + rest, [p] + ps)
    ensures IsInstance([t] + rest, p + Flatten(ps))
  {
    FlattenCons(p, ps);
    assert forall i :: 1 <= i < |rest| + 1 ==> ([t] + rest)[i] == rest[i - 1] && ([p] + ps)[i] == ps[i - 1];
  }

  /** A segment `s[..m]` in front of a fitting cut of `s[m..]` makes `s` an instance of
      `Req` then the rest. */
  lemma ReqCut(rest: seq<Tok>, s: string, m: nat, ps: seq<string>)
    requires 1 <= m <= |s| && '/' !in s[..m]
    requires Fits(rest, ps) && Flatten(ps) == s[m..]
    ensures IsInstance([Req] + rest, s)
  {
    ConsInstance(Req, s[..m], rest, ps);
    assert s[..m] + s[m..] == s;
  }

  /** `/` and a segment `s[1..][..m]` in front of a fitting cut of the remainder make `s`
      an instance of `Opt` then the rest. */
  lemma OptCut(rest: seq<Tok>, s: string, m: nat, ps: seq<string>)
    requires |s| > 0 && s[0] == '/'
    requires 1 <= m <= |s| - 1 && '/' !in s[1..][..m]
    requires Fits(rest, ps) && Flatten(ps) == s[1..][m..]
    ensures IsInstance([Opt] + rest, s)
  {
    var p := s[..m + 1];
    assert p[0] == '/' && p[1..] == s[1..][..m];
    ConsInstance(Opt, p, rest, ps);
    assert p + s[1..][m..] == s;
  }

  /** Every string the matcher accepts can be cut into fitting pieces. */
  lemma {:induction false} MatchesInstance(ts: seq<Tok>, s: string)
    requires Matches(ts, s)
    ensures IsInstance(ts, s)
    decreases |ts|
  {
    if ts == [] {
      assert Fits([], []) && Flatten([]) == s;
    } else {
      var rest := ts[1..];
      assert ts == [ts[0]] + rest;
      match ts[0]
      case Lit(c) =>
        MatchesInstance(rest, s[1..]);
        var ps :| Fits(rest, ps) && Flatten(ps) == s[1..];
        ConsInstance(Lit(c), [c], rest, ps);
        assert [c] + s[1..] == s;
      case Req =>
        SegmentWitness(rest, s, 1);
        var m :| 1 <= m <= |s| && '/' !in s[..m] && Matches(rest, s[m..]);
        MatchesInstance(rest, s[m..]);
        var ps :| Fits(rest, ps) && Flatten(ps) == s[m..];
        ReqCut(rest, s, m, ps);
      case Opt =>
        if Matches(rest, s) {
          MatchesInstance(rest, s);
          var ps :| Fits(rest, ps) && Flatten(ps) == s;
          ConsInstance(Opt, [], rest, ps);
          assert [] + s == s;
        } else {
          var t := s[1..];
          SegmentWitness(rest, t, 1);
          var m :| 1 <= m <= |t| && '/' !in t[..m] && Matches(rest, t[m..]);
          MatchesInstance(rest, t[m..]);
          var ps :| Fits(rest, ps) && Flatten(ps) == t[m..];
          OptCut(rest, s, m, ps);
        }
    }
  }

  /** The matcher accepts exactly the instances of the template: the strings that cut
      into one piece per token, each allowed by its token. */
  lemma MatchesIffInstance(ts: seq<Tok>, s: string)
    ensures Matches(ts, s) <==> IsInstance(ts, s)
  {
    if Matches(ts, s) {
      MatchesInstance(ts, s);
    }
    if IsInstance(ts, s) {
      var pieces :| Fits(ts, pieces) && Flatten(pieces) == s;
      InstanceMatches(ts, pieces);
    }
  }

  /** Literal tokens consume exactly their own characters. */
  lemma {:induction false} MatchesLits(p: string, rest: seq<Tok>, s: string)
    ensures Matches(Lits(p) + rest, s) <==> StartsWith(s, p) && Matches(rest, s[|p|..])
    decreases |p|
  {
    var ts := Lits(p) + rest;
    if p == [] {
      assert ts == rest && s[..0] == p && s[0..] == s;
    } else {
      assert ts[0] == Lit(p[0]) && ts[1..] == Lits(p[1..]) + rest;
      if |s| > 0 {
        MatchesLits(p[1..], rest, s[1..]);
        if StartsWith(s, p) {
          assert s[0] == s[..|p|][0] == p[0];
          assert s[1..][..|p| - 1] == s[..|p|][1..] == p[1..];
          assert s[1..][|p| - 1..] == s[|p|..];
        }
        if s[0] == p[0] && StartsWith(s[1..], p[1..]) {
          assert s[..|p|] == [s[0]] + s[1..][..|p| - 1] == p;
          assert s[1..][|p| - 1..] == s[|p|..];
        }
      }
    }
  }

  /** A lone `Req` accepts exactly one segment. */
  lemma MatchesReqAlone(s: string)
    ensures Matches([Req], s) <==> IsSegment(s)
  {
    MatchesIffInstance([Req], s);
    if IsInstance([Req], s) {
      var ps :| Fits([Req], ps) && Flatten(ps) == s;
      FlattenCons(ps[0], []);
      assert ps == [ps[0]] + [];
    }
    if IsSegment(s) {
      FlattenCons(s, []);
      assert Fits([Req], [s]);
    }
  }

  /** A lone `Opt` accepts nothing, or `/` followed by one segment. */
  lemma MatchesOptAlone(s: string)
    ensures Matches([Opt], s) <==> s == [] || (s[0] == '/' && IsSegment(s[1..]))
  {
    MatchesIffInstance([Opt], s);
    if IsInstance([Opt], s) {
      var ps :| Fits([Opt], ps) && Flatten(ps) == s;
      FlattenCons(ps[0], []);
      assert ps == [ps[0]] + [];
    }
    if s == [] || (s[0] == '/' && IsSegment(s[1..])) {
      FlattenCons(s, []);
      assert Fits([Opt], [s]);
    }
  }

  /** Literal text then a trailing `Req`: the text, then exactly one more segment. */
  lemma MatchesLitsReq(p: string, c: string)
    ensures Matches(Lits(p) + [Req], c) <==> StartsWith(c, p) && IsSegment(c[|p|..])
  {
    MatchesLits(p, [Req], c);
    if StartsWith(c, p) {
      MatchesReqAlone(c[|p|..]);
    }
  }

  /** Literal text then a trailing `Opt`: the text alone, or the text, `/` and one more
      segment. */
  lemma MatchesLitsOpt(p: string, c: string)
    ensures Matches(Lits(p) + [Opt], c) <==> c == p || (StartsWith(c, p + "/") && IsSegment(c[|p| + 1..]))
  {
    MatchesLits(p, [Opt], c);
    if StartsWith(c, p) {
      var t := c[|p|..];
      MatchesOptAlone(t);
      assert c == p + t;
      if t != [] {
        assert t[1..] == c[|p| + 1..];
        assert StartsWith(c, p + "/") <==> t[0] == '/';
      }
    } else {
      assert c != p;
      assert !StartsWith(c, p + "/");
    }
  }

  /** `p/{name}`, as the plugin compiles it, accepts `p/` and exactly one segment after:
      `users/{id}` takes `users/123` but neither `users` nor `users/123/edit`. */
  lemma TrailingRequiredMatches(p: string, name: string, c: string)
    requires ValidName(name) && '{' !in p && '}' !in p
    ensures Matches(Tokenize(p + "/{" + name + "}"), c) <==> StartsWith(c, p + "/") && IsSegment(c[|p| + 1..])
  {
    TrailingRequiredTokens(p, name);
    MatchesLitsReq(p + "/", c);
  }

  /** `p/{name?}` as written: the template's own `/` stays mandatory in front of the
      optional group, so only `p/` and `p//seg` are accepted; `p` and `p/seg` are not. */
  lemma OptionalPlaceholderAsWritten(p: string, name: string, c: string)
    requires ValidName(name) && '{' !in p && '}' !in p
    ensures Matches(Tokenize(p + "/{" + name + "?}"), c)
            <==> c == p + "/" || (StartsWith(c, p + "//") && IsSegment(c[|p| + 2..]))
  {
    TrailingOptionalTokens(p, name);
    MatchesLitsOpt(p + "/", c);
    assert p + "/" + "/" == p + "//";
  }

  /** `p/{name?}` as intended: `p` alone, or `p/` and one segment. */
  lemma OptionalPlaceholderIntended(p: string, name: string, c: string)
    requires ValidName(name) && '{' !in p && '}' !in p
    ensures Matches(TokenizeIntended(p + "/{" + name + "?}"), c)
            <==> c == p || (StartsWith(c, p + "/") && IsSegment(c[|p| + 1..]))
  {
    TrailingOptionalTokens(p, name);
    MatchesLitsOpt(p, c);
  }

  /** A segment followed by a match of the rest matches `Req` then the rest. */
  lemma MatchesReqThen(rest: seq<Tok>, seg: string, t: string)
    requires IsSegment(seg) && Matches(rest, t)
    ensures Matches([Req] + rest, seg + t)
  {
    var s := seg + t;
    assert ([Req] + rest)[0] == Req && ([Req] + rest)[1..] == rest;
    assert s[..|seg|] == seg && s[|seg|..] == t;
    SegmentReach(rest, s, 1, |seg|);
  }

  /** The plugin's own test template `users/{id}` takes `users/123`... */
  lemma UsersTemplateAccepts()
    ensures Matches(Tokenize("users/{id}"), "users/123")
  {
    assert "users" + "/{" + "id" + "}" == "users/{id}";
    assert ValidName("id");
    TrailingRequiredMatches("users", "id", "users/123");
    assert StartsWith("users/123", "users/");
  }

  /** ...but not `users` alone... */
  lemma UsersTemplateNeedsId()
    ensures !Matches(Tokenize("users/{id}"), "users")
  {
    assert "users" + "/{" + "id" + "}" == "users/{id}";
    assert ValidName("id");
    TrailingRequiredMatches("users", "id", "users");
  }

  /** ...nor a second segment. */
  lemma UsersTemplateOneSegment()
    ensures !Matches(Tokenize("users/{id}"), "users/123/edit")
  {
    assert "users" + "/{" + "id" + "}" == "users/{id}";
    assert ValidName("id");
    TrailingRequiredMatches("users", "id", "users/123/edit");
    assert "users/123/edit"[|"users"| + 1..][3] == '/';
  }

  /** `posts/{id?}`: the plugin's pattern rejects both `posts` and `posts/5`. */
  lemma PostsOptionalAsWritten()
    ensures !Matches(Tokenize("posts/{id?}"), "posts")
    ensures !Matches(Tokenize("posts/{id?}"), "posts/5")
  {
    assert "posts" + "/{" + "id" + "?}" == "posts/{id?}";
    assert ValidName("id");
    OptionalPlaceholderAsWritten("posts", "id", "posts");
    OptionalPlaceholderAsWritten("posts", "id", "posts/5");
  }

  /** `posts/{id?}`: the intended pattern accepts `posts`... */
  lemma PostsOptionalIntendedBare()
    ensures Matches(TokenizeIntended("posts/{id?}"), "posts")
  {
    assert "posts" + "/{" + "id" + "?}" == "posts/{id?}";
    assert ValidName("id");
    TrailingOptionalTokens("posts", "id");
    MatchesLitsOpt("posts", "posts");
  }

  /** With the correction, `p/{name?}` takes `p/` followed by any one segment. */
  lemma OptionalIntendedTakesSegment(p: string, name: string, seg: string)
    requires ValidName(name) && '{' !in p && '}' !in p
    requires IsSegment(seg)
    ensures Matches(TokenizeIntended(p + "/{" + name + "?}"), p + "/" + seg)
  {
    var c := p + "/" + seg;
    OptionalPlaceholderIntended(p, name, c);
    assert c[..|p| + 1] == p + "/";
    assert c[|p| + 1..] == seg;
  }

  /** ...and `posts/5`. */
  lemma PostsOptionalIntendedWithId()
    ensures Matches(TokenizeIntended("posts/{id?}"), "posts/5")
  {
    assert "posts" + "/{" + "id" + "?}" == "posts/{id?}";
    assert "posts" + "/" + "5" == "posts/5";
    assert ValidName("id") && IsSegment("5");
    OptionalIntendedTakesSegment("posts", "id", "5");
  }

  /** Two required placeholders between literal parts take one segment each. */
  lemma MatchesTwoRequired(a: string, b: string, s1: string, s2: string)
    requires IsSegment(s1) && IsSegment(s2)
    ensures Matches(Lits(a) + ([Req] + (Lits(b) + [Req])), a + (s1 + (b + s2)))
  {
    var tail := Lits(b) + [Req];
    var t := b + s2;
    MatchesLitsReq(b, t);
    assert t[..|b|] == b && t[|b|..] == s2;
    MatchesReqThen(tail, s1, t);
    var c := a + (s1 + t);
    MatchesLits(a, [Req] + tail, c);
    assert c[..|a|] == a && c[|a|..] == s1 + t;
  }

  /** A template with two required placeholders, `a{n1}b{n2}`, takes `a`, one segment,
      `b` and another segment. */
  lemma TwoRequiredAccepts(a: string, n1: string, b: string, n2: string, s1: string, s2: string)
    requires ValidName(n1) && ValidName(n2)
    requires '{' !in a && '}' !in a && '{' !in b && '}' !in b
    requires IsSegment(s1) && IsSegment(s2)
    ensures Matches(Tokenize(a + ("{" + n1 + "}") + b + ("{" + n2 + "}")), a + (s1 + (b + s2)))
  {
    TwoRequiredTokens(a, n1, b, n2);
    MatchesTwoRequired(a, b, s1, s2);
  }

  lemma PostsCommentsSpelling()
    ensures "posts/" + ("{" + "id" + "}") + "/comments/" + ("{" + "comment" + "}") == "posts/{id}/comments/{comment}"
    ensures "posts/" + ("456" + ("/comments/" + "789")) == "posts/456/comments/789"
  {
  }

  /** The nested resource `posts/{id}/comments/{comment}` takes `posts/456/comments/789`. */
  lemma PostsCommentsTemplateAccepts()
    ensures Matches(Tokenize("posts/{id}/comments/{comment}"), "posts/456/comments/789")
  {
    PostsCommentsSpelling();
    assert ValidName("id") && ValidName("comment");
    assert IsSegment("456") && IsSegment("789");
    TwoRequiredAccepts("posts/", "id", "/comments/", "comment", "456", "789");
  }
}
