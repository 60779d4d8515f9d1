/** Route templates compiled for matching.

    The plugin compiles a normalised route uri into a regular expression with two
    textual replace passes: first every `{name?}` becomes an optional group `(/[^/]+)?`,
    then every `{name}` becomes `[^/]+`; every other character is left in place. Here the
    compiled pattern is a token sequence: `Lit(c)` for a character left in place, `Opt`
    for the optional group and `Req` for the one-segment wildcard. */
module Template {
  import opened Wrappers
  import opened Text

  datatype Tok = Lit(c: char) | Req | Opt

  /** Every character of `s` as a literal token. */
  function Lits(s: string): (ts: seq<Tok>)
    ensures |ts| == |s|
    ensures forall i :: 0 <= i < |s| ==> ts[i] == Lit(s[i])
  {
    seq(|s|, i requires 0 <= i < |s| => Lit(s[i]))
  }

  lemma LitsCons(s: string)
    requires s != []
    ensures Lits(s) == [Lit(s[0])] + Lits(s[1..])
  {
  }

  lemma LitsAppend(s: string, ts: seq<Tok>)
    requires s != []
    ensures (Lits(s) + ts)[0] == Lit(s[0]) && (Lits(s) + ts)[1..] == Lits(s[1..]) + ts
  {
    LitsCons(s);
  }

  /** Where the first substitution pattern `\{[^}]+\?\}` matches at the start of `s`:
      at the first `}` after the opening brace, with `?` right before it and at least one
      character before the `?`. */
  predicate OptionalAtStart(s: string) {
    && |s| > 0 && s[0] == '{'
    && var j := IndexOf(s, '}', 1);
       j.Some? && j.value >= 3 && s[j.value - 1] == '?'
  }

  /** The first replace pass, scanning left to right as a regex replace does: each
      `{name?}` becomes `Opt`, every other character stays a literal. */
  function OptionalPass(s: string): (ts: seq<Tok>)
    ensures Req !in ts
    decreases |s|
  {
    if s == [] then []
    else if OptionalAtStart(s) then
      var j := IndexOf(s, '}', 1).value;
      [Opt] + OptionalPass(s[j + 1..])
    else
      [Lit(s[0])] + OptionalPass(s[1..])
  }

  /** The first `Lit('}')` at or after `from`. */
  function CloseAt(ts: seq<Tok>, from: nat): (r: Option<nat>)
    ensures r.Some? ==> from <= r.value < |ts| && ts[r.value] == Lit('}')
                        && forall i :: from <= i < r.value ==> ts[i] != Lit('}')
    ensures r.None? ==> forall i :: from <= i < |ts| ==> ts[i] != Lit('}')
    decreases |ts| - from
  {
    if from >= |ts| then None
    else if ts[from] == Lit('}') then Some(from)
    else CloseAt(ts, from + 1)
  }

  /** Where the second substitution pattern `\{[^}]+\}` matches at the start of `ts`:
      at the first `}` after the opening brace, with something in between. An `Opt` never
      lies between such a `{` and its `}`: a `{` with no `}` before an `{name?}` has that
      placeholder's `?}` as its first `}`, so the first pass has already replaced both. */
  predicate RequiredAtStart(ts: seq<Tok>) {
    && |ts| > 0 && ts[0] == Lit('{')
    && var j := CloseAt(ts, 1);
       j.Some? && j.value >= 2
  }

  /** The second replace pass over the result of the first: each `{name}` becomes `Req`. */
  function RequiredPass(ts: seq<Tok>): (out: seq<Tok>)
    decreases |ts|
  {
    if ts == [] then []
    else if RequiredAtStart(ts) then
      var j := CloseAt(ts, 1).value;
      [Req] + RequiredPass(ts[j + 1..])
    else
      [ts[0]] + RequiredPass(ts[1..])
  }

  /** The pattern the plugin compiles for a normalised route uri. */
  function Tokenize(template: string): seq<Tok> {
    RequiredPass(OptionalPass(template))
  }

  /** A placeholder name that needs no further thought: non-empty, without braces, and
      not ending the way an optional placeholder does. */
  predicate ValidName(name: string) {
    |name| > 0 && forall i :: 0 <= i < |name| ==> name[i] !in {'{', '}', '?'}
  }

  /** The template text of one token, placeholders written with `name`. */
  function Piece(t: Tok, name: string): string {
    match t
    case Lit(c) => [c]
    case Req => "{" + name + "}"
    case Opt => "{" + name + "?}"
  }

  /** A template written out from a token sequence, the partner of `Tokenize`; a
      placeholder token is written with the name at its own position in `names`. */
  function Render(ts: seq<Tok>, names: seq<string>): string
    requires |names| == |ts|
    decreases |ts|
  {
    if ts == [] then [] else Piece(ts[0], names[0]) + Render(ts[1..], names[1..])
  }

  predicate ValidNames(names: seq<string>) {
    forall i :: 0 <= i < |names| ==> ValidName(names[i])
  }

  predicate BraceFree(ts: seq<Tok>) {
    forall i :: 0 <= i < |ts| ==> ts[i] != Lit('{') && ts[i] != Lit('}')
  }

  /** What the first pass makes of a rendered token: a required placeholder is not its
      business and stays as literal text. */
  function FirstPassPiece(t: Tok, name: string): seq<Tok> {
    if t == Req then [Lit('{')] + Lits(name) + [Lit('}')] else [t]
  }

  function FirstPassOf(ts: seq<Tok>, names: seq<string>): seq<Tok>
    requires |names| == |ts|
    decreases |ts|
  {
    if ts == [] then [] else FirstPassPiece(ts[0], names[0]) + FirstPassOf(ts[1..], names[1..])
  }

  /** The first pass copies text without an opening brace literally. */
  lemma {:induction false} OptionalPassLiteralPrefix(p: string, rest: string)
    requires '{' !in p
    ensures OptionalPass(p + rest) == Lits(p) + OptionalPass(rest)
    decreases |p|
  {
    if p != [] {
      var s := p + rest;
      assert s[0] == p[0] && s[1..] == p[1..] + rest;
      assert !OptionalAtStart(s);
      OptionalPassLiteralPrefix(p[1..], rest);
      assert Lits(p) == [Lit(p[0])] + Lits(p[1..]);
    } else {
      assert p + rest == rest;
    }
  }

  lemma IndexOfIs(s: string, c: char, from: nat, j: nat)
    requires from <= j < |s| && s[j] == c
    requires forall i :: from <= i < j ==> s[i] != c
    ensures IndexOf(s, c, from) == Some(j)
  {
  }

  lemma CloseAtIs(ts: seq<Tok>, from: nat, j: nat)
    requires from <= j < |ts| && ts[j] == Lit('}')
    requires forall i :: from <= i < j ==> ts[i] != Lit('}')
    ensures CloseAt(ts, from) == Some(j)
  {
  }

  lemma OptionalPassOptPiece(name: string, rest: string)
    requires ValidName(name)
    ensures OptionalPass(Piece(Opt, name) + rest) == [Opt] + OptionalPass(rest)
  {
    var s := Piece(Opt, name) + rest;
    var j := |name| + 2;
    assert s == "{" + name + "?}" + rest;
    assert forall i :: 1 <= i < j ==> s[i] != '}' by {
      forall i | 1 <= i < j ensures s[i] != '}' {
        if i <= |name| { assert s[i] == name[i - 1]; } else { assert s[i] == '?'; }
      }
    }
    IndexOfIs(s, '}', 1, j);
    assert OptionalAtStart(s);
    assert s[j + 1..] == rest;
  }

  /** `{name}` is not an optional placeholder: its first `}` has no `?` before it. */
  lemma ReqPieceNotOptional(name: string, rest: string)
    requires ValidName(name)
    ensures var s := Piece(Req, name) + rest;
            s[0] == '{' && s[1..] == name + ("}" + rest) && !OptionalAtStart(s)
  {
    var s := Piece(Req, name) + rest;
    var j := |name| + 1;
    assert s == "{" + name + "}" + rest;
    assert forall i :: 1 <= i < j ==> s[i] == name[i - 1];
    IndexOfIs(s, '}', 1, j);
    assert s[j - 1] == name[|name| - 1];
    assert s[1..] == name + ("}" + rest);
  }

  lemma OptionalPassReqPiece(name: string, rest: string)
    requires ValidName(name)
    ensures OptionalPass(Piece(Req, name) + rest) == FirstPassPiece(Req, name) + OptionalPass(rest)
  {
    var s := Piece(Req, name) + rest;
    ReqPieceNotOptional(name, rest);
    assert OptionalPass(s) == [Lit('{')] + OptionalPass(s[1..]);
    OptionalPassLiteralPrefix(name, "}" + rest);
    var t := "}" + rest;
    assert t[0] == '}' && t[1..] == rest && !OptionalAtStart(t);
  }

  lemma OptionalPassLitPiece(c: char, name: string, rest: string)
    requires c != '{'
    ensures OptionalPass(Piece(Lit(c), name) + rest) == [Lit(c)] + OptionalPass(rest)
  {
    var s := Piece(Lit(c), name) + rest;
    assert s[0] == c && s[1..] == rest;
    assert !OptionalAtStart(s);
  }

  lemma {:induction false} OptionalPassRender(ts: seq<Tok>, names: seq<string>)
    requires |names| == |ts| && ValidNames(names) && BraceFree(ts)
    ensures OptionalPass(Render(ts, names)) == FirstPassOf(ts, names)
    decreases |ts|
  {
    if ts != [] {
      var rest := Render(ts[1..], names[1..]);
      OptionalPassRender(ts[1..], names[1..]);
      match ts[0]
      case Lit(c) => OptionalPassLitPiece(c, names[0], rest);
      case Opt => OptionalPassOptPiece(names[0], rest);
      case Req => OptionalPassReqPiece(names[0], rest);
    }
  }

  lemma {:induction false} RequiredPassFirstPass(ts: seq<Tok>, names: seq<string>)
    requires |names| == |ts| && ValidNames(names) && BraceFree(ts)
    ensures RequiredPass(FirstPassOf(ts, names)) == ts
    decreases |ts|
  {
    if ts != [] {
      var name := names[0];
      var rest := FirstPassOf(ts[1..], names[1..]);
      var us := FirstPassOf(ts, names);
      assert us == FirstPassPiece(ts[0], name) + rest;
      RequiredPassFirstPass(ts[1..], names[1..]);
      if ts[0] == Req {
        var j := |name| + 1;
        assert us == [Lit('{')] + Lits(name) + [Lit('}')] + rest;
        assert forall i :: 1 <= i < j ==> us[i] == Lit(name[i - 1]);
        CloseAtIs(us, 1, j);
        assert RequiredAtStart(us);
        assert us[j + 1..] == rest;
      } else {
        assert us[0] == ts[0] && us[1..] == rest;
        assert !RequiredAtStart(us);
      }
    }
  }

  /** Compiling a rendered template gives back its tokens: the two passes recognise
      exactly the placeholders `Render` writes. */
  lemma TokenizeRender(ts: seq<Tok>, names: seq<string>)
    requires |names| == |ts| && ValidNames(names) && BraceFree(ts)
    ensures Tokenize(Render(ts, names)) == ts
  {
    OptionalPassRender(ts, names);
    RequiredPassFirstPass(ts, names);
  }

  lemma {:induction false} RequiredPassNoOpen(ts: seq<Tok>)
    requires Lit('{') !in ts
    ensures RequiredPass(ts) == ts
    decreases |ts|
  {
    if ts != [] {
      assert ts[1..] == ts[1..] && Lit('{') !in ts[1..];
      RequiredPassNoOpen(ts[1..]);
    }
  }

  /** A template without `{` compiles to its own characters, each a literal. */
  lemma TokenizeNoBrace(template: string)
    requires '{' !in template
    ensures Tokenize(template) == Lits(template)
  {
    OptionalPassLiteralPrefix(template, []);
    assert template + [] == template;
    assert Lits(template) + [] == Lits(template);
    RequiredPassNoOpen(Lits(template));
  }

  /** The `/` a template writes right before an optional placeholder, moved into the
      placeholder's optional group. */
  function AbsorbSlash(ts: seq<Tok>): (out: seq<Tok>)
    ensures Opt !in ts ==> out == ts
    ensures Opt in out <==> Opt in ts
    decreases |ts|
  {
    if |ts| == 0 then []
    else if |ts| >= 2 && ts[0] == Lit('/') && ts[1] == Opt then [Opt] + AbsorbSlash(ts[2..])
    else [ts[0]] + AbsorbSlash(ts[1..])
  }

  /** The compilation the plugin evidently intends: like `Tokenize`, but `posts/{id?}`
      accepts `posts` and `posts/5` instead of `posts/` and `posts//5`. */
  function TokenizeIntended(template: string): (ts: seq<Tok>)
    ensures Opt !in Tokenize(template) ==> ts == Tokenize(template)
  {
    AbsorbSlash(Tokenize(template))
  }

  lemma {:induction false} AbsorbSlashTrailing(p: string)
    ensures AbsorbSlash(Lits(p) + [Lit('/'), Opt]) == Lits(p) + [Opt]
    decreases |p|
  {
    var ts := Lits(p) + [Lit('/'), Opt];
    if p == [] {
      assert ts == [Lit('/'), Opt];
      assert ts[2..] == [];
    } else {
      assert ts[0] == Lit(p[0]) && ts[1].Lit?;
      assert ts[1..] == Lits(p[1..]) + [Lit('/'), Opt];
      AbsorbSlashTrailing(p[1..]);
      assert Lits(p) == [Lit(p[0])] + Lits(p[1..]);
    }
  }

  /** One step of the correction at a `/` followed by an optional group. */
  lemma AbsorbSlashPair(ts: seq<Tok>)
    requires |ts| >= 2 && ts[0] == Lit('/') && ts[1] == Opt
    ensures AbsorbSlash(ts) == [Opt] + AbsorbSlash(ts[2..])
  {
  }

  /** One step of the correction at any other token. */
  lemma AbsorbSlashKeep(ts: seq<Tok>)
    requires ts != [] && !(|ts| >= 2 && ts[0] == Lit('/') && ts[1] == Opt)
    ensures AbsorbSlash(ts) == [ts[0]] + AbsorbSlash(ts[1..])
  {
  }

  lemma AppendAssoc<T>(h: seq<T>, x: seq<T>, y: seq<T>)
    ensures h + (x + y) == (h + x) + y
  {
  }

  lemma AppendDrop<T>(a: seq<T>, b: seq<T>, k: nat)
    requires k <= |a|
    ensures (a + b)[k..] == a[k..] + b
  {
  }

  /** The step of `AbsorbSlashAppend` where `a` starts with a `/` and an optional group. */
  lemma AbsorbSlashAppendPair(a: seq<Tok>, b: seq<Tok>)
    requires |a| >= 2 && a[0] == Lit('/') && a[1] == Opt
    requires AbsorbSlash(a[2..] + b) == AbsorbSlash(a[2..]) + AbsorbSlash(b)
    ensures AbsorbSlash(a + b) == AbsorbSlash(a) + AbsorbSlash(b)
  {
    var x, y := AbsorbSlash(a[2..]), AbsorbSlash(b);
    calc {
      AbsorbSlash(a + b);
      == { assert (a + b)[0] == a[0] && (a + b)[1] == a[1];
           AppendDrop(a, b, 2);
           AbsorbSlashPair(a + b); }
      [Opt] + (x + y);
      == { AppendAssoc([Opt], x, y); }
      ([Opt] + x) + y;
      == { AbsorbSlashPair(a); }
      AbsorbSlash(a) + y;
    }
  }

  /** The step of `AbsorbSlashAppend` where the first of several tokens of `a` is kept. */
  lemma AbsorbSlashAppendKeep(a: seq<Tok>, b: seq<Tok>)
    requires |a| >= 2 && !(a[0] == Lit('/') && a[1] == Opt)
    requires AbsorbSlash(a[1..] + b) == AbsorbSlash(a[1..]) + AbsorbSlash(b)
    ensures AbsorbSlash(a + b) == AbsorbSlash(a) + AbsorbSlash(b)
  {
    var x, y := AbsorbSlash(a[1..]), AbsorbSlash(b);
    calc {
      AbsorbSlash(a + b);
      == { assert (a + b)[0] == a[0] && (a + b)[1] == a[1];
           AppendDrop(a, b, 1);
           AbsorbSlashKeep(a + b); }
      [a[0]] + (x + y);
      == { AppendAssoc([a[0]], x, y); }
      ([a[0]] + x) + y;
      == { AbsorbSlashKeep(a); }
      AbsorbSlash(a) + y;
    }
  }

  /** `AbsorbSlashAppend` for a single token `t` in front of `b`. */
  lemma AbsorbSlashAppendOne(t: Tok, b: seq<Tok>)
    requires b == [] || t != Lit('/') || b[0] != Opt
    ensures AbsorbSlash([t] + b) == [t] + AbsorbSlash(b)
  {
    assert ([t] + b)[0] == t && ([t] + b)[1..] == b;
    assert |b| > 0 ==> ([t] + b)[1] == b[0];
    AbsorbSlashKeep([t] + b);
  }

  /** The correction works piece by piece: a pattern cut anywhere except between a `/`
      and the optional group right after it is corrected as its two parts are. */
  lemma {:induction false} AbsorbSlashAppend(a: seq<Tok>, b: seq<Tok>)
    requires a == [] || b == [] || a[|a| - 1] != Lit('/') || b[0] != Opt
    ensures AbsorbSlash(a + b) == AbsorbSlash(a) + AbsorbSlash(b)
    decreases |a|
  {
    if a == [] {
      assert a + b == b;
    } else if |a| >= 2 && a[0] == Lit('/') && a[1] == Opt {
      assert a[2..] == [] || a[2..][|a[2..]| - 1] == a[|a| - 1];
      AbsorbSlashAppend(a[2..], b);
      AbsorbSlashAppendPair(a, b);
    } else if |a| == 1 {
      assert a == [a[0]];
      AbsorbSlashAppendOne(a[0], b);
      AbsorbSlashAppendOne(a[0], []);
      assert [a[0]] + [] == a && b == [] + b;
    } else {
      assert a[1..][|a[1..]| - 1] == a[|a| - 1];
      AbsorbSlashAppend(a[1..], b);
      AbsorbSlashAppendKeep(a, b);
    }
  }

  /** Wherever the plugin's pattern holds a `/` followed by an optional group, the
      correction drops that `/` and corrects what lies on either side on its own. */
  lemma AbsorbSlashDropsSlash(a: seq<Tok>, b: seq<Tok>)
    ensures AbsorbSlash(a + ([Lit('/'), Opt] + b)) == AbsorbSlash(a) + ([Opt] + AbsorbSlash(b))
  {
    var x := [Lit('/'), Opt] + b;
    AbsorbSlashAppend(a, x);
    assert x[0] == Lit('/') && x[1] == Opt && x[2..] == b;
  }

  lemma {:induction false} RenderLits(p: string, ts: seq<Tok>, names: seq<string>)
    requires |names| == |p| + |ts|
    ensures Render(Lits(p) + ts, names) == p + Render(ts, names[|p|..])
    decreases |p|
  {
    if p == [] {
      assert Lits(p) + ts == ts && names[|p|..] == names;
    } else {
      var us := Lits(p) + ts;
      LitsAppend(p, ts);
      RenderLits(p[1..], ts, names[1..]);
      assert names[1..][|p| - 1..] == names[|p|..];
      var tail := Render(ts, names[|p|..]);
      var head := Piece(us[0], names[0]);
      assert head == [p[0]];
      assert Render(us[1..], names[1..]) == p[1..] + tail;
      assert Render(us, names) == head + Render(us[1..], names[1..]);
      assert head + (p[1..] + tail) == (head + p[1..]) + tail;
      assert head + p[1..] == p;
    }
  }


  /** A brace-free prefix, `/` and one placeholder of either kind compile to the literal
      prefix and `/`, then that placeholder's token. */
  lemma TrailingTokens(p: string, t: Tok, name: string)
    requires ValidName(name) && (t == Req || t == Opt)
    requires '{' !in p && '}' !in p
    ensures Tokenize(p + "/" + Piece(t, name)) == Lits(p + "/") + [t]
  {
    var q := p + "/";
    assert '{' !in q && '}' !in q;
    var ts := Lits(q) + [t];
    var names := seq(|ts|, _ => name);
    assert BraceFree(ts) by {
      forall i | 0 <= i < |ts| ensures ts[i] != Lit('{') && ts[i] != Lit('}') {
        if i < |q| { assert ts[i] == Lit(q[i]); }
      }
    }
    RenderLits(q, [t], names);
    assert names[|q|..] == [name];
    assert Render([t], [name]) == Piece(t, name) + Render([], []) == Piece(t, name);
    assert Render(ts, names) == q + Piece(t, name);
    TokenizeRender(ts, names);
  }

  /** `p/{name?}` with a brace-free prefix: the plugin compiles it to the literal `p/`
      followed by the optional group, and the intended compilation drops that `/`. */
  lemma TrailingOptionalTokens(p: string, name: string)
    requires ValidName(name)
    requires '{' !in p && '}' !in p
    ensures Tokenize(p + "/{" + name + "?}") == Lits(p + "/") + [Opt]
    ensures TokenizeIntended(p + "/{" + name + "?}") == Lits(p) + [Opt]
  {
    TrailingTokens(p, Opt, name);
    assert p + "/" + Piece(Opt, name) == p + "/{" + name + "?}";
    assert Lits(p + "/") + [Opt] == Lits(p) + [Lit('/'), Opt];
    AbsorbSlashTrailing(p);
  }

  /** `p/{name}` with a brace-free prefix compiles to the literal `p/` and one `Req`. */
  lemma TrailingRequiredTokens(p: string, name: string)
    requires ValidName(name)
    requires '{' !in p && '}' !in p
    ensures Tokenize(p + "/{" + name + "}") == Lits(p + "/") + [Req]
    ensures TokenizeIntended(p + "/{" + name + "}") == Lits(p + "/") + [Req]
  {
    TrailingTokens(p, Req, name);
    assert p + "/" + Piece(Req, name) == p + "/{" + name + "}";
  }

  lemma RenderReq(rest: seq<Tok>, names: seq<string>)
    requires |names| == |rest| + 1
    ensures Render([Req] + rest, names) == ("{" + names[0] + "}") + Render(rest, names[1..])
  {
    assert ([Req] + rest)[0] == Req && ([Req] + rest)[1..] == rest;
  }

  lemma LitsBraceFree(a: string, ts: seq<Tok>)
    requires '{' !in a && '}' !in a && BraceFree(ts) && Opt !in ts
    ensures BraceFree(Lits(a) + ts) && Opt !in Lits(a) + ts
  {
    var us := Lits(a) + ts;
    forall i | 0 <= i < |us| ensures us[i] != Lit('{') && us[i] != Lit('}') && us[i] != Opt {
      if i < |a| {
        assert us[i] == Lit(a[i]);
      } else {
        assert us[i] == ts[i - |a|];
      }
    }
  }

  lemma RenderLitsThenReq(b: string, ms: seq<string>)
    requires |ms| == |b| + 1
    ensures Render(Lits(b) + [Req], ms) == b + ("{" + ms[|b|] + "}")
  {
    assert ms[|b|..] == [ms[|b|]];
    RenderLits(b, [Req], ms);
    assert Render([Req], [ms[|b|]]) == ("{" + ms[|b|] + "}") + Render([], []);
  }

  lemma RenderReqLitsReq(b: string, ns: seq<string>)
    requires |ns| == |b| + 2
    ensures Render([Req] + (Lits(b) + [Req]), ns) == ("{" + ns[0] + "}") + (b + ("{" + ns[|b| + 1] + "}"))
  {
    var ms := ns[1..];
    assert ms[|b|] == ns[|b| + 1];
    RenderLitsThenReq(b, ms);
    RenderReq(Lits(b) + [Req], ns);
    assert Render(Lits(b) + [Req], ms) == b + ("{" + ns[|b| + 1] + "}");
  }

  lemma TwoRequiredRender(a: string, n1: string, b: string, n2: string, names: seq<string>)
    requires |names| == |a| + |b| + 2 && names[|a|] == n1 && names[|a| + 1 + |b|] == n2
    ensures |names| == |Lits(a) + ([Req] + (Lits(b) + [Req]))|
    ensures Render(Lits(a) + ([Req] + (Lits(b) + [Req])), names) == a + ("{" + n1 + "}") + b + ("{" + n2 + "}")
  {
    var ns := names[|a|..];
    assert ns[0] == n1 && ns[|b| + 1] == n2;
    RenderReqLitsReq(b, ns);
    RenderLits(a, [Req] + (Lits(b) + [Req]), names);
    ConcatFour(a, "{" + n1 + "}", b, "{" + n2 + "}");
  }

  lemma ConcatFour(a: string, p1: string, b: string, p2: string)
    ensures a + (p1 + (b + p2)) == a + p1 + b + p2
  {
  }

  /** `a{n1}b{n2}` with brace-free literal parts compiles to the literal `a`, a `Req`, the
      literal `b` and a `Req`. */
  lemma TwoRequiredWellFormed(a: string, n1: string, b: string, n2: string) returns (names: seq<string>)
    requires ValidName(n1) && ValidName(n2)
    requires '{' !in a && '}' !in a && '{' !in b && '}' !in b
    ensures |names| == |a| + |b| + 2 && names[|a|] == n1 && names[|a| + 1 + |b|] == n2
    ensures ValidNames(names) && BraceFree(Lits(a) + ([Req] + (Lits(b) + [Req])))
    ensures Opt !in Lits(a) + ([Req] + (Lits(b) + [Req]))
  {
    names := seq(|a| + |b| + 2, i => if i == |a| then n1 else n2);
    LitsBraceFree(b, [Req]);
    assert BraceFree([Req] + (Lits(b) + [Req])) && Opt !in [Req] + (Lits(b) + [Req]);
    LitsBraceFree(a, [Req] + (Lits(b) + [Req]));
  }

  /** `a{n1}b{n2}` with brace-free literal parts compiles to the literal `a`, a `Req`, the
      literal `b` and a `Req`. */
  lemma TwoRequiredTokens(a: string, n1: string, b: string, n2: string)
    requires ValidName(n1) && ValidName(n2)
    requires '{' !in a && '}' !in a && '{' !in b && '}' !in b
    ensures Tokenize(a + ("{" + n1 + "}") + b + ("{" + n2 + "}")) == Lits(a) + ([Req] + (Lits(b) + [Req]))
    ensures TokenizeIntended(a + ("{" + n1 + "}") + b + ("{" + n2 + "}")) == Lits(a) + ([Req] + (Lits(b) + [Req]))
  {
    var ts := Lits(a) + ([Req] + (Lits(b) + [Req]));
    var names := TwoRequiredWellFormed(a, n1, b, n2);
    TwoRequiredRender(a, n1, b, n2, names);
    TokenizeRender(ts, names);
  }
}
