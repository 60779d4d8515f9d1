# laravel-route-jump: the route lookup, in Dafny

The IntelliJ plugin *Laravel Route Jump* takes a URL or path typed by the developer,
finds the Laravel route that serves it in the JSON printed by `php artisan route:list`,
and opens the controller method named by that route's action. This project models the
pure logic of that chain, all of it in `LaravelRouteJumpAction.kt`:

- `extractPathFromUrl`: trimming the input, and reducing an `http://` or `https://`
  URL to its path (module `UrlPath`, over the string helpers of module `Text`);
- `findMatchingRoute`: normalising the input and each route uri, then taking the
  action of the first route whose uri equals the input or whose compiled pattern
  accepts it. The two regex replace passes that compile a uri are modelled as a
  tokenizer (module `Template`). A backtracking matcher stands in for the compiled regex,
  with a declarative partner (module `Matcher`). The lookup itself is module `RouteLookup`;
- the first steps of `jumpToControllerMethod`: splitting the action at `@` and keeping
  the class name after the last `\` (module `ActionParser`);
- `findMethodInFile`: the leftmost match of `function\s+(name)\s*\(` with a greedy
  `\s+`, and the offset of the name (module `MethodSearch`, a loop method).

`java.net.URI` is not modelled as a parser. Whether it accepts the text is a boolean
parameter, `uriParses`. When it does, the path is the one section 3 of RFC 3986
delimits. When it does not, the plugin's own `catch` fallback applies.

Two behaviours of the code are worth knowing before reading the model:

- Line 123 replaces `{name?}` with `(/[^/]+)?`, a group its comment describes as
  "including slash". The `/` the template writes before the placeholder stays a literal,
  though, so `posts/{id?}` compiles to `^posts/(/[^/]+)?$` and accepts neither `posts` nor
  `posts/5`. `RouteLookup.FindMatchingRoute` follows the code as written.
  `RouteLookup.FindMatchingRouteIntended` is the lookup with the group taking the place of
  that `/`; the two agree whenever no listed uri compiles to an optional group
  (`RouteLookup.LookupsAgree`). See Findings.
- Line 148 returns an input that is not an http(s) URL trimmed but otherwise as typed,
  query and fragment included (`UrlPath.BarePathUnchanged`).

## Model

| member | source | states |
|---|---|---|
| Text.IsWhitespace | src/main/kotlin/com/github/tommykw/laravelroutejump/LaravelRouteJumpAction.kt:104 | Kotlin's `Char.isWhitespace` on the JVM, the set `trim()` removes: tab to carriage return, U+001C to U+001F, space, U+00A0, U+1680, U+2000 to U+200A, U+2028, U+2029, U+202F, U+205F and U+3000 |
| Text.Trim | src/main/kotlin/com/github/tommykw/laravelroutejump/LaravelRouteJumpAction.kt:136 | the result has no whitespace at its ends, and input without whitespace at its ends comes back unchanged |
| Text.TrimFramed | src/main/kotlin/com/github/tommykw/laravelroutejump/LaravelRouteJumpAction.kt:136 | what `trim` removes is whitespace only: the result is an infix of the input with only whitespace before and after it |
| Text.RemovePrefix | src/main/kotlin/com/github/tommykw/laravelroutejump/LaravelRouteJumpAction.kt:104 | prefix followed by the result is the input when the input starts with the prefix; otherwise the input is returned |
| Text.RemoveSuffix | src/main/kotlin/com/github/tommykw/laravelroutejump/LaravelRouteJumpAction.kt:115 | the result followed by the suffix is the input when the input ends with it; otherwise the input is returned |
| Text.IndexOf | src/main/kotlin/com/github/tommykw/laravelroutejump/LaravelRouteJumpAction.kt:143 | the first position at or after `from` holding the character, or None exactly when no position does |
| Text.Split | src/main/kotlin/com/github/tommykw/laravelroutejump/LaravelRouteJumpAction.kt:152 | one part more than there are separators, empty parts kept, no part holds the separator, and joining the parts gives back the input |
| Text.SplitJoin | src/main/kotlin/com/github/tommykw/laravelroutejump/LaravelRouteJumpAction.kt:152 | splitting undoes joining parts that hold no separator |
| Text.SubstringAfterLast | src/main/kotlin/com/github/tommykw/laravelroutejump/LaravelRouteJumpAction.kt:162 | a suffix without the character, preceded by it when it occurs; the whole input when it does not occur |
| Text.SubstringAfterLastOf | src/main/kotlin/com/github/tommykw/laravelroutejump/LaravelRouteJumpAction.kt:162 | the text after a final separator is recovered exactly |
| UrlPath.IsHttpUrl | src/main/kotlin/com/github/tommykw/laravelroutejump/LaravelRouteJumpAction.kt:138 | the text starts with `http://` or with `https://` |
| UrlPath.AuthorityEnd | src/main/kotlin/com/github/tommykw/laravelroutejump/LaravelRouteJumpAction.kt:140 | the authority runs from after `//` to the first `/`, `?` or `#` |
| UrlPath.RfcPath | src/main/kotlin/com/github/tommykw/laravelroutejump/LaravelRouteJumpAction.kt:140-141 | the path is the text from the end of the authority to the first `?` or `#`; empty or starting with `/` |
| UrlPath.FallbackPath | src/main/kotlin/com/github/tommykw/laravelroutejump/LaravelRouteJumpAction.kt:142-145 | when `URI` refuses the text: the suffix from the first `/` at or after offset 8, or `/` when there is none |
| UrlPath.ExtractPathFromUrl | src/main/kotlin/com/github/tommykw/laravelroutejump/LaravelRouteJumpAction.kt:135-149 | a non-URL input is only trimmed; a parsed URL gives a path without query or fragment; an unparsed one gives the fallback |
| UrlPath.SerializedRfcPath | src/main/kotlin/com/github/tommykw/laravelroutejump/LaravelRouteJumpAction.kt:140-141 | the RFC 3986 path of a URL built from its parts is exactly that path |
| UrlPath.ExtractPathOfSerialized | src/main/kotlin/com/github/tommykw/laravelroutejump/LaravelRouteJumpAction.kt:138-141 | for every URL built from scheme, authority, path, query and fragment that `URI` accepts (`uriParses`), the path comes back exactly |
| UrlPath.BarePathUnchanged | src/main/kotlin/com/github/tommykw/laravelroutejump/LaravelRouteJumpAction.kt:148 | a bare path without whitespace is returned as typed, query and fragment included |
| UrlPath.ExtractPathExampleQuery | src/test/kotlin/com/github/tommykw/laravelroutejump/LaravelRouteJumpTest.kt:28 | `http://localhost:8000/users/123?page=2` gives `/users/123` |
| UrlPath.ExtractPathExampleFragment | src/test/kotlin/com/github/tommykw/laravelroutejump/LaravelRouteJumpTest.kt:65 | `https://example.com/about?section=team#contact` gives `/about` |
| Template.OptionalPass | src/main/kotlin/com/github/tommykw/laravelroutejump/LaravelRouteJumpAction.kt:123 | the first pass produces only literals and optional groups |
| Template.RequiredPass | src/main/kotlin/com/github/tommykw/laravelroutejump/LaravelRouteJumpAction.kt:124 | the second pass, run on the first pass's output; its meaning is fixed by `Template.TokenizeRender`, and without `{` it changes nothing (`Template.TokenizeNoBrace`) |
| Template.Tokenize | src/main/kotlin/com/github/tommykw/laravelroutejump/LaravelRouteJumpAction.kt:122-124 | the pattern the plugin compiles; `Template.TokenizeRender` shows it recognises exactly the placeholders a template written out from tokens holds |
| Template.TokenizeRender | src/main/kotlin/com/github/tommykw/laravelroutejump/LaravelRouteJumpAction.kt:122-124 | compiling a template written out from tokens with valid names gives back those tokens |
| Template.TokenizeNoBrace | src/main/kotlin/com/github/tommykw/laravelroutejump/LaravelRouteJumpAction.kt:122-124 | a uri without `{` compiles to its own characters |
| Template.TrailingRequiredTokens | src/main/kotlin/com/github/tommykw/laravelroutejump/LaravelRouteJumpAction.kt:124 | `p/{name}` compiles to the literal `p/` and one segment wildcard |
| Template.TrailingOptionalTokens | src/main/kotlin/com/github/tommykw/laravelroutejump/LaravelRouteJumpAction.kt:123 | `p/{name?}` compiles to the literal `p/` and an optional group; corrected, to `p` and the group |
| Template.TwoRequiredTokens | src/main/kotlin/com/github/tommykw/laravelroutejump/LaravelRouteJumpAction.kt:122-124 | `a{n1}b{n2}` compiles to the literal `a`, a wildcard, the literal `b` and a wildcard |
| Template.AbsorbSlash | src/main/kotlin/com/github/tommykw/laravelroutejump/LaravelRouteJumpAction.kt:123 | the correction leaves a pattern without an optional group alone and keeps the optional groups; what it removes is stated by `Template.AbsorbSlashDropsSlash` |
| Template.AbsorbSlashAppend | src/main/kotlin/com/github/tommykw/laravelroutejump/LaravelRouteJumpAction.kt:123 | cut anywhere except between a `/` and the optional group after it, a pattern is corrected part by part |
| Template.AbsorbSlashDropsSlash | src/main/kotlin/com/github/tommykw/laravelroutejump/LaravelRouteJumpAction.kt:123 | every `/` directly before an optional group is dropped, and the tokens on either side are corrected on their own |
| Template.TokenizeIntended | src/main/kotlin/com/github/tommykw/laravelroutejump/LaravelRouteJumpAction.kt:123 | the corrected compilation equals the plugin's for every uri without an optional placeholder |
| Matcher.Matches | src/main/kotlin/com/github/tommykw/laravelroutejump/LaravelRouteJumpAction.kt:126 | the full-string match `normalizedUrl.matches(Regex("^$pattern$"))`; `Matcher.MatchesIffInstance` gives its meaning |
| Matcher.MatchesIffInstance | src/main/kotlin/com/github/tommykw/laravelroutejump/LaravelRouteJumpAction.kt:126 | the full-string match accepts exactly the strings that cut into one piece per token, each allowed by its token |
| Matcher.MatchesLits | src/main/kotlin/com/github/tommykw/laravelroutejump/LaravelRouteJumpAction.kt:126 | literal tokens accept exactly their own characters, then the rest of the pattern |
| Matcher.MatchesLitsReq | src/main/kotlin/com/github/tommykw/laravelroutejump/LaravelRouteJumpAction.kt:124 | a literal then `[^/]+` accepts the literal followed by exactly one segment |
| Matcher.MatchesLitsOpt | src/main/kotlin/com/github/tommykw/laravelroutejump/LaravelRouteJumpAction.kt:123 | a literal then `(/[^/]+)?` accepts the literal alone, or followed by `/` and one segment |
| Matcher.TrailingRequiredMatches | src/main/kotlin/com/github/tommykw/laravelroutejump/LaravelRouteJumpAction.kt:121-128 | `p/{name}` accepts exactly `p/` followed by one segment |
| Matcher.OptionalPlaceholderAsWritten | src/main/kotlin/com/github/tommykw/laravelroutejump/LaravelRouteJumpAction.kt:123 | `p/{name?}` as the plugin compiles it accepts exactly `p/` and `p//` followed by one segment |
| Matcher.OptionalPlaceholderIntended | src/main/kotlin/com/github/tommykw/laravelroutejump/LaravelRouteJumpAction.kt:123 | corrected, `p/{name?}` accepts exactly `p`, and `p/` followed by one segment |
| Matcher.UsersTemplateAccepts | src/test/kotlin/com/github/tommykw/laravelroutejump/LaravelRouteJumpTest.kt:79-81 | `users/{id}` accepts `users/123` |
| Matcher.UsersTemplateNeedsId | src/main/kotlin/com/github/tommykw/laravelroutejump/LaravelRouteJumpAction.kt:124-126 | `users/{id}` does not accept `users` |
| Matcher.UsersTemplateOneSegment | src/main/kotlin/com/github/tommykw/laravelroutejump/LaravelRouteJumpAction.kt:124-126 | `users/{id}` does not accept `users/123/edit` |
| Matcher.PostsOptionalAsWritten | src/main/kotlin/com/github/tommykw/laravelroutejump/LaravelRouteJumpAction.kt:123 | the plugin's pattern for `posts/{id?}` rejects both `posts` and `posts/5` |
| Matcher.PostsOptionalIntendedBare | src/main/kotlin/com/github/tommykw/laravelroutejump/LaravelRouteJumpAction.kt:123 | the corrected pattern for `posts/{id?}` accepts `posts` |
| Matcher.OptionalIntendedTakesSegment | src/main/kotlin/com/github/tommykw/laravelroutejump/LaravelRouteJumpAction.kt:123 | the corrected pattern for `p/{name?}` accepts `p/` followed by any segment |
| Matcher.PostsOptionalIntendedWithId | src/main/kotlin/com/github/tommykw/laravelroutejump/LaravelRouteJumpAction.kt:123 | the corrected pattern for `posts/{id?}` accepts `posts/5` |
| Matcher.MatchesReqThen | src/main/kotlin/com/github/tommykw/laravelroutejump/LaravelRouteJumpAction.kt:124 | a segment followed by a match of the rest matches a wildcard then the rest |
| Matcher.TwoRequiredAccepts | src/main/kotlin/com/github/tommykw/laravelroutejump/LaravelRouteJumpAction.kt:122-126 | the plugin's pattern for `a{n1}b{n2}` accepts `a`, a segment, `b` and a segment |
| Matcher.PostsCommentsTemplateAccepts | src/test/kotlin/com/github/tommykw/laravelroutejump/LaravelRouteJumpTest.kt:83-85 | `posts/{id}/comments/{comment}` accepts `posts/456/comments/789` |
| RouteLookup.UnescapeSlashes | src/main/kotlin/com/github/tommykw/laravelroutejump/LaravelRouteJumpAction.kt:113 | never lengthens the text, and leaves text without `\` alone |
| RouteLookup.UnescapeEscape | src/main/kotlin/com/github/tommykw/laravelroutejump/LaravelRouteJumpAction.kt:113 | unescaping undoes a JSON encoder's `\/` escaping of every `/`, for every text |
| RouteLookup.StripSlashes | src/main/kotlin/com/github/tommykw/laravelroutejump/LaravelRouteJumpAction.kt:114-115 | at most one `/` leaves each end: one from the front exactly when it starts with `/`, one from the back exactly when what is left ends with `/` |
| RouteLookup.StripSlashesInverse | src/main/kotlin/com/github/tommykw/laravelroutejump/LaravelRouteJumpAction.kt:104 | a path without `/` at its ends, wrapped in at most one `/` on each side, comes back exactly |
| RouteLookup.NormalizeUri | src/main/kotlin/com/github/tommykw/laravelroutejump/LaravelRouteJumpAction.kt:112-115 | a route uri unescaped and stripped of one `/` at each end; `RouteLookup.UnescapeEscape` and `RouteLookup.StripSlashes` give its meaning |
| RouteLookup.NormalizeCandidate | src/main/kotlin/com/github/tommykw/laravelroutejump/LaravelRouteJumpAction.kt:103-104 | the input reduced to its path, trimmed and stripped of one `/` at each end; `RouteLookup.BareCandidate` shows a plain path reaching the lookup as typed |
| RouteLookup.NormalizeUriPlain | src/main/kotlin/com/github/tommykw/laravelroutejump/LaravelRouteJumpAction.kt:112-115 | a uri with no `\` and no `/` at its ends is compared as written |
| RouteLookup.BareCandidate | src/main/kotlin/com/github/tommykw/laravelroutejump/LaravelRouteJumpAction.kt:103-104 | a bare path with no whitespace and no `/` at its ends reaches the comparison exactly as typed |
| RouteLookup.RouteMatches | src/main/kotlin/com/github/tommykw/laravelroutejump/LaravelRouteJumpAction.kt:117-128 | the plugin's test of one route; `RouteLookup.RouteMatchesIff` states what it accepts |
| RouteLookup.RouteMatchesIff | src/main/kotlin/com/github/tommykw/laravelroutejump/LaravelRouteJumpAction.kt:117-128 | a route accepts exactly its own normalised uri or, when that holds a `{`, an instance of the pattern the plugin compiles from it |
| RouteLookup.RouteMatchesIntendedIff | src/main/kotlin/com/github/tommykw/laravelroutejump/LaravelRouteJumpAction.kt:117-128 | the corrected test accepts exactly the uri or an instance of the corrected pattern, and agrees with the plugin's test whenever the plugin's pattern has no optional group |
| RouteLookup.FirstIndex | src/main/kotlin/com/github/tommykw/laravelroutejump/LaravelRouteJumpAction.kt:108-132 | None exactly when nothing is accepted; otherwise an accepted position with nothing accepted before it |
| RouteLookup.FirstAction | src/main/kotlin/com/github/tommykw/laravelroutejump/LaravelRouteJumpAction.kt:108-132 | None exactly when no route is accepted; otherwise the action of an accepted route with none accepted before it |
| RouteLookup.FindMatchingRoute | src/main/kotlin/com/github/tommykw/laravelroutejump/LaravelRouteJumpAction.kt:102-133 | None exactly when no route accepts the normalised input under the plugin's test; otherwise the action of the first route, in listing order, that accepts it |
| RouteLookup.FindMatchingRouteIntended | src/main/kotlin/com/github/tommykw/laravelroutejump/LaravelRouteJumpAction.kt:102-133 | the same search with the corrected compilation of optional placeholders |
| RouteLookup.LookupsAgree | src/main/kotlin/com/github/tommykw/laravelroutejump/LaravelRouteJumpAction.kt:117-128 | when no listed uri compiles to an optional group, the plugin's lookup and the corrected one agree for every input |
| RouteLookup.SingleRouteLookup | src/main/kotlin/com/github/tommykw/laravelroutejump/LaravelRouteJumpAction.kt:108-132 | with one route listed, the lookup gives its action exactly when it accepts the input |
| RouteLookup.FirstIndexAppend | src/main/kotlin/com/github/tommykw/laravelroutejump/LaravelRouteJumpAction.kt:108-132 | routes listed after a match are never consulted; after a list with no match, later routes are found at their shifted positions |
| RouteLookup.ExactRouteWins | src/main/kotlin/com/github/tommykw/laravelroutejump/LaravelRouteJumpAction.kt:117-119 | a route whose normalised uri equals the normalised input gives its action unless an earlier route accepts the input |
| RouteLookup.RequiredRouteAcceptsSegment | src/main/kotlin/com/github/tommykw/laravelroutejump/LaravelRouteJumpAction.kt:112-128 | a listed route `p/{name}` accepts `p/` followed by any one segment |
| RouteLookup.OptionalRouteOnSegment | src/main/kotlin/com/github/tommykw/laravelroutejump/LaravelRouteJumpAction.kt:121-126 | the plugin's test of `p/{name?}` rejects `p/seg`, which the corrected test accepts |
| RouteLookup.OptionalRouteOnDoubleSlash | src/main/kotlin/com/github/tommykw/laravelroutejump/LaravelRouteJumpAction.kt:121-126 | the plugin's test of `p/{name?}` accepts `p//seg`, which the corrected test rejects |
| RouteLookup.OptionalRouteMissesSegment | src/main/kotlin/com/github/tommykw/laravelroutejump/LaravelRouteJumpAction.kt:102-133 | with only `p/{name?}` listed, the plugin finds nothing for `p/seg`, where the corrected lookup finds the route |
| RouteLookup.OptionalRouteTakesDoubleSlash | src/main/kotlin/com/github/tommykw/laravelroutejump/LaravelRouteJumpAction.kt:102-133 | with only `p/{name?}` listed, the plugin finds the route for `p//seg`, where the corrected lookup finds nothing |
| RouteLookup.OptionalRouteOnTrailingSlash | src/main/kotlin/com/github/tommykw/laravelroutejump/LaravelRouteJumpAction.kt:121-126 | the plugin's test of `p/{name?}` accepts `p/` with the group empty, which the corrected test rejects |
| RouteLookup.TrailingDoubleSlashCandidate | src/main/kotlin/com/github/tommykw/laravelroutejump/LaravelRouteJumpAction.kt:103-104 | a bare `p//` loses only its last `/` and is compared as `p/` |
| RouteLookup.OptionalRouteTakesTrailingDoubleSlash | src/main/kotlin/com/github/tommykw/laravelroutejump/LaravelRouteJumpAction.kt:102-133 | with only `p/{name?}` listed, the plugin finds the route for `p//`, where the corrected lookup finds nothing |
| ActionParser.ParseAction | src/main/kotlin/com/github/tommykw/laravelroutejump/LaravelRouteJumpAction.kt:152-163 | succeeds exactly when the action holds one `@`, else reports it; the class name has no `\`, ends the part before `@` and follows a `\` when shorter than it |
| ActionParser.ParseFormattedAction | src/main/kotlin/com/github/tommykw/laravelroutejump/LaravelRouteJumpAction.kt:152-163 | `Namespace\Class@method` is parsed back into exactly `Class` and `method` |
| ActionParser.ParseActionRefusesClosure | src/main/kotlin/com/github/tommykw/laravelroutejump/LaravelRouteJumpAction.kt:152-160 | a closure action without `@` is refused |
| MethodSearch.IsRegexSpace | src/main/kotlin/com/github/tommykw/laravelroutejump/LaravelRouteJumpAction.kt:209 | Java's `\s`: space, tab, line feed, U+000B, form feed and carriage return |
| MethodSearch.SpaceRun | src/main/kotlin/com/github/tommykw/laravelroutejump/LaravelRouteJumpAction.kt:209 | the maximal run of `\s` characters from a position |
| MethodSearch.FindMethodInFile | src/main/kotlin/com/github/tommykw/laravelroutejump/LaravelRouteJumpAction.kt:207-216 | None exactly when the pattern matches nowhere; otherwise the offset of the name in the leftmost match, with the greedy `\s+` |
| MethodSearch.GreedySpacesAt | src/main/kotlin/com/github/tommykw/laravelroutejump/LaravelRouteJumpAction.kt:209-213 | from one start, the largest number of spaces after `function` that still lets the name and `(` follow, or 0 when none does |
| MethodSearch.DeclarationMatches | src/main/kotlin/com/github/tommykw/laravelroutejump/LaravelRouteJumpAction.kt:209-213 | `function name(` with nothing matching earlier is found, the name right after `function ` |

## Left out

- The JSON route listing (line 105) is not parsed. Its regex extraction is replaced by a
  `seq<Route>` of uri and action pairs in listing order.
- Running the artisan command, the dialogs, settings, the configurable and the action
  plumbing (lines 23-100 and 219-247, `LaravelRouteJumpSettings.kt`,
  `LaravelRouteJumpConfigurable.kt`) are left out. They are I/O and IDE calls.
- Opening the editor and moving the caret (lines 165-204) are left out. This includes
  looking up `"$controllerName.php"` in the file index, which the model cannot see.
- `java.net.URI` is an oracle, `uriParses`, rather than a parser. Its percent-decoding of
  the path and the exact set of texts it refuses are not modelled.
- RouteLookup.FindMatchingRoute: a uri character other than a placeholder is matched as
  itself. The plugin splices the uri into a regex unescaped, so a uri holding `.`, `(`,
  `*` or a stray brace means more there, or makes the regex throw. The model does not
  follow either.
- MethodSearch.FindMethodInFile: the method name is matched as literal text. The plugin
  splices it into the pattern unescaped, so a name holding a regex metacharacter means
  more there.
- Offsets are counted in Unicode characters. The JVM counts UTF-16 code units, so they
  differ after a character outside the Basic Multilingual Plane.
- Template.TokenizeIntended: the correction only absorbs a `/` written right before an
  optional placeholder. A template that starts with `{page?}` keeps the plugin's
  compilation.
- The `?: "/"` default on line 141 is not reachable in the model. `URI.getPath` of an
  http(s) URL is never null, so the model returns the possibly empty path.

## Findings

| source | as written | input that shows it | evidently intended | confidence | as-written member | corrected member |
|---|---|---|---|---|---|---|
| src/main/kotlin/com/github/tommykw/laravelroutejump/LaravelRouteJumpAction.kt:123 | `{name?}` is replaced by `(/[^/]+)?`, but the `/` written before the placeholder stays a literal, so `posts/{id?}` compiles to `^posts/(/[^/]+)?$` | route `posts/{id?}` with input `posts` or `posts/5`: the pattern accepts neither, only `posts/` and `posts//5`. Line 104 strips one trailing `/`, so through the lookup only `posts//` (compared as `posts/`) and `posts//<segment>` reach this route | the group "including slash" replaces the template's own `/`, so `posts` and `posts/5` both match | not executed; high, from the verified lemmas | Matcher.OptionalPlaceholderAsWritten | Matcher.OptionalPlaceholderIntended |

`RouteLookup.FindMatchingRoute` keeps the plugin's compilation. Through the whole lookup,
`RouteLookup.OptionalRouteMissesSegment`, `RouteLookup.OptionalRouteTakesDoubleSlash` and
`RouteLookup.OptionalRouteTakesTrailingDoubleSlash` show the kinds of input on which it
parts from the corrected `RouteLookup.FindMatchingRouteIntended`, and
`RouteLookup.LookupsAgree` shows the two agree on every route listing without an optional
placeholder.
