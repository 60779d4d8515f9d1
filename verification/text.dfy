/** The Kotlin standard-library string operations the plugin relies on, over `string`
    (a `seq<char>`): trimming, prefix and suffix removal, searching and splitting. */
module Text {
  import opened Wrappers

  /** Kotlin's `Char.isWhitespace()` on the JVM: the Java whitespace characters
      (tab through carriage return, the four separators U+001C..U+001F, space) together
      with the Unicode space, line and paragraph separators, the no-break ones included. */
  predicate IsWhitespace(c: char) {
    || ('\t' <= c <= '\r')
    || ('\U{1C}' <= c <= '\U{1F}')
    || c == ' '
    || c == '\U{A0}'
    || c == '\U{1680}'
    || ('\U{2000}' <= c <= '\U{200A}')
    || c == '\U{2028}'
    || c == '\U{2029}'
    || c == '\U{202F}'
    || c == '\U{205F}'
    || c == '\U{3000}'
  }

  predicate AllWhitespace(s: string) {
    forall i :: 0 <= i < |s| ==> IsWhitespace(s[i])
  }

  predicate NoWhitespace(s: string) {
    forall i :: 0 <= i < |s| ==> !IsWhitespace(s[i])
  }

  /** Drops the leading whitespace of `s`. */
  function TrimStart(s: string): (r: string)
    ensures |r| <= |s| && r == s[|s| - |r|..]
    ensures r == [] || !IsWhitespace(r[0])
  {
    if |s| > 0 && IsWhitespace(s[0]) then TrimStart(s[1..]) else s
  }

  /** Drops the trailing whitespace of `s`. */
  function TrimEnd(s: string): (r: string)
    ensures |r| <= |s| && r == s[..|r|]
    ensures r == [] || !IsWhitespace(r[|r| - 1])
  {
    if |s| > 0 && IsWhitespace(s[|s| - 1]) then TrimEnd(s[..|s| - 1]) else s
  }

  /** What `TrimStart` drops is whitespace. */
  lemma {:induction false} TrimStartDropsWhitespace(s: string)
    ensures AllWhitespace(s[..|s| - |TrimStart(s)|])
    decreases |s|
  {
    if |s| > 0 && IsWhitespace(s[0]) {
      var r := TrimStart(s[1..]);
      assert TrimStart(s) == r;
      TrimStartDropsWhitespace(s[1..]);
      var d := |s| - |r|;
      forall i | 0 <= i < d ensures IsWhitespace(s[..d][i]) {
        if i > 0 {
          assert s[..d][i] == s[1..][..d - 1][i - 1];
        }
      }
    }
  }

  /** What `TrimEnd` drops is whitespace. */
  lemma {:induction false} TrimEndDropsWhitespace(s: string)
    ensures AllWhitespace(s[|TrimEnd(s)|..])
    decreases |s|
  {
    if |s| > 0 && IsWhitespace(s[|s| - 1]) {
      var r := TrimEnd(s[..|s| - 1]);
      assert TrimEnd(s) == r;
      TrimEndDropsWhitespace(s[..|s| - 1]);
      forall i | 0 <= i < |s| - |r| ensures IsWhitespace(s[|r|..][i]) {
        if i < |s| - 1 - |r| {
          assert s[|r|..][i] == s[..|s| - 1][|r|..][i];
        }
      }
    }
  }

  /** `r` sits at offset `k` of `s` with only whitespace before and after it. */
  predicate WhitespaceFramed(s: string, k: nat, r: string) {
    && k + |r| <= |s| && r == s[k..k + |r|]
    && AllWhitespace(s[..k]) && AllWhitespace(s[k + |r|..])
  }

  /** Kotlin's `String.trim()`: whitespace removed at both ends; a string that already
      has no whitespace at its ends is returned unchanged. */
  function Trim(s: string): (r: string)
    ensures |r| <= |s|
    ensures r == [] || (!IsWhitespace(r[0]) && !IsWhitespace(r[|r| - 1]))
    ensures s == [] || (!IsWhitespace(s[0]) && !IsWhitespace(s[|s| - 1])) ==> r == s
  {
    var t := TrimStart(s);
    var r := TrimEnd(t);
    TrimEnds(t, r);
    TrimUnchanged(s);
    r
  }

  /** What `Trim` removes is whitespace only: the result is an infix of the input with
      only whitespace before and after it. */
  lemma TrimFramed(s: string)
    ensures exists k :: WhitespaceFramed(s, k, Trim(s))
  {
    var t := TrimStart(s);
    TrimStartDropsWhitespace(s);
    TrimEndDropsWhitespace(t);
    TrimSlice(s, t, TrimEnd(t));
    assert Trim(s) == TrimEnd(t);
    assert WhitespaceFramed(s, |s| - |t|, Trim(s));
  }

  lemma TrimUnchanged(s: string)
    ensures s == [] || (!IsWhitespace(s[0]) && !IsWhitespace(s[|s| - 1])) ==> TrimEnd(TrimStart(s)) == s
  {
    if s == [] || (!IsWhitespace(s[0]) && !IsWhitespace(s[|s| - 1])) {
      assert TrimStart(s) == s;
    }
  }

  lemma TrimSlice(s: string, t: string, r: string)
    requires |t| <= |s| && t == s[|s| - |t|..] && AllWhitespace(s[..|s| - |t|])
    requires |r| <= |t| && r == t[..|r|] && AllWhitespace(t[|r|..])
    ensures WhitespaceFramed(s, |s| - |t|, r)
  {
    var k := |s| - |t|;
    assert s[k + |r|..] == t[|r|..];
  }

  lemma TrimEnds(t: string, r: string)
    requires t == [] || !IsWhitespace(t[0])
    requires |r| <= |t| && r == t[..|r|]
    requires r == [] || !IsWhitespace(r[|r| - 1])
    ensures r == [] || (!IsWhitespace(r[0]) && !IsWhitespace(r[|r| - 1]))
  {
    if r != [] {
      assert r[0] == t[0];
    }
  }

  predicate StartsWith(s: string, prefix: string) {
    |prefix| <= |s| && s[..|prefix|] == prefix
  }

  predicate EndsWith(s: string, suffix: string) {
    |suffix| <= |s| && s[|s| - |suffix|..] == suffix
  }

  /** Kotlin's `removePrefix`: `s` without `prefix` when it starts with it, else `s`. */
  function RemovePrefix(s: string, prefix: string): (r: string)
    ensures StartsWith(s, prefix) ==> prefix + r == s
    ensures !StartsWith(s, prefix) ==> r == s
  {
    if StartsWith(s, prefix) then s[|prefix|..] else s
  }

  /** Kotlin's `removeSuffix`: `s` without `suffix` when it ends with it, else `s`. */
  function RemoveSuffix(s: string, suffix: string): (r: string)
    ensures EndsWith(s, suffix) ==> r + suffix == s
    ensures !EndsWith(s, suffix) ==> r == s
  {
    if EndsWith(s, suffix) then s[..|s| - |suffix|] else s
  }

  /** Kotlin's `indexOf(c, from)`: the first position at or after `from` holding `c`. */
  function IndexOf(s: string, c: char, from: nat): (r: Option<nat>)
    ensures r.Some? ==> from <= r.value < |s| && s[r.value] == c
                        && forall i :: from <= i < r.value ==> s[i] != c
    ensures r.None? ==> forall i :: from <= i < |s| ==> s[i] != c
    decreases |s| - from
  {
    if from >= |s| then None
    else if s[from] == c then Some(from)
    else IndexOf(s, c, from + 1)
  }

  /** The first position at or after `from` holding a character of `cs`, or `|s|`. */
  function FirstOf(s: string, cs: set<char>, from: nat): (r: nat)
    requires from <= |s|
    ensures from <= r <= |s|
    ensures r < |s| ==> s[r] in cs
    ensures forall i :: from <= i < r ==> s[i] !in cs
    decreases |s| - from
  {
    if from == |s| || s[from] in cs then from else FirstOf(s, cs, from + 1)
  }

  /** The number of occurrences of `c` in `s`. */
  function Count(s: string, c: char): nat {
    if s == [] then 0 else (if s[0] == c then 1 else 0) + Count(s[1..], c)
  }

  lemma CountAppend(a: string, b: string, c: char)
    ensures Count(a + b, c) == Count(a, c) + Count(b, c)
  {
    if a == [] {
      assert a + b == b;
    } else {
      assert (a + b)[1..] == a[1..] + b;
      CountAppend(a[1..], b, c);
    }
  }

  lemma CountAbsent(s: string, c: char)
    requires c !in s
    ensures Count(s, c) == 0
  {
    if s != [] {
      CountAbsent(s[1..], c);
    }
  }

  /** The parts joined back together, `sep` between neighbours. */
  function Join(parts: seq<string>, sep: char): string
    requires |parts| > 0
  {
    if |parts| == 1 then parts[0] else parts[0] + [sep] + Join(parts[1..], sep)
  }

  /** Kotlin's `split(sep)`: every occurrence of `sep` separates two parts, and empty
      parts are kept, so there is always one part more than there are separators. */
  function Split(s: string, sep: char): (parts: seq<string>)
    ensures |parts| == Count(s, sep) + 1
    ensures forall i :: 0 <= i < |parts| ==> sep !in parts[i]
    ensures Join(parts, sep) == s
    decreases |s|
  {
    match IndexOf(s, sep, 0)
    case None =>
      CountAbsent(s, sep);
      [s]
    case Some(i) =>
      var rest := Split(s[i + 1..], sep);
      assert s == s[..i] + [sep] + s[i + 1..];
      CountAppend(s[..i] + [sep], s[i + 1..], sep);
      CountAppend(s[..i], [sep], sep);
      CountAbsent(s[..i], sep);
      assert ([s[..i]] + rest)[1..] == rest;
      [s[..i]] + rest
  }

  /** Splitting undoes joining when no part contains the separator. */
  lemma {:induction false} SplitJoin(parts: seq<string>, sep: char)
    requires |parts| > 0
    requires forall i :: 0 <= i < |parts| ==> sep !in parts[i]
    ensures Split(Join(parts, sep), sep) == parts
    decreases |parts|
  {
    var s := Join(parts, sep);
    if |parts| == 1 {
      assert IndexOf(s, sep, 0) == None;
    } else {
      var p := parts[0];
      assert s == p + [sep] + Join(parts[1..], sep);
      assert s[|p|] == sep;
      assert IndexOf(s, sep, 0) == Some(|p|);
      assert s[..|p|] == p;
      assert s[|p| + 1..] == Join(parts[1..], sep);
      SplitJoin(parts[1..], sep);
    }
  }

  /** Kotlin's `substringAfterLast(c)`: the text after the last `c`, or all of `s` when
      `c` does not occur. */
  function SubstringAfterLast(s: string, c: char): (r: string)
    ensures |r| <= |s| && r == s[|s| - |r|..]
    ensures c !in r
    ensures c in s ==> |r| < |s| && s[|s| - |r| - 1] == c
    ensures c !in s ==> r == s
  {
    if s == [] then []
    else if s[|s| - 1] == c then []
    else
      var init := s[..|s| - 1];
      var r := SubstringAfterLast(init, c);
      assert s == init + [s[|s| - 1]];
      assert c in s ==> c in init;
      r + [s[|s| - 1]]
  }

  /** The text after a final `c` (or the whole text, when there is none before it) is
      what `SubstringAfterLast` returns. */
  lemma SubstringAfterLastOf(ns: string, c: char, tail: string)
    requires c !in tail
    requires ns == [] || ns[|ns| - 1] == c
    ensures SubstringAfterLast(ns + tail, c) == tail
  {
    var s := ns + tail;
    var r := SubstringAfterLast(s, c);
    if ns == [] {
      assert s == tail;
    } else {
      assert s[|ns| - 1] == c;
      assert r == s[|ns|..] == tail;
    }
  }
}
