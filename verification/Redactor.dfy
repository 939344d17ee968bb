/** The log redactor of src/server.rs: three scanners, then the merge and rebuild.

    Every pattern is a test on the text that starts at a position, so a pattern is a
    function of a suffix.  All pattern characters are ASCII, so the byte positions of the
    source and the character positions used here correspond one to one. */
module Redactor {
  import opened Basics
  import opened RedactionTheory

  const HEADER := "authorization:"
  const SCHEME := "bearer"
  const BEARER := "Bearer "
  const KEYWORDS: seq<string> :=
    ["api_key", "api-key", "apikey", "signing_key", "signing-key", "signingkey",
     "password", "secret", "token"]

  // ---------------------------------------------------------------- character classes

  predicate IsBlank(c: char) { c == ' ' || c == '\t' }

  predicate IsValueChar(c: char) {
    || 'a' <= c <= 'z' || 'A' <= c <= 'Z' || '0' <= c <= '9'
    || c == '_' || c == '-' || c == '.' || c == '='
  }

  predicate IsSeparator(c: char) {
    || c == '"' || c == '\'' || c == ' ' || c == '\t'
    || c == '\r' || c == '\n' || c == ':' || c == '='
  }

  // ---------------------------------------------------------------- the three patterns

  /** `text`, lower-cased, begins with the lower-case `literal`. */
  predicate BeginsLower(text: string, literal: string) {
    |literal| <= |text| && forall k | 0 <= k < |literal| :: Lower(text[k]) == literal[k]
  }

  /** Where the longest run of `cls` characters that starts at `from` ends. */
  function SpanEnd(text: string, from: nat, cls: char -> bool): (end: nat)
    requires from <= |text|
    ensures from <= end <= |text|
    ensures forall k | from <= k < end :: cls(text[k])
    ensures end < |text| ==> !cls(text[end])
    decreases |text| - from
  {
    if from < |text| && cls(text[from]) then SpanEnd(text, from + 1, cls) else from
  }

  /** From `from` on: blanks, then a value that is not empty; where the value ends. */
  function ValueLength(text: string, from: nat): Option<nat>
    requires from <= |text|
  {
    var value := SpanEnd(text, from, IsBlank);
    if value == from then None else
      var end := SpanEnd(text, value, IsVisible);
      if end > value then Some(end) else None
  }

  /** `<header> blanks <scheme> blanks+ value`: the length of the match, if any. */
  function HeaderLength(header: string, scheme: string, text: string): Option<nat> {
    if !BeginsLower(text, header) then None else
      var at := SpanEnd(text, |header|, IsBlank);
      if !BeginsLower(text[at..], scheme) then None else ValueLength(text, at + |scheme|)
  }

  /** `<prefix>` and at least eight value characters. */
  function TokenLength(prefix: string, text: string): Option<nat> {
    if !Begins(text, prefix) then None else
      var end := SpanEnd(text, |prefix|, IsValueChar);
      if end - |prefix| >= 8 then Some(end) else None
  }

  /** The length of the first keyword of the table that `text` begins with, or zero. */
  function KeywordLength(table: seq<string>, text: string): (n: nat)
    ensures n <= |text|
    ensures n == 0 || exists k :: 0 <= k < |table| && BeginsLower(text, table[k]) && n == |table[k]|
  {
    if table == [] then 0
    else if BeginsLower(text, table[0]) then |table[0]|
    else
      var n := KeywordLength(table[1..], text);
      assert forall k | 0 <= k < |table| - 1 :: table[1..][k] == table[k + 1];
      n
  }

  /** `<keyword> separators+` and at least twelve value characters. */
  function SecretLength(table: seq<string>, text: string): Option<nat> {
    var n := KeywordLength(table, text);
    if n == 0 then None else
      var value := SpanEnd(text, n, IsSeparator);
      if value == n then None else
        var end := SpanEnd(text, value, IsValueChar);
        if end - value >= 12 then Some(end) else None
  }

  predicate AuthorizationPattern(text: string, n: nat) { HeaderLength(HEADER, SCHEME, text) == Some(n) }

  predicate BearerPattern(text: string, n: nat) { TokenLength(BEARER, text) == Some(n) }

  predicate SecretPattern(text: string, n: nat) { SecretLength(KEYWORDS, text) == Some(n) }

  predicate AnyPattern(text: string, n: nat) {
    AuthorizationPattern(text, n) || BearerPattern(text, n) || SecretPattern(text, n)
  }

  // ---------------------------------------------------------------- patterns are short-sighted

  lemma SpanStays(common: string, t: string, u: string, from: nat, cls: char -> bool)
    requires Rewritten(common, t, u) && from <= |common| && !cls('[')
    ensures SpanEnd(t, from, cls) <= |common|
    ensures SpanEnd(t, from, cls) <= SpanEnd(u, from, cls)
    ensures SpanEnd(t, from, cls) < |common| ==> SpanEnd(u, from, cls) == SpanEnd(t, from, cls)
  {
    var e, f := SpanEnd(t, from, cls), SpanEnd(u, from, cls);
    assert |common| < |t| ==> !cls(t[|common|]);
    assert f < |common| ==> u[f] == common[f] == t[f];
    assert e < |common| ==> u[e] == common[e] == t[e];
  }

  lemma LiteralStays(common: string, t: string, u: string, from: nat, literal: string)
    requires Rewritten(common, t, u) && from <= |common|
    requires '[' !in literal && BeginsLower(t[from..], literal)
    ensures from + |literal| <= |common|
    ensures BeginsLower(u[from..], literal)
  {
    forall k | 0 <= k < |literal| ensures t[from..][k] != '[' {
      assert literal[k] in literal && Lower(t[from..][k]) == literal[k];
    }
    assert |common| < |t| ==> t[from..][|common| - from] == '[';
    forall k | 0 <= k < |literal| ensures Lower(u[from..][k]) == literal[k] {
      assert Lower(t[from..][k]) == literal[k];
      assert u[from..][k] == common[from + k] == t[from..][k];
    }
  }

  lemma HeaderStays(header: string, scheme: string, common: string, t: string, u: string)
    requires '[' !in header && '[' !in scheme && scheme != "" && !IsBlank(scheme[0])
    requires Rewritten(common, t, u) && HeaderLength(header, scheme, t).Some?
    ensures HeaderLength(header, scheme, u).Some?
  {
    assert t[0..] == t && u[0..] == u;
    LiteralStays(common, t, u, 0, header);
    var at := SpanEnd(t, |header|, IsBlank);
    SpanStays(common, t, u, |header|, IsBlank);
    LiteralStays(common, t, u, at, scheme);
    assert SpanEnd(u, |header|, IsBlank) == at;
    ValueStays(common, t, u, at + |scheme|);
  }

  lemma ValueStays(common: string, t: string, u: string, from: nat)
    requires Rewritten(common, t, u) && from <= |common| && ValueLength(t, from).Some?
    ensures ValueLength(u, from).Some?
  {
    var value := SpanEnd(t, from, IsBlank);
    SpanStays(common, t, u, from, IsBlank);
    assert IsVisible(t[value]);
    assert value < |common| ==> u[value] == common[value] == t[value];
  }

  lemma TokenStays(prefix: string, common: string, t: string, u: string)
    requires '[' !in prefix && Rewritten(common, t, u) && TokenLength(prefix, t).Some?
    ensures TokenLength(prefix, u).Some?
  {
    forall k | 0 <= k < |prefix| ensures t[k] != '[' {
      assert prefix[k] in prefix && t[k] == prefix[k];
    }
    forall k | 0 <= k < |prefix| ensures u[k] == prefix[k] {
      assert u[k] == common[k] == t[k];
    }
    SpanStays(common, t, u, |prefix|, IsValueChar);
  }

  /** No word of the table is empty, holds a bracket or begins another word of it. */
  ghost predicate WordTable(table: seq<string>) {
    && (forall k | 0 <= k < |table| :: table[k] != "" && '[' !in table[k])
    && (forall j, k | 0 <= j < k < |table| :: Differ(table[j], table[k]))
  }

  ghost predicate Differ(a: string, b: string) {
    exists i :: 0 <= i < |a| && i < |b| && a[i] != b[i]
  }

  lemma {:induction false} KeywordStays(table: seq<string>, common: string, t: string, u: string)
    requires WordTable(table) && Rewritten(common, t, u) && KeywordLength(table, t) > 0
    ensures KeywordLength(table, u) == KeywordLength(table, t) <= |common|
  {
    assert t[0..] == t && u[0..] == u;
    assert forall k | 0 <= k < |table| - 1 :: table[1..][k] == table[k + 1];
    if BeginsLower(t, table[0]) {
      LiteralStays(common, t, u, 0, table[0]);
    } else {
      KeywordStays(table[1..], common, t, u);
      var k :| 0 <= k < |table[1..]| && BeginsLower(t, table[1..][k]) && KeywordLength(table[1..], t) == |table[1..][k]|;
      LiteralStays(common, t, u, 0, table[k + 1]);
      assert Differ(table[0], table[k + 1]);
      var i :| 0 <= i < |table[0]| && i < |table[k + 1]| && table[0][i] != table[k + 1][i];
      assert Lower(u[i]) == table[k + 1][i];
    }
  }

  lemma SecretStays(table: seq<string>, common: string, t: string, u: string)
    requires WordTable(table) && Rewritten(common, t, u) && SecretLength(table, t).Some?
    ensures SecretLength(table, u).Some?
  {
    KeywordStays(table, common, t, u);
    var n := KeywordLength(table, t);
    var value := SpanEnd(t, n, IsSeparator);
    SpanStays(common, t, u, n, IsSeparator);
    SpanStays(common, t, u, value, IsValueChar);
    assert IsValueChar(t[value]);
  }

  lemma KeywordTable()
    ensures WordTable(KEYWORDS)
  {
    forall j, k | 0 <= j < k < |KEYWORDS| ensures Differ(KEYWORDS[j], KEYWORDS[k]) {
      var a, b := KEYWORDS[j], KEYWORDS[k];
      assert a[0] != b[0] || a[3] != b[3] || (|a| > 7 && |b| > 7 && a[7] != b[7]);
    }
  }

  lemma LooksShort()
    ensures ShortSighted(AnyPattern)
  {
    KeywordTable();
    assert '[' !in HEADER && '[' !in SCHEME && '[' !in BEARER && !IsBlank(SCHEME[0]);
    forall common: string, t: string, u: string, n: nat | Rewritten(common, t, u) && AnyPattern(t, n)
      ensures exists k: nat :: AnyPattern(u, k)
    {
      if AuthorizationPattern(t, n) {
        HeaderStays(HEADER, SCHEME, common, t, u);
        assert AnyPattern(u, HeaderLength(HEADER, SCHEME, u).value);
      } else if BearerPattern(t, n) {
        TokenStays(BEARER, common, t, u);
        assert AnyPattern(u, TokenLength(BEARER, u).value);
      } else {
        SecretStays(KEYWORDS, common, t, u);
        assert AnyPattern(u, SecretLength(KEYWORDS, u).value);
      }
    }
  }

  // ---------------------------------------------------------------- shape and marker

  lemma MatchesStartVisible()
    ensures WellShaped(AnyPattern)
  {
    forall t: string, n: nat | AnyPattern(t, n) ensures 0 < n <= |t| && IsVisible(t[0]) {
      MatchLetters(t, n);
    }
  }

  /** How a match can start: the letters a pattern can begin with and, for the two letters
      that the marker also has, the letter that must follow. */
  predicate CanStart(c: char, next: char) {
    || (Lower(c) == 'a' && Lower(next) != 'c')
    || (Lower(c) == 't' && Lower(next) != 'e')
    || Lower(c) == 'b' || Lower(c) == 's' || Lower(c) == 'p'
  }

  lemma MarkerLetters(k: nat, next: char)
    requires k < |MARKER| && (k + 1 < |MARKER| ==> next == MARKER[k + 1])
    ensures !CanStart(MARKER[k], next)
  {
  }

  lemma PatternLetters(text: string, literal: string)
    requires |literal| > 1 && CanStart(literal[0], literal[1]) && BeginsLower(text, literal)
    requires Lower(literal[0]) == literal[0] && Lower(literal[1]) == literal[1]
    ensures |text| > 1 && CanStart(text[0], text[1])
  {
    assert Lower(text[0]) == literal[0] && Lower(text[1]) == literal[1];
  }

  lemma KeywordLetters(k: nat)
    requires k < |KEYWORDS|
    ensures |KEYWORDS[k]| > 1 && CanStart(KEYWORDS[k][0], KEYWORDS[k][1])
    ensures Lower(KEYWORDS[k][0]) == KEYWORDS[k][0] && Lower(KEYWORDS[k][1]) == KEYWORDS[k][1]
  {
  }

  lemma MatchLetters(t: string, n: nat)
    requires AnyPattern(t, n)
    ensures |t| > 1 && CanStart(t[0], t[1])
  {
    if AuthorizationPattern(t, n) {
      PatternLetters(t, HEADER);
    } else if BearerPattern(t, n) {
      assert t[0] == BEARER[0];
    } else {
      var k := KeywordFound(KEYWORDS, t);
      KeywordLetters(k);
      PatternLetters(t, KEYWORDS[k]);
    }
  }

  lemma KeywordFound(table: seq<string>, text: string) returns (k: nat)
    requires KeywordLength(table, text) > 0
    ensures k < |table| && BeginsLower(text, table[k]) && table[k] != ""
  {
    k :| 0 <= k < |table| && BeginsLower(text, table[k]) && KeywordLength(table, text) == |table[k]|;
  }

  /** A marker suffix begins no pattern: its first two letters decide. */
  lemma NothingStartsInMarker()
    ensures MarkerInert(AnyPattern)
  {
    forall k: nat, rest: string, n: nat | k < |MARKER| ensures !AnyPattern(MARKER[k..] + rest, n) {
      var t := MARKER[k..] + rest;
      if AnyPattern(t, n) {
        MatchLetters(t, n);
        assert t[0] == MARKER[k] && (k + 1 < |MARKER| ==> t[1] == MARKER[k + 1]);
        MarkerLetters(k, t[1]);
      }
    }
  }

  /** The headline: whatever the input, rescanning the output with all three patterns
      finds nothing, so redacting twice is redacting once. */
  lemma RedactionIsFinal(s: string)
    ensures forall m :: !IsMatch(AnyPattern, Redacted(AnyPattern, s), m)
    ensures Redacted(AnyPattern, Redacted(AnyPattern, s)) == Redacted(AnyPattern, s)
  {
    MatchesStartVisible();
    LooksShort();
    NothingStartsInMarker();
    NothingSurvives(AnyPattern, s);
    Idempotent(AnyPattern, s);
  }

  // ---------------------------------------------------------------- the scanners

  /** The inner `while` loops: advance `j` over one character class.  `start` is where the
      current suffix begins. */
  method SkipWhile(s: string, start: nat, from: nat, cls: char -> bool) returns (j: nat)
    requires start <= from <= |s|
    ensures start <= j && j - start == SpanEnd(s[start..], from - start, cls)
  {
    j := from;
    while j < |s| && cls(s[j])
      invariant from <= j <= |s|
      invariant SpanEnd(s[start..], from - start, cls) == SpanEnd(s[start..], j - start, cls)
    {
      j := j + 1;
    }
  }

  predicate HeaderMatch(header: string, scheme: string, s: string, m: Interval) {
    m.lo < |s| && m.lo <= m.hi && HeaderLength(header, scheme, s[m.lo..]) == Some(m.hi - m.lo)
  }

  predicate TokenMatch(prefix: string, s: string, m: Interval) {
    m.lo < |s| && m.lo <= m.hi && TokenLength(prefix, s[m.lo..]) == Some(m.hi - m.lo)
  }

  predicate SecretMatch(table: seq<string>, s: string, m: Interval) {
    m.lo < |s| && m.lo <= m.hi && SecretLength(table, s[m.lo..]) == Some(m.hi - m.lo)
  }

  method ValueAt(s: string, i: nat, from: nat) returns (length: Option<nat>)
    requires i <= from <= |s|
    ensures length == ValueLength(s[i..], from - i)
  {
    var value := SkipWhile(s, i, from, IsBlank);
    if value > from {
      var j := SkipWhile(s, i, value, IsVisible);
      if j > value {
        return Some(j - i);
      }
    }
    length := None;
  }

  method HeaderAt(header: string, scheme: string, s: string, i: nat) returns (length: Option<nat>)
    requires i < |s|
    ensures length == HeaderLength(header, scheme, s[i..])
  {
    if !BeginsLower(s[i..], header) {
      return None;
    }
    var j := SkipWhile(s, i, i + |header|, IsBlank);
    assert s[i..][j - i..] == s[j..];
    if !BeginsLower(s[j..], scheme) {
      return None;
    }
    length := ValueAt(s, i, j + |scheme|);
  }

  method TokenAt(prefix: string, s: string, i: nat) returns (length: Option<nat>)
    requires i < |s|
    ensures length == TokenLength(prefix, s[i..])
  {
    length := None;
    if Begins(s[i..], prefix) {
      var j := SkipWhile(s, i, i + |prefix|, IsValueChar);
      if j - (i + |prefix|) >= 8 {
        length := Some(j - i);
      }
    }
  }

  method SecretAt(table: seq<string>, s: string, i: nat) returns (length: Option<nat>)
    requires i < |s|
    ensures length == SecretLength(table, s[i..])
  {
    length := None;
    var n := FindKeyword(table, s[i..]);
    if n > 0 {
      var value := SkipWhile(s, i, i + n, IsSeparator);
      if value > i + n {
        var j := SkipWhile(s, i, value, IsValueChar);
        if j - value >= 12 {
          length := Some(j - i);
        }
      }
    }
  }

  /** Scan 1, for `HEADER` and `SCHEME`. */
  method ScanHeaders(header: string, scheme: string, s: string) returns (matches: seq<Interval>)
    ensures forall m :: m in matches <==> HeaderMatch(header, scheme, s, m)
  {
    matches := [];
    for i := 0 to |s|
      invariant forall m :: m in matches <==> m.lo < i && HeaderMatch(header, scheme, s, m)
    {
      ghost var before := matches;
      var length := HeaderAt(header, scheme, s, i);
      if length.Some? {
        matches := matches + [Interval(i, i + length.value)];
      }
      forall m ensures m in matches <==> m in before || (m.lo == i && HeaderMatch(header, scheme, s, m)) {
        assert m.lo == i && length == Some(m.hi - i) ==> m == Interval(i, i + length.value);
      }
    }
  }

  /** Scan 2, for `BEARER`. */
  method ScanTokens(prefix: string, s: string) returns (matches: seq<Interval>)
    ensures forall m :: m in matches <==> TokenMatch(prefix, s, m)
  {
    matches := [];
    for i := 0 to |s|
      invariant forall m :: m in matches <==> m.lo < i && TokenMatch(prefix, s, m)
    {
      ghost var before := matches;
      var length := TokenAt(prefix, s, i);
      if length.Some? {
        matches := matches + [Interval(i, i + length.value)];
      }
      forall m ensures m in matches <==> m in before || (m.lo == i && TokenMatch(prefix, s, m)) {
        assert m.lo == i && length == Some(m.hi - i) ==> m == Interval(i, i + length.value);
      }
    }
  }

  /** The keyword loop: the first keyword in table order wins. */
  method FindKeyword(table: seq<string>, text: string) returns (n: nat)
    ensures n == KeywordLength(table, text)
  {
    n := 0;
    var k := 0;
    while k < |table|
      invariant k <= |table|
      invariant KeywordLength(table, text) == KeywordLength(table[k..], text)
    {
      assert table[k..][1..] == table[k + 1..];
      if BeginsLower(text, table[k]) {
        return |table[k]|;
      }
      k := k + 1;
    }
  }

  /** Scan 3, for `KEYWORDS`. */
  method ScanSecrets(table: seq<string>, s: string) returns (matches: seq<Interval>)
    ensures forall m :: m in matches <==> SecretMatch(table, s, m)
  {
    matches := [];
    for i := 0 to |s|
      invariant forall m :: m in matches <==> m.lo < i && SecretMatch(table, s, m)
    {
      ghost var before := matches;
      var length := SecretAt(table, s, i);
      if length.Some? {
        matches := matches + [Interval(i, i + length.value)];
      }
      forall m ensures m in matches <==> m in before || (m.lo == i && SecretMatch(table, s, m)) {
        assert m.lo == i && length == Some(m.hi - i) ==> m == Interval(i, i + length.value);
      }
    }
  }

  lemma RunsDescribe(pattern: Pattern, s: string, matches: seq<Interval>, merged: seq<Interval>)
    requires WellShaped(pattern)
    requires forall m :: m in matches <==> IsMatch(pattern, s, m)
    requires Separated(merged) && forall p :: InSome(merged, p) <==> InSome(matches, p)
    ensures Describes(pattern, s, merged)
  {
    forall p ensures InSome(matches, p) <==> Covered(pattern, s, p) {
      if Covered(pattern, s, p) {
        var m :| IsMatch(pattern, s, m) && m.lo <= p < m.hi;
        assert m in matches;
      }
      if InSome(matches, p) {
        var k :| 0 <= k < |matches| && matches[k].lo <= p < matches[k].hi;
        assert matches[k] in matches;
      }
    }
    forall k | 0 <= k < |merged| ensures merged[k].hi <= |s| {
      assert InSome(merged, merged[k].hi - 1);
      var m :| IsMatch(pattern, s, m) && m.lo <= merged[k].hi - 1 < m.hi;
    }
  }

  /** Sort, merge and rebuild, for any matches that are those of `pattern`. */
  method Replace(ghost pattern: Pattern, s: string, matches: seq<Interval>) returns (result: string)
    requires WellShaped(pattern)
    requires forall m :: m in matches <==> IsMatch(pattern, s, m)
    ensures result == Redacted(pattern, s)
  {
    if matches == [] {
      forall p ensures !Covered(pattern, s, p) {
        assert forall m :: m !in matches;
      }
      UncoveredUnchanged(Coverage(pattern, s), s, 0, |s|);
      return s;
    }
    var sorted := Sort(matches);
    forall m ensures m in sorted <==> m in matches {
      assert m in sorted <==> m in multiset(sorted);
      assert m in matches <==> m in multiset(matches);
    }
    forall k | 0 <= k < |sorted| ensures sorted[k].lo < sorted[k].hi {
      assert sorted[k] in sorted;
    }
    var merged := Merge(sorted);
    RunsDescribe(pattern, s, sorted, merged);
    result := Rebuild(pattern, s, merged);
  }
}
