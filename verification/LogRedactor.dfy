/** The log redactor of src/server.rs as a whole: its scanners find exactly the sensitive
    stretches of a text, and its output is that text with each run of them replaced. */
module LogRedactor {
  import opened Basics
  import opened RedactionTheory
  import opened Redactor
  import opened SecretShapes

  // ---------------------------------------------------------------- the pieces agree

  lemma ClassesAgree(c: char)
    ensures IsBlank(c) <==> Gap(c)
    ensures IsSeparator(c) <==> Separates(c)
    ensures IsVisible(c) <==> Ink(c)
    ensures IsValueChar(c) <==> KeyChar(c)
  {
  }

  lemma StretchIff(text: string, from: nat, end: nat, cls: char -> bool, same: char -> bool)
    requires from <= |text| && forall c :: cls(c) <==> same(c)
    ensures SpanEnd(text, from, cls) == end <==> Stretch(text, from, end, same)
  {
  }

  predicate LowerCase(word: string) { forall k | 0 <= k < |word| :: !('A' <= word[k] <= 'Z') }

  lemma SpellsIff(text: string, word: string)
    requires LowerCase(word)
    ensures Spells(text, word) <==> BeginsLower(text, word)
  {
    forall k | 0 <= k < |word| && k < |text| ensures IsLetter(text[k], word[k]) <==> Lower(text[k]) == word[k] {
    }
  }

  lemma NamesIff(word: string)
    ensures Names(word) <==> word in KEYWORDS
    ensures Names(word) ==> LowerCase(word)
  {
  }

  lemma WordsApart(text: string, a: string, b: string)
    requires Differ(a, b) && BeginsLower(text, b)
    ensures !BeginsLower(text, a)
  {
    var i :| 0 <= i < |a| && i < |b| && a[i] != b[i];
    assert Lower(text[i]) == b[i];
  }

  /** No word begins another, so whichever one the text spells is the one that is found. */
  lemma {:induction false} WordFound(table: seq<string>, text: string, k: nat)
    requires WordTable(table) && k < |table| && BeginsLower(text, table[k])
    ensures KeywordLength(table, text) == |table[k]| > 0
  {
    if k > 0 {
      WordsApart(text, table[0], table[k]);
      assert forall j | 0 <= j < |table| - 1 :: table[1..][j] == table[j + 1];
      WordFound(table[1..], text, k - 1);
    }
  }

  // ---------------------------------------------------------------- matches are these shapes

  lemma HeaderIff(text: string, header: string, scheme: string, end: nat)
    requires LowerCase(header) && LowerCase(scheme)
    ensures HeaderLength(header, scheme, text) == Some(end)
       <==> exists at, value :: IsHeader(text, header, scheme, at, value, end)
  {
    if HeaderLength(header, scheme, text) == Some(end) {
      HeaderFound(text, header, scheme, end);
    }
    if at, value :| IsHeader(text, header, scheme, at, value, end) {
      HeaderHolds(text, header, scheme, at, value, end);
    }
  }

  lemma HeaderFound(text: string, header: string, scheme: string, end: nat)
    requires LowerCase(header) && LowerCase(scheme) && HeaderLength(header, scheme, text) == Some(end)
    ensures exists at, value :: IsHeader(text, header, scheme, at, value, end)
  {
    var at := SpanEnd(text, |header|, IsBlank);
    SpellsIff(text, header);
    GapIff(text, |header|, at);
    SpellsIff(text[at..], scheme);
    var from := at + |scheme|;
    ValueIff(text, from, end);
    var value :| IsValue(text, from, value, end);
    assert IsHeader(text, header, scheme, at, value, end);
  }

  lemma HeaderHolds(text: string, header: string, scheme: string, at: nat, value: nat, end: nat)
    requires LowerCase(header) && LowerCase(scheme) && IsHeader(text, header, scheme, at, value, end)
    ensures HeaderLength(header, scheme, text) == Some(end)
  {
    SpellsIff(text, header);
    GapIff(text, |header|, at);
    SpellsIff(text[at..], scheme);
    ValueIff(text, at + |scheme|, end);
  }

  lemma GapIff(text: string, from: nat, end: nat)
    requires from <= |text|
    ensures SpanEnd(text, from, IsBlank) == end <==> Stretch(text, from, end, Gap)
  {
    forall c ensures IsBlank(c) <==> Gap(c) {
      ClassesAgree(c);
    }
    StretchIff(text, from, end, IsBlank, Gap);
  }

  lemma AuthorizationIff(text: string, end: nat)
    ensures AuthorizationPattern(text, end) <==> exists at, value :: IsAuthorization(text, at, value, end)
  {
    HeaderIff(text, "authorization:", "bearer", end);
    if at, value :| IsHeader(text, "authorization:", "bearer", at, value, end) {
      assert IsAuthorization(text, at, value, end);
    }
  }

  lemma ValueIff(text: string, from: nat, end: nat)
    requires from <= |text|
    ensures ValueLength(text, from) == Some(end) <==> exists value :: IsValue(text, from, value, end)
  {
    forall c ensures (IsBlank(c) <==> Gap(c)) && (IsVisible(c) <==> Ink(c)) {
      ClassesAgree(c);
    }
    var at := SpanEnd(text, from, IsBlank);
    StretchIff(text, from, at, IsBlank, Gap);
    StretchIff(text, at, end, IsVisible, Ink);
    if ValueLength(text, from) == Some(end) {
      assert IsValue(text, from, at, end);
    }
    if value :| IsValue(text, from, value, end) {
      StretchIff(text, from, value, IsBlank, Gap);
    }
  }

  lemma BearerIff(text: string, end: nat)
    ensures BearerPattern(text, end) <==> IsBearer(text, end)
  {
    forall c ensures IsValueChar(c) <==> KeyChar(c) {
      ClassesAgree(c);
    }
    if |text| >= 7 {
      assert Begins(text, BEARER) <==> text[..7] == "Bearer ";
      StretchIff(text, 7, end, IsValueChar, KeyChar);
    }
  }

  /** Once the word is known: separators up to a value, and where that value ends. */
  lemma SecretOfWord(table: seq<string>, text: string, word: string, end: nat)
    requires KeywordLength(table, text) == |word| > 0 && Names(word) && Spells(text, word)
    ensures SecretLength(table, text) == Some(end) <==> exists value :: IsSecret(text, word, value, end)
  {
    forall c ensures (IsSeparator(c) <==> Separates(c)) && (IsValueChar(c) <==> KeyChar(c)) {
      ClassesAgree(c);
    }
    var at := SpanEnd(text, |word|, IsSeparator);
    StretchIff(text, |word|, at, IsSeparator, Separates);
    StretchIff(text, at, end, IsValueChar, KeyChar);
    if SecretLength(table, text) == Some(end) {
      assert IsSecret(text, word, at, end);
    }
    if value :| IsSecret(text, word, value, end) {
      StretchIff(text, |word|, value, IsSeparator, Separates);
    }
  }

  lemma SecretIff(text: string, end: nat)
    ensures SecretPattern(text, end) <==> exists word, value :: IsSecret(text, word, value, end)
  {
    KeywordTable();
    if SecretPattern(text, end) {
      var k := KeywordFound(KEYWORDS, text);
      WordIs(text, KEYWORDS[k]);
      SecretOfWord(KEYWORDS, text, KEYWORDS[k], end);
    }
    if word, value :| IsSecret(text, word, value, end) {
      WordIs(text, word);
      SecretOfWord(KEYWORDS, text, word, end);
    }
  }

  lemma WordIs(text: string, word: string)
    requires Names(word) || word in KEYWORDS
    ensures Names(word) && (Spells(text, word) <==> BeginsLower(text, word))
    ensures Spells(text, word) ==> KeywordLength(KEYWORDS, text) == |word| > 0
  {
    NamesIff(word);
    SpellsIff(text, word);
    KeywordTable();
    var k :| 0 <= k < |KEYWORDS| && KEYWORDS[k] == word;
    if Spells(text, word) {
      WordFound(KEYWORDS, text, k);
    }
  }

  /** The patterns that are scanned for and the shapes are the same. */
  lemma PatternsAreShapes()
    ensures SamePattern(AnyPattern, IsSensitive)
  {
    forall t: string, n: nat ensures AnyPattern(t, n) <==> IsSensitive(t, n) {
      AuthorizationIff(t, n);
      BearerIff(t, n);
      SecretIff(t, n);
    }
  }

  // ---------------------------------------------------------------- what is hidden

  /** Every character of a sensitive stretch is hidden, from the first to the last, and every
      hidden character lies in one. */
  lemma HiddenIff(s: string, p: nat)
    ensures Covered(AnyPattern, s, p)
       <==> exists i: nat, end: nat :: i <= p < i + end && i < |s| && IsSensitive(s[i..], end)
  {
    PatternsAreShapes();
    SameCoverage(AnyPattern, IsSensitive, s);
    CoveredAt(IsSensitive, s, p);
  }

  /** A text that is sensitive from end to end leaves nothing but the marker. */
  lemma SensitiveTextVanishes(s: string)
    requires IsSensitive(s, |s|) && s != ""
    ensures Redacted(IsSensitive, s) == "[REDACTED]"
  {
    WholeMatchVanishes(IsSensitive, s);
  }

  /** No sensitive stretch is left in the output, nor does the marker complete a new one; a
      second pass changes nothing. */
  lemma NothingSensitiveIsLeft(s: string, i: nat, end: nat)
    ensures i < |Redacted(IsSensitive, s)| ==> !IsSensitive(Redacted(IsSensitive, s)[i..], end)
    ensures Redacted(IsSensitive, Redacted(IsSensitive, s)) == Redacted(IsSensitive, s)
  {
    var out := Redacted(IsSensitive, s);
    PatternsAreShapes();
    SameRedaction(AnyPattern, IsSensitive, s);
    SameRedaction(AnyPattern, IsSensitive, out);
    RedactionIsFinal(s);
    if i < |out| {
      assert !IsMatch(AnyPattern, out, Interval(i, i + end));
      assert !AnyPattern(out[i..], end);
    }
  }

  // ---------------------------------------------------------------- the whole function

  lemma ScansComplete(s: string, m: Interval)
    ensures IsMatch(AnyPattern, s, m)
       <==> HeaderMatch(HEADER, SCHEME, s, m) || TokenMatch(BEARER, s, m) || SecretMatch(KEYWORDS, s, m)
  {
  }

  method RedactForLog(s: string) returns (result: string)
    ensures result == Redacted(IsSensitive, s)
  {
    PatternsAreShapes();
    SameRedaction(AnyPattern, IsSensitive, s);
    if s == "" {
      return "";
    }
    var authorization := ScanHeaders(HEADER, SCHEME, s);
    var bearer := ScanTokens(BEARER, s);
    var secrets := ScanSecrets(KEYWORDS, s);
    var matches := authorization + bearer + secrets;
    forall m ensures m in matches <==> IsMatch(AnyPattern, s, m) {
      ScansComplete(s, m);
    }
    MatchesStartVisible();
    result := Replace(AnyPattern, s, matches);
  }
}
