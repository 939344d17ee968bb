/** Redaction for any set of patterns that only look forward: what the output is, and when
    nothing that matches can survive in it (src/server.rs, `redact_for_log`). */
module RedactionTheory {
  import opened Basics

  /** A half-open interval of positions, the `(usize, usize)` pairs of the source. */
  datatype Interval = Interval(lo: nat, hi: nat)

  /** `pattern(text, n)`: the pattern matches exactly the first `n` characters of `text`. */
  type Pattern = (string, nat) -> bool

  const MARKER := "[REDACTED]"

  /** `u8::is_ascii_whitespace`: space, tab, LF, FF, CR. */
  predicate IsAsciiSpace(c: char) {
    c == ' ' || c == '\t' || c == '\n' || c == '\r' || c as int == 0x0C
  }

  predicate IsVisible(c: char) { !IsAsciiSpace(c) }

  /** `text` begins with `literal`. */
  predicate Begins(text: string, literal: string) {
    |literal| <= |text| && forall k | 0 <= k < |literal| :: text[k] == literal[k]
  }

  predicate IsMatch(pattern: Pattern, s: string, m: Interval) {
    m.lo < |s| && m.lo <= m.hi && pattern(s[m.lo..], m.hi - m.lo)
  }

  // ---------------------------------------------------------------- what redaction means

  /** Position `p` lies inside some match. */
  ghost predicate Covered(pattern: Pattern, s: string, p: int) {
    exists m :: IsMatch(pattern, s, m) && m.lo <= p < m.hi
  }

  /** Which positions are covered, as a function. */
  ghost function Coverage(pattern: Pattern, s: string): int -> bool { p => Covered(pattern, s, p) }

  /** What position `p` contributes to the output: itself when no match covers it, one
      marker at the first position of a covered run, nothing inside a run. */
  function Emitted(covered: int -> bool, s: string, p: nat): string
    requires p < |s|
  {
    if !covered(p) then [s[p]]
    else if !covered(p - 1) then MARKER
    else ""
  }

  function RedactedFrom(covered: int -> bool, s: string, p: nat): string
    requires p <= |s|
    decreases |s| - p
  {
    if p == |s| then "" else Emitted(covered, s, p) + RedactedFrom(covered, s, p + 1)
  }

  ghost function Redacted(pattern: Pattern, s: string): string { RedactedFrom(Coverage(pattern, s), s, 0) }

  // ---------------------------------------------------------------- patterns that can be redacted

  /** `t` is `common` followed by nothing or by a marker; `u` is `common` followed by
      anything, but by a visible character where `t` shows the marker. */
  ghost predicate Rewritten(common: string, t: string, u: string) {
    && Begins(t, common) && Begins(u, common)
    && (|t| > |common| ==> t[|common|] == '[')
    && (|t| > |common| ==> |u| > |common| && IsVisible(u[|common|]))
  }

  /** Matches are not empty, stay inside the text and start with a visible character. */
  ghost predicate WellShaped(pattern: Pattern) {
    forall t: string, n: nat :: pattern(t, n) ==> 0 < n <= |t| && IsVisible(t[0])
  }

  /** Cutting the rest of a text and putting a marker in its place creates no match. */
  ghost predicate ShortSighted(pattern: Pattern) {
    forall common: string, t: string, u: string, n: nat ::
      Rewritten(common, t, u) && pattern(t, n) ==> exists k: nat :: pattern(u, k)
  }

  /** No match starts inside a marker, whatever follows it. */
  ghost predicate MarkerInert(pattern: Pattern) {
    forall k: nat, rest: string, n: nat | k < |MARKER| :: !pattern(MARKER[k..] + rest, n)
  }

  ghost predicate Redactable(pattern: Pattern) {
    WellShaped(pattern) && ShortSighted(pattern) && MarkerInert(pattern)
  }

  // ---------------------------------------------------------------- nothing survives

  /** A covered run begins with a visible character, for a match starts there. */
  lemma RunStart(pattern: Pattern, s: string, p: nat)
    requires WellShaped(pattern)
    requires p < |s| && Covered(pattern, s, p) && !Covered(pattern, s, p - 1)
    ensures IsVisible(s[p])
  {
    var m :| IsMatch(pattern, s, m) && m.lo <= p < m.hi;
    assert m.lo == p;
  }

  lemma HitCovers(pattern: Pattern, s: string, p: nat, n: nat)
    requires WellShaped(pattern) && p < |s| && pattern(s[p..], n)
    ensures Covered(pattern, s, p)
  {
    assert IsMatch(pattern, s, Interval(p, p + n));
  }

  /** From an uncovered position the output repeats the input up to the next covered run. */
  lemma {:induction false} CommonPart(pattern: Pattern, s: string, p: nat) returns (common: string)
    requires WellShaped(pattern) && p <= |s|
    requires p < |s| && Covered(pattern, s, p) ==> !Covered(pattern, s, p - 1)
    ensures Rewritten(common, RedactedFrom(Coverage(pattern, s), s, p), s[p..])
    decreases |s| - p
  {
    common := "";
    if p < |s| {
      if Covered(pattern, s, p) {
        RunStart(pattern, s, p);
      } else {
        var rest := CommonPart(pattern, s, p + 1);
        common := [s[p]] + rest;
        assert RedactedFrom(Coverage(pattern, s), s, p) == [s[p]] + RedactedFrom(Coverage(pattern, s), s, p + 1);
        assert s[p..] == [s[p]] + s[p + 1..];
      }
    }
  }

  lemma DropOfSum(a: string, b: string, k: nat)
    requires k <= |a + b|
    ensures (a + b)[k..] == if k < |a| then a[k..] + b else b[k - |a|..]
  {
  }

  lemma {:induction false} NothingSurvivesFrom(pattern: Pattern, s: string, p: nat, k: nat, n: nat)
    requires Redactable(pattern) && p <= |s| && k < |RedactedFrom(Coverage(pattern, s), s, p)|
    ensures !pattern(RedactedFrom(Coverage(pattern, s), s, p)[k..], n)
    decreases |s| - p
  {
    var e, out, rest := Emitted(Coverage(pattern, s), s, p), RedactedFrom(Coverage(pattern, s), s, p), RedactedFrom(Coverage(pattern, s), s, p + 1);
    DropOfSum(e, rest, k);
    if k >= |e| {
      NothingSurvivesFrom(pattern, s, p + 1, k - |e|, n);
    } else if Covered(pattern, s, p) {
      assert e == MARKER;
    } else if pattern(out[k..], n) {
      assert out[k..] == out;
      var common := CommonPart(pattern, s, p);
      var j :| pattern(s[p..], j);
      HitCovers(pattern, s, p, j);
    }
  }

  /** Scanning the redacted text again finds no match at any position. */
  lemma NothingSurvives(pattern: Pattern, s: string)
    requires Redactable(pattern)
    ensures forall m :: !IsMatch(pattern, Redacted(pattern, s), m)
  {
    forall m ensures !IsMatch(pattern, Redacted(pattern, s), m) {
      if m.lo < |Redacted(pattern, s)| && m.lo <= m.hi {
        NothingSurvivesFrom(pattern, s, 0, m.lo, m.hi - m.lo);
      }
    }
  }

  lemma HeadOfSlice(s: string, p: nat, q: nat, rest: string)
    requires p < q <= |s|
    ensures [s[p]] + (s[p + 1..q] + rest) == s[p..q] + rest
  {
    assert s[p..q] == [s[p]] + s[p + 1..q];
  }

  lemma {:induction false} UncoveredUnchanged(covered: int -> bool, s: string, p: nat, q: nat)
    requires p <= q <= |s| && forall r | p <= r < q :: !covered(r)
    ensures RedactedFrom(covered, s, p) == s[p..q] + RedactedFrom(covered, s, q)
    decreases q - p
  {
    if p == q {
      assert s[p..q] == "";
    } else {
      UncoveredUnchanged(covered, s, p + 1, q);
      HeadOfSlice(s, p, q, RedactedFrom(covered, s, q));
    }
  }

  lemma {:induction false} CoveredSkipped(covered: int -> bool, s: string, p: nat, q: nat)
    requires p <= q <= |s| && forall r | p - 1 <= r < q :: covered(r)
    ensures RedactedFrom(covered, s, p) == RedactedFrom(covered, s, q)
    decreases q - p
  {
    if p < q {
      CoveredSkipped(covered, s, p + 1, q);
    }
  }

  /** An uncovered stretch is kept and the covered run after it becomes one marker. */
  lemma RunReplaced(covered: int -> bool, s: string, from: nat, lo: nat, hi: nat)
    requires from <= lo < hi <= |s| && !covered(lo - 1)
    requires forall p | from <= p < lo :: !covered(p)
    requires forall p | lo <= p < hi :: covered(p)
    ensures RedactedFrom(covered, s, from) == s[from..lo] + MARKER + RedactedFrom(covered, s, hi)
  {
    UncoveredUnchanged(covered, s, from, lo);
    CoveredSkipped(covered, s, lo + 1, hi);
  }

  ghost predicate SamePattern(p: Pattern, q: Pattern) { forall t: string, n: nat :: p(t, n) <==> q(t, n) }

  lemma SameCoverage(p: Pattern, q: Pattern, s: string)
    requires SamePattern(p, q)
    ensures forall k :: Covered(p, s, k) <==> Covered(q, s, k)
  {
    forall k ensures Covered(p, s, k) <==> Covered(q, s, k) {
      if m :| IsMatch(p, s, m) && m.lo <= k < m.hi {
        assert IsMatch(q, s, m);
      }
      if m :| IsMatch(q, s, m) && m.lo <= k < m.hi {
        assert IsMatch(p, s, m);
      }
    }
  }

  lemma {:induction false} SameOutput(c: int -> bool, d: int -> bool, s: string, p: nat)
    requires p <= |s| && forall k :: c(k) <==> d(k)
    ensures RedactedFrom(c, s, p) == RedactedFrom(d, s, p)
    decreases |s| - p
  {
    if p < |s| {
      SameOutput(c, d, s, p + 1);
    }
  }

  /** Patterns that match the same are redacted the same. */
  lemma SameRedaction(p: Pattern, q: Pattern, s: string)
    requires SamePattern(p, q)
    ensures Redacted(p, s) == Redacted(q, s)
  {
    SameCoverage(p, q, s);
    SameOutput(Coverage(p, s), Coverage(q, s), s, 0);
  }

  lemma CoveredAt(pattern: Pattern, s: string, p: nat)
    ensures Covered(pattern, s, p)
       <==> exists i: nat, end: nat :: i <= p < i + end && i < |s| && pattern(s[i..], end)
  {
    if m :| IsMatch(pattern, s, m) && m.lo <= p < m.hi {
      assert m.lo <= p < m.lo + (m.hi - m.lo) && pattern(s[m.lo..], m.hi - m.lo);
    }
    if i: nat, end: nat :| i <= p < i + end && i < |s| && pattern(s[i..], end) {
      assert IsMatch(pattern, s, Interval(i, i + end));
    }
  }

  /** A match of the whole text leaves one marker. */
  lemma WholeMatchVanishes(pattern: Pattern, s: string)
    requires s != "" && pattern(s, |s|)
    ensures Redacted(pattern, s) == "[REDACTED]"
  {
    assert s[0..] == s;
    assert IsMatch(pattern, s, Interval(0, |s|));
    RunReplaced(Coverage(pattern, s), s, 0, 0, |s|);
  }

  /** A text without matches comes out unchanged, so redaction is idempotent. */
  lemma Idempotent(pattern: Pattern, s: string)
    requires Redactable(pattern)
    ensures Redacted(pattern, Redacted(pattern, s)) == Redacted(pattern, s)
  {
    NothingSurvives(pattern, s);
    var r := Redacted(pattern, s);
    UncoveredUnchanged(Coverage(pattern, r), r, 0, |r|);
  }

  // ---------------------------------------------------------------- sorting and merging intervals

  ghost predicate InSome(ms: seq<Interval>, p: int) {
    exists k :: 0 <= k < |ms| && ms[k].lo <= p < ms[k].hi
  }

  /** The order of `sort_by_key(|m| (m.0, m.1))`. */
  predicate NotAfter(a: Interval, b: Interval) { a.lo < b.lo || (a.lo == b.lo && a.hi <= b.hi) }

  ghost predicate Sorted(ms: seq<Interval>) {
    forall i, j | 0 <= i < j < |ms| :: NotAfter(ms[i], ms[j])
  }

  /** Runs that are not empty, in order, with a gap between any two neighbours. */
  ghost predicate Separated(ms: seq<Interval>) {
    && (forall i | 0 <= i < |ms| :: ms[i].lo < ms[i].hi)
    && (forall i, j | 0 <= i < j < |ms| :: ms[i].hi < ms[j].lo)
  }

  function Insert(m: Interval, ms: seq<Interval>): seq<Interval> {
    if ms == [] || NotAfter(m, ms[0]) then [m] + ms else [ms[0]] + Insert(m, ms[1..])
  }

  lemma {:induction false} InsertAdds(m: Interval, ms: seq<Interval>)
    ensures multiset(Insert(m, ms)) == multiset(ms) + multiset{m}
  {
    if ms != [] && !NotAfter(m, ms[0]) {
      InsertAdds(m, ms[1..]);
      assert ms == [ms[0]] + ms[1..];
    }
  }

  lemma {:induction false} InsertSorts(m: Interval, ms: seq<Interval>)
    requires Sorted(ms)
    ensures Sorted(Insert(m, ms))
  {
    if ms != [] && !NotAfter(m, ms[0]) {
      var rest := Insert(m, ms[1..]);
      InsertSorts(m, ms[1..]);
      InsertAdds(m, ms[1..]);
      forall j | 0 <= j < |rest| ensures NotAfter(ms[0], rest[j]) {
        assert rest[j] in multiset(rest);
        assert rest[j] == m || rest[j] in ms[1..];
      }
    }
  }

  /** The library sort the source calls: sorted, with the same intervals. */
  method Sort(ms: seq<Interval>) returns (r: seq<Interval>)
    ensures Sorted(r) && multiset(r) == multiset(ms)
  {
    r := [];
    for k := 0 to |ms|
      invariant Sorted(r) && multiset(r) == multiset(ms[..k])
    {
      InsertSorts(ms[k], r);
      InsertAdds(ms[k], r);
      r := Insert(ms[k], r);
      assert ms[..k + 1] == ms[..k] + [ms[k]];
    }
    assert ms[..|ms|] == ms;
  }

  lemma InSomeSnoc(ms: seq<Interval>, m: Interval, p: int)
    ensures InSome(ms + [m], p) <==> InSome(ms, p) || m.lo <= p < m.hi
  {
    var all := ms + [m];
    assert all[|ms|] == m;
    assert forall k | 0 <= k < |ms| :: all[k] == ms[k];
  }

  /** The last run, extended in place to the end of an interval that touches it. */
  function Extended(merged: seq<Interval>, m: Interval): seq<Interval>
    requires merged != []
  {
    var last := merged[|merged| - 1];
    if m.hi > last.hi then merged[|merged| - 1 := Interval(last.lo, m.hi)] else merged
  }

  /** Extending the last run adds exactly what the touching interval adds. */
  lemma InSomeExtended(merged: seq<Interval>, m: Interval, p: int)
    requires merged != [] && merged[|merged| - 1].lo <= m.lo <= merged[|merged| - 1].hi
    ensures InSome(Extended(merged, m), p) <==> InSome(merged, p) || m.lo <= p < m.hi
  {
    var front, last := merged[..|merged| - 1], merged[|merged| - 1];
    var longer := Extended(merged, m)[|merged| - 1];
    assert merged == front + [last] && Extended(merged, m) == front + [longer];
    InSomeSnoc(front, last, p);
    InSomeSnoc(front, longer, p);
  }

  /** One round of the merge loop. */
  function MergedWith(merged: seq<Interval>, m: Interval): seq<Interval> {
    if merged != [] && m.lo <= merged[|merged| - 1].hi then Extended(merged, m) else merged + [m]
  }

  lemma RoundKeeps(merged: seq<Interval>, m: Interval)
    requires Separated(merged) && m.lo < m.hi
    requires merged != [] ==> merged[|merged| - 1].lo <= m.lo
    ensures Separated(MergedWith(merged, m))
    ensures var r := MergedWith(merged, m); r != [] && r[|r| - 1].lo <= m.lo
  {
  }

  lemma RoundCovers(merged: seq<Interval>, done: seq<Interval>, m: Interval)
    requires merged != [] ==> merged[|merged| - 1].lo <= m.lo
    requires forall p :: InSome(merged, p) <==> InSome(done, p)
    ensures forall p :: InSome(MergedWith(merged, m), p) <==> InSome(done + [m], p)
  {
    forall p ensures InSome(MergedWith(merged, m), p) <==> InSome(done + [m], p) {
      InSomeSnoc(done, m, p);
      if merged != [] && m.lo <= merged[|merged| - 1].hi {
        InSomeExtended(merged, m, p);
      } else {
        InSomeSnoc(merged, m, p);
      }
    }
  }

  /** `merged` covers what the intervals `done` cover, in separated runs of which none
      starts after the last of `done`. */
  ghost predicate MergeOf(merged: seq<Interval>, done: seq<Interval>) {
    && Separated(merged)
    && (merged != [] ==> done != [] && merged[|merged| - 1].lo <= done[|done| - 1].lo)
    && forall p :: InSome(merged, p) <==> InSome(done, p)
  }

  lemma RoundMerges(merged: seq<Interval>, done: seq<Interval>, m: Interval)
    requires MergeOf(merged, done) && m.lo < m.hi
    requires done != [] ==> NotAfter(done[|done| - 1], m)
    ensures MergeOf(MergedWith(merged, m), done + [m])
  {
    RoundKeeps(merged, m);
    RoundCovers(merged, done, m);
  }

  /** The merge loop: overlapping or touching neighbours become one run. */
  method Merge(ms: seq<Interval>) returns (merged: seq<Interval>)
    requires Sorted(ms) && forall k | 0 <= k < |ms| :: ms[k].lo < ms[k].hi
    ensures Separated(merged)
    ensures forall p :: InSome(merged, p) <==> InSome(ms, p)
  {
    merged := [];
    for k := 0 to |ms|
      invariant MergeOf(merged, ms[..k])
    {
      var m := ms[k];
      assert ms[..k + 1] == ms[..k] + [m];
      RoundMerges(merged, ms[..k], m);
      ghost var next := MergedWith(merged, m);
      if |merged| > 0 && m.lo <= merged[|merged| - 1].hi {
        var last := merged[|merged| - 1];
        if m.hi > last.hi {
          merged := merged[|merged| - 1 := Interval(last.lo, m.hi)];
        }
      } else {
        merged := merged + [m];
      }
      assert merged == next;
    }
    assert ms[..|ms|] == ms;
  }

  /** Separated runs are determined by what they cover: they are its maximal runs. */
  lemma RunsAreMaximal(ms: seq<Interval>, k: nat)
    requires Separated(ms) && k < |ms|
    ensures !InSome(ms, ms[k].lo - 1) && !InSome(ms, ms[k].hi)
    ensures forall p | ms[k].lo <= p < ms[k].hi :: InSome(ms, p)
  {
  }

  lemma RunsAfterFirst(ms: seq<Interval>, p: int)
    requires Separated(ms) && ms != []
    ensures InSome(ms[1..], p) <==> InSome(ms, p) && p >= ms[0].hi
  {
    if InSome(ms[1..], p) {
      var k :| 0 <= k < |ms[1..]| && ms[1..][k].lo <= p < ms[1..][k].hi;
      assert ms[k + 1] == ms[1..][k];
    }
    if InSome(ms, p) && p >= ms[0].hi {
      var k :| 0 <= k < |ms| && ms[k].lo <= p < ms[k].hi;
      assert ms[k] == ms[1..][k - 1];
    }
  }

  /** The first run of one list starts no earlier and ends no later than that of another
      list that covers the same. */
  lemma FirstRunWithin(a: seq<Interval>, b: seq<Interval>)
    requires Separated(a) && Separated(b) && a != []
    requires forall p :: InSome(a, p) <==> InSome(b, p)
    ensures b != [] && b[0].lo <= a[0].lo
    ensures b[0].lo == a[0].lo ==> a[0].hi <= b[0].hi
  {
    assert a[0].lo <= a[0].lo < a[0].hi;
    assert InSome(a, a[0].lo);
    var k :| 0 <= k < |b| && b[k].lo <= a[0].lo < b[k].hi;
    RunsAreMaximal(a, 0);
    RunsAreMaximal(b, 0);
    assert !InSome(a, b[0].hi);
  }

  lemma TailsCoverSame(a: seq<Interval>, b: seq<Interval>)
    requires Separated(a) && Separated(b) && a != [] && b != [] && a[0] == b[0]
    requires forall p :: InSome(a, p) <==> InSome(b, p)
    ensures Separated(a[1..]) && Separated(b[1..])
    ensures forall p :: InSome(a[1..], p) <==> InSome(b[1..], p)
  {
    forall p ensures InSome(a[1..], p) <==> InSome(b[1..], p) {
      RunsAfterFirst(a, p);
      RunsAfterFirst(b, p);
    }
  }

  /** Two lists of separated runs that cover the same positions are the same list, so what
      the merge loop returns is fixed by what the matches cover. */
  lemma {:induction false} RunsAreUnique(a: seq<Interval>, b: seq<Interval>)
    requires Separated(a) && Separated(b)
    requires forall p :: InSome(a, p) <==> InSome(b, p)
    ensures a == b
  {
    if a != [] {
      FirstRunWithin(a, b);
      FirstRunWithin(b, a);
      TailsCoverSame(a, b);
      RunsAreUnique(a[1..], b[1..]);
      SameHeadAndTail(a, b);
    } else if b != [] {
      FirstRunWithin(b, a);
    }
  }

  /** Between two neighbouring runs nothing is covered. */
  lemma GapIsUncovered(ms: seq<Interval>, k: nat, p: int)
    requires Separated(ms) && k <= |ms|
    requires k > 0 ==> ms[k - 1].hi <= p
    requires k < |ms| ==> p < ms[k].lo
    ensures !InSome(ms, p)
  {
    forall j | 0 <= j < |ms| ensures !(ms[j].lo <= p < ms[j].hi) {
      if j < k - 1 {
        assert ms[j].hi < ms[k - 1].lo;
      } else if k < j {
        assert ms[k].hi < ms[j].lo;
      }
    }
  }

  /** `merged` lists the covered positions of `s` as separated runs. */
  ghost predicate Describes(pattern: Pattern, s: string, merged: seq<Interval>) {
    && Separated(merged)
    && (forall k | 0 <= k < |merged| :: merged[k].hi <= |s|)
    && (forall p :: InSome(merged, p) <==> Covered(pattern, s, p))
  }

  function EndOfRun(merged: seq<Interval>, k: nat): nat
    requires k <= |merged|
  {
    if k == 0 then 0 else merged[k - 1].hi
  }

  lemma RunRedacted(pattern: Pattern, s: string, merged: seq<Interval>, k: nat)
    requires Describes(pattern, s, merged) && k < |merged|
    ensures EndOfRun(merged, k) <= merged[k].lo
    ensures RedactedFrom(Coverage(pattern, s), s, EndOfRun(merged, k))
         == s[EndOfRun(merged, k)..merged[k].lo] + MARKER + RedactedFrom(Coverage(pattern, s), s, merged[k].hi)
  {
    RunCovered(pattern, s, merged, k);
    RunReplaced(Coverage(pattern, s), s, EndOfRun(merged, k), merged[k].lo, merged[k].hi);
  }

  lemma RunCovered(pattern: Pattern, s: string, merged: seq<Interval>, k: nat)
    requires Describes(pattern, s, merged) && k < |merged|
    ensures EndOfRun(merged, k) <= merged[k].lo < merged[k].hi <= |s|
    ensures !Covered(pattern, s, merged[k].lo - 1)
    ensures forall p | EndOfRun(merged, k) <= p < merged[k].lo :: !Covered(pattern, s, p)
    ensures forall p | merged[k].lo <= p < merged[k].hi :: Covered(pattern, s, p)
  {
    var from, lo := EndOfRun(merged, k), merged[k].lo;
    assert k > 0 ==> merged[k - 1].hi < lo;
    forall p | from <= p < lo ensures !Covered(pattern, s, p) {
      GapIsUncovered(merged, k, p);
    }
    RunsAreMaximal(merged, k);
  }

  lemma TailKept(pattern: Pattern, s: string, merged: seq<Interval>)
    requires Describes(pattern, s, merged)
    ensures EndOfRun(merged, |merged|) <= |s|
    ensures RedactedFrom(Coverage(pattern, s), s, EndOfRun(merged, |merged|)) == s[EndOfRun(merged, |merged|)..]
  {
    TailUncovered(pattern, s, merged);
    UncoveredToEnd(Coverage(pattern, s), s, EndOfRun(merged, |merged|));
  }

  lemma TailUncovered(pattern: Pattern, s: string, merged: seq<Interval>)
    requires Describes(pattern, s, merged)
    ensures EndOfRun(merged, |merged|) <= |s|
    ensures forall p | EndOfRun(merged, |merged|) <= p < |s| :: !Covered(pattern, s, p)
  {
    forall p | EndOfRun(merged, |merged|) <= p < |s| ensures !Covered(pattern, s, p) {
      GapIsUncovered(merged, |merged|, p);
    }
  }

  lemma UncoveredToEnd(covered: int -> bool, s: string, from: nat)
    requires from <= |s| && forall p | from <= p < |s| :: !covered(p)
    ensures RedactedFrom(covered, s, from) == s[from..]
  {
    UncoveredUnchanged(covered, s, from, |s|);
    assert s[from..|s|] + "" == s[from..];
  }

  /** Writing the gap before run `k` and one marker moves the output past that run. */
  lemma RunWritten(pattern: Pattern, s: string, merged: seq<Interval>, k: nat, result: string)
    requires Describes(pattern, s, merged) && k < |merged|
    requires Redacted(pattern, s) == result + RedactedFrom(Coverage(pattern, s), s, EndOfRun(merged, k))
    ensures EndOfRun(merged, k) <= merged[k].lo <= merged[k].hi <= |s|
    ensures Redacted(pattern, s) == result + s[EndOfRun(merged, k)..merged[k].lo] + MARKER
                                    + RedactedFrom(Coverage(pattern, s), s, merged[k].hi)
  {
    RunRedacted(pattern, s, merged, k);
    RegroupFour(result, s[EndOfRun(merged, k)..merged[k].lo], MARKER, RedactedFrom(Coverage(pattern, s), s, merged[k].hi));
  }

  /** The rebuild loop writes each gap unchanged and one marker for each run. */
  method Rebuild(ghost pattern: Pattern, s: string, merged: seq<Interval>) returns (result: string)
    requires Describes(pattern, s, merged)
    ensures result == Redacted(pattern, s)
  {
    result := "";
    var lastIdx := 0;
    for k := 0 to |merged|
      invariant lastIdx == EndOfRun(merged, k) <= |s|
      invariant Redacted(pattern, s) == result + RedactedFrom(Coverage(pattern, s), s, lastIdx)
    {
      var lo, hi := merged[k].lo, merged[k].hi;
      RunWritten(pattern, s, merged, k, result);
      result := result + s[lastIdx..lo];
      result := result + MARKER;
      lastIdx := hi;
    }
    TailKept(pattern, s, merged);
    if lastIdx < |s| {
      result := result + s[lastIdx..];
    }
  }
}
