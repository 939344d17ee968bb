/** The guardrail rules of src/guardrails.rs on full, unpruned logs, and the bounds that
    those rules give over every window. */
module GuardrailLogs {

  /** Times are in nanoseconds. */
  const MINUTE: nat := 60_000_000_000
  const HOUR: nat := 3_600_000_000_000
  const RECENT_WINDOW: nat := 64

  // ---------------------------------------------------------------- outputs

  datatype Output = Output(time: nat, chars: nat)

  function FromTime(log: seq<Output>, from: int): seq<Output> {
    if log == [] then [] else
      var e := log[|log| - 1];
      FromTime(log[..|log| - 1], from) + (if e.time >= from then [e] else [])
  }

  function Sum(log: seq<Output>): nat {
    if log == [] then 0 else Sum(log[..|log| - 1]) + log[|log| - 1].chars
  }

  /** The rule of `record_output`: the last hour and the new output fit the budget. */
  predicate OutputFits(log: seq<Output>, now: nat, chars: nat, budget: nat) {
    Sum(FromTime(log, now - HOUR)) + chars <= budget
  }

  /** Time does not run backwards. */
  predicate OutputsSorted(log: seq<Output>) {
    if log == [] then true else
      var init, e := log[..|log| - 1], log[|log| - 1];
      OutputsSorted(init) && (init != [] ==> init[|init| - 1].time <= e.time)
  }

  /** Every output in the log obeyed the rule when it was accepted. */
  predicate OutputsGoverned(log: seq<Output>, budget: nat) {
    if log == [] then true else
      var init, e := log[..|log| - 1], log[|log| - 1];
      OutputsGoverned(init, budget) && OutputFits(init, e.time, e.chars, budget)
  }

  /** Characters accepted in the closed window `[from, to]`. */
  function SumWithin(log: seq<Output>, from: int, to: int): nat {
    if log == [] then 0 else
      var e := log[|log| - 1];
      SumWithin(log[..|log| - 1], from, to) + (if from <= e.time <= to then e.chars else 0)
  }

  lemma {:induction false} SumWithinAtMost(log: seq<Output>, from: int, to: int, earlier: int)
    requires earlier <= from
    ensures SumWithin(log, from, to) <= Sum(FromTime(log, earlier))
  {
    if log != [] {
      var init, e := log[..|log| - 1], log[|log| - 1];
      SumWithinAtMost(init, from, to, earlier);
      if e.time >= earlier {
        SumSnoc(FromTime(init, earlier), e);
      } else {
        assert FromTime(log, earlier) == FromTime(init, earlier);
      }
    }
  }

  lemma SumSnoc(log: seq<Output>, e: Output)
    ensures Sum(log + [e]) == Sum(log) + e.chars
  {
    assert (log + [e])[..|log|] == log;
  }

  lemma OutputsGovernedSnoc(log: seq<Output>, e: Output, budget: nat)
    requires OutputsGoverned(log, budget) && OutputFits(log, e.time, e.chars, budget)
    ensures OutputsGoverned(log + [e], budget)
  {
    assert (log + [e])[..|log|] == log;
  }

  lemma OutputsSortedSnoc(log: seq<Output>, e: Output)
    requires OutputsSorted(log) && (log != [] ==> log[|log| - 1].time <= e.time)
    ensures OutputsSorted(log + [e])
  {
    var longer := log + [e];
    assert longer[..|longer| - 1] == log && longer[|longer| - 1] == e;
  }

  /** Outputs accepted in any closed window of one hour total at most the budget. */
  lemma {:induction false} HourlyBudget(log: seq<Output>, budget: nat, from: int)
    requires OutputsGoverned(log, budget)
    ensures SumWithin(log, from, from + 3_600_000_000_000) <= budget
  {
    if log != [] {
      var init, e := log[..|log| - 1], log[|log| - 1];
      HourlyBudget(init, budget, from);
      if from <= e.time <= from + HOUR {
        SumWithinAtMost(init, from, from + HOUR, e.time - HOUR);
      }
    }
  }

  lemma {:induction false} SumFromTime(log: seq<Output>, from: int, to: int)
    requires forall i | 0 <= i < |log| :: log[i].time <= to
    ensures Sum(FromTime(log, from)) == SumWithin(log, from, to)
  {
    if log != [] {
      var init, e := log[..|log| - 1], log[|log| - 1];
      SumFromTime(init, from, to);
      if e.time >= from {
        SumSnoc(FromTime(init, from), e);
      } else {
        assert FromTime(log, from) == FromTime(init, from);
      }
    }
  }

  lemma {:induction false} SortedUpTo(log: seq<Output>, now: nat)
    requires OutputsSorted(log) && (log != [] ==> log[|log| - 1].time <= now)
    ensures forall i | 0 <= i < |log| :: log[i].time <= now
  {
    if log != [] {
      SortedUpTo(log[..|log| - 1], now);
    }
  }

  /** An output is accepted exactly when it and the outputs of the 3600 s before it, both ends
      included, fit the budget. */
  lemma FitsIff(log: seq<Output>, now: nat, chars: nat, budget: nat)
    requires OutputsSorted(log) && (log != [] ==> log[|log| - 1].time <= now)
    ensures OutputFits(log, now, chars, budget) <==> SumWithin(log, now - 3_600_000_000_000, now) + chars <= budget
  {
    SortedUpTo(log, now);
    SumFromTime(log, now - HOUR, now);
  }

  // ---------------------------------------------------------------- calls

  datatype Pass = Pass(tool: string, time: nat)

  /** The times after `since` at which `tool` passed. */
  function PassTimes(log: seq<Pass>, tool: string, since: int): seq<nat> {
    if log == [] then [] else
      var p := log[|log| - 1];
      PassTimes(log[..|log| - 1], tool, since) + (if p.tool == tool && p.time > since then [p.time] else [])
  }

  /** The rate rule of `check_call`. */
  predicate RateAllows(log: seq<Pass>, tool: string, now: nat, maxCalls: nat) {
    |PassTimes(log, tool, now - MINUTE)| < maxCalls
  }

  predicate PassesGoverned(log: seq<Pass>, maxCalls: nat) {
    if log == [] then true else
      var init, p := log[..|log| - 1], log[|log| - 1];
      && PassesGoverned(init, maxCalls)
      && (init != [] ==> init[|init| - 1].time <= p.time)
      && RateAllows(init, p.tool, p.time, maxCalls)
  }

  /** Passes of `tool` in the half-open window `(since, to]`. */
  function PassesWithin(log: seq<Pass>, tool: string, since: int, to: int): nat {
    if log == [] then 0 else
      var p := log[|log| - 1];
      PassesWithin(log[..|log| - 1], tool, since, to) + (if p.tool == tool && since < p.time <= to then 1 else 0)
  }

  lemma {:induction false} PassesWithinAtMost(log: seq<Pass>, tool: string, since: int, to: int, earlier: int)
    requires earlier <= since
    ensures PassesWithin(log, tool, since, to) <= |PassTimes(log, tool, earlier)|
  {
    if log != [] {
      PassesWithinAtMost(log[..|log| - 1], tool, since, to, earlier);
    }
  }

  /** In any half-open window of one minute at most `maxCalls` calls of one tool pass. */
  lemma {:induction false} MinuteRate(log: seq<Pass>, maxCalls: nat, tool: string, since: int)
    requires PassesGoverned(log, maxCalls)
    ensures PassesWithin(log, tool, since, since + 60_000_000_000) <= maxCalls
  {
    if log != [] {
      var init, p := log[..|log| - 1], log[|log| - 1];
      MinuteRate(init, maxCalls, tool, since);
      if p.tool == tool && since < p.time <= since + MINUTE {
        PassesWithinAtMost(init, tool, since, since + MINUTE, p.time - MINUTE);
      }
    }
  }

  /** The positions of the passes of `tool` in the window. */
  function PassesAt(log: seq<Pass>, tool: string, since: int, to: int): set<int> {
    set i | 0 <= i < |log| && log[i].tool == tool && since < log[i].time <= to
  }

  lemma {:induction false} PassesAreCounted(log: seq<Pass>, tool: string, since: int, to: int)
    ensures PassesWithin(log, tool, since, to) == |PassesAt(log, tool, since, to)|
  {
    if log != [] {
      var n := |log| - 1;
      PassesAreCounted(log[..n], tool, since, to);
      var hit := log[n].tool == tool && since < log[n].time <= to;
      assert PassesAt(log, tool, since, to) == PassesAt(log[..n], tool, since, to) + (if hit then {n} else {});
    }
  }

  lemma {:induction false} PassTimesCounted(log: seq<Pass>, tool: string, since: int, to: int)
    requires forall i | 0 <= i < |log| :: log[i].time <= to
    ensures |PassTimes(log, tool, since)| == PassesWithin(log, tool, since, to)
  {
    if log != [] {
      PassTimesCounted(log[..|log| - 1], tool, since, to);
    }
  }

  lemma {:induction false} PassedUpTo(log: seq<Pass>, maxCalls: nat, now: nat)
    requires PassesGoverned(log, maxCalls) && (log != [] ==> log[|log| - 1].time <= now)
    ensures forall i | 0 <= i < |log| :: log[i].time <= now
  {
    if log != [] {
      PassedUpTo(log[..|log| - 1], maxCalls, now);
    }
  }

  /** `maxCalls` or more passes of `tool` in the 60 s before `now`. */
  predicate TooMany(log: seq<Pass>, maxCalls: nat, tool: string, now: nat) {
    |PassesAt(log, tool, now - 60_000_000_000, now)| >= maxCalls
  }

  /** A call passes the rate check exactly when fewer than the limit of that tool passed in the
      60 s before it. */
  lemma RateIff(log: seq<Pass>, maxCalls: nat, tool: string, now: nat)
    requires PassesGoverned(log, maxCalls) && (log != [] ==> log[|log| - 1].time <= now)
    ensures RateAllows(log, tool, now, maxCalls) <==> !TooMany(log, maxCalls, tool, now)
  {
    PassedUpTo(log, maxCalls, now);
    PassTimesCounted(log, tool, now - MINUTE, now);
    PassesAreCounted(log, tool, now - MINUTE, now);
  }

  // ---------------------------------------------------------------- signatures

  function Signature(tool: string, argumentHash: string): string { tool + ":" + argumentHash }

  /** Hash texts hold no colon, so a signature stands for one tool and one hash. */
  lemma SignatureIdentifies(t: string, g: string, u: string, h: string)
    requires ':' !in g && ':' !in h && Signature(t, g) == Signature(u, h)
    ensures t == u && g == h
  {
    var s := Signature(t, g);
    forall i | |t| < i < |s| ensures s[i] != ':' {
      assert s[i] == g[i - |t| - 1] && s[i] in g;
    }
    forall i | |u| < i < |s| ensures s[i] != ':' {
      assert s[i] == h[i - |u| - 1] && s[i] in h;
    }
    assert s[|t|] == ':' && s[|u|] == ':';
    assert t == s[..|t|] && u == s[..|u|];
    assert g == s[|t| + 1..] && h == s[|u| + 1..];
  }

  /** A signature that passed the consecutive check, and whether the call was accepted. */
  datatype Seen = Seen(signature: string, accepted: bool)

  function TrailingRun(log: seq<Seen>, s: string): nat {
    if log == [] || log[|log| - 1].signature != s then 0 else TrailingRun(log[..|log| - 1], s) + 1
  }

  function Count(log: seq<Seen>, s: string): nat {
    if log == [] then 0 else Count(log[..|log| - 1], s) + (if log[|log| - 1].signature == s then 1 else 0)
  }

  function CountAccepted(log: seq<Seen>, s: string): nat {
    if log == [] then 0 else
      CountAccepted(log[..|log| - 1], s) +
      (if log[|log| - 1].signature == s && log[|log| - 1].accepted then 1 else 0)
  }

  function Recent(log: seq<Seen>): seq<Seen> { if |log| <= RECENT_WINDOW then log else log[|log| - RECENT_WINDOW..] }

  /** The consecutive rule. */
  predicate RunAllows(log: seq<Seen>, s: string, threshold: nat) { TrailingRun(log, s) + 1 <= threshold }

  /** The repetition rule: at most `threshold` among the last 64, this one included. */
  predicate RepeatAllows(log: seq<Seen>, s: string, threshold: nat) {
    Count(Recent(log + [Seen(s, true)]), s) <= threshold
  }

  predicate SignaturesGoverned(log: seq<Seen>, threshold: nat) {
    if log == [] then true else
      var init, e := log[..|log| - 1], log[|log| - 1];
      && SignaturesGoverned(init, threshold)
      && RunAllows(init, e.signature, threshold)
      && (e.accepted <==> RepeatAllows(init, e.signature, threshold))
  }

  lemma {:induction false} SignaturesPrefix(log: seq<Seen>, threshold: nat, n: nat)
    requires SignaturesGoverned(log, threshold) && n <= |log|
    ensures SignaturesGoverned(log[..n], threshold)
    decreases |log|
  {
    if n == |log| {
      assert log[..n] == log;
    } else {
      SignaturesPrefix(log[..|log| - 1], threshold, n);
      assert log[..|log| - 1][..n] == log[..n];
    }
  }

  lemma {:induction false} TrailingRunCovers(log: seq<Seen>, s: string, n: nat)
    requires n <= |log| && forall i | |log| - n <= i < |log| :: log[i].signature == s
    ensures TrailingRun(log, s) >= n
    decreases n
  {
    if n > 0 {
      TrailingRunCovers(log[..|log| - 1], s, n - 1);
    }
  }

  lemma {:induction false} TrailingRunIs(log: seq<Seen>, s: string)
    ensures TrailingRun(log, s) <= |log|
    ensures forall i | |log| - TrailingRun(log, s) <= i < |log| :: log[i].signature == s
  {
    if log != [] && log[|log| - 1].signature == s {
      TrailingRunIs(log[..|log| - 1], s);
    }
  }

  /** The last `threshold` signatures are all `s`. */
  predicate AllTheSame(log: seq<Seen>, s: string, threshold: nat) {
    threshold <= |log| && forall i | |log| - threshold <= i < |log| :: log[i].signature == s
  }

  /** A call passes the consecutive check exactly when the last `threshold` signatures are not
      all its own. */
  lemma RunIff(log: seq<Seen>, s: string, threshold: nat)
    ensures RunAllows(log, s, threshold) <==> !AllTheSame(log, s, threshold)
  {
    TrailingRunIs(log, s);
    if AllTheSame(log, s, threshold) {
      TrailingRunCovers(log, s, threshold);
    }
  }

  function Signatures(log: seq<Seen>): seq<string> {
    if log == [] then [] else Signatures(log[..|log| - 1]) + [log[|log| - 1].signature]
  }

  lemma {:induction false} CountIs(log: seq<Seen>, s: string)
    ensures Count(log, s) == multiset(Signatures(log))[s]
  {
    if log != [] {
      CountIs(log[..|log| - 1], s);
    }
  }

  function Last63(log: seq<Seen>): seq<Seen> { if |log| <= 63 then log else log[|log| - 63..] }

  lemma RecentSnoc(log: seq<Seen>, e: Seen)
    ensures Recent(log + [e]) == Last63(log) + [e]
  {
  }

  lemma CountSnoc(log: seq<Seen>, e: Seen, s: string)
    ensures Count(log + [e], s) == Count(log, s) + (if e.signature == s then 1 else 0)
  {
    var longer := log + [e];
    assert longer[..|longer| - 1] == log && longer[|longer| - 1] == e;
  }

  /** The signature occurs `threshold` times or more among the last 63. */
  ghost predicate OccursOften(log: seq<Seen>, s: string, threshold: nat) { multiset(Signatures(Last63(log)))[s] >= threshold }

  /** A call passes the repetition check exactly when its signature occurs fewer than
      `threshold` times among the 63 before it. */
  lemma RepeatIff(log: seq<Seen>, s: string, threshold: nat)
    ensures RepeatAllows(log, s, threshold) <==> !OccursOften(log, s, threshold)
  {
    RecentSnoc(log, Seen(s, true));
    CountSnoc(Last63(log), Seen(s, true), s);
    CountIs(Last63(log), s);
  }

  lemma RunAtEnd(log: seq<Seen>, threshold: nat, s: string, from: nat)
    requires SignaturesGoverned(log, threshold)
    requires from <= |log| && forall i | from <= i < |log| :: log[i].signature == s
    ensures |log| - from <= threshold
  {
    if from < |log| {
      TrailingRunCovers(log[..|log| - 1], s, |log| - 1 - from);
    }
  }

  /** Calls that pass the consecutive check never hold a run longer than the threshold. */
  lemma RunsBounded(log: seq<Seen>, threshold: nat, s: string, from: nat, to: nat)
    requires SignaturesGoverned(log, threshold)
    requires from <= to <= |log| && forall i | from <= i < to :: log[i].signature == s
    ensures to - from <= threshold
  {
    SignaturesPrefix(log, threshold, to);
    RunAtEnd(log[..to], threshold, s, from);
  }

  lemma {:induction false} CountDropFirst(log: seq<Seen>, s: string, k: nat)
    requires k <= |log|
    ensures Count(log[k..], s) <= Count(log, s)
    ensures CountAccepted(log[k..], s) <= Count(log[k..], s)
    decreases |log|
  {
    if k < |log| {
      assert log[k..][..|log| - k - 1] == log[..|log| - 1][k..];
      CountDropFirst(log[..|log| - 1], s, k);
    }
  }

  lemma {:induction false} SameSignaturesSameCount(a: seq<Seen>, b: seq<Seen>, s: string)
    requires |a| == |b| && forall i | 0 <= i < |a| :: a[i].signature == b[i].signature
    ensures Count(a, s) == Count(b, s)
  {
    if a != [] {
      SameSignaturesSameCount(a[..|a| - 1], b[..|b| - 1], s);
    }
  }

  /** The last 64 signatures cover any window of at most 64 that ends with the last one. */
  lemma WindowInRecent(log: seq<Seen>, s: string, lo: nat)
    requires lo < |log| && |log| - lo <= RECENT_WINDOW && log[|log| - 1].signature == s
    ensures CountAccepted(log[lo..], s) <= Count(Recent(log[..|log| - 1] + [Seen(s, true)]), s)
  {
    var window := log[lo..];
    var all := log[..|log| - 1] + [Seen(s, true)];
    var recent := Recent(all);
    var k := |recent| - |window|;
    assert |all| == |log| && k >= 0;
    var tail := recent[k..];
    assert tail == all[lo..];
    CountDropFirst(recent, s, k);
    SameSignaturesSameCount(tail, window, s);
    CountDropFirst(window, s, 0);
    assert window[0..] == window;
  }

  lemma CountAcceptedSnoc(log: seq<Seen>, e: Seen, s: string)
    ensures CountAccepted(log + [e], s) == CountAccepted(log, s) + (if e.signature == s && e.accepted then 1 else 0)
  {
    assert (log + [e])[..|log|] == log;
  }

  lemma WindowGrows(log: seq<Seen>, s: string, lo: nat)
    requires lo < |log| && !(log[|log| - 1].signature == s && log[|log| - 1].accepted)
    ensures CountAccepted(log[lo..], s) == CountAccepted(log[..|log| - 1][lo..], s)
  {
    var init, e := log[..|log| - 1], log[|log| - 1];
    CountAcceptedSnoc(init[lo..], e, s);
    assert log[lo..] == init[lo..] + [e];
  }

  lemma {:induction false} RepeatsBoundedAtEnd(log: seq<Seen>, threshold: nat, s: string, lo: nat)
    requires SignaturesGoverned(log, threshold) && lo <= |log| && |log| - lo <= RECENT_WINDOW
    ensures CountAccepted(log[lo..], s) <= threshold
    decreases |log|
  {
    if lo < |log| {
      var init, e := log[..|log| - 1], log[|log| - 1];
      if e.signature == s && e.accepted {
        WindowInRecent(log, s, lo);
      } else {
        RepeatsBoundedAtEnd(init, threshold, s, lo);
        WindowGrows(log, s, lo);
      }
    }
  }

  /** Any 64 consecutive signatures hold at most `threshold` accepted calls of one of them. */
  lemma RepeatsBounded(log: seq<Seen>, threshold: nat, s: string, lo: nat, hi: nat)
    requires SignaturesGoverned(log, threshold)
    requires lo <= hi <= |log| && hi - lo <= 64
    ensures CountAccepted(log[lo..hi], s) <= threshold
  {
    SignaturesPrefix(log, threshold, hi);
    RepeatsBoundedAtEnd(log[..hi], threshold, s, lo);
    assert log[..hi][lo..] == log[lo..hi];
  }
}
