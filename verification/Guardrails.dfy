/** The guardrail policy of src/guardrails.rs as the object it is.  Its histories are pruned;
    ghost logs keep everything since the last reset, and every decision is the one the full
    logs give.  Calls arrive in clock order. */
module Guardrails {
  import opened Basics
  import opened GuardrailLogs

  datatype Decision = Accepted | RateExceeded | LoopDetected | RepeatDetected

  datatype Limits = Limits(maxCallsPerMinute: nat, loopThreshold: nat, maxSessionChars: Option<nat>)

  /** The decision the full logs call for. */
  function Decide(l: Limits, passes: seq<Pass>, seen: seq<Seen>, tool: string, signature: string, now: nat): Decision {
    if !RateAllows(passes, tool, now, l.maxCallsPerMinute) then RateExceeded
    else if !RunAllows(seen, signature, l.loopThreshold) then LoopDetected
    else if !RepeatAllows(seen, signature, l.loopThreshold) then RepeatDetected
    else Accepted
  }

  // ---------------------------------------------------------------- runs on full logs

  datatype Check = Check(tool: string, argumentHash: string, now: nat)

  datatype Logs = Logs(passes: seq<Pass>, seen: seq<Seen>)

  function Logged(l: Limits, logs: Logs, c: Check): Logs {
    var signature := Signature(c.tool, c.argumentHash);
    match Decide(l, logs.passes, logs.seen, c.tool, signature, c.now)
    case RateExceeded => logs
    case LoopDetected => logs.(passes := logs.passes + [Pass(c.tool, c.now)])
    case RepeatDetected => Logs(logs.passes + [Pass(c.tool, c.now)], logs.seen + [Seen(signature, false)])
    case Accepted => Logs(logs.passes + [Pass(c.tool, c.now)], logs.seen + [Seen(signature, true)])
  }

  function RunChecks(l: Limits, cs: seq<Check>): Logs {
    if cs == [] then Logs([], []) else Logged(l, RunChecks(l, cs[..|cs| - 1]), cs[|cs| - 1])
  }

  lemma {:induction false} RunGoverned(l: Limits, cs: seq<Check>)
    requires forall i, j | 0 <= i < j < |cs| :: cs[i].now <= cs[j].now
    ensures PassesGoverned(RunChecks(l, cs).passes, l.maxCallsPerMinute)
    ensures SignaturesGoverned(RunChecks(l, cs).seen, l.loopThreshold)
    ensures var p := RunChecks(l, cs).passes; p != [] ==> cs != [] && p[|p| - 1].time <= cs[|cs| - 1].now
  {
    if cs != [] {
      var init, c := cs[..|cs| - 1], cs[|cs| - 1];
      RunGoverned(l, init);
      LoggedGoverned(l, RunChecks(l, init), c);
    }
  }

  lemma LoggedGoverned(l: Limits, logs: Logs, c: Check)
    requires PassesGoverned(logs.passes, l.maxCallsPerMinute) && SignaturesGoverned(logs.seen, l.loopThreshold)
    requires logs.passes != [] ==> logs.passes[|logs.passes| - 1].time <= c.now
    ensures PassesGoverned(Logged(l, logs, c).passes, l.maxCallsPerMinute)
    ensures SignaturesGoverned(Logged(l, logs, c).seen, l.loopThreshold)
    ensures var p := Logged(l, logs, c).passes; p != [] ==> p[|p| - 1].time <= c.now
  {
    var s, p := Signature(c.tool, c.argumentHash), Pass(c.tool, c.now);
    var e := Seen(s, RepeatAllows(logs.seen, s, l.loopThreshold));
    PassesGovernedSnoc(logs.passes, p, l.maxCallsPerMinute);
    SignaturesGovernedSnoc(logs.seen, e, l.loopThreshold);
    LoggedIs(l, logs, c, p, e);
  }

  /** What one call adds to the logs: at most its pass and its signature. */
  lemma LoggedIs(l: Limits, logs: Logs, c: Check, p: Pass, e: Seen)
    requires p == Pass(c.tool, c.now) && e.signature == Signature(c.tool, c.argumentHash)
    requires e.accepted <==> RepeatAllows(logs.seen, e.signature, l.loopThreshold)
    ensures var logs' := Logged(l, logs, c);
      && logs'.passes == (if RateAllows(logs.passes, p.tool, p.time, l.maxCallsPerMinute) then logs.passes + [p] else logs.passes)
      && (logs'.seen == logs.seen ||
          (logs'.seen == logs.seen + [e] && RunAllows(logs.seen, e.signature, l.loopThreshold)))
  {
  }

  lemma PassesGovernedSnoc(log: seq<Pass>, p: Pass, maxCalls: nat)
    requires PassesGoverned(log, maxCalls) && (log != [] ==> log[|log| - 1].time <= p.time)
    ensures RateAllows(log, p.tool, p.time, maxCalls) ==> PassesGoverned(log + [p], maxCalls)
  {
    assert (log + [p])[..|log|] == log;
  }

  lemma SignaturesGovernedSnoc(log: seq<Seen>, e: Seen, threshold: nat)
    requires SignaturesGoverned(log, threshold)
    requires e.accepted <==> RepeatAllows(log, e.signature, threshold)
    ensures RunAllows(log, e.signature, threshold) ==> SignaturesGoverned(log + [e], threshold)
  {
    assert (log + [e])[..|log|] == log;
  }

  /** Whatever calls arrive, in clock order: the rate, run and repetition bounds hold of
      everything that was let through. */
  lemma ChecksBounded(l: Limits, cs: seq<Check>, tool: string, s: string, since: int, lo: nat, hi: nat)
    requires forall i, j | 0 <= i < j < |cs| :: cs[i].now <= cs[j].now
    requires lo <= hi <= |RunChecks(l, cs).seen|
    ensures PassesWithin(RunChecks(l, cs).passes, tool, since, since + 60_000_000_000) <= l.maxCallsPerMinute
    ensures hi - lo <= 64 ==> CountAccepted(RunChecks(l, cs).seen[lo..hi], s) <= l.loopThreshold
    ensures (forall i | lo <= i < hi :: RunChecks(l, cs).seen[i].signature == s) ==> hi - lo <= l.loopThreshold
  {
    RunGoverned(l, cs);
    var logs := RunChecks(l, cs);
    MinuteRate(logs.passes, l.maxCallsPerMinute, tool, since);
    if hi - lo <= RECENT_WINDOW {
      RepeatsBounded(logs.seen, l.loopThreshold, s, lo, hi);
    }
    if forall i | lo <= i < hi :: logs.seen[i].signature == s {
      RunsBounded(logs.seen, l.loopThreshold, s, lo, hi);
    }
  }

  /** After any calls in clock order, what the next one is told, in numbers: too many passes of
      its tool in the last 60 s; else its own signature, and no other, for the last `threshold`
      times; else its signature `threshold` times among the last 63; else it is accepted. */
  lemma DecisionIs(l: Limits, cs: seq<Check>, c: Check)
    requires forall i, j | 0 <= i < j < |cs| :: cs[i].now <= cs[j].now
    requires forall i | 0 <= i < |cs| :: cs[i].now <= c.now
    ensures var logs, s := RunChecks(l, cs), Signature(c.tool, c.argumentHash);
      Decide(l, logs.passes, logs.seen, c.tool, s, c.now) ==
        if TooMany(logs.passes, l.maxCallsPerMinute, c.tool, c.now) then RateExceeded
        else if AllTheSame(logs.seen, s, l.loopThreshold) then LoopDetected
        else if OccursOften(logs.seen, s, l.loopThreshold) then RepeatDetected
        else Accepted
  {
    var logs, s := RunChecks(l, cs), Signature(c.tool, c.argumentHash);
    RunGoverned(l, cs);
    RateIff(logs.passes, l.maxCallsPerMinute, c.tool, c.now);
    RunIff(logs.seen, s, l.loopThreshold);
    RepeatIff(logs.seen, s, l.loopThreshold);
  }

  // ---------------------------------------------------------------- pruned and full histories

  /** The timestamps after `since`: what `retain` keeps. */
  function Above(times: seq<nat>, since: int): seq<nat> {
    if times == [] then [] else
      var t := times[|times| - 1];
      Above(times[..|times| - 1], since) + (if t > since then [t] else [])
  }

  function TimesOf(history: map<string, seq<nat>>, tool: string): seq<nat> {
    if tool in history then history[tool] else []
  }

  /** The histories hold, for every tool, all passes after `since`. */
  ghost predicate Remembers(history: map<string, seq<nat>>, passes: seq<Pass>, since: int) {
    forall tool :: Above(TimesOf(history, tool), since) == PassTimes(passes, tool, since)
  }

  lemma AboveSnoc(times: seq<nat>, t: nat, since: int)
    ensures Above(times + [t], since) == Above(times, since) + (if t > since then [t] else [])
  {
    assert (times + [t])[..|times|] == times;
  }

  lemma {:induction false} AboveTwice(times: seq<nat>, since: int, later: int)
    requires since <= later
    ensures Above(Above(times, since), later) == Above(times, later)
  {
    if times != [] {
      var init, t := times[..|times| - 1], times[|times| - 1];
      AboveTwice(init, since, later);
      if t > since {
        AboveSnoc(Above(init, since), t, later);
      } else {
        assert Above(times, since) == Above(init, since);
      }
    }
  }

  lemma {:induction false} PassTimesLater(log: seq<Pass>, tool: string, since: int, later: int)
    requires since <= later
    ensures Above(PassTimes(log, tool, since), later) == PassTimes(log, tool, later)
  {
    if log != [] {
      var init, p := log[..|log| - 1], log[|log| - 1];
      PassTimesLater(init, tool, since, later);
      if p.tool == tool && p.time > since {
        AboveSnoc(PassTimes(init, tool, since), p.time, later);
      } else {
        assert PassTimes(log, tool, since) == PassTimes(init, tool, since);
      }
    }
  }

  lemma RemembersLater(history: map<string, seq<nat>>, passes: seq<Pass>, since: int, later: int)
    requires Remembers(history, passes, since) && since <= later
    ensures Remembers(history, passes, later)
  {
    forall tool ensures Above(TimesOf(history, tool), later) == PassTimes(passes, tool, later) {
      AboveTwice(TimesOf(history, tool), since, later);
      PassTimesLater(passes, tool, since, later);
      assert Above(TimesOf(history, tool), since) == PassTimes(passes, tool, since);
    }
  }

  /** The global prune drops old timestamps and empty tools. */
  function Pruned(history: map<string, seq<nat>>, since: int): map<string, seq<nat>> {
    map tool | tool in history && Above(history[tool], since) != [] :: Above(history[tool], since)
  }

  /** Pruning forgets nothing that a later decision looks at. */
  lemma PruneRemembers(history: map<string, seq<nat>>, passes: seq<Pass>, since: int)
    requires Remembers(history, passes, since)
    ensures Remembers(Pruned(history, since), passes, since)
  {
    forall tool ensures Above(TimesOf(Pruned(history, since), tool), since) == PassTimes(passes, tool, since) {
      assert Above(TimesOf(history, tool), since) == PassTimes(passes, tool, since);
      AboveTwice(TimesOf(history, tool), since, since);
    }
  }

  lemma PassRemembered(history: map<string, seq<nat>>, passes: seq<Pass>, since: int, tool: string, now: nat)
    requires Remembers(history, passes, since) && now > since
    ensures Remembers(history[tool := Above(TimesOf(history, tool), since) + [now]], passes + [Pass(tool, now)], since)
  {
    var after := history[tool := Above(TimesOf(history, tool), since) + [now]];
    var log := passes + [Pass(tool, now)];
    assert log[..|passes|] == passes;
    forall t ensures Above(TimesOf(after, t), since) == PassTimes(log, t, since) {
      assert Above(TimesOf(history, t), since) == PassTimes(passes, t, since);
      if t == tool {
        AboveSnoc(Above(TimesOf(history, tool), since), now, since);
        AboveTwice(TimesOf(history, tool), since, since);
      }
    }
  }

  lemma TrimRemembered(history: map<string, seq<nat>>, passes: seq<Pass>, since: int, tool: string)
    requires Remembers(history, passes, since)
    ensures Remembers(history[tool := Above(TimesOf(history, tool), since)], passes, since)
  {
    var after := history[tool := Above(TimesOf(history, tool), since)];
    forall t ensures Above(TimesOf(after, t), since) == PassTimes(passes, t, since) {
      assert Above(TimesOf(history, t), since) == PassTimes(passes, t, since);
      AboveTwice(TimesOf(history, tool), since, since);
    }
  }

  // ---------------------------------------------------------------- output history

  lemma {:induction false} FirstIsEarliest(log: seq<Output>, i: nat)
    requires OutputsSorted(log) && i < |log|
    ensures log[0].time <= log[i].time <= log[|log| - 1].time
  {
    if i < |log| - 1 {
      FirstIsEarliest(log[..|log| - 1], i);
    } else if i > 0 {
      FirstIsEarliest(log[..|log| - 1], i - 1);
    }
  }

  lemma {:induction false} SortedTail(log: seq<Output>)
    requires OutputsSorted(log) && log != []
    ensures OutputsSorted(log[1..])
  {
    if |log| > 1 {
      SortedTail(log[..|log| - 1]);
      assert log[1..][..|log| - 2] == log[..|log| - 1][1..];
    }
  }

  lemma {:induction false} FromTimeSorted(log: seq<Output>, from: int)
    requires OutputsSorted(log)
    ensures OutputsSorted(FromTime(log, from))
    ensures FromTime(log, from) != [] ==> FromTime(log, from)[|FromTime(log, from)| - 1].time <= log[|log| - 1].time
  {
    if log != [] {
      var init, e := log[..|log| - 1], log[|log| - 1];
      FromTimeSorted(init, from);
      if e.time >= from {
        OutputsSortedSnoc(FromTime(init, from), e);
      } else {
        assert FromTime(log, from) == FromTime(init, from);
      }
    }
  }

  lemma {:induction false} FromTimeTwice(log: seq<Output>, from: int, later: int)
    requires from <= later
    ensures FromTime(FromTime(log, from), later) == FromTime(log, later)
  {
    if log != [] {
      var init, e := log[..|log| - 1], log[|log| - 1];
      FromTimeTwice(init, from, later);
      if e.time >= from {
        FromTimeSnoc(FromTime(init, from), e, later);
      } else {
        assert FromTime(log, from) == FromTime(init, from);
      }
    }
  }

  lemma FromTimeSnoc(log: seq<Output>, e: Output, from: int)
    ensures FromTime(log + [e], from) == FromTime(log, from) + (if e.time >= from then [e] else [])
  {
    assert (log + [e])[..|log|] == log;
  }

  lemma {:induction false} FromTimeDropFirst(log: seq<Output>, from: int)
    requires log != [] && log[0].time < from
    ensures FromTime(log[1..], from) == FromTime(log, from)
  {
    if |log| > 1 {
      var init := log[..|log| - 1];
      FromTimeDropFirst(init, from);
      assert log[1..][..|log| - 2] == init[1..];
    }
  }

  lemma {:induction false} FromTimeAll(log: seq<Output>, from: int)
    requires forall i | 0 <= i < |log| :: log[i].time >= from
    ensures FromTime(log, from) == log
  {
    if log != [] {
      FromTimeAll(log[..|log| - 1], from);
    }
  }

  // ---------------------------------------------------------------- signature window

  function Names(log: seq<Seen>): seq<string> { seq(|log|, i requires 0 <= i < |log| => log[i].signature) }

  function CountNames(names: seq<string>, s: string): nat {
    if names == [] then 0 else
      CountNames(names[..|names| - 1], s) + (if names[|names| - 1] == s then 1 else 0)
  }

  lemma {:induction false} CountNamesIs(log: seq<Seen>, s: string)
    ensures CountNames(Names(log), s) == Count(log, s)
  {
    if log != [] {
      CountNamesIs(log[..|log| - 1], s);
      assert Names(log)[..|log| - 1] == Names(log[..|log| - 1]);
    }
  }

  /** What `last_signature` has to hold: the newest signature and the length of its run. */
  ghost predicate RunKnown(last: Option<(string, nat)>, seen: seq<Seen>) {
    match last
    case None => seen == []
    case Some(r) => seen != [] && seen[|seen| - 1].signature == r.0 && r.1 == TrailingRun(seen, r.0)
  }

  lemma RunGrows(last: Option<(string, nat)>, seen: seq<Seen>, e: Seen, n: nat)
    requires RunKnown(last, seen) && n == TrailingRun(seen, e.signature) + 1
    ensures RunKnown(Some((e.signature, n)), seen + [e])
  {
    assert (seen + [e])[..|seen|] == seen;
  }

  function LastNames(names: seq<string>): seq<string> {
    if |names| <= RECENT_WINDOW then names else names[|names| - RECENT_WINDOW..]
  }

  lemma RecentNames(log: seq<Seen>)
    ensures Names(Recent(log)) == LastNames(Names(log))
  {
  }

  lemma NamesSnoc(log: seq<Seen>, e: Seen)
    ensures Names(log + [e]) == Names(log) + [e.signature]
    ensures LastNames(LastNames(Names(log)) + [e.signature]) == LastNames(Names(log + [e]))
  {
    var names := Names(log);
    assert Names(log + [e]) == names + [e.signature];
    LastNamesSnoc(names, e.signature);
  }

  lemma LastNamesSnoc(names: seq<string>, s: string)
    ensures LastNames(LastNames(names) + [s]) == LastNames(names + [s])
  {
  }

  // ---------------------------------------------------------------- what the pruned state keeps

  /** The output history is the part of the full log since `horizon`. */
  ghost predicate OutputsKept(kept: seq<Output>, log: seq<Output>, horizon: int, clock: nat, budget: Option<nat>) {
    && horizon <= clock - HOUR
    && kept == FromTime(log, horizon) && OutputsSorted(log)
    && (log != [] ==> log[|log| - 1].time <= clock)
    && (budget.Some? ==> OutputsGoverned(log, budget.value))
  }

  lemma OutputsPruned(kept: seq<Output>, log: seq<Output>, horizon: int, clock: nat, budget: Option<nat>, now: nat)
    requires OutputsKept(kept, log, horizon, clock, budget) && clock <= now
    ensures OutputsKept(FromTime(kept, now - HOUR), log, now - HOUR, now, budget)
  {
    FromTimeTwice(log, horizon, now - HOUR);
  }

  lemma OutputAccepted(kept: seq<Output>, log: seq<Output>, clock: nat, budget: nat, chars: nat)
    requires OutputsKept(kept, log, clock - HOUR, clock, Some(budget)) && OutputFits(log, clock, chars, budget)
    ensures var e := Output(clock, chars);
      OutputsKept(kept + [e], log + [e], clock - HOUR, clock, Some(budget))
  {
    var e := Output(clock, chars);
    var log' := log + [e];
    assert log'[|log'| - 1] == e;
    FromTimeSnoc(log, e, clock - HOUR);
    OutputsGovernedSnoc(log, e, budget);
    OutputsSortedSnoc(log, e);
  }

  /** The call histories hold every pass since `horizon`. */
  ghost predicate PassesKept(history: map<string, seq<nat>>, log: seq<Pass>, horizon: int, clock: nat, maxCalls: nat) {
    && horizon <= clock - MINUTE
    && Remembers(history, log, horizon)
    && (log != [] ==> log[|log| - 1].time <= clock)
    && PassesGoverned(log, maxCalls)
  }

  lemma PassesLater(history: map<string, seq<nat>>, log: seq<Pass>, horizon: int, clock: nat, maxCalls: nat, now: nat)
    requires PassesKept(history, log, horizon, clock, maxCalls) && clock <= now
    ensures PassesKept(history, log, now - MINUTE, now, maxCalls)
    ensures PassesKept(Pruned(history, now - MINUTE), log, now - MINUTE, now, maxCalls)
  {
    RemembersLater(history, log, horizon, now - MINUTE);
    PruneRemembers(history, log, now - MINUTE);
  }

  /** What the rate rule sees of the pruned history is what it sees of the full log. */
  lemma PassesSeen(history: map<string, seq<nat>>, log: seq<Pass>, clock: nat, maxCalls: nat, tool: string)
    requires PassesKept(history, log, clock - MINUTE, clock, maxCalls)
    ensures var timestamps := Above(TimesOf(history, tool), clock - MINUTE);
      && (|timestamps| < maxCalls <==> RateAllows(log, tool, clock, maxCalls))
      && PassesKept(history[tool := timestamps], log, clock - MINUTE, clock, maxCalls)
      && (RateAllows(log, tool, clock, maxCalls) ==>
            PassesKept(history[tool := timestamps + [clock]], log + [Pass(tool, clock)], clock - MINUTE, clock, maxCalls))
  {
    assert Above(TimesOf(history, tool), clock - MINUTE) == PassTimes(log, tool, clock - MINUTE);
    TrimRemembered(history, log, clock - MINUTE, tool);
    PassRemembered(history, log, clock - MINUTE, tool, clock);
    PassesGovernedSnoc(log, Pass(tool, clock), maxCalls);
  }

  ghost predicate SignaturesKept(last: Option<(string, nat)>, recent: seq<string>, log: seq<Seen>, threshold: nat) {
    RunKnown(last, log) && recent == LastNames(Names(log)) && SignaturesGoverned(log, threshold)
  }

  /** The length of the run that `s` would extend, from the last signature alone. */
  function Consecutive(last: Option<(string, nat)>, s: string): nat {
    if last.Some? && last.value.0 == s then last.value.1 + 1 else 1
  }

  lemma ConsecutiveIs(last: Option<(string, nat)>, log: seq<Seen>, s: string, threshold: nat)
    requires RunKnown(last, log)
    ensures Consecutive(last, s) == TrailingRun(log, s) + 1
    ensures Consecutive(last, s) <= threshold <==> RunAllows(log, s, threshold)
  {
  }

  lemma RepeatedIs(log: seq<Seen>, s: string, threshold: nat)
    ensures CountNames(LastNames(LastNames(Names(log)) + [s]), s) <= threshold <==> RepeatAllows(log, s, threshold)
  {
    NamesSnoc(log, Seen(s, true));
    RecentNames(log + [Seen(s, true)]);
    CountNamesIs(Recent(log + [Seen(s, true)]), s);
  }

  lemma SignatureRecorded(last: Option<(string, nat)>, recent: seq<string>, log: seq<Seen>, threshold: nat, s: string)
    requires SignaturesKept(last, recent, log, threshold) && RunAllows(log, s, threshold)
    ensures SignaturesKept(Some((s, Consecutive(last, s))), LastNames(recent + [s]),
                           log + [Seen(s, RepeatAllows(log, s, threshold))], threshold)
  {
    var e := Seen(s, RepeatAllows(log, s, threshold));
    NamesSnoc(log, e);
    ConsecutiveIs(last, log, s, threshold);
    RunGrows(last, log, e, Consecutive(last, s));
    SignaturesGovernedSnoc(log, e, threshold);
  }

  // ---------------------------------------------------------------- the policy

  class GuardrailPolicy {
    const limits: Limits
    var charHistory: seq<Output>
    var history: map<string, seq<nat>>
    var lastSignature: Option<(string, nat)>
    var recentSignatures: seq<string>
    var pruneCounter: nat

    /** Everything since the last reset, and how far back the pruned histories reach. */
    ghost var outputClock: nat
    ghost var callClock: nat
    ghost var outputs: seq<Output>
    ghost var passes: seq<Pass>
    ghost var seen: seq<Seen>
    ghost var outputHorizon: int
    ghost var passHorizon: int

    ghost predicate OutputsValid()
      reads this`charHistory, this`outputs, this`outputHorizon, this`outputClock
    {
      OutputsKept(charHistory, outputs, outputHorizon, outputClock, limits.maxSessionChars)
    }

    ghost predicate PassesValid()
      reads this`history, this`passes, this`passHorizon, this`callClock
    {
      PassesKept(history, passes, passHorizon, callClock, limits.maxCallsPerMinute)
    }

    ghost predicate SignaturesValid()
      reads this`lastSignature, this`recentSignatures, this`seen
    {
      SignaturesKept(lastSignature, recentSignatures, seen, limits.loopThreshold)
    }

    ghost predicate Valid()
      reads this
    {
      OutputsValid() && PassesValid() && SignaturesValid()
    }

    constructor (limits: Limits)
      ensures Valid() && outputs == [] && passes == [] && seen == [] && outputClock == callClock == 0 && this.limits == limits
    {
      this.limits := limits;
      charHistory, history, lastSignature, recentSignatures, pruneCounter := [], map[], None, [], 0;
      outputClock, callClock, outputs, passes, seen := 0, 0, [], [], [];
      outputHorizon, passHorizon := -(HOUR as int), -(MINUTE as int);
    }

    /** The front of `record_output`: pop what is older than an hour. */
    method PruneOutputs(windowStart: int)
      requires OutputsSorted(charHistory)
      modifies this`charHistory
      ensures charHistory == FromTime(old(charHistory), windowStart)
    {
      while |charHistory| > 0 && charHistory[0].time < windowStart
        invariant OutputsSorted(charHistory)
        invariant FromTime(charHistory, windowStart) == FromTime(old(charHistory), windowStart)
        decreases |charHistory|
      {
        FromTimeDropFirst(charHistory, windowStart);
        SortedTail(charHistory);
        charHistory := charHistory[1..];
      }
      forall i | 0 <= i < |charHistory| ensures charHistory[i].time >= windowStart {
        FirstIsEarliest(charHistory, i);
      }
      FromTimeAll(charHistory, windowStart);
    }

    /** `record_output`: accepted exactly when the full log of the last hour leaves room. */
    method RecordOutput(chars: nat, now: nat) returns (ok: bool)
      requires OutputsValid() && outputClock <= now
      modifies this`charHistory, this`outputs, this`outputHorizon, this`outputClock
      ensures OutputsValid() && outputClock == now
      ensures ok == (limits.maxSessionChars.None? || OutputFits(old(outputs), now, chars, limits.maxSessionChars.value))
      ensures ok <==> (limits.maxSessionChars.None?
        || SumWithin(old(outputs), now - 3_600_000_000_000, now) + chars <= limits.maxSessionChars.value)
      ensures outputs == if ok && limits.maxSessionChars.Some? then old(outputs) + [Output(now, chars)] else old(outputs)
    {
      if limits.maxSessionChars.None? {
        outputClock := now;
        return true;
      }
      var budget := limits.maxSessionChars.value;
      FitsIff(outputs, now, chars, budget);
      ghost var before := charHistory;
      FromTimeSorted(outputs, outputHorizon);
      PruneOutputs(now - HOUR);
      OutputsPruned(before, outputs, outputHorizon, outputClock, Some(budget), now);
      outputHorizon, outputClock := now - HOUR, now;
      var currentTotal := Sum(charHistory);
      ok := currentTotal + chars <= budget;
      if ok {
        OutputAccepted(charHistory, outputs, now, budget, chars);
        charHistory := charHistory + [Output(now, chars)];
        outputs := outputs + [Output(now, chars)];
      }
    }

    /** `estimated_tokens_used`: a quarter of what the last hour accepted. */
    method EstimatedTokensUsed(now: nat) returns (tokens: nat)
      requires OutputsValid() && outputClock <= now
      ensures tokens == Sum(FromTime(outputs, now - HOUR)) / 4
    {
      FromTimeTwice(outputs, outputHorizon, now - HOUR);
      tokens := Sum(FromTime(charHistory, now - HOUR)) / 4;
    }

    /** The first half of `check_call`: prune, then the rate rule. */
    method CheckRate(tool: string, now: nat) returns (ok: bool)
      requires PassesValid() && callClock <= now
      modifies this`history, this`pruneCounter, this`passes, this`passHorizon, this`callClock
      ensures PassesValid() && callClock == now
      ensures ok == RateAllows(old(passes), tool, now, limits.maxCallsPerMinute)
      ensures passes == if ok then old(passes) + [Pass(tool, now)] else old(passes)
    {
      var oneMinuteAgo := now - MINUTE;
      PassesLater(history, passes, passHorizon, callClock, limits.maxCallsPerMinute, now);
      passHorizon, callClock := oneMinuteAgo, now;
      var count := pruneCounter;
      pruneCounter := pruneCounter + 1;
      if count % 100 == 0 {
        history := Pruned(history, oneMinuteAgo);
      }
      var timestamps := Above(TimesOf(history, tool), oneMinuteAgo);
      PassesSeen(history, passes, now, limits.maxCallsPerMinute, tool);
      if |timestamps| >= limits.maxCallsPerMinute {
        history := history[tool := timestamps];
        return false;
      }
      history := history[tool := timestamps + [now]];
      passes := passes + [Pass(tool, now)];
      ok := true;
    }

    /** Append a signature and keep the newest 64. */
    method PushRecent(signature: string)
      modifies this`recentSignatures
      ensures recentSignatures == LastNames(old(recentSignatures) + [signature])
    {
      recentSignatures := recentSignatures + [signature];
      ghost var all := recentSignatures;
      while |recentSignatures| > RECENT_WINDOW
        invariant |recentSignatures| <= |all| && recentSignatures == all[|all| - |recentSignatures|..]
        invariant |recentSignatures| >= RECENT_WINDOW || recentSignatures == all
      {
        recentSignatures := recentSignatures[1..];
      }
    }

    /** The second half of `check_call`: the two loop detectors. */
    method CheckSignature(signature: string) returns (d: Decision)
      requires SignaturesValid()
      modifies this`lastSignature, this`recentSignatures, this`seen
      ensures SignaturesValid()
      ensures d == if !RunAllows(old(seen), signature, limits.loopThreshold) then LoopDetected
                   else if !RepeatAllows(old(seen), signature, limits.loopThreshold) then RepeatDetected
                   else Accepted
      ensures seen == if d.LoopDetected? then old(seen) else old(seen) + [Seen(signature, d.Accepted?)]
    {
      var consecutive := Consecutive(lastSignature, signature);
      ConsecutiveIs(lastSignature, seen, signature, limits.loopThreshold);
      if consecutive > limits.loopThreshold {
        return LoopDetected;
      }
      SignatureRecorded(lastSignature, recentSignatures, seen, limits.loopThreshold, signature);
      RepeatedIs(seen, signature, limits.loopThreshold);
      lastSignature := Some((signature, consecutive));
      PushRecent(signature);
      var repeated := CountNames(recentSignatures, signature);
      d := if repeated > limits.loopThreshold then RepeatDetected else Accepted;
      seen := seen + [Seen(signature, d.Accepted?)];
    }

    /** `check_call` decides as the full logs would, whatever has been pruned. */
    method CheckCall(tool: string, argumentHash: string, now: nat) returns (d: Decision)
      requires PassesValid() && SignaturesValid() && callClock <= now
      modifies this`history, this`pruneCounter, this`passes, this`passHorizon, this`callClock
      modifies this`lastSignature, this`recentSignatures, this`seen
      ensures PassesValid() && SignaturesValid() && callClock == now
      ensures d == Decide(limits, old(passes), old(seen), tool, Signature(tool, argumentHash), now)
      ensures passes == if d.RateExceeded? then old(passes) else old(passes) + [Pass(tool, now)]
      ensures seen == if d.RateExceeded? || d.LoopDetected? then old(seen)
                      else old(seen) + [Seen(Signature(tool, argumentHash), d.Accepted?)]
    {
      var ok := CheckRate(tool, now);
      if !ok {
        return RateExceeded;
      }
      d := CheckSignature(Signature(tool, argumentHash));
    }

    method ResetSignature()
      modifies this`lastSignature, this`recentSignatures, this`seen
      ensures SignaturesValid() && seen == []
    {
      lastSignature, recentSignatures := None, [];
      seen := [];
    }

    method Reset()
      requires Valid()
      modifies this`charHistory, this`history, this`lastSignature, this`recentSignatures
      modifies this`outputs, this`passes, this`seen
      ensures Valid() && outputs == [] && passes == [] && seen == []
    {
      history, charHistory, lastSignature, recentSignatures := map[], [], None, [];
      outputs, passes, seen := [], [], [];
    }
  }

  /** What a valid policy guarantees about everything since its last reset. */
  lemma PolicyBounds(g: GuardrailPolicy, tool: string, s: string, since: int, lo: nat, hi: nat)
    requires g.Valid() && lo <= hi <= |g.seen|
    ensures g.limits.maxSessionChars.Some? ==>
      SumWithin(g.outputs, since, since + 3_600_000_000_000) <= g.limits.maxSessionChars.value
    ensures PassesWithin(g.passes, tool, since, since + 60_000_000_000) <= g.limits.maxCallsPerMinute
    ensures hi - lo <= 64 ==> CountAccepted(g.seen[lo..hi], s) <= g.limits.loopThreshold
    ensures (forall i | lo <= i < hi :: g.seen[i].signature == s) ==> hi - lo <= g.limits.loopThreshold
  {
    if g.limits.maxSessionChars.Some? {
      HourlyBudget(g.outputs, g.limits.maxSessionChars.value, since);
    }
    MinuteRate(g.passes, g.limits.maxCallsPerMinute, tool, since);
    if hi - lo <= RECENT_WINDOW {
      RepeatsBounded(g.seen, g.limits.loopThreshold, s, lo, hi);
    }
    if forall i | lo <= i < hi :: g.seen[i].signature == s {
      RunsBounded(g.seen, g.limits.loopThreshold, s, lo, hi);
    }
  }
}
