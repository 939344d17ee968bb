/** The circuit breaker of src/hub.rs, shared by any number of in-flight requests.

    A step is one block that runs under the lock: the gate at the start of a request, or the
    recording of its outcome.  A caller may also vanish between the two. */
module Breaker {
  import opened Basics

  datatype Circuit = Closed | Open(at: nat) | HalfOpen

  datatype Breaker = Breaker(state: Circuit, errors: nat, first: Option<nat>)

  /** Thirty seconds, in nanoseconds. */
  const WINDOW: nat := 30_000_000_000

  const FRESH := Breaker(Closed, 0, None)

  // ---------------------------------------------------------------- the three locked blocks

  predicate Admits(b: Breaker, now: nat) {
    b.state.Closed? || (b.state.Open? && now >= b.state.at + WINDOW)
  }

  function AfterGate(b: Breaker, now: nat): Breaker {
    if b.state.Open? && now >= b.state.at + WINDOW then b.(state := HalfOpen) else b
  }

  function AfterError(b: Breaker, now: nat): Breaker {
    match b.state
    case HalfOpen => Breaker(Open(now), 3, Some(now))
    case Open(_) => b
    case Closed =>
      var counted :=
        if b.first.Some? && now <= b.first.value + WINDOW
        then b.(errors := b.errors + 1)
        else b.(errors := 1, first := Some(now));
      if counted.errors >= 3 then counted.(state := Open(now)) else counted
  }

  /** The state of the handle as an object; `State` is its value. */
  class UpstreamCircuit {
    var state: Circuit
    var consecutiveErrors: nat
    var firstErrorTime: Option<nat>

    function State(): Breaker
      reads this
    {
      Breaker(state, consecutiveErrors, firstErrorTime)
    }

    constructor ()
      ensures State() == FRESH
    {
      state, consecutiveErrors, firstErrorTime := Closed, 0, None;
    }

    /** The first block of `send_request`. */
    method Gate(now: nat) returns (admitted: bool)
      modifies this`state
      ensures admitted == Admits(old(State()), now)
      ensures State() == AfterGate(old(State()), now)
    {
      admitted := true;
      match state {
        case Closed =>
        case Open(openedAt) =>
          if now < openedAt + WINDOW {
            admitted := false;
          } else {
            state := HalfOpen;
          }
        case HalfOpen =>
          admitted := false;
      }
    }

    method RecordSuccess()
      modifies this
      ensures State() == FRESH
    {
      state := Closed;
      consecutiveErrors := 0;
      firstErrorTime := None;
    }

    method RecordError(now: nat)
      modifies this
      ensures State() == AfterError(old(State()), now)
    {
      match state {
        case HalfOpen =>
          state := Open(now);
          consecutiveErrors := 3;
          firstErrorTime := Some(now);
        case Closed =>
          match firstErrorTime {
            case Some(first) =>
              if now > first + WINDOW {
                consecutiveErrors := 1;
                firstErrorTime := Some(now);
              } else {
                consecutiveErrors := consecutiveErrors + 1;
              }
            case None =>
              consecutiveErrors := 1;
              firstErrorTime := Some(now);
          }
          if consecutiveErrors >= 3 {
            state := Open(now);
          }
        case Open(_) =>
      }
    }
  }

  // ---------------------------------------------------------------- requests and events

  datatype Event =
    | Send(id: nat, now: nat)
    | Succeed(id: nat, now: nat)
    | Fail(id: nat, now: nat)
    | Abandon(id: nat, now: nat)

  /** The breaker and the requests that were admitted and have not ended. */
  datatype Hub = Hub(breaker: Breaker, inFlight: set<nat>)

  const IDLE := Hub(FRESH, {})

  /** Only an admitted request can end, and it ends once. */
  predicate Enabled(h: Hub, e: Event) {
    if e.Send? then e.id !in h.inFlight else e.id in h.inFlight
  }

  predicate Admitted(h: Hub, e: Event) { e.Send? && Admits(h.breaker, e.now) }

  function After(h: Hub, e: Event): Hub {
    match e
    case Send(id, now) =>
      Hub(AfterGate(h.breaker, now), if Admits(h.breaker, now) then h.inFlight + {id} else h.inFlight)
    case Succeed(id, _) => Hub(FRESH, h.inFlight - {id})
    case Fail(id, now) => Hub(AfterError(h.breaker, now), h.inFlight - {id})
    case Abandon(id, _) => h.(inFlight := h.inFlight - {id})
  }

  function Run(h: Hub, es: seq<Event>): Hub
    decreases |es|
  {
    if es == [] then h else Run(After(h, es[0]), es[1..])
  }

  /** Every event is enabled where it happens, and the clock never runs backwards. */
  predicate Possible(h: Hub, es: seq<Event>)
    decreases |es|
  {
    es == [] || (Enabled(h, es[0]) && Possible(After(h, es[0]), es[1..]))
  }

  ghost predicate InOrder(es: seq<Event>) {
    forall i, j | 0 <= i < j < |es| :: es[i].now <= es[j].now
  }

  /** The `k`-th event of a run is a request that is let through. */
  predicate AdmittedAt(h: Hub, es: seq<Event>, k: nat)
    requires k < |es|
  {
    Admitted(Run(h, es[..k]), es[k])
  }

  ghost predicate NoSuccess(es: seq<Event>) { forall i | 0 <= i < |es| :: !es[i].Succeed? }

  lemma RunTail(h: Hub, es: seq<Event>, k: nat)
    requires 0 < k < |es|
    ensures AdmittedAt(h, es, k) == AdmittedAt(After(h, es[0]), es[1..], k - 1)
  {
    assert es[..k][0] == es[0] && es[..k][1..] == es[1..][..k - 1];
  }

  // ---------------------------------------------------------------- a tripped breaker

  /** A breaker opened at `at` lets nothing through before its window has passed. */
  lemma {:induction false} OpenWaits(h: Hub, es: seq<Event>, k: nat)
    requires h.breaker.state.Open? && NoSuccess(es) && InOrder(es)
    requires k < |es| && AdmittedAt(h, es, k)
    ensures es[k].now >= h.breaker.state.at + 30_000_000_000
    decreases |es|
  {
    assert es[..0] == [];
    if k > 0 && !Admitted(h, es[0]) {
      RunTail(h, es, k);
      OpenWaits(After(h, es[0]), es[1..], k - 1);
    }
  }

  /** And it lets the first request through that comes once the window has passed. */
  lemma {:induction false} OpenAdmitsFirst(h: Hub, es: seq<Event>, k: nat)
    requires h.breaker.state.Open? && NoSuccess(es) && k < |es|
    requires es[k].Send? && es[k].now >= h.breaker.state.at + 30_000_000_000
    requires forall j | 0 <= j < k :: !AdmittedAt(h, es, j)
    ensures AdmittedAt(h, es, k)
    decreases |es|
  {
    assert es[..0] == [];
    if k > 0 {
      assert !AdmittedAt(h, es, 0);
      RunTail(h, es, k);
      forall j | 0 <= j < k - 1 ensures !AdmittedAt(After(h, es[0]), es[1..], j) {
        RunTail(h, es, j + 1);
        assert !AdmittedAt(h, es, j + 1);
      }
      OpenAdmitsFirst(After(h, es[0]), es[1..], k - 1);
    }
  }

  /** While a probe is out, the next admission needs an error and a whole window after it. */
  lemma {:induction false} HalfOpenWaits(h: Hub, es: seq<Event>, k: nat) returns (m: nat)
    requires h.breaker.state.HalfOpen? && NoSuccess(es) && InOrder(es)
    requires k < |es| && AdmittedAt(h, es, k)
    ensures m < k && es[m].Fail? && es[k].now >= es[m].now + 30_000_000_000
    decreases |es|
  {
    assert es[..0] == [];
    RunTail(h, es, k);
    if es[0].Fail? {
      OpenWaits(After(h, es[0]), es[1..], k - 1);
      m := 0;
    } else {
      m := HalfOpenWaits(After(h, es[0]), es[1..], k - 1);
      m := m + 1;
    }
  }

  lemma {:induction false} RunSplit(h: Hub, a: seq<Event>, b: seq<Event>)
    ensures Run(h, a + b) == Run(Run(h, a), b)
    decreases |a|
  {
    if a == [] {
      assert a + b == b;
    } else {
      assert (a + b)[0] == a[0] && (a + b)[1..] == a[1..] + b;
      RunSplit(After(h, a[0]), a[1..], b);
    }
  }

  /** Without a success the breaker never closes. */
  lemma {:induction false} StaysTripped(h: Hub, es: seq<Event>)
    requires !h.breaker.state.Closed? && NoSuccess(es)
    ensures !Run(h, es).breaker.state.Closed?
    decreases |es|
  {
    if es != [] {
      StaysTripped(After(h, es[0]), es[1..]);
    }
  }

  /** After a trip and until a success: nothing for a window, then admissions at least a
      window apart, each pair with a recorded error between them. */
  lemma TrippedAdmissions(h: Hub, es: seq<Event>, j: nat, k: nat)
    requires h.breaker.state.Open? && NoSuccess(es) && InOrder(es)
    requires j < k < |es| && AdmittedAt(h, es, j) && AdmittedAt(h, es, k)
    ensures es[j].now >= h.breaker.state.at + 30_000_000_000
    ensures exists m :: j < m < k && es[m].Fail? && es[k].now >= es[m].now + 30_000_000_000
    ensures es[k].now >= es[j].now + 30_000_000_000
  {
    OpenWaits(h, es, j);
    StaysTripped(h, es[..j]);
    var rest := es[j + 1..];
    var probing := Run(h, es[..j + 1]);
    assert es[..j + 1] == es[..j] + [es[j]];
    RunSplit(h, es[..j], [es[j]]);
    assert probing.breaker.state.HalfOpen?;
    assert es[..k] == es[..j + 1] + rest[..k - j - 1];
    RunSplit(h, es[..j + 1], rest[..k - j - 1]);
    var m := HalfOpenWaits(probing, rest, k - j - 1);
    assert es[j + 1 + m] == rest[m];
  }

  /** How a probe ends decides what comes next.  Its error closes the gate for exactly 30 s:
      nothing is admitted before, and the first request after that is.  Any success opens it:
      the next request is admitted. */
  lemma ProbeDecides(h: Hub, id: nat, t: nat, es: seq<Event>, k: nat)
    requires h.breaker.state.HalfOpen? && NoSuccess(es) && InOrder(es)
    requires k < |es| && es[k].Send?
    requires forall j | 0 <= j < k :: !AdmittedAt(After(h, Fail(id, t)), es, j)
    ensures AdmittedAt(After(h, Fail(id, t)), es, k) <==> es[k].now >= t + 30_000_000_000
    ensures AdmittedAt(After(h, Succeed(id, t)), es, 0) <==> es[0].Send?
  {
    var reopened := After(h, Fail(id, t));
    if AdmittedAt(reopened, es, k) {
      OpenWaits(reopened, es, k);
    }
    if es[k].now >= t + 30_000_000_000 {
      OpenAdmitsFirst(reopened, es, k);
    }
    assert es[..0] == [];
  }

  /** A success, even one that was sent long before the trip, closes the breaker from any state
      and clears its count; until three more outcomes are recorded, every request is admitted. */
  lemma {:induction false} SuccessCloses(h: Hub, id: nat, t: nat, es: seq<Event>, k: nat)
    requires k < |es| && es[k].Send? && |Outcomes(es[..k])| < 3
    ensures AdmittedAt(After(h, Succeed(id, t)), es, k)
  {
    StaysClosed(After(h, Succeed(id, t)), es[..k]);
  }

  lemma {:induction false} StaysClosed(h: Hub, es: seq<Event>)
    requires h.breaker.state.Closed? && h.breaker.errors + |Outcomes(es)| < 3
    ensures Run(h, es).breaker.state.Closed?
    decreases |es|
  {
    if es != [] {
      StaysClosed(After(h, es[0]), es[1..]);
    }
  }

  // ---------------------------------------------------------------- when the breaker trips

  datatype Outcome = Outcome(ok: bool, time: nat)

  function OutcomeOf(e: Event): seq<Outcome> {
    match e
    case Succeed(_, now) => [Outcome(true, now)]
    case Fail(_, now) => [Outcome(false, now)]
    case _ => []
  }

  /** The recorded outcomes of a run, oldest first. */
  function Outcomes(es: seq<Event>): seq<Outcome> {
    if es == [] then [] else OutcomeOf(es[0]) + Outcomes(es[1..])
  }

  lemma {:induction false} OutcomesSnoc(es: seq<Event>, e: Event)
    ensures Outcomes(es + [e]) == Outcomes(es) + OutcomeOf(e)
  {
    if es == [] {
      assert es + [e] == [e];
    } else {
      assert (es + [e])[0] == es[0] && (es + [e])[1..] == es[1..] + [e];
      OutcomesSnoc(es[1..], e);
    }
  }

  lemma {:induction false} OutcomesPast(es: seq<Event>, now: nat)
    requires forall i | 0 <= i < |es| :: es[i].now <= now
    ensures forall i | 0 <= i < |Outcomes(es)| :: Outcomes(es)[i].time <= now
  {
    if es != [] {
      OutcomesPast(es[1..], now);
    }
  }

  /** The last `n` outcomes are errors, all within a window of the first of them. */
  predicate ErrorBurst(log: seq<Outcome>, n: nat) {
    && n <= |log|
    && (forall i | |log| - n <= i < |log| ::
          !log[i].ok && log[|log| - n].time <= log[i].time <= log[|log| - n].time + WINDOW)
  }

  ghost predicate Counts(b: Breaker, log: seq<Outcome>) {
    && (b.errors == 3 <==> !b.state.Closed?) && b.errors <= 3
    && (b.first.None? <==> b.errors == 0)
    && (b.state.Closed? && b.errors > 0 ==>
          ErrorBurst(log, b.errors) && b.first == Some(log[|log| - b.errors].time))
  }

  lemma {:induction false} RunCounts(es: seq<Event>)
    requires InOrder(es)
    ensures Counts(Run(IDLE, es).breaker, Outcomes(es))
  {
    if es != [] {
      var init, e := es[..|es| - 1], es[|es| - 1];
      assert es == init + [e];
      assert InOrder(init) && forall i | 0 <= i < |init| :: init[i].now <= e.now by {
        assert forall i | 0 <= i < |init| :: init[i] == es[i];
      }
      RunCounts(init);
      OutcomesPast(init, e.now);
      StepCounts(Run(IDLE, init), Outcomes(init), e);
      RunSplit(IDLE, init, [e]);
      OutcomesSnoc(init, e);
    }
  }

  lemma StepCounts(h: Hub, log: seq<Outcome>, e: Event)
    requires Counts(h.breaker, log)
    requires forall i | 0 <= i < |log| :: log[i].time <= e.now
    ensures Counts(After(h, e).breaker, log + OutcomeOf(e))
  {
    var log' := log + OutcomeOf(e);
    assert forall i | 0 <= i < |log| :: log'[i] == log[i];
    assert OutcomeOf(e) == [] ==> log' == log;
  }

  /** In every reachable state the error count is 3 exactly when the breaker is not closed,
      and the first error time is absent exactly when the count is 0. */
  lemma CountMeansState(es: seq<Event>)
    requires InOrder(es)
    ensures var b := Run(IDLE, es).breaker;
      && (b.errors == 3 <==> !b.state.Closed?) && b.errors <= 3
      && (b.first.None? <==> b.errors == 0)
  {
    RunCounts(es);
  }

  /** The breaker leaves `Closed` only on an error that completes three errors in a row, all
      within a window of the first of the three. */
  lemma TripsOnBurst(es: seq<Event>, e: Event)
    requires InOrder(es + [e])
    requires Run(IDLE, es).breaker.state.Closed? && !Run(IDLE, es + [e]).breaker.state.Closed?
    ensures e.Fail? && Run(IDLE, es + [e]).breaker.state == Open(e.now)
    ensures ErrorBurst(Outcomes(es + [e]), 3)
  {
    var all := es + [e];
    assert InOrder(es) by {
      assert forall i | 0 <= i < |es| :: all[i] == es[i];
    }
    forall i | 0 <= i < |es| ensures es[i].now <= e.now {
      assert all[i] == es[i] && all[|es|] == e;
    }
    RunCounts(es);
    OutcomesPast(es, e.now);
    RunSplit(IDLE, es, [e]);
    OutcomesSnoc(es, e);
    BurstGrows(Run(IDLE, es), Outcomes(es), e);
  }

  lemma BurstGrows(h: Hub, log: seq<Outcome>, e: Event)
    requires Counts(h.breaker, log) && forall i | 0 <= i < |log| :: log[i].time <= e.now
    requires h.breaker.state.Closed? && !After(h, e).breaker.state.Closed?
    ensures e.Fail? && After(h, e).breaker.state == Open(e.now)
    ensures ErrorBurst(log + OutcomeOf(e), 3)
  {
    var log' := log + OutcomeOf(e);
    assert forall i | 0 <= i < |log| :: log'[i] == log[i];
    assert log'[|log|] == Outcome(false, e.now);
  }

  /** One request after another, each failing at once, at the given times. */
  function FailingCalls(times: seq<nat>): seq<Event> {
    if times == [] then [] else [Send(1, times[0]), Fail(1, times[0])] + FailingCalls(times[1..])
  }

  function Errors(b: Breaker, times: seq<nat>): Breaker
    decreases |times|
  {
    if times == [] then b else Errors(AfterError(b, times[0]), times[1..])
  }

  predicate ClosedUntilLast(b: Breaker, times: seq<nat>)
    decreases |times|
  {
    times == [] || (b.state.Closed? && ClosedUntilLast(AfterError(b, times[0]), times[1..]))
  }

  lemma ErrorsStep(b: Breaker, times: seq<nat>, next: Breaker)
    requires times != [] && AfterError(b, times[0]) == next
    ensures Errors(b, times) == Errors(next, times[1..])
    ensures ClosedUntilLast(b, times) <==> b.state.Closed? && ClosedUntilLast(next, times[1..])
  {
  }

  function Failures(times: seq<nat>): seq<Outcome> {
    seq(|times|, i requires 0 <= i < |times| => Outcome(false, times[i]))
  }

  lemma {:induction false} FailingCallsRun(b: Breaker, times: seq<nat>)
    requires ClosedUntilLast(b, times)
    ensures Run(Hub(b, {}), FailingCalls(times)) == Hub(Errors(b, times), {})
    ensures Possible(Hub(b, {}), FailingCalls(times))
    ensures Outcomes(FailingCalls(times)) == Failures(times)
    decreases |times|
  {
    if times != [] {
      var es, sent := FailingCalls(times), Hub(b, {1});
      assert After(Hub(b, {}), es[0]) == sent;
      assert es[1..][0] == Fail(1, times[0]) && es[1..][1..] == FailingCalls(times[1..]);
      assert After(sent, es[1]) == Hub(AfterError(b, times[0]), {});
      FailingCallsRun(AfterError(b, times[0]), times[1..]);
    }
  }

  lemma {:induction false} FailingCallsInOrder(times: seq<nat>)
    requires forall i, j | 0 <= i < j < |times| :: times[i] <= times[j]
    ensures InOrder(FailingCalls(times))
    ensures forall i | 0 <= i < |FailingCalls(times)| && times != [] :: times[0] <= FailingCalls(times)[i].now
  {
    if times != [] {
      FailingCallsInOrder(times[1..]);
    }
  }

  // ---------------------------------------------------------------- when a burst trips

  /** The errors a closed breaker counts after these outcomes: a success clears the count, an
      error outside the window of the first counted one starts it again. */
  function Counted(log: seq<Outcome>): (n: nat)
    ensures n <= |log|
  {
    if log == [] then 0 else
      var init := log[..|log| - 1];
      CountedAlso(init, Counted(init), log[|log| - 1])
  }

  /** The count after one more outcome, when the last `n` of `log` are the counted errors. */
  function CountedAlso(log: seq<Outcome>, n: nat, o: Outcome): (m: nat)
    requires n <= |log|
    ensures m <= n + 1
  {
    if o.ok then 0
    else if n > 0 && o.time <= log[|log| - n].time + WINDOW then n + 1
    else 1
  }

  /** While it is closed, the breaker counts the last `n` outcomes, from the first of them on. */
  predicate CountsLast(b: Breaker, log: seq<Outcome>, n: nat)
    requires n <= |log|
  {
    b.state.Closed? ==> b.errors == n && b.first == if n == 0 then None else Some(log[|log| - n].time)
  }

  lemma {:induction false} ErrorsAreCounted(es: seq<Event>)
    ensures CountsLast(Run(IDLE, es).breaker, Outcomes(es), Counted(Outcomes(es)))
  {
    if es != [] {
      var init, e := es[..|es| - 1], es[|es| - 1];
      assert es == init + [e];
      ErrorsAreCounted(init);
      RunSplit(IDLE, init, [e]);
      OutcomesSnoc(init, e);
      if OutcomeOf(e) == [] {
        assert Outcomes(es) == Outcomes(init);
      } else {
        CountedSnoc(Outcomes(init), OutcomeOf(e)[0]);
        OutcomeCounted(Run(IDLE, init), Outcomes(init), Counted(Outcomes(init)), e);
      }
    }
  }

  lemma OutcomeCounted(h: Hub, log: seq<Outcome>, n: nat, e: Event)
    requires n <= |log| && CountsLast(h.breaker, log, n) && OutcomeOf(e) != []
    ensures CountsLast(After(h, e).breaker, log + OutcomeOf(e), CountedAlso(log, n, OutcomeOf(e)[0]))
  {
  }

  lemma CountedSnoc(log: seq<Outcome>, o: Outcome)
    ensures Counted(log + [o]) == CountedAlso(log, Counted(log), o)
  {
    var all := log + [o];
    assert all[..|all| - 1] == log && all[|all| - 1] == o;
  }

  /** Errors alone decide whether the breaker is still closed: other requests that are sent
      or given up in between change nothing. */
  lemma {:induction false} OnlyErrorsDecide(h: Hub, b: Breaker, es: seq<Event>, times: seq<nat>)
    requires Outcomes(es) == Failures(times)
    requires h.breaker == b || (!h.breaker.state.Closed? && !b.state.Closed?)
    ensures Run(h, es).breaker.state.Closed? <==> Errors(b, times).state.Closed?
    decreases |es|
  {
    if es == [] {
      assert |Failures(times)| == 0;
    } else if OutcomeOf(es[0]) == [] {
      assert Outcomes(es) == Outcomes(es[1..]);
      OnlyErrorsDecide(After(h, es[0]), b, es[1..], times);
    } else {
      assert Outcomes(es)[0] == Failures(times)[0] && Outcomes(es)[1..] == Outcomes(es[1..]);
      assert Failures(times)[1..] == Failures(times[1..]);
      OnlyErrorsDecide(After(h, es[0]), AfterError(b, times[0]), es[1..], times[1..]);
    }
  }

  lemma ThreeErrors(b: Breaker, t1: nat, t2: nat, t3: nat)
    requires b.state.Closed? && b.errors <= 2 && (b.first.None? <==> b.errors == 0)
    requires (b.first.Some? ==> b.first.value <= t1) && t1 <= t2 <= t3 <= t1 + WINDOW
    ensures Errors(b, [t1, t2, t3]).state.Closed? <==>
      b.errors == 1 && t1 <= b.first.value + WINDOW < t2
  {
    var b1, b2 := AfterError(b, t1), AfterError(AfterError(b, t1), t2);
    assert [t1, t2, t3][1..] == [t2, t3] && [t2, t3][1..] == [t3] && [t3][1..] == [];
    assert Errors(b, [t1, t2, t3]) == Errors(b1, [t2, t3]);
    assert Errors(b1, [t2, t3]) == Errors(b2, [t3]) == AfterError(b2, t3);
  }

  /** Three errors in a row within a window of the first of them leave a closed breaker closed
      exactly when one error was counted before them and its window ends between the first and
      the second: the second then starts the count again. Anything may be sent or given up
      meanwhile. */
  lemma {:induction false} BurstStaysClosedIff(es: seq<Event>, burst: seq<Event>, t1: nat, t2: nat, t3: nat)
    requires InOrder(es + burst) && Run(IDLE, es).breaker.state.Closed?
    requires Outcomes(burst) == Failures([t1, t2, t3]) && t3 <= t1 + 30_000_000_000
    ensures Run(IDLE, es + burst).breaker.state.Closed? <==>
      var log := Outcomes(es);
      Counted(log) == 1 && t1 <= log[|log| - 1].time + 30_000_000_000 < t2
  {
    var b := Run(IDLE, es).breaker;
    BurstTimes(es, burst, t1, t2, t3);
    RunCounts(es);
    ErrorsAreCounted(es);
    ThreeErrors(b, t1, t2, t3);
    OnlyErrorsDecide(Run(IDLE, es), b, burst, [t1, t2, t3]);
    RunSplit(IDLE, es, burst);
  }

  lemma OrderSplits(a: seq<Event>, b: seq<Event>)
    requires InOrder(a + b)
    ensures InOrder(a) && InOrder(b)
    ensures forall i | 0 <= i < |a| && b != [] :: a[i].now <= b[0].now
  {
    var all := a + b;
    assert forall i | 0 <= i < |a| :: all[i] == a[i];
    assert forall i | 0 <= i < |b| :: all[|a| + i] == b[i];
  }

  lemma BurstTimes(es: seq<Event>, burst: seq<Event>, t1: nat, t2: nat, t3: nat)
    requires InOrder(es + burst) && Outcomes(burst) == Failures([t1, t2, t3])
    ensures InOrder(es) && t1 <= t2 <= t3
    ensures forall i | 0 <= i < |Outcomes(es)| :: Outcomes(es)[i].time <= t1
  {
    OrderSplits(es, burst);
    OutcomesOrdered(burst);
    var log := Outcomes(burst);
    assert |log| == 3 && log[0].time == t1 && log[1].time == t2 && log[2].time == t3;
    OutcomesPast(es, burst[0].now);
  }

  lemma {:induction false} OutcomesOrdered(es: seq<Event>)
    requires InOrder(es)
    ensures es == [] ==> Outcomes(es) == []
    ensures forall i | 0 <= i < |Outcomes(es)| :: es[0].now <= Outcomes(es)[i].time
    ensures forall i, j | 0 <= i < j < |Outcomes(es)| :: Outcomes(es)[i].time <= Outcomes(es)[j].time
  {
    if es != [] {
      OutcomesOrdered(es[1..]);
    }
  }

  lemma FirstCall(t: nat, rest: seq<nat>)
    ensures FailingCalls([t] + rest) == FailingCalls([t]) + FailingCalls(rest)
  {
    assert ([t] + rest)[1..] == rest && [t][1..] == [];
    assert FailingCalls([t]) == [Send(1, t), Fail(1, t)] + FailingCalls([]);
  }

  /** The failing family, from the start: a lone error, and three more of which the first falls
      inside its window and the second outside. */
  lemma BurstNeedNotTrip(t0: nat, t1: nat, t2: nat, t3: nat) returns (es: seq<Event>)
    requires t0 <= t1 <= t0 + WINDOW < t2 <= t3 <= t1 + WINDOW
    ensures Possible(IDLE, es) && InOrder(es)
    ensures ErrorBurst(Outcomes(es), 3) && Run(IDLE, es).breaker.state.Closed?
  {
    var times, burst := [t0, t1, t2, t3], [t1, t2, t3];
    ClosedToTheLast(t0, t1, t2, t3);
    assert times == [t0] + burst;
    FailingCallsRun(FRESH, times);
    FailingCallsRun(FRESH, [t0]);
    FailingCallsRun(Breaker(Closed, 1, Some(t0)), burst);
    FailingCallsInOrder(times);
    FirstCall(t0, burst);
    var first := FailingCalls([t0]);
    es := FailingCalls(times);
    assert Outcomes(first) == [Outcome(false, t0)] && Outcomes(first)[..0] == [];
    BurstStaysClosedIff(first, FailingCalls(burst), t1, t2, t3);
  }

  /** The last of these errors finds the breaker closed. */
  lemma ClosedToTheLast(t0: nat, t1: nat, t2: nat, t3: nat)
    requires t0 <= t1 <= t0 + WINDOW < t2 <= t3 <= t1 + WINDOW
    ensures ClosedUntilLast(FRESH, [t0, t1, t2, t3]) && Errors(FRESH, [t0]) == Breaker(Closed, 1, Some(t0))
    ensures ClosedUntilLast(Breaker(Closed, 1, Some(t0)), [t1, t2, t3])
  {
    var times, burst := [t0, t1, t2, t3], [t1, t2, t3];
    assert times[1..] == burst && burst[1..] == [t2, t3] && [t2, t3][1..] == [t3] && [t3][1..] == [];
    var b0, b1, b2 := Breaker(Closed, 1, Some(t0)), Breaker(Closed, 2, Some(t0)), Breaker(Closed, 1, Some(t2));
    ErrorsStep(b2, [t3], AfterError(b2, t3));
    ErrorsStep(b1, [t2, t3], b2);
    ErrorsStep(b0, burst, b1);
    ErrorsStep(FRESH, times, b0);
    ErrorsStep(FRESH, [t0], b0);
  }

  // ---------------------------------------------------------------- a lost probe

  /** With a probe gone and nothing else in flight the breaker refuses everything, forever. */
  lemma {:induction false} LostProbeSticks(h: Hub, es: seq<Event>, k: nat)
    requires h.breaker.state.HalfOpen? && h.inFlight == {} && Possible(h, es)
    ensures Run(h, es) == h
    ensures k < |es| ==> !AdmittedAt(h, es, k)
    decreases |es|
  {
    if es != [] {
      assert After(h, es[0]) == h;
      LostProbeSticks(h, es[1..], if k > 0 then k - 1 else 0);
      if 0 < k < |es| {
        RunTail(h, es, k);
      }
    }
  }

  /** A half-open breaker can admit again exactly when some request is still in flight. */
  lemma HalfOpenRecoversIff(h: Hub, now: nat)
    requires h.breaker.state.HalfOpen?
    ensures (exists es, k :: Possible(h, es) && 0 <= k < |es| && AdmittedAt(h, es, k)) <==> h.inFlight != {}
  {
    if h.inFlight != {} {
      var id :| id in h.inFlight;
      var es := [Succeed(id, now), Send(id, now)];
      assert es[..1] == [Succeed(id, now)] && es[1..] == [Send(id, now)];
      assert Run(h, es[..1]) == After(h, es[0]);
      assert Possible(h, es) && AdmittedAt(h, es, 1);
    } else {
      forall es, k | Possible(h, es) && 0 <= k < |es| ensures !AdmittedAt(h, es, k) {
        LostProbeSticks(h, es, k);
      }
    }
  }

  lemma LostProbe(b: Breaker, id: nat, now: nat)
    requires b.state.Open? && now >= b.state.at + WINDOW
    ensures Possible(Hub(b, {}), [Send(id, now), Abandon(id, now)])
    ensures Run(Hub(b, {}), [Send(id, now), Abandon(id, now)]) == Hub(b.(state := HalfOpen), {})
  {
    var es := [Send(id, now), Abandon(id, now)];
    var probing := Hub(b.(state := HalfOpen), {id});
    assert After(Hub(b, {}), es[0]) == probing && es[1..] == [es[1]];
    var lost := Hub(b.(state := HalfOpen), {});
    assert After(probing, es[1]) == lost && es[1..][1..] == [];
    assert Run(probing, es[1..]) == Run(lost, es[1..][1..]) == lost;
  }

  /** Such a state is reachable: three errors, a probe, and a probe whose caller gives up. */
  lemma ProbeCanBeLost() returns (es: seq<Event>)
    ensures Possible(IDLE, es) && InOrder(es)
    ensures Run(IDLE, es).breaker.state.HalfOpen? && Run(IDLE, es).inFlight == {}
  {
    var calls := ThreeFailures();
    var probe := [Send(4, WINDOW), Abandon(4, WINDOW)];
    LostProbe(Breaker(Open(0), 3, Some(0)), 4, WINDOW);
    RunSplit(IDLE, calls, probe);
    PossibleSplit(IDLE, calls, probe);
    es := calls + probe;
  }

  lemma ThreeFailures() returns (calls: seq<Event>)
    ensures Possible(IDLE, calls) && InOrder(calls) && forall i | 0 <= i < |calls| :: calls[i].now <= 0
    ensures Run(IDLE, calls) == Hub(Breaker(Open(0), 3, Some(0)), {})
  {
    calls := FailingCalls([0, 0, 0]);
    var one, two := Breaker(Closed, 1, Some(0)), Breaker(Closed, 2, Some(0));
    assert [0, 0, 0][1..] == [0, 0] && [0, 0][1..] == [0] && [0][1..] == [];
    ErrorsStep(two, [0], Breaker(Open(0), 3, Some(0)));
    ErrorsStep(one, [0, 0], two);
    ErrorsStep(FRESH, [0, 0, 0], one);
    FailingCallsRun(FRESH, [0, 0, 0]);
    FailingCallsInOrder([0, 0, 0]);
    FailingCallsBounded([0, 0, 0], 0);
  }

  lemma {:induction false} FailingCallsBounded(times: seq<nat>, last: nat)
    requires forall i | 0 <= i < |times| :: times[i] <= last
    ensures forall i | 0 <= i < |FailingCalls(times)| :: FailingCalls(times)[i].now <= last
  {
    if times != [] {
      FailingCallsBounded(times[1..], last);
    }
  }

  lemma {:induction false} PossibleSplit(h: Hub, a: seq<Event>, b: seq<Event>)
    requires Possible(h, a) && Possible(Run(h, a), b)
    ensures Possible(h, a + b)
    decreases |a|
  {
    if a == [] {
      assert a + b == b;
    } else {
      assert (a + b)[0] == a[0] && (a + b)[1..] == a[1..] + b;
      PossibleSplit(After(h, a[0]), a[1..], b);
    }
  }
}
