/** The approval protocol of src/vault_lock.rs: waiting calls, a supervisor, the sweeper and
    the timer, over one-shot channels.  An event is one block that runs under the lock, or
    one thing a waiting call does on its own. */
module VaultProtocol {

  type Id = string

  const MAX_PENDING: nat := 256

  /** What the receiving end of a one-shot channel would see. */
  datatype Channel = Empty | Delivered(approved: bool) | SenderDropped

  datatype Answer = Granted | Denied | Saturated | Failed

  /** Where a call to `check_or_wait` stands. */
  datatype Phase =
    | CapPassed            // went through the capacity check, entry not inserted yet
    | Waiting              // entry inserted, polling the channel and the timer
    | Expiring             // found the channel empty, timer elapsed, receiver still alive
    | Closing              // receiver gone, own entry not cleaned up yet
    | Returned(answer: Answer)
    | Abandoned            // the caller dropped the future while it was waiting

  datatype Call = Call(isProtected: bool, phase: Phase, channel: Channel)

  /** A call of `approve` or `reject` that returned true, and the phase it found. */
  datatype Decision = Decision(id: Id, approved: bool, found: Phase)

  /** `pending` maps the id of an entry to its expiry time. */
  datatype Vault = Vault(calls: map<Id, Call>, pending: map<Id, nat>, decisions: seq<Decision>)

  const EMPTY := Vault(map[], map[], [])

  datatype Event =
    | Begin(id: Id, isProtected: bool)
    | Insert(id: Id, expiresAt: nat)
    | HashFails(id: Id)
    | Decide(id: Id, approved: bool)
    | Sweep(now: nat)
    | Receive(id: Id)
    | SeeDropped(id: Id)
    | TimerFires(id: Id)
    | DropReceiver(id: Id)
    | CleanUp(id: Id)
    | Abandon(id: Id)

  // ---------------------------------------------------------------- steps

  predicate InPhase(v: Vault, id: Id, phase: Phase) { id in v.calls && v.calls[id].phase == phase }

  predicate Enabled(v: Vault, e: Event) {
    match e
    case Begin(id, _) => id !in v.calls
    case Insert(id, _) => InPhase(v, id, CapPassed)
    case HashFails(id) => InPhase(v, id, CapPassed)
    case Decide(_, _) => true
    case Sweep(_) => true
    case Receive(id) => InPhase(v, id, Waiting) && v.calls[id].channel.Delivered?
    case SeeDropped(id) => InPhase(v, id, Waiting) && v.calls[id].channel.SenderDropped?
    case TimerFires(id) => InPhase(v, id, Waiting) && v.calls[id].channel.Empty?
    case DropReceiver(id) => InPhase(v, id, Expiring)
    case CleanUp(id) => InPhase(v, id, Closing)
    case Abandon(id) => InPhase(v, id, Waiting)
  }

  function Move(v: Vault, id: Id, phase: Phase): Vault
    requires id in v.calls
  {
    v.(calls := v.calls[id := v.calls[id].(phase := phase)])
  }

  /** The receiver still exists, so something sent or dropped reaches it. */
  predicate Listening(c: Call) { c.phase.Waiting? || c.phase.Expiring? }

  function Put(c: Call, channel: Channel): Call { if Listening(c) then c.(channel := channel) else c }

  /** `approve` and `reject`: true exactly when the id has a pending entry. */
  predicate Decides(v: Vault, id: Id) { id in v.pending }

  function AfterDecide(v: Vault, id: Id, approved: bool): Vault {
    if !Decides(v, id) || id !in v.calls then v else
      Vault(v.calls[id := Put(v.calls[id], Delivered(approved))], v.pending - {id},
            v.decisions + [Decision(id, approved, v.calls[id].phase)])
  }

  predicate Swept(v: Vault, id: Id, now: nat) { id in v.pending && v.pending[id] <= now }

  function AfterSweep(v: Vault, now: nat): Vault {
    v.(calls := map id | id in v.calls :: if Swept(v, id, now) then Put(v.calls[id], SenderDropped) else v.calls[id],
       pending := map id | id in v.pending && !Swept(v, id, now) :: v.pending[id])
  }

  function AnswerFor(approved: bool): Answer { if approved then Granted else Denied }

  function After(v: Vault, e: Event): Vault
    requires Enabled(v, e)
  {
    match e
    case Begin(id, isProtected) =>
      var phase := if !isProtected then Returned(Granted)
                   else if |v.pending| >= MAX_PENDING then Returned(Saturated)
                   else CapPassed;
      v.(calls := v.calls[id := Call(isProtected, phase, Empty)])
    case Insert(id, expiresAt) => Move(v, id, Waiting).(pending := v.pending[id := expiresAt])
    case HashFails(id) => Move(v, id, Returned(Failed))
    case Decide(id, approved) => AfterDecide(v, id, approved)
    case Sweep(now) => AfterSweep(v, now)
    case Receive(id) => Move(v, id, Returned(AnswerFor(v.calls[id].channel.approved)))
    case SeeDropped(id) => Move(v, id, Closing)
    case TimerFires(id) => Move(v, id, Expiring)
    case DropReceiver(id) => Move(v, id, Closing)
    case CleanUp(id) => Move(v, id, Returned(Denied)).(pending := v.pending - {id})
    case Abandon(id) => Move(v, id, Abandoned)
  }

  predicate Possible(v: Vault, es: seq<Event>)
    decreases |es|
  {
    es == [] || (Enabled(v, es[0]) && Possible(After(v, es[0]), es[1..]))
  }

  function Run(v: Vault, es: seq<Event>): Vault
    requires Possible(v, es)
    decreases |es|
  {
    if es == [] then v else Run(After(v, es[0]), es[1..])
  }

  // ---------------------------------------------------------------- what every step keeps

  predicate Decided(v: Vault, id: Id) { exists k :: 0 <= k < |v.decisions| && v.decisions[k].id == id }

  predicate MayOwnEntry(c: Call) {
    && c.isProtected && c.channel.Empty?
    && (Listening(c) || c.phase.Closing? || c.phase.Abandoned?)
  }

  /** Entries belong to calls that are past the insertion and have not returned. */
  ghost predicate EntriesOwned(v: Vault) {
    forall id | id in v.pending ::
      id in v.calls && MayOwnEntry(v.calls[id]) && !Decided(v, id)
  }

  ghost predicate DecidedAs(v: Vault, id: Id, approved: bool, phase: Phase) {
    exists k :: (0 <= k < |v.decisions| && v.decisions[k].id == id
      && v.decisions[k].approved == approved && (phase.Waiting? ==> v.decisions[k].found.Waiting?))
  }

  /** A call that listens has exactly one of a pending entry, a delivered decision or a
      dropped sender; what was delivered is what was decided while it was listening. */
  ghost predicate OneOutcome(v: Vault, id: Id)
    requires id in v.calls
  {
    var c := v.calls[id];
    match c.channel
    case Empty => id in v.pending
    case Delivered(b) => id !in v.pending && DecidedAs(v, id, b, c.phase)
    case SenderDropped => id !in v.pending && !Decided(v, id)
  }

  ghost predicate Approved(v: Vault, id: Id) {
    exists k :: (0 <= k < |v.decisions| && v.decisions[k].id == id
      && v.decisions[k].approved && v.decisions[k].found.Waiting?)
  }

  ghost predicate CallSound(v: Vault, id: Id)
    requires id in v.calls
  {
    var c := v.calls[id];
    match c.phase
    case CapPassed => c.isProtected && c.channel.Empty? && id !in v.pending && !Decided(v, id)
    case Waiting => c.isProtected && OneOutcome(v, id)
    case Expiring => c.isProtected && OneOutcome(v, id) && !Approved(v, id)
    case Closing => c.isProtected && !Approved(v, id)
    case Returned(answer) => id !in v.pending && (c.isProtected ==> (answer.Granted? <==> Approved(v, id)))
    case Abandoned => c.isProtected
  }

  ghost predicate DecisionsDistinct(v: Vault) {
    && (forall j, k | 0 <= j < k < |v.decisions| :: v.decisions[j].id != v.decisions[k].id)
    && (forall k | 0 <= k < |v.decisions| :: v.decisions[k].id in v.calls && v.calls[v.decisions[k].id].isProtected)
  }

  ghost predicate Sound(v: Vault) {
    && EntriesOwned(v) && DecisionsDistinct(v)
    && forall id | id in v.calls :: CallSound(v, id)
  }

  /** An event that only moves one call, and perhaps drops its own entry. */
  lemma MoveSound(v: Vault, id: Id, v': Vault)
    requires Sound(v) && id in v.calls && id in v'.calls && v'.decisions == v.decisions
    requires v'.calls == v.calls[id := v'.calls[id]] && v'.calls[id].isProtected == v.calls[id].isProtected
    requires v'.pending == v.pending || v'.pending == v.pending - {id}
    requires CallSound(v', id)
    requires id in v'.pending ==> MayOwnEntry(v'.calls[id])
    ensures Sound(v')
  {
    forall other | other in v'.calls ensures CallSound(v', other) {
      if other != id {
        assert CallSound(v, other);
        assert v'.calls[other] == v.calls[other];
      }
    }
  }

  lemma DecideSound(v: Vault, id: Id, approved: bool)
    requires Sound(v) && Decides(v, id)
    ensures Sound(AfterDecide(v, id, approved))
  {
    var v' := AfterDecide(v, id, approved);
    var n := |v.decisions|;
    assert forall k | 0 <= k < n :: v'.decisions[k] == v.decisions[k];
    assert v'.decisions[n] == Decision(id, approved, v.calls[id].phase);
    assert CallSound(v, id);
    forall other | other in v'.calls ensures CallSound(v', other) {
      if other != id {
        DecidedElsewhere(v, v', other);
        assert CallSound(v, other);
      }
    }
    forall other | other in v'.pending ensures !Decided(v', other) {
      DecidedElsewhere(v, v', other);
    }
  }

  /** A decision on one id says nothing about another. */
  lemma DecidedElsewhere(v: Vault, v': Vault, other: Id)
    requires |v'.decisions| == |v.decisions| + 1 && v'.decisions[..|v.decisions|] == v.decisions
    requires v'.decisions[|v.decisions|].id != other
    ensures Decided(v', other) == Decided(v, other) && Approved(v', other) == Approved(v, other)
  {
    assert forall k | 0 <= k < |v.decisions| :: v'.decisions[k] == v'.decisions[..|v.decisions|][k];
  }

  lemma SweepSound(v: Vault, now: nat)
    requires Sound(v)
    ensures Sound(AfterSweep(v, now))
  {
    var v' := AfterSweep(v, now);
    forall id | id in v'.calls ensures CallSound(v', id) {
      assert CallSound(v, id);
    }
  }

  lemma BeginSound(v: Vault, id: Id, isProtected: bool)
    requires Sound(v) && id !in v.calls
    ensures Sound(After(v, Begin(id, isProtected)))
  {
    var v' := After(v, Begin(id, isProtected));
    assert id !in v.pending && !Decided(v, id);
    forall other | other in v'.calls ensures CallSound(v', other) {
      if other != id {
        assert CallSound(v, other);
      }
    }
  }

  lemma InsertSound(v: Vault, id: Id, expiresAt: nat)
    requires Sound(v) && Enabled(v, Insert(id, expiresAt))
    ensures Sound(After(v, Insert(id, expiresAt)))
  {
    var v' := After(v, Insert(id, expiresAt));
    assert CallSound(v, id);
    forall other | other in v'.calls ensures CallSound(v', other) {
      if other != id {
        assert CallSound(v, other);
      }
    }
  }

  lemma StepSound(v: Vault, e: Event)
    requires Sound(v) && Enabled(v, e)
    ensures Sound(After(v, e))
  {
    match e
    case Begin(id, isProtected) => BeginSound(v, id, isProtected);
    case Insert(id, expiresAt) => InsertSound(v, id, expiresAt);
    case Decide(id, approved) => if Decides(v, id) { DecideSound(v, id, approved); }
    case Sweep(now) => SweepSound(v, now);
    case HashFails(id) => assert CallSound(v, id); MoveSound(v, id, After(v, e));
    case Receive(id) => ReceiveSound(v, id);
    case SeeDropped(id) => assert CallSound(v, id); MoveSound(v, id, After(v, e));
    case TimerFires(id) => assert CallSound(v, id); MoveSound(v, id, After(v, e));
    case DropReceiver(id) => assert CallSound(v, id); MoveSound(v, id, After(v, e));
    case CleanUp(id) => assert CallSound(v, id); MoveSound(v, id, After(v, e));
    case Abandon(id) => assert CallSound(v, id); MoveSound(v, id, After(v, e));
  }

  lemma ReceiveSound(v: Vault, id: Id)
    requires Sound(v) && Enabled(v, Receive(id))
    ensures Sound(After(v, Receive(id)))
  {
    assert CallSound(v, id);
    MoveSound(v, id, After(v, Receive(id)));
  }

  lemma {:induction false} RunSound(v: Vault, es: seq<Event>)
    requires Sound(v) && Possible(v, es)
    ensures Sound(Run(v, es))
    decreases |es|
  {
    if es != [] {
      StepSound(v, es[0]);
      RunSound(After(v, es[0]), es[1..]);
    }
  }

  /** The headline, over every interleaving: a protected call returns true exactly when
      `approve` of its own id returned true while the call was waiting; each id is decided at
      most once; a waiting call has exactly one of an entry, a decision or a dropped sender. */
  lemma VaultSafety(es: seq<Event>, id: Id)
    requires Possible(EMPTY, es) && id in Run(EMPTY, es).calls
    ensures var v := Run(EMPTY, es);
      && (v.calls[id].isProtected && v.calls[id].phase.Returned? ==>
            (v.calls[id].phase.answer.Granted? <==> Approved(v, id)))
      && (forall j, k | 0 <= j < k < |v.decisions| :: v.decisions[j].id != v.decisions[k].id)
      && (v.calls[id].phase.Waiting? ==> OneOutcome(v, id))
  {
    RunSound(EMPTY, es);
    assert CallSound(Run(EMPTY, es), id);
  }

  // ---------------------------------------------------------------- how a call is answered

  lemma {:induction false} RunSnoc(v: Vault, es: seq<Event>, e: Event)
    ensures Possible(v, es + [e]) <==> Possible(v, es) && Enabled(Run(v, es), e)
    ensures Possible(v, es + [e]) ==> Run(v, es + [e]) == After(Run(v, es), e)
    decreases |es|
  {
    if es == [] {
      assert es + [e] == [e] && [e][1..] == [];
    } else {
      assert (es + [e])[0] == es[0] && (es + [e])[1..] == es[1..] + [e];
      if Enabled(v, es[0]) {
        RunSnoc(After(v, es[0]), es[1..], e);
      }
    }
  }

  /** The call was begun when 256 entries or more were pending. */
  ghost predicate FoundFull(es: seq<Event>, id: Id) {
    exists k :: (0 <= k < |es| && es[k] == Begin(id, true)
      && Possible(EMPTY, es[..k]) && |Run(EMPTY, es[..k]).pending| >= 256)
  }

  /** What is known of call `id` after the events `es`, from the events alone. */
  ghost predicate Explained(es: seq<Event>, v: Vault, id: Id)
    requires id in v.calls
  {
    var c := v.calls[id];
    && (c.isProtected <==> Begin(id, true) in es)
    && (!c.isProtected <==> Begin(id, false) in es)
    && (!c.isProtected ==> c.phase == Returned(Granted) && id !in v.pending && !Decided(v, id))
    && (c.phase == Returned(Saturated) <==> FoundFull(es, id))
    && (c.phase == Returned(Failed) <==> HashFails(id) in es)
  }

  /** Over every run: an unprotected call is granted from the start and never pending or
      decided; a call is refused as saturated exactly when it is protected and found the vault
      full; a call fails exactly when its arguments could not be hashed. */
  lemma {:induction false} AnswersExplained(es: seq<Event>, id: Id)
    requires Possible(EMPTY, es) && id in Run(EMPTY, es).calls
    ensures Explained(es, Run(EMPTY, es), id)
    decreases |es|
  {
    var init, e := es[..|es| - 1], es[|es| - 1];
    assert es == init + [e];
    RunSnoc(EMPTY, init, e);
    RunSound(EMPTY, init);
    FoundFullSnoc(init, e, id);
    if id in Run(EMPTY, init).calls {
      AnswersExplained(init, id);
      StepExplained(init, Run(EMPTY, init), e, id);
    } else {
      NotBegun(init, id);
      BeginExplained(init, Run(EMPTY, init), e, id);
    }
  }

  lemma FoundFullSnoc(init: seq<Event>, e: Event, id: Id)
    requires Possible(EMPTY, init)
    ensures FoundFull(init + [e], id)
       <==> FoundFull(init, id) || (e == Begin(id, true) && |Run(EMPTY, init).pending| >= 256)
  {
    var es := init + [e];
    assert es[..|init|] == init && es[|init|] == e;
    assert forall k | 0 <= k < |init| :: es[..k] == init[..k] && es[k] == init[k];
  }

  lemma CallsStay(v: Vault, e: Event)
    requires Enabled(v, e)
    ensures v.calls.Keys <= After(v, e).calls.Keys
    ensures !e.Decide? && !e.Sweep? ==> e.id in After(v, e).calls
  {
  }

  lemma {:induction false} NotBegun(es: seq<Event>, id: Id)
    requires Possible(EMPTY, es) && id !in Run(EMPTY, es).calls
    ensures forall b :: Begin(id, b) !in es
    ensures HashFails(id) !in es && !FoundFull(es, id)
    decreases |es|
  {
    if es != [] {
      var init, e := es[..|es| - 1], es[|es| - 1];
      assert es == init + [e];
      RunSnoc(EMPTY, init, e);
      CallsStay(Run(EMPTY, init), e);
      NotBegun(init, id);
    }
  }

  lemma BeginExplained(init: seq<Event>, v: Vault, e: Event, id: Id)
    requires Sound(v) && Enabled(v, e) && id !in v.calls && id in After(v, e).calls
    requires (forall b :: Begin(id, b) !in init) && HashFails(id) !in init
    requires FoundFull(init + [e], id) <==> e == Begin(id, true) && |v.pending| >= 256
    ensures Explained(init + [e], After(v, e), id)
  {
    assert e.Begin? && e.id == id;
    assert e in init + [e] && forall x | x in init + [e] :: x in init || x == e;
    assert !Decided(v, id) && id !in v.pending;
  }

  /** A call that has returned stays as it is. */
  lemma ReturnedStays(v: Vault, e: Event, id: Id)
    requires Sound(v) && Enabled(v, e) && id in v.calls && v.calls[id].phase.Returned?
    ensures id in After(v, e).calls && After(v, e).calls[id] == v.calls[id]
    ensures id !in After(v, e).pending && (Decided(After(v, e), id) <==> Decided(v, id))
  {
    assert CallSound(v, id);
    if e.Decide? && Decides(v, e.id) {
      DecidedElsewhere(v, After(v, e), id);
    }
  }

  lemma PhaseStep(v: Vault, e: Event, id: Id)
    requires Enabled(v, e) && id in v.calls && !v.calls[id].phase.Returned?
    ensures var c' := After(v, e).calls[id];
      && c'.isProtected == v.calls[id].isProtected
      && c'.phase != Returned(Saturated)
      && (c'.phase == Returned(Failed) <==> e == HashFails(id))
  {
  }

  lemma StepExplained(init: seq<Event>, v: Vault, e: Event, id: Id)
    requires Sound(v) && Enabled(v, e) && id in v.calls && Explained(init, v, id)
    requires FoundFull(init + [e], id) <==> FoundFull(init, id)
    ensures Explained(init + [e], After(v, e), id)
  {
    assert e in init + [e] && forall x :: x in init + [e] <==> x in init || x == e;
    if v.calls[id].phase.Returned? {
      ReturnedStays(v, e, id);
    } else {
      PhaseStep(v, e, id);
    }
  }

  // ---------------------------------------------------------------- approvals that come too late

  /** `approve` can return true and the call still be denied: the timer had fired. */
  lemma LateApprovalIsLost(id: Id) returns (es: seq<Event>)
    ensures Possible(EMPTY, es) && InPhase(Run(EMPTY, es), id, Returned(Denied))
    ensures Run(EMPTY, es).decisions == [Decision(id, true, Expiring)]
  {
    var waiting := Vault(map[id := Call(true, Waiting, Empty)], map[id := 30], []);
    var tail := LateTail(waiting, id);
    var racing := Vault(map[id := Call(true, CapPassed, Empty)], map[], []);
    assert After(racing, Insert(id, 30)) == waiting;
    Prepend(racing, Insert(id, 30), tail);
    assert After(EMPTY, Begin(id, true)) == racing;
    Prepend(EMPTY, Begin(id, true), [Insert(id, 30)] + tail);
    es := [Begin(id, true)] + ([Insert(id, 30)] + tail);
  }

  lemma LateTail(v: Vault, id: Id) returns (es: seq<Event>)
    requires v == Vault(map[id := Call(true, Waiting, Empty)], map[id := 30], [])
    ensures Possible(v, es) && InPhase(Run(v, es), id, Returned(Denied))
    ensures Run(v, es).decisions == [Decision(id, true, Expiring)]
  {
    var expiring := Vault(map[id := Call(true, Expiring, Empty)], map[id := 30], []);
    var told := Vault(map[id := Call(true, Expiring, Delivered(true))], map[], [Decision(id, true, Expiring)]);
    var closing := Vault(map[id := Call(true, Closing, Delivered(true))], map[], [Decision(id, true, Expiring)]);
    var cleanUp := [CleanUp(id)] + [];
    var drop := [DropReceiver(id)] + cleanUp;
    var decide := [Decide(id, true)] + drop;
    es := [TimerFires(id)] + decide;
    Prepend(closing, CleanUp(id), []);
    assert After(told, DropReceiver(id)) == closing;
    Prepend(told, DropReceiver(id), cleanUp);
    assert After(expiring, Decide(id, true)) == told;
    Prepend(expiring, Decide(id, true), drop);
    assert After(v, TimerFires(id)) == expiring;
    Prepend(v, TimerFires(id), decide);
  }

  lemma Prepend(v: Vault, e: Event, es: seq<Event>)
    requires Enabled(v, e) && Possible(After(v, e), es)
    ensures Possible(v, [e] + es) && Run(v, [e] + es) == Run(After(v, e), es)
  {
    assert ([e] + es)[1..] == es;
  }

  // ---------------------------------------------------------------- the cap

  /** Calls between the capacity check and the insertion. */
  ghost function Racing(v: Vault): set<Id> { set id | id in v.calls && v.calls[id].phase.CapPassed? }

  /** At no point of the run do more than `n` calls race. */
  ghost predicate RaceAtMost(v: Vault, es: seq<Event>, n: nat)
    requires Possible(v, es)
    decreases |es|
  {
    |Racing(v)| <= n && (es == [] || RaceAtMost(After(v, es[0]), es[1..], n))
  }

  lemma RacingStep(v: Vault, e: Event)
    requires Sound(v) && Enabled(v, e)
    ensures var v' := After(v, e);
      || (Racing(v') == Racing(v) && |v'.pending| <= |v.pending|)
      || (e.Insert? && |Racing(v')| + 1 == |Racing(v)| && |v'.pending| == |v.pending| + 1)
      || (e.HashFails? && |Racing(v')| <= |Racing(v)| && v'.pending == v.pending)
      || (e.Begin? && |v.pending| < MAX_PENDING && v'.pending == v.pending)
  {
    var v' := After(v, e);
    match e
    case Begin(id, isProtected) =>
      if !v'.calls[id].phase.CapPassed? {
        assert Racing(v') == Racing(v);
      }
    case Insert(id, expiresAt) =>
      InsertRace(v, id, expiresAt);
    case HashFails(id) =>
      assert Racing(v') == Racing(v) - {id};
    case _ =>
      QuietStep(v, e);
  }

  lemma InsertRace(v: Vault, id: Id, expiresAt: nat)
    requires Sound(v) && Enabled(v, Insert(id, expiresAt))
    ensures |Racing(After(v, Insert(id, expiresAt)))| + 1 == |Racing(v)|
    ensures |After(v, Insert(id, expiresAt)).pending| == |v.pending| + 1
  {
    assert CallSound(v, id);
    InsertMoves(v, id, expiresAt);
  }

  /** An insertion takes one call out of the race and adds its entry. */
  lemma InsertMoves(v: Vault, id: Id, expiresAt: nat)
    requires Enabled(v, Insert(id, expiresAt))
    ensures var v' := After(v, Insert(id, expiresAt));
      && Racing(v') == Racing(v) - {id} && v'.calls.Keys == v.calls.Keys
      && v'.pending.Keys == v.pending.Keys + {id}
      && (id !in v.pending ==> |v'.pending| == |v.pending| + 1)
  {
    var v' := After(v, Insert(id, expiresAt));
    assert v'.pending.Keys == v.pending.Keys + {id};
    assert |v'.pending| == |v'.pending.Keys| && |v.pending| == |v.pending.Keys|;
  }

  /** Other events let nobody into the race or out of it and insert no entry. */
  lemma QuietStep(v: Vault, e: Event)
    requires Enabled(v, e) && !e.Begin? && !e.Insert? && !e.HashFails?
    ensures Racing(After(v, e)) == Racing(v) && |After(v, e).pending| <= |v.pending|
  {
    var v' := After(v, e);
    forall id ensures id in Racing(v') <==> id in Racing(v) {
    }
    assert forall id | id in v'.pending :: id in v.pending;
    Shrinks(v'.pending.Keys, v.pending.Keys);
    assert |v'.pending| == |v'.pending.Keys| && |v.pending| == |v.pending.Keys|;
  }

  lemma {:induction false} Shrinks(a: set<Id>, b: set<Id>)
    requires a <= b
    ensures |a| <= |b|
  {
    if x :| x in a {
      Shrinks(a - {x}, b - {x});
    }
  }

  lemma {:induction false} PendingBoundedFrom(v: Vault, es: seq<Event>, n: nat)
    requires Sound(v) && Possible(v, es) && RaceAtMost(v, es, n)
    requires |v.pending| + |Racing(v)| < MAX_PENDING + n
    ensures |Run(v, es).pending| + |Racing(Run(v, es))| < MAX_PENDING + n
    decreases |es|
  {
    if es != [] {
      RacingStep(v, es[0]);
      StepSound(v, es[0]);
      PendingBoundedFrom(After(v, es[0]), es[1..], n);
    }
  }

  /** The check and the insertion take the lock separately, so the cap holds up to the number
      of calls that race between them. */
  lemma PendingBounded(es: seq<Event>, n: nat)
    requires Possible(EMPTY, es) && RaceAtMost(EMPTY, es, n)
    ensures |Run(EMPTY, es).pending| < MAX_PENDING + n
  {
    assert Racing(EMPTY) == {};
    PendingBoundedFrom(EMPTY, es, n);
  }

  // ---------------------------------------------------------------- filling the vault

  /** Ids that differ because their lengths do. */
  function Name(k: nat): (id: Id)
    ensures |id| == k
  {
    if k == 0 then "" else Name(k - 1) + "a"
  }

  ghost function Names(a: nat, b: nat): set<Id> { set k | a <= k < b :: Name(k) }

  lemma {:induction false} NamesCount(a: nat, b: nat)
    requires a <= b
    ensures |Names(a, b)| == b - a
    decreases b - a
  {
    if a < b {
      assert Names(a, b) == Names(a, b - 1) + {Name(b - 1)};
      NamesCount(a, b - 1);
    }
  }

  lemma NamesFirst(a: nat, b: nat)
    requires a < b
    ensures Name(a) in Names(a, b) && Names(a + 1, b) == Names(a, b) - {Name(a)}
  {
    forall k | a < k < b ensures Name(k) != Name(a) {
      assert |Name(k)| == k;
    }
  }

  /** `p` entries; the calls named from `a` up to `b` race, later names are unused. */
  ghost predicate Stage(v: Vault, p: nat, a: nat, b: nat) {
    && a <= b && |v.pending| == p && Racing(v) == Names(a, b)
    && (forall id | id in v.calls :: |id| < b)
    && (forall id | id in v.pending :: |id| < a)
  }

  lemma StageBegin(v: Vault, p: nat, a: nat, b: nat)
    requires Stage(v, p, a, b) && p < MAX_PENDING
    ensures Enabled(v, Begin(Name(b), true)) && Stage(After(v, Begin(Name(b), true)), p, a, b + 1)
  {
    var v' := After(v, Begin(Name(b), true));
    assert Racing(v') == Racing(v) + {Name(b)};
    assert Names(a, b + 1) == Names(a, b) + {Name(b)};
  }

  lemma StageInsert(v: Vault, p: nat, a: nat, b: nat)
    requires Stage(v, p, a, b) && a < b
    ensures Enabled(v, Insert(Name(a), 30)) && Stage(After(v, Insert(Name(a), 30)), p + 1, a + 1, b)
  {
    NamesFirst(a, b);
    assert Name(a) in Racing(v);
    InsertMoves(v, Name(a), 30);
  }

  /** `es` can happen, never lets more than `n` calls race and leaves `p` entries. */
  ghost predicate Reaches(v: Vault, es: seq<Event>, n: nat, p: nat) {
    Possible(v, es) && RaceAtMost(v, es, n) && |Run(v, es).pending| == p
  }

  lemma ReachesPrepend(v: Vault, e: Event, es: seq<Event>, n: nat, p: nat)
    requires Enabled(v, e) && |Racing(v)| <= n && Reaches(After(v, e), es, n, p)
    ensures Reaches(v, [e] + es, n, p)
  {
    Prepend(v, e, es);
    assert ([e] + es)[1..] == es;
  }

  /** The racing calls insert their entries, however many there are by now. */
  lemma {:induction false} InsertAll(v: Vault, p: nat, a: nat, b: nat, n: nat) returns (es: seq<Event>)
    requires Stage(v, p, a, b) && b - a <= n
    ensures Reaches(v, es, n, p + (b - a))
    decreases b - a
  {
    NamesCount(a, b);
    es := [];
    if a < b {
      StageInsert(v, p, a, b);
      es := InsertAll(After(v, Insert(Name(a), 30)), p + 1, a + 1, b, n);
      ReachesPrepend(v, Insert(Name(a), 30), es, n, p + (b - a));
      es := [Insert(Name(a), 30)] + es;
    }
  }

  /** While the vault is not full, calls pass the check until `n` of them race. */
  lemma {:induction false} BeginAll(v: Vault, p: nat, a: nat, b: nat, n: nat) returns (es: seq<Event>)
    requires Stage(v, p, a, b) && b - a <= n && p < MAX_PENDING
    ensures Reaches(v, es, n, p + n)
    decreases n - (b - a)
  {
    NamesCount(a, b);
    if b - a == n {
      es := InsertAll(v, p, a, b, n);
    } else {
      StageBegin(v, p, a, b);
      es := BeginAll(After(v, Begin(Name(b), true)), p, a, b + 1, n);
      ReachesPrepend(v, Begin(Name(b), true), es, n, p + n);
      es := [Begin(Name(b), true)] + es;
    }
  }

  /** One call after another fills the vault to one below the cap; then `n` calls race. */
  lemma {:induction false} FillUp(v: Vault, p: nat, n: nat) returns (es: seq<Event>)
    requires Stage(v, p, p, p) && p < MAX_PENDING && n > 0
    ensures Reaches(v, es, n, MAX_PENDING - 1 + n)
    decreases MAX_PENDING - p
  {
    if p == MAX_PENDING - 1 {
      es := BeginAll(v, p, p, p, n);
    } else {
      var v1 := After(v, Begin(Name(p), true));
      StageBegin(v, p, p, p);
      StageInsert(v1, p, p, p + 1);
      es := FillUp(After(v1, Insert(Name(p), 30)), p + 1, n);
      NamesCount(p, p);
      NamesCount(p, p + 1);
      ReachesPrepend(v1, Insert(Name(p), 30), es, n, MAX_PENDING - 1 + n);
      ReachesPrepend(v, Begin(Name(p), true), [Insert(Name(p), 30)] + es, n, MAX_PENDING - 1 + n);
      es := [Begin(Name(p), true)] + ([Insert(Name(p), 30)] + es);
    }
  }

  /** From the empty vault, `n` racing calls put `n - 1` entries above the cap: the bound of
      `PendingBounded` is attained. */
  lemma CapOvershoots(n: nat) returns (es: seq<Event>)
    requires n > 0
    ensures Possible(EMPTY, es) && RaceAtMost(EMPTY, es, n)
    ensures |Run(EMPTY, es).pending| == MAX_PENDING - 1 + n
  {
    assert Racing(EMPTY) == Names(0, 0);
    es := FillUp(EMPTY, 0, n);
  }

  /** The cap holds exactly when no two calls are ever between check and insertion at once. */
  lemma CapHoldsIff(n: nat)
    ensures (forall es | Possible(EMPTY, es) && RaceAtMost(EMPTY, es, n) :: |Run(EMPTY, es).pending| <= MAX_PENDING)
       <==> n <= 1
  {
    if n <= 1 {
      forall es | Possible(EMPTY, es) && RaceAtMost(EMPTY, es, n) ensures |Run(EMPTY, es).pending| <= MAX_PENDING {
        PendingBounded(es, n);
      }
    } else {
      var es := CapOvershoots(n);
    }
  }
}
