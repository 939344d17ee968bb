/** The approval vault of src/vault_lock.rs as the shared object it is: one method per block
    that runs under the lock, and one for each turn of a waiting call. */
module TimeLockedVault {
  import opened Basics
  import opened VaultProtocol

  /** `eq_ignore_ascii_case`. */
  predicate SameIgnoringCase(a: string, b: string) {
    |a| == |b| && forall k | 0 <= k < |a| :: Lower(a[k]) == Lower(b[k])
  }

  predicate Protects(tools: seq<string>, tool: string) {
    exists k :: 0 <= k < |tools| && SameIgnoringCase(tools[k], tool)
  }

  /** The same letters, capital or small; anything else must be the same character. */
  lemma IgnoringCaseIff(a: string, b: string)
    ensures SameIgnoringCase(a, b) <==> |a| == |b| && forall k | 0 <= k < |a| ::
      || a[k] == b[k]
      || ('A' <= a[k] <= 'Z' && b[k] as int == a[k] as int + 32)
      || ('A' <= b[k] <= 'Z' && a[k] as int == b[k] as int + 32)
  {
    assert forall k | 0 <= k < |a| && k < |b| :: Lower(a[k]) == Lower(b[k]) <==>
      || a[k] == b[k]
      || ('A' <= a[k] <= 'Z' && b[k] as int == a[k] as int + 32)
      || ('A' <= b[k] <= 'Z' && a[k] as int == b[k] as int + 32);
  }

  class TimeLockedVault {
    const protectedTools: seq<string>
    const window: nat
    var pending: map<Id, nat>
    var calls: map<Id, Call>
    var decisions: seq<Decision>

    function State(): Vault
      reads this
    {
      Vault(calls, pending, decisions)
    }

    ghost predicate Valid()
      reads this
    {
      Sound(State())
    }

    constructor (protectedTools: seq<string>, window: nat)
      ensures Valid() && State() == EMPTY
      ensures this.protectedTools == protectedTools && this.window == window
    {
      this.protectedTools, this.window := protectedTools, window;
      pending, calls, decisions := map[], map[], [];
    }

    method IsProtected(tool: string) returns (b: bool)
      ensures b == Protects(protectedTools, tool)
    {
      b := false;
      for k := 0 to |protectedTools|
        invariant !b && forall j | 0 <= j < k :: !SameIgnoringCase(protectedTools[j], tool)
      {
        if SameIgnoringCase(protectedTools[k], tool) {
          return true;
        }
      }
    }

    /** `check_or_wait` up to the capacity check, for a call that will use `id`. */
    method BeginCall(id: Id, tool: string)
      requires Valid() && id !in calls
      modifies this`calls
      ensures Valid() && State() == After(old(State()), Begin(id, Protects(protectedTools, tool)))
      ensures id in calls && calls[id].phase ==
        if !Protects(protectedTools, tool) then Returned(Granted)
        else if |pending| >= 256 then Returned(Saturated)
        else CapPassed
    {
      var isProtected := IsProtected(tool);
      StepSound(State(), Begin(id, isProtected));
      if !isProtected {
        calls := calls[id := Call(false, Returned(Granted), Empty)];
        return;
      }
      if |pending| >= MAX_PENDING {
        calls := calls[id := Call(true, Returned(Saturated), Empty)];
        return;
      }
      calls := calls[id := Call(true, CapPassed, Empty)];
    }

    /** The insertion under the lock; hashing the arguments can still fail there. */
    method InsertEntry(id: Id, now: nat, hashed: bool)
      requires Valid() && InPhase(State(), id, CapPassed)
      modifies this`calls, this`pending
      ensures Valid()
      ensures State() == After(old(State()), if hashed then Insert(id, now + window) else HashFails(id))
      ensures pending == if hashed then old(pending)[id := now + window] else old(pending)
      ensures calls[id].phase == if hashed then Waiting else Returned(Failed)
    {
      var expiresAt := now + window;
      StepSound(State(), if hashed then Insert(id, expiresAt) else HashFails(id));
      if hashed {
        pending := pending[id := expiresAt];
        calls := calls[id := calls[id].(phase := Waiting)];
      } else {
        calls := calls[id := calls[id].(phase := Returned(Failed))];
      }
    }

    /** `approve` and `reject` differ in the value they send. */
    method Settle(id: Id, approved: bool) returns (found: bool)
      requires Valid()
      modifies this`calls, this`pending, this`decisions
      ensures Valid()
      ensures found == (id in old(pending)) && pending == old(pending) - {id}
      ensures found ==> id in old(calls) && calls.Keys == old(calls).Keys
      ensures found && Listening(old(calls)[id]) ==> calls[id].channel == Delivered(approved)
      ensures State() == After(old(State()), Decide(id, approved))
    {
      StepSound(State(), Decide(id, approved));
      found := id in pending;
      if found {
        assert id in calls;
        pending := pending - {id};
        decisions := decisions + [Decision(id, approved, calls[id].phase)];
        calls := calls[id := Put(calls[id], Delivered(approved))];
      }
    }

    method Approve(id: Id) returns (found: bool)
      requires Valid()
      modifies this`calls, this`pending, this`decisions
      ensures Valid() && found == (id in old(pending)) && pending == old(pending) - {id}
      ensures found ==> id in old(calls) && calls.Keys == old(calls).Keys
      ensures found && Listening(old(calls)[id]) ==> calls[id].channel == Delivered(true)
      ensures State() == After(old(State()), Decide(id, true))
    {
      found := Settle(id, true);
    }

    method Reject(id: Id) returns (found: bool)
      requires Valid()
      modifies this`calls, this`pending, this`decisions
      ensures Valid() && found == (id in old(pending)) && pending == old(pending) - {id}
      ensures found ==> id in old(calls) && calls.Keys == old(calls).Keys
      ensures found && Listening(old(calls)[id]) ==> calls[id].channel == Delivered(false)
      ensures State() == After(old(State()), Decide(id, false))
    {
      found := Settle(id, false);
    }

    /** The background sweep: `retain` what has not expired; a dropped entry drops its sender. */
    method SweepExpired(now: nat)
      requires Valid()
      modifies this`calls, this`pending
      ensures Valid() && State() == After(old(State()), VaultProtocol.Sweep(now))
      ensures forall id :: id in pending <==> id in old(pending) && old(pending)[id] > now
      ensures forall id | id in pending :: pending[id] == old(pending)[id]
      ensures forall id | id in old(calls) :: (id in calls && calls[id] ==
        if id in old(pending) && old(pending)[id] <= now && Listening(old(calls)[id])
        then old(calls)[id].(channel := SenderDropped)
        else old(calls)[id])
    {
      var before := State();
      StepSound(before, VaultProtocol.Sweep(now));
      calls := map id | id in before.calls ::
        if Swept(before, id, now) then Put(before.calls[id], SenderDropped) else before.calls[id];
      pending := map id | id in before.pending && !Swept(before, id, now) :: before.pending[id];
    }

    /** One turn of the wait: the channel first, then the timer. */
    method Poll(id: Id, elapsed: bool) returns (answer: Option<Answer>)
      requires Valid() && InPhase(State(), id, Waiting)
      modifies this`calls
      ensures Valid()
      ensures match old(calls[id].channel)
        case Delivered(b) => State() == After(old(State()), Receive(id)) && answer == Some(AnswerFor(b))
        case SenderDropped => State() == After(old(State()), SeeDropped(id)) && answer.None?
        case Empty => State() == (if elapsed then After(old(State()), TimerFires(id)) else old(State())) && answer.None?
    {
      answer := None;
      match calls[id].channel {
        case Delivered(b) =>
          StepSound(State(), Receive(id));
          answer := Some(AnswerFor(b));
          calls := calls[id := calls[id].(phase := Returned(AnswerFor(b)))];
        case SenderDropped =>
          StepSound(State(), SeeDropped(id));
          calls := calls[id := calls[id].(phase := Closing)];
        case Empty =>
          if elapsed {
            StepSound(State(), TimerFires(id));
            calls := calls[id := calls[id].(phase := Expiring)];
          }
      }
    }

    /** After a timeout the receiver goes away before the entry is removed. */
    method Expire(id: Id)
      requires Valid() && InPhase(State(), id, Expiring)
      modifies this`calls
      ensures Valid() && State() == After(old(State()), VaultProtocol.DropReceiver(id))
    {
      StepSound(State(), VaultProtocol.DropReceiver(id));
      calls := calls[id := calls[id].(phase := Closing)];
    }

    /** `pending.lock().remove(&id)` and the answer `false`. */
    method RemoveOwnEntry(id: Id)
      requires Valid() && InPhase(State(), id, Closing)
      modifies this`calls, this`pending
      ensures Valid() && State() == After(old(State()), VaultProtocol.CleanUp(id))
    {
      StepSound(State(), VaultProtocol.CleanUp(id));
      pending := pending - {id};
      calls := calls[id := calls[id].(phase := Returned(Denied))];
    }
  }
}
