/** Which runs of the account pool in packages/faucet/src/database-helper.ts leave an account locked for good,
    told from their events alone. */
module AccountLeaks {
  import opened Options
  import opened WithTimeout
  import opened AccountPool

  ghost predicate AllFinished(s: State) {
    forall i :: 0 <= i < |s.callers| ==> Finished(s.callers[i])
  }

  ghost predicate SomeLocked(s: State) {
    exists k :: 0 <= k < |s.db| && s.db[k]
  }

  // A run after which everybody is done and a lock is still up.
  ghost predicate Leaks(accounts: nat, callers: nat, events: seq<Event>) {
    var s := Run(Init(accounts, callers), events);
    s.Some? && AllFinished(s.value) && SomeLocked(s.value)
  }

  // ---------- what a caller's state remembers of its events ----------

  predicate HasCommitted(c: Caller) {
    (c.acquire.Answered? && c.acquire.committed) || (c.acquire.Returned? && c.acquire.account.Some?)
  }

  predicate HasLost(c: Caller) {
    c.acquire.Threw? && c.acquire.lost.Some?
  }

  lemma MoveRemembers(c: Caller, db: Database, m: Move)
    requires CallerOk(c, |db|) && Advance(c, db, m).Some?
    ensures var c' := Advance(c, db, m).value.0;
      && (HasCommitted(c') <==> HasCommitted(c) || m.Commit?)
      && (HasLost(c') <==> HasLost(c) || m.CommitLost?)
      && (c'.lock.timer.Fired? <==> c.lock.timer.Fired? || m.LockTimeout?)
  {
  }

  lemma StepRemembers(s: State, e: Event, i: nat)
    requires Inv(s) && Step(s, e).Some? && i < |s.callers|
    ensures |Step(s, e).value.callers| == |s.callers|
    ensures var c, c' := s.callers[i], Step(s, e).value.callers[i];
      && (HasCommitted(c') <==> HasCommitted(c) || e == Event(i, Commit))
      && (HasLost(c') <==> HasLost(c) || e == Event(i, CommitLost))
      && (c'.lock.timer.Fired? <==> c.lock.timer.Fired? || e == Event(i, LockTimeout))
  {
    hide Advance, CallerOk, HasCommitted, HasLost, Exclusive;
    assert CallerOk(s.callers[e.caller], |s.db|);
    MoveRemembers(s.callers[e.caller], s.db, e.move);
  }

  lemma OneMoreEvent(events: seq<Event>)
    requires events != []
    ensures forall e :: e in events <==> e in events[..|events| - 1] || e == events[|events| - 1]
  {
    assert events == events[..|events| - 1] + [events[|events| - 1]];
  }

  lemma {:induction false} RunRemembers(accounts: nat, callers: nat, events: seq<Event>, i: nat)
    requires Run(Init(accounts, callers), events).Some? && i < callers
    ensures |Run(Init(accounts, callers), events).value.callers| == callers
    ensures var c := Run(Init(accounts, callers), events).value.callers[i];
      && (HasCommitted(c) <==> Event(i, Commit) in events)
      && (HasLost(c) <==> Event(i, CommitLost) in events)
      && (c.lock.timer.Fired? <==> Event(i, LockTimeout) in events)
  {
    hide Step, Inv;
    if events == [] {
    } else {
      hide HasCommitted, HasLost;
      var before, e := events[..|events| - 1], events[|events| - 1];
      RunRemembers(accounts, callers, before, i);
      ReachableInv(accounts, callers, before);
      StepRemembers(Run(Init(accounts, callers), before).value, e, i);
      OneMoreEvent(events);
    }
  }

  // ---------- the runs that leak ----------

  lemma FinishedLeak(c: Caller, accounts: nat)
    requires CallerOk(c, accounts) && Finished(c)
    ensures Held(c).Some? <==> HasLost(c) || (HasCommitted(c) && c.lock.timer.Fired?)
  {
  }

  lemma HeldIsLocked(s: State)
    requires Inv(s)
    ensures SomeLocked(s) <==> exists i :: 0 <= i < |s.callers| && Held(s.callers[i]).Some?
  {
    hide CallerOk, Held;
  }

  // How a caller's events lose an account: the answer of its commit got lost, or it both committed and had its
  // acquisition timer fire, in either order.
  predicate Loses(events: seq<Event>, i: nat) {
    || Event(i, CommitLost) in events
    || (Event(i, Commit) in events && Event(i, LockTimeout) in events)
  }

  // A finished run leaves a lock up exactly when some caller's events lose one.
  lemma LeavesLockIff(accounts: nat, callers: nat, events: seq<Event>)
    requires Run(Init(accounts, callers), events).Some? && AllFinished(Run(Init(accounts, callers), events).value)
    ensures Leaks(accounts, callers, events) <==> exists i: nat :: i < callers && Loses(events, i)
  {
    ReachableInv(accounts, callers, events);
    var s := Run(Init(accounts, callers), events).value;
    hide Run, Held, CallerOk, Finished, HasCommitted, HasLost, SomeLocked, Exclusive;
    HeldIsLocked(s);
    forall i: nat | i < callers
      ensures Held(s.callers[i]).Some? <==> Loses(events, i)
    {
      assert CallerOk(s.callers[i], accounts) && Finished(s.callers[i]);
      FinishedLeak(s.callers[i], accounts);
      RunRemembers(accounts, callers, events, i);
    }
  }

  // ---------- the configurations that can leak ----------

  // A caller that times out before it starts: it ends without ever reading the database.
  const GIVE_UP: Caller := Caller(Returned(None), true, 0, Race(Fired, false, Resolved(None), 1), NoAccount)

  lemma GivesUp(s: State, events: seq<Event>, i: nat) returns (more: seq<Event>)
    requires Run(s, events).Some? && i < |Run(s, events).value.callers|
    requires Run(s, events).value.callers[i] == NEW_CALLER
    ensures var m := Run(s, events).value;
      Run(s, more) == Some(State(m.db, m.callers[i := GIVE_UP]))
  {
    var m := Run(s, events).value;
    var one, two := events + [Event(i, LockTimeout)], events + [Event(i, LockTimeout)] + [Event(i, Begin)];
    more := two + [Event(i, Proceed)];
    hide Run;
    OneMore(s, events, Event(i, LockTimeout));
    var fired := NEW_CALLER.(lock := NEW_CALLER.lock.Fire(Some(None)), end := true);
    assert Run(s, one) == Some(State(m.db, m.callers[i := fired]));
    OneMore(s, one, Event(i, Begin));
    var done := fired.(acquire := Returned(None));
    assert m.callers[i := fired][i := done] == m.callers[i := done];
    assert Run(s, two) == Some(State(m.db, m.callers[i := done]));
    OneMore(s, two, Event(i, Proceed));
    assert m.callers[i := done][i := GIVE_UP] == m.callers[i := GIVE_UP];
  }

  // The first caller commits the first account, and times out while the answer is on its way.
  const LEAKED: Caller := Caller(Returned(Some(0)), true, 0, Race(Fired, false, Resolved(None), 1), NoAccount)

  lemma FirstLeaks(accounts: nat, callers: nat) returns (events: seq<Event>)
    requires accounts >= 1 && callers >= 1
    ensures var s := Init(accounts, callers);
      Run(s, events) == Some(State(s.db[0 := true], s.callers[0 := LEAKED]))
  {
    hide Run, AfterMoves;
    var s := Init(accounts, callers);
    NoEvents(s);
    var four := LocksFirst(s, [], 0, 4);
    var five, six := four + [Event(0, LockTimeout)], four + [Event(0, LockTimeout)] + [Event(0, Answer)];
    events := six + [Event(0, Proceed)];
    AfterCommit(s, 0);
    var db, committed := s.db[0 := true], NEW_CALLER.(acquire := Answered(s.db, 0, true));
    assert Run(s, four) == Some(State(db, s.callers[0 := committed]));
    OneMore(s, four, Event(0, LockTimeout));
    var fired := committed.(lock := committed.lock.Fire(Some(None)), end := true);
    Reassigned(s.callers, committed, fired);
    OneMore(s, five, Event(0, Answer));
    var answered := fired.(acquire := Returned(Some(0)));
    Reassigned(s.callers, fired, answered);
    OneMore(s, six, Event(0, Proceed));
    Reassigned(s.callers, answered, LEAKED);
  }

  lemma Reassigned(callers: seq<Caller>, first: Caller, second: Caller)
    requires callers != []
    ensures callers[0 := first][0] == first
    ensures callers[0 := first][0 := second] == callers[0 := second]
  {
  }

  // And everybody else gives up.
  lemma LeakingRun(accounts: nat, callers: nat) returns (events: seq<Event>)
    requires accounts >= 1 && callers >= 1
    ensures Leaks(accounts, callers, events)
  {
    var s := Init(accounts, callers);
    var db := s.db[0 := true];
    events := FirstLeaks(accounts, callers);
    hide Run;
    for n := 1 to callers
      invariant var m := Run(s, events);
        && m.Some? && m.value.db == db && |m.value.callers| == callers
        && m.value.callers[0] == LEAKED
        && (forall i :: 1 <= i < n ==> m.value.callers[i] == GIVE_UP)
        && (forall i :: n <= i < callers ==> m.value.callers[i] == NEW_CALLER)
    {
      events := GivesUp(s, events, n);
    }
    assert db[0];
  }

  // Some finished run leaves a lock up as soon as there is a caller and an account.
  lemma CanLeakIff(accounts: nat, callers: nat)
    ensures (exists events :: Leaks(accounts, callers, events)) <==> accounts >= 1 && callers >= 1
  {
    if accounts >= 1 && callers >= 1 {
      var events := LeakingRun(accounts, callers);
    }
    forall events | Leaks(accounts, callers, events)
      ensures accounts >= 1 && callers >= 1
    {
      ReachableInv(accounts, callers, events);
      HeldIsLocked(Run(Init(accounts, callers), events).value);
    }
  }
}
