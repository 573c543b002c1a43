/** What `return await withTimeout(..)` would change in packages/faucet/src/database-helper.ts: unlock writes that
    wait until the race of the action and its timer is settled, which is not until the action has ended. */
module AccountAwait {
  import opened Options
  import opened AccountPool

  predicate RaceSettled(c: Caller) {
    c.phase.Acting? ==> !c.phase.action.promise.Pending?
  }

  ghost predicate Awaiting(s: State, events: seq<Event>) {
    UnlocksWhen(RaceSettled, s, events)
  }

  // ---------- an action timeout is needed ----------

  // An account written back under a running action has had its action timer fire.
  predicate TimedOutIfEarly(c: Caller) {
    c.phase.Acting? && c.phase.running && c.phase.unlocked ==> c.phase.action.timer.Fired?
  }

  predicate ActionTimedOut(c: Caller) {
    c.phase.Acting? && c.phase.action.timer.Fired?
  }

  lemma MoveTimedOut(c: Caller, db: Database, m: Move)
    requires CallerOk(c, |db|) && Advance(c, db, m).Some? && TimedOutIfEarly(c)
    requires m.Unlock? ==> RaceSettled(c)
    ensures var c' := Advance(c, db, m).value.0;
      TimedOutIfEarly(c') && (ActionTimedOut(c') ==> ActionTimedOut(c) || m.ActionTimesOut?)
  {
  }

  lemma StepTimedOut(s: State, e: Event, i: nat)
    requires Inv(s) && Step(s, e).Some? && i < |s.callers| && TimedOutIfEarly(s.callers[i])
    requires e.move.Unlock? && e.caller < |s.callers| ==> RaceSettled(s.callers[e.caller])
    ensures |Step(s, e).value.callers| == |s.callers|
    ensures var c, c' := s.callers[i], Step(s, e).value.callers[i];
      TimedOutIfEarly(c') && (ActionTimedOut(c') ==> ActionTimedOut(c) || e == Event(i, ActionTimesOut))
  {
    hide Advance, CallerOk, Exclusive, TimedOutIfEarly, ActionTimedOut, RaceSettled;
    assert CallerOk(s.callers[e.caller], |s.db|);
    if e.caller == i {
      MoveTimedOut(s.callers[i], s.db, e.move);
    }
  }

  lemma AwaitingBefore(s: State, events: seq<Event>)
    requires events != [] && Awaiting(s, events)
    ensures var before, e := events[..|events| - 1], events[|events| - 1];
      && Awaiting(s, before)
      && (e.move.Unlock? && Run(s, before).Some? && e.caller < |Run(s, before).value.callers| ==>
        RaceSettled(Run(s, before).value.callers[e.caller]))
  {
    hide Run, RaceSettled;
  }

  lemma NewCallers(accounts: nat, callers: nat, i: nat)
    requires i < callers
    ensures |Init(accounts, callers).callers| == callers
    ensures TimedOutIfEarly(Init(accounts, callers).callers[i]) && !ActionTimedOut(Init(accounts, callers).callers[i])
  {
  }

  lemma {:induction false} AwaitingTimesOut(accounts: nat, callers: nat, events: seq<Event>, i: nat)
    requires Run(Init(accounts, callers), events).Some? && Awaiting(Init(accounts, callers), events) && i < callers
    ensures |Run(Init(accounts, callers), events).value.callers| == callers
    ensures var c := Run(Init(accounts, callers), events).value.callers[i];
      TimedOutIfEarly(c) && (ActionTimedOut(c) ==> Event(i, ActionTimesOut) in events)
  {
    hide Init, Inv, Step, Awaiting, TimedOutIfEarly, ActionTimedOut, RaceSettled;
    var s := Init(accounts, callers);
    if events == [] {
      NewCallers(accounts, callers, i);
    } else {
      var before, e := events[..|events| - 1], events[|events| - 1];
      AwaitingBefore(s, events);
      AwaitingTimesOut(accounts, callers, before, i);
      ReachableInv(accounts, callers, before);
      StepTimedOut(Run(s, before).value, e, i);
      assert events == before + [e];
    }
  }

  // Two actions still overlap only after an action timeout.
  lemma AwaitedOverlapTimesOut(accounts: nat, callers: nat, events: seq<Event>)
    requires Overlaps(accounts, callers, events) && Awaiting(Init(accounts, callers), events)
    ensures exists i: nat :: i < callers && Event(i, ActionTimesOut) in events
  {
    ReachableInv(accounts, callers, events);
    var s := Run(Init(accounts, callers), events).value;
    hide Run, Awaiting;
    var i, j, k: nat :| 0 <= i < j < |s.callers| && UsesAccount(s.callers[i], k) && UsesAccount(s.callers[j], k);
    AwaitingTimesOut(accounts, callers, events, i);
    AwaitingTimesOut(accounts, callers, events, j);
    assert Held(s.callers[i]).Some? ==> Held(s.callers[i]) != Held(s.callers[j]);
    if s.callers[i].phase.unlocked {
      assert Event(i, ActionTimesOut) in events;
    } else {
      assert s.callers[j].phase.unlocked;
      assert Event(j, ActionTimesOut) in events;
    }
  }

  // ---------- and it is enough ----------

  lemma {:induction false} AwaitingAppend(s: State, events: seq<Event>, more: seq<Event>)
    requires Awaiting(s, events) && forall e :: e in more ==> !e.move.Unlock?
    ensures Awaiting(s, events + more)
  {
    hide Run;
    var all := events + more;
    if more == [] {
      assert all == events;
    } else {
      var n := |more| - 1;
      AwaitingAppend(s, events, more[..n]);
      assert all[..|all| - 1] == events + more[..n] && all[|all| - 1] == more[n];
    }
  }

  lemma AcquisitionAwaits(s: State, events: seq<Event>, i: nat)
    requires Awaiting(s, events)
    ensures Awaiting(s, events + Acquisition(i, 7))
  {
    hide Run, Awaiting;
    AwaitingAppend(s, events, Acquisition(i, 7));
  }

  lemma Nothing(s: State)
    ensures Run(s, []) == Some(s) && Awaiting(s, [])
  {
  }

  lemma UnlockAwaits(s: State, events: seq<Event>, e: Event, m: State)
    requires Awaiting(s, events) && Run(s, events) == Some(m)
    requires e.caller < |m.callers| && RaceSettled(m.callers[e.caller])
    ensures Awaiting(s, events + [e])
  {
    hide Run;
    var more := events + [e];
    assert more[..|more| - 1] == events && more[|more| - 1] == e;
  }

  lemma LateUnlock(s: State, events: seq<Event>, m: State) returns (more: seq<Event>)
    requires Awaiting(s, events) && Run(s, events) == Some(m)
    requires |m.callers| > 0 && |m.db| > 0 && m.callers[0] == ActingOn(0, false)
    ensures Awaiting(s, more)
    ensures var late := ActingOn(0, true).phase.action.Fire(Some(ActionTimeout));
      Run(s, more) == Some(State(m.db[0 := false],
        m.callers[0 := ActingOn(0, true).(phase := Acting(0, late, true, true))]))
  {
    hide Run;
    var late := events + [Event(0, ActionTimesOut)];
    var fired := ActingOn(0, false).phase.action.Fire(Some(ActionTimeout));
    var c := ActingOn(0, false).(phase := Acting(0, fired, true, false));
    OneMore(s, events, Event(0, ActionTimesOut));
    AwaitingAppend(s, events, [Event(0, ActionTimesOut)]);
    assert Run(s, late) == Some(State(m.db, m.callers[0 := c]));
    OneMore(s, late, Event(0, Unlock));
    more := late + [Event(0, Unlock)];
    UnlockAwaits(s, late, Event(0, Unlock), State(m.db, m.callers[0 := c]));
    var d := c.(phase := c.phase.(unlocked := true));
    assert m.callers[0 := c][0 := d] == m.callers[0 := d];
  }

  // The first action times out, and its account is written back while it is still running.
  lemma LateFirst(accounts: nat, callers: nat) returns (events: seq<Event>)
    requires accounts >= 1 && callers >= 2
    ensures var s := Init(accounts, callers);
      && Awaiting(s, events) && Run(s, events).Some?
      && var m := Run(s, events).value;
      && |m.db| == accounts && !m.db[0] && |m.callers| == callers
      && UsesAccount(m.callers[0], 0) && m.callers[1] == NEW_CALLER
  {
    hide Run, AfterMoves, Awaiting;
    var s := Init(accounts, callers);
    Nothing(s);
    var first := LocksFirst(s, [], 0, 7);
    AfterProceed(s, 0);
    AcquisitionAwaits(s, [], 0);
    events := LateUnlock(s, first, State(s.db[0 := true], s.callers[0 := ActingOn(0, false)]));
  }

  // The second caller then locks it and starts its own.
  lemma AwaitedOverlap(accounts: nat, callers: nat) returns (events: seq<Event>)
    requires accounts >= 1 && callers >= 2
    ensures Overlaps(accounts, callers, events) && Awaiting(Init(accounts, callers), events)
  {
    hide Run, Awaiting;
    var s := Init(accounts, callers);
    var unlocked := LateFirst(accounts, callers);
    events := LocksFirst(s, unlocked, 1, 7);
    AcquisitionAwaits(s, unlocked, 1);
    var end := Run(s, events).value;
    assert UsesAccount(end.callers[0], 0) && UsesAccount(end.callers[1], 0);
  }

  // Awaiting the race does not make the actions exclusive.
  lemma AwaitedOverlapIff(accounts: nat, callers: nat)
    ensures (exists events :: Overlaps(accounts, callers, events) && Awaiting(Init(accounts, callers), events))
      <==> accounts >= 1 && callers >= 2
  {
    if accounts >= 1 && callers >= 2 {
      var events := AwaitedOverlap(accounts, callers);
    }
    ActionsOverlapIff(accounts, callers);
  }
}
