/** How the callers of packages/faucet/src/database-helper.ts end: each can always finish by itself in a bounded
    number of moves, its timeout and its errors decide how, and every retry is another look at the accounts. */
module AccountEnds {
  import opened Options
  import opened WithTimeout
  import opened AccountPool
  import opened AccountProgress

  // ---------- finishing ----------

  function AcquireRank(a: Acquire): int {
    match a
    case Reading => 5
    case Scanning(snapshot, at) => 3 * (|snapshot| - at) + 4
    case Transacting(snapshot, at) => 3 * (|snapshot| - at) + 3
    case Answered(snapshot, at, committed) => 3 * (|snapshot| - at) + 2
    case Sleeping => 2
    case Looping => 1
    case _ => 0
  }

  // How many moves the caller needs to finish.
  function Rank(c: Caller, accounts: nat): int {
    var onItsWay := if c.acquire.Reading? then 3 * accounts else 0;
    var undelivered := if c.lock.delivered then 0 else 1;
    var untimed := if c.end then 0 else 1;
    var phase :=
      match c.phase
      case Waiting => 3
      case Acting(_, _, running, unlocked) => (if running then 1 else 0) + (if unlocked then 0 else 1)
      case _ => 0;
    AcquireRank(c.acquire) + onItsWay + undelivered + untimed + phase
  }

  // A caller that has no account yet lets its timer fire and then goes on.
  function LastMove(c: Caller, ok: bool): Move {
    if !c.end && !c.acquire.Returned? && !c.acquire.Threw? then LockTimeout else NextMove(c, ok)
  }

  lemma RankIsNatural(c: Caller, accounts: nat, r: Round)
    requires OnRound(c, r, accounts)
    ensures 0 <= Rank(c, accounts) <= 3 * accounts + 10
  {
  }

  lemma LastMoveHelps(c: Caller, db: Database, r: Round, ok: bool)
    requires CallerOk(c, |db|) && OnRound(c, r, |db|) && !Done(c)
    ensures var moved := Advance(c, db, LastMove(c, ok));
      moved.Some? && Rank(moved.value.0, |db|) < Rank(c, |db|)
  {
  }

  // From every reachable state each caller can finish by its own moves, whatever the others do not do.
  lemma CanFinish(accounts: nat, callers: nat, events: seq<Event>, i: nat, ok: bool)
    returns (more: seq<Event>)
    requires Run(Init(accounts, callers), events).Some? && i < callers
    ensures |more| <= 3 * accounts + 10 && forall e :: e in more ==> e.caller == i
    ensures Run(Init(accounts, callers), events + more).Some?
    ensures var s, s' := Run(Init(accounts, callers), events).value, Run(Init(accounts, callers), events + more).value;
      && |s.callers| == |s'.callers| == callers && Done(s'.callers[i])
      && forall j :: 0 <= j < callers && j != i ==> s'.callers[j] == s.callers[j]
  {
    hide Run, Rank, Done, OnRound, RoundOf;
    StaysOnRound(accounts, callers, events, i);
    ReachableInv(accounts, callers, events);
    var s := Run(Init(accounts, callers), events).value;
    RankIsNatural(s.callers[i], accounts, RoundOf(Init(accounts, callers), events, i));
    more := Finish(accounts, callers, events, i, ok);
  }

  lemma {:induction false} Finish(accounts: nat, callers: nat, events: seq<Event>, i: nat, ok: bool)
    returns (more: seq<Event>)
    requires Run(Init(accounts, callers), events).Some? && i < callers
    requires |Run(Init(accounts, callers), events).value.callers| == callers
    ensures |more| <= Rank(Run(Init(accounts, callers), events).value.callers[i], accounts)
    ensures forall e :: e in more ==> e.caller == i
    ensures Run(Init(accounts, callers), events + more).Some?
    ensures var s, s' := Run(Init(accounts, callers), events).value, Run(Init(accounts, callers), events + more).value;
      && |s.callers| == |s'.callers| == callers && Done(s'.callers[i])
      && forall j :: 0 <= j < callers && j != i ==> s'.callers[j] == s.callers[j]
    decreases Rank(Run(Init(accounts, callers), events).value.callers[i], accounts)
  {
    hide Run, Rank, Done, OnRound, RoundOf, Advance, LastMove, CallerOk, Exclusive;
    var init := Init(accounts, callers);
    StaysOnRound(accounts, callers, events, i);
    ReachableInv(accounts, callers, events);
    var s, r := Run(init, events).value, RoundOf(init, events, i);
    var c := s.callers[i];
    assert CallerOk(c, |s.db|);
    RankIsNatural(c, accounts, r);
    if Done(c) {
      assert events + [] == events;
      return [];
    }
    var e := Event(i, LastMove(c, ok));
    LastMoveHelps(c, s.db, r, ok);
    OneMore(init, events, e);
    more := Finish(accounts, callers, events + [e], i, ok);
    assert events + [e] + more == events + ([e] + more);
    more := [e] + more;
  }

  // ---------- what decides the end ----------

  predicate Erred(events: seq<Event>, i: nat) {
    Event(i, ReadFails) in events || Event(i, TransactFails) in events || Event(i, CommitLost) in events
  }

  predicate HasTimedOut(events: seq<Event>, i: nat) {
    Event(i, LockTimeout) in events
  }

  ghost predicate EventsTell(c: Caller, erred: bool, timedOut: bool) {
    (c.acquire.Threw? <==> erred) && (c.end <==> timedOut)
  }

  lemma MoveTells(c: Caller, db: Database, m: Move, erred: bool, timedOut: bool)
    requires CallerOk(c, |db|) && EventsTell(c, erred, timedOut) && Advance(c, db, m).Some?
    ensures EventsTell(Advance(c, db, m).value.0,
      erred || m.ReadFails? || m.TransactFails? || m.CommitLost?, timedOut || m.LockTimeout?)
  {
  }

  lemma {:induction false} RunTells(accounts: nat, callers: nat, events: seq<Event>, i: nat)
    requires Run(Init(accounts, callers), events).Some? && i < callers
    ensures |Run(Init(accounts, callers), events).value.callers| == callers
    ensures EventsTell(Run(Init(accounts, callers), events).value.callers[i],
      Erred(events, i), HasTimedOut(events, i))
  {
    hide Advance, CallerOk, EventsTell, Exclusive;
    if events == [] {
      NewTells(accounts, callers, i);
    } else {
      var before, e := events[..|events| - 1], events[|events| - 1];
      RunTells(accounts, callers, before, i);
      ReachableInv(accounts, callers, before);
      var middle := Run(Init(accounts, callers), before).value;
      assert CallerOk(middle.callers[i], |middle.db|);
      assert events == before + [e];
      if e.caller == i {
        MoveTells(middle.callers[i], middle.db, e.move, Erred(before, i), HasTimedOut(before, i));
      }
    }
  }

  lemma NewTells(accounts: nat, callers: nat, i: nat)
    requires i < callers
    ensures EventsTell(Init(accounts, callers).callers[i], false, false)
  {
  }

  lemma DoneTells(c: Caller, accounts: nat)
    requires CallerOk(c, accounts) && Done(c)
    ensures c.phase.NoAccount? <==> c.end
    ensures c.phase.Failed? <==> c.acquire.Threw? && !c.end
    ensures c.phase.Acting? <==> c.acquire.Returned? && !c.end
    ensures c.phase.Acting? ==> !c.phase.action.promise.Pending?
  {
  }

  // Whoever is done answers NoFreeAccount exactly when its acquisition timed out, fails exactly when an error came
  // and no timeout, and otherwise answers what first settled the race of its action.
  lemma AnswerByEvents(accounts: nat, callers: nat, events: seq<Event>, i: nat)
    requires Run(Init(accounts, callers), events).Some? && i < callers
    requires var s := Run(Init(accounts, callers), events).value; i < |s.callers| && Done(s.callers[i])
    ensures ResultOf(Run(Init(accounts, callers), events).value.callers[i]) == (
      if HasTimedOut(events, i) then Resolved(NoFreeAccount)
      else if Erred(events, i) then Rejected
      else AnswerOf(FirstAnswer(events, i)))
    ensures !ResultOf(Run(Init(accounts, callers), events).value.callers[i]).Pending?
  {
    hide Run, CallerOk, Exclusive, Erred, HasTimedOut, FirstAnswer, AnswerOf;
    RunTells(accounts, callers, events, i);
    RunAnswered(accounts, callers, events, i);
    ReachableInv(accounts, callers, events);
    var c := Run(Init(accounts, callers), events).value.callers[i];
    assert CallerOk(c, accounts);
    DoneTells(c, accounts);
  }

  // ---------- errors ----------

  // After an error that comes in time the caller fails with it.
  lemma ThrewRejects(s: State, events: seq<Event>, db: Database, m: State, i: nat, c: Caller)
    requires i < |m.callers| && Run(s, events) == Some(State(db, m.callers[i := c]))
    requires c.acquire.Threw? && c.lock == Start() && c.phase.Waiting?
    ensures Run(s, events + [Event(i, LockSettles)] + [Event(i, Proceed)])
         == Some(State(db, m.callers[i := c.(lock := c.lock.Deliver(Rejected), phase := Failed)]))
  {
    hide Run;
    var settled, after := c.(lock := c.lock.Deliver(Rejected)), State(db, m.callers);
    OneMoreOf(s, events, after, i, c, LockSettles, settled, db);
    OneMoreOf(s, events + [Event(i, LockSettles)], after, i, settled, Proceed, settled.(phase := Failed), db);
  }

  // A read or a transaction that fails changes no flag; a commit whose answer is lost leaves its account locked.
  lemma ErrorsReject(s: State, events: seq<Event>, m: State, i: nat, error: Move)
    requires i < |m.callers| && Run(s, events) == Some(m)
    requires m.callers[i].lock == Start() && m.callers[i].phase.Waiting?
    requires match error
      case ReadFails => m.callers[i].acquire.Reading?
      case TransactFails => m.callers[i].acquire.Transacting?
      case CommitLost =>
        m.callers[i].acquire.Transacting? && m.callers[i].acquire.at < |m.db| && !m.db[m.callers[i].acquire.at]
      case _ => false
    ensures var end := Run(s, events + [Event(i, error)] + [Event(i, LockSettles)] + [Event(i, Proceed)]);
      && end.Some? && |end.value.callers| == |m.callers| && end.value.callers[i].phase == Failed
      && (error.CommitLost? ==>
           end.value.db == m.db[m.callers[i].acquire.at := true]
           && Held(end.value.callers[i]) == Some(m.callers[i].acquire.at))
      && (!error.CommitLost? ==> end.value.db == m.db && Held(end.value.callers[i]) == None)
  {
    hide Run;
    var c := m.callers[i];
    assert With(m, i, c) == m;
    var lost := if error.CommitLost? then Some(c.acquire.at) else None;
    var db := if error.CommitLost? then m.db[c.acquire.at := true] else m.db;
    OneMoreOf(s, events, m, i, c, error, c.(acquire := Threw(lost)), db);
    ThrewRejects(s, events + [Event(i, error)], db, m, i, c.(acquire := Threw(lost)));
  }

  // ---------- retries ----------

  function Looks(events: seq<Event>, i: nat): nat {
    if events == [] then 0
    else Looks(events[..|events| - 1], i) + if events[|events| - 1] == Event(i, Read) then 1 else 0
  }

  ghost predicate Retried(c: Caller, looks: nat) {
    match c.acquire
    case Threw(_) => c.retries <= looks <= c.retries + 1
    case Looping => looks == c.retries
    case Reading => looks == c.retries
    case Returned(account) => looks == c.retries + if account.Some? then 1 else 0
    case _ => looks == c.retries + 1
  }

  lemma MoveRetried(c: Caller, db: Database, m: Move, looks: nat)
    requires Retried(c, looks) && Advance(c, db, m).Some?
    ensures Retried(Advance(c, db, m).value.0, looks + if m.Read? then 1 else 0)
  {
  }

  // Each retry follows one more read of the accounts: a caller that got one has read them retries + 1 times.
  lemma {:induction false} RetriesCountReads(accounts: nat, callers: nat, events: seq<Event>, i: nat)
    requires Run(Init(accounts, callers), events).Some? && i < callers
    ensures |Run(Init(accounts, callers), events).value.callers| == callers
    ensures Retried(Run(Init(accounts, callers), events).value.callers[i], Looks(events, i))
  {
    hide Advance, Retried, Inv;
    if events == [] {
      NewRetried(accounts, callers, i);
    } else {
      var before, e := events[..|events| - 1], events[|events| - 1];
      RetriesCountReads(accounts, callers, before, i);
      ReachableInv(accounts, callers, before);
      var middle := Run(Init(accounts, callers), before).value;
      if e.caller == i {
        MoveRetried(middle.callers[i], middle.db, e.move, Looks(before, i));
      }
    }
  }

  lemma NewRetried(accounts: nat, callers: nat, i: nat)
    requires i < callers
    ensures Retried(Init(accounts, callers).callers[i], 0)
  {
  }
}
