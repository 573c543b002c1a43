/** What the callers of packages/faucet/src/database-helper.ts get done: a caller left alone takes the first free
    account, a caller only goes to sleep after trying them all, no caller is ever stuck, and the answer it gets is
    that of the event that settled its race. */
module AccountProgress {
  import opened Options
  import opened WithTimeout
  import opened AccountPool

  // ---------- a caller left alone ----------

  ghost predicate FirstFree(db: Database, k: Account) {
    k < |db| && !db[k] && forall j :: 0 <= j < k ==> db[j]
  }

  function Scans(i: nat, n: nat): (r: seq<Event>)
    ensures |r| == n
  {
    seq(n, _ => Event(i, Scan))
  }

  // One read, a look at each account up to the first free one, and its commit.
  function Taking(i: nat, k: Account): seq<Event> {
    [Event(i, Begin), Event(i, Read)] + Scans(i, k + 1) + [Event(i, Commit)]
  }

  function With(s: State, i: nat, c: Caller): State
    requires i < |s.callers|
  {
    State(s.db, s.callers[i := c])
  }

  lemma OneMoreOf(s: State, events: seq<Event>, m: State, i: nat, c: Caller, e: Move, c': Caller, db': Database)
    requires i < |m.callers| && Run(s, events) == Some(With(m, i, c)) && Advance(c, m.db, e) == Some((c', db'))
    ensures Run(s, events + [Event(i, e)]) == Some(State(db', m.callers[i := c']))
  {
    hide Run, Advance;
    OneMore(s, events, Event(i, e));
    assert m.callers[i := c][i := c'] == m.callers[i := c'];
  }

  // The first locked accounts are passed over one by one.
  lemma {:induction false} ScansPast(s: State, events: seq<Event>, m: State, i: nat, c: Caller, n: nat)
    requires i < |m.callers| && Run(s, events) == Some(With(m, i, c.(acquire := Scanning(m.db, 0))))
    requires n <= |m.db| && forall j :: 0 <= j < n ==> m.db[j]
    ensures Run(s, events + Scans(i, n)) == Some(With(m, i, c.(acquire := Scanning(m.db, n))))
  {
    hide Run;
    if n == 0 {
      assert events + Scans(i, 0) == events;
    } else {
      var before := c.(acquire := Scanning(m.db, n - 1));
      ScansPast(s, events, m, i, c, n - 1);
      OneMoreOf(s, events + Scans(i, n - 1), m, i, before, Scan, c.(acquire := Scanning(m.db, n)), m.db);
      assert events + Scans(i, n) == events + Scans(i, n - 1) + [Event(i, Scan)];
    }
  }

  lemma TakesFirstFree(s: State, events: seq<Event>, m: State, i: nat, k: Account)
    requires i < |m.callers| && Run(s, events) == Some(m)
    requires m.callers[i].acquire.Looping? && !m.callers[i].end && FirstFree(m.db, k)
    ensures Run(s, events + Taking(i, k))
         == Some(State(m.db[k := true], m.callers[i := m.callers[i].(acquire := Answered(m.db, k, true))]))
  {
    hide Run;
    var c := m.callers[i];
    assert With(m, i, c) == m;
    var one, two := events + [Event(i, Begin)], events + [Event(i, Begin)] + [Event(i, Read)];
    OneMoreOf(s, events, m, i, c, Begin, c.(acquire := Reading), m.db);
    OneMoreOf(s, one, m, i, c.(acquire := Reading), Read, c.(acquire := Scanning(m.db, 0)), m.db);
    ScansPast(s, two, m, i, c, k);
    var seen, found := two + Scans(i, k), two + Scans(i, k) + [Event(i, Scan)];
    OneMoreOf(s, seen, m, i, c.(acquire := Scanning(m.db, k)), Scan, c.(acquire := Transacting(m.db, k)), m.db);
    OneMoreOf(s, found, m, i, c.(acquire := Transacting(m.db, k)), Commit,
      c.(acquire := Answered(m.db, k, true)), m.db[k := true]);
    assert events + Taking(i, k) == found + [Event(i, Commit)];
  }

  // Whatever has happened before: a caller about to look for an account, moving alone, locks the first free one
  // and changes nothing else.
  lemma LeftAloneTakesFirstFree(accounts: nat, callers: nat, events: seq<Event>, i: nat, k: Account)
    requires Run(Init(accounts, callers), events).Some? && i < callers
    requires var s := Run(Init(accounts, callers), events).value;
      |s.callers| == callers && s.callers[i].acquire.Looping? && !s.callers[i].end && FirstFree(s.db, k)
    ensures Run(Init(accounts, callers), events + Taking(i, k)).Some?
    ensures var s := Run(Init(accounts, callers), events).value;
      var s' := Run(Init(accounts, callers), events + Taking(i, k)).value;
      && Held(s.callers[i]) == None && |s'.callers| == callers && Held(s'.callers[i]) == Some(k)
      && s'.db == s.db[k := true]
      && forall j :: 0 <= j < callers && j != i ==> s'.callers[j] == s.callers[j]
  {
    var s := Run(Init(accounts, callers), events).value;
    ReachableInv(accounts, callers, events);
    assert CallerOk(s.callers[i], |s.db|);
    TakesFirstFree(Init(accounts, callers), events, s, i, k);
  }

  // With every account locked it looks at each once and goes to sleep.
  lemma LeftAloneSleeps(s: State, events: seq<Event>, m: State, i: nat)
    requires i < |m.callers| && Run(s, events) == Some(m)
    requires m.callers[i].acquire.Looping? && !m.callers[i].end && forall j :: 0 <= j < |m.db| ==> m.db[j]
    ensures Run(s, events + [Event(i, Begin)] + [Event(i, Read)] + Scans(i, |m.db|) + [Event(i, Scan)])
         == Some(With(m, i, m.callers[i].(acquire := Sleeping)))
  {
    hide Run;
    var c := m.callers[i];
    assert With(m, i, c) == m;
    var one, two := events + [Event(i, Begin)], events + [Event(i, Begin)] + [Event(i, Read)];
    OneMoreOf(s, events, m, i, c, Begin, c.(acquire := Reading), m.db);
    OneMoreOf(s, one, m, i, c.(acquire := Reading), Read, c.(acquire := Scanning(m.db, 0)), m.db);
    ScansPast(s, two, m, i, c, |m.db|);
    OneMoreOf(s, two + Scans(i, |m.db|), m, i, c.(acquire := Scanning(m.db, |m.db|)), Scan,
      c.(acquire := Sleeping), m.db);
  }

  // With its timer still running it then starts its action with that account.
  lemma ThenActsWithIt(s: State, events: seq<Event>, m: State, i: nat, c: Caller, snapshot: Database, k: Account)
    requires i < |m.callers| && Run(s, events) == Some(With(m, i, c.(acquire := Answered(snapshot, k, true))))
    requires c.lock == Start() && c.phase.Waiting?
    ensures Run(s, events + [Event(i, Answer)] + [Event(i, LockSettles)] + [Event(i, Proceed)])
         == Some(With(m, i, c.(acquire := Returned(Some(k)), lock := c.lock.Deliver(Resolved(Some(k))),
              phase := Acting(k, Start(), true, false))))
  {
    hide Run;
    var returned := c.(acquire := Returned(Some(k)));
    var settled := returned.(lock := c.lock.Deliver(Resolved(Some(k))));
    var one := events + [Event(i, Answer)];
    OneMoreOf(s, events, m, i, c.(acquire := Answered(snapshot, k, true)), Answer, returned, m.db);
    OneMoreOf(s, one, m, i, returned, LockSettles, settled, m.db);
    OneMoreOf(s, one + [Event(i, LockSettles)], m, i, settled, Proceed,
      settled.(phase := Acting(k, Start(), true, false)), m.db);
  }

  // ---------- before a caller sleeps ----------

  // What a caller has seen since it last read the accounts: the flags, and whose transactions it saw aborted.
  datatype Round = Round(snapshot: Database, aborted: set<Account>)

  function RoundOf(s: State, events: seq<Event>, i: nat): Round {
    if events == [] then Round([], {})
    else
      var past, e := events[..|events| - 1], events[|events| - 1];
      var before, now := RoundOf(s, past, i), Run(s, past);
      if now.None? || i >= |now.value.callers| then before
      else if e == Event(i, Read) then Round(now.value.db, {})
      else if e == Event(i, Abort) && now.value.callers[i].acquire.Transacting? then
        before.(aborted := before.aborted + {now.value.callers[i].acquire.at})
      else before
  }

  predicate Tried(r: Round, n: nat) {
    n <= |r.snapshot| && forall j: nat :: j < n ==> r.snapshot[j] || j in r.aborted
  }

  // How far the caller is with its round.
  ghost predicate OnRound(c: Caller, r: Round, accounts: nat) {
    match c.acquire
    case Scanning(snapshot, at) => snapshot == r.snapshot && |snapshot| == accounts && Tried(r, at)
    case Transacting(snapshot, at) => snapshot == r.snapshot && at < |snapshot| == accounts && Tried(r, at)
    case Answered(snapshot, at, committed) =>
      snapshot == r.snapshot && at < |snapshot| == accounts && Tried(r, at) && (!committed ==> at in r.aborted)
    case Sleeping => |r.snapshot| == accounts && Tried(r, accounts)
    case _ => true
  }

  lemma MoveOnRound(c: Caller, db: Database, m: Move, r: Round)
    requires OnRound(c, r, |db|) && Advance(c, db, m).Some?
    ensures var next :=
        if m.Read? then Round(db, {})
        else if m.Abort? && c.acquire.Transacting? then r.(aborted := r.aborted + {c.acquire.at})
        else r;
      OnRound(Advance(c, db, m).value.0, next, |db|)
  {
  }

  lemma {:induction false} StaysOnRound(accounts: nat, callers: nat, events: seq<Event>, i: nat)
    requires Run(Init(accounts, callers), events).Some? && i < callers
    ensures |Run(Init(accounts, callers), events).value.callers| == callers
    ensures OnRound(Run(Init(accounts, callers), events).value.callers[i],
      RoundOf(Init(accounts, callers), events, i), accounts)
  {
    hide Advance, OnRound, Inv;
    var s := Init(accounts, callers);
    if events == [] {
      NewOnRound(accounts, callers, i);
    } else {
      var before, e := events[..|events| - 1], events[|events| - 1];
      StaysOnRound(accounts, callers, before, i);
      ReachableInv(accounts, callers, before);
      var middle := Run(s, before).value;
      if e.caller == i {
        MoveOnRound(middle.callers[i], middle.db, e.move, RoundOf(s, before, i));
      }
    }
  }

  lemma NewOnRound(accounts: nat, callers: nat, i: nat)
    requires i < callers
    ensures OnRound(Init(accounts, callers).callers[i], Round([], {}), accounts)
  {
  }

  // A caller that sleeps has, since it last read them, seen every account locked or its transaction aborted.
  lemma SleepsOnlyAfterAll(accounts: nat, callers: nat, events: seq<Event>, i: nat)
    requires Run(Init(accounts, callers), events).Some? && i < callers
    requires var s := Run(Init(accounts, callers), events).value; i < |s.callers| && s.callers[i].acquire.Sleeping?
    ensures var r := RoundOf(Init(accounts, callers), events, i);
      |r.snapshot| == accounts && forall k: nat :: k < accounts ==> r.snapshot[k] || k in r.aborted
  {
    StaysOnRound(accounts, callers, events, i);
  }

  // ---------- a round ends ----------

  // How many moves the caller's round can still take.
  function MovesLeft(c: Caller): int {
    match c.acquire
    case Scanning(snapshot, at) => 3 * (|snapshot| - at) + 1
    case Transacting(snapshot, at) => 3 * (|snapshot| - at)
    case Answered(snapshot, at, committed) => 3 * (|snapshot| - at) - 1
    case _ => 0
  }

  predicate InRound(c: Caller) {
    c.acquire.Scanning? || c.acquire.Transacting? || c.acquire.Answered?
  }

  // Each move of a round leaves fewer to come, so tryLockAccount ends after three per account and one.
  lemma RoundEnds(c: Caller, db: Database, m: Move, r: Round)
    requires OnRound(c, r, |db|) && InRound(c) && Advance(c, db, m).Some?
    ensures 0 < MovesLeft(c) <= 3 * |db| + 1
    ensures var c' := Advance(c, db, m).value.0;
      if m.Scan? || m.Commit? || m.Abort? || m.TransactFails? || m.CommitLost? || m.Answer?
      then MovesLeft(c') < MovesLeft(c)
      else c'.acquire == c.acquire
  {
  }

  // ---------- after a timeout ----------

  predicate NoMoreRounds(c: Caller) {
    c.end && (c.acquire.Sleeping? || c.acquire.Looping? || c.acquire == Returned(None))
  }

  lemma MoveNoMoreRounds(c: Caller, db: Database, m: Move)
    requires CallerOk(c, |db|) && NoMoreRounds(c) && Advance(c, db, m).Some?
    ensures NoMoreRounds(Advance(c, db, m).value.0) && !m.Read? && !m.Commit? && !m.CommitLost?
  {
  }

  // A caller that is between two rounds when its timer has fired starts no other, in any continuation.
  lemma {:induction false} NoRoundAfterTimeout(s: State, i: nat, events: seq<Event>)
    requires Inv(s) && i < |s.callers| && NoMoreRounds(s.callers[i]) && Run(s, events).Some?
    ensures |Run(s, events).value.callers| == |s.callers| && NoMoreRounds(Run(s, events).value.callers[i])
    ensures forall e :: e in events && e.caller == i ==> !e.move.Read? && !e.move.Commit? && !e.move.CommitLost?
  {
    hide Advance, CallerOk, NoMoreRounds, Exclusive;
    if events == [] {
    } else {
      var before, e := events[..|events| - 1], events[|events| - 1];
      NoRoundAfterTimeout(s, i, before);
      RunKeepsInv(s, before);
      var middle := Run(s, before).value;
      assert CallerOk(middle.callers[i], |middle.db|);
      if e.caller == i {
        MoveNoMoreRounds(middle.callers[i], middle.db, e.move);
      }
      assert events == before + [e];
    }
  }

  // ---------- no caller is stuck ----------

  predicate Done(c: Caller) {
    && (c.acquire.Returned? || c.acquire.Threw?) && c.lock.delivered
    && (c.phase.NoAccount? || c.phase.Failed? || (c.phase.Acting? && c.phase.unlocked && !c.phase.running))
  }

  // What the caller does next of its own accord, whatever its timers do.
  function NextMove(c: Caller, ok: bool): Move {
    match c.acquire
    case Looping => Begin
    case Reading => Read
    case Scanning(_, _) => Scan
    case Transacting(_, _) => Abort
    case Answered(_, _, _) => Answer
    case Sleeping => Wake
    case _ =>
      if !c.lock.delivered then LockSettles
      else if c.phase.Waiting? then Proceed
      else if c.phase.Acting? && !c.phase.unlocked then Unlock
      else ActionEnds(ok)
  }

  lemma HasNextMove(c: Caller, db: Database, ok: bool)
    requires CallerOk(c, |db|)
    ensures !Done(c) ==> Advance(c, db, NextMove(c, ok)).Some?
  {
  }

  lemma NeverStuck(accounts: nat, callers: nat, events: seq<Event>, i: nat, ok: bool)
    requires Run(Init(accounts, callers), events).Some? && i < callers
    ensures var s := Run(Init(accounts, callers), events).value;
      && |s.callers| == callers
      && (!Done(s.callers[i]) ==> Advance(s.callers[i], s.db, NextMove(s.callers[i], ok)).Some?)
  {
    hide Run, Advance, CallerOk, Done, Exclusive;
    ReachableInv(accounts, callers, events);
    var s := Run(Init(accounts, callers), events).value;
    assert CallerOk(s.callers[i], |s.db|);
    HasNextMove(s.callers[i], s.db, ok);
  }

  // ---------- the answer ----------

  // The first event that can settle the race of a caller's action.
  function FirstAnswer(events: seq<Event>, i: nat): Option<Move> {
    if events == [] then None
    else
      var before, e := FirstAnswer(events[..|events| - 1], i), events[|events| - 1];
      if before.Some? then before
      else if e.caller == i && (e.move.ActionEnds? || e.move.ActionTimesOut?) then Some(e.move)
      else None
  }

  // An action that succeeds in time answers Ok, one that fails in time rejects, one that is late ActionTimeout.
  function AnswerOf(first: Option<Move>): Promise<ActionResult> {
    if first.None? then Pending
    else match first.value
      case ActionEnds(ok) => if ok then Resolved(ActionResult.Ok) else Rejected
      case _ => Resolved(ActionTimeout)
  }

  // The promise of doWithAccount itself: after `finally` it is that of the action's race.
  function ResultOf(c: Caller): Promise<ActionResult> {
    match c.phase
    case Waiting => Pending
    case NoAccount => Resolved(NoFreeAccount)
    case Failed => Rejected
    case Acting(_, action, _, unlocked) => if unlocked then action.promise else Pending
  }

  ghost predicate RaceAnswered(c: Caller, first: Option<Move>) {
    && (!c.phase.Acting? ==> first.None?)
    && (c.phase.Acting? ==> c.phase.action.promise == AnswerOf(first))
  }

  lemma MoveAnswered(c: Caller, db: Database, m: Move, first: Option<Move>)
    requires CallerOk(c, |db|) && RaceAnswered(c, first) && Advance(c, db, m).Some?
    ensures RaceAnswered(Advance(c, db, m).value.0,
      if first.Some? then first else if m.ActionEnds? || m.ActionTimesOut? then Some(m) else None)
  {
  }

  lemma {:induction false} RunAnswered(accounts: nat, callers: nat, events: seq<Event>, i: nat)
    requires Run(Init(accounts, callers), events).Some? && i < callers
    ensures |Run(Init(accounts, callers), events).value.callers| == callers
    ensures RaceAnswered(Run(Init(accounts, callers), events).value.callers[i], FirstAnswer(events, i))
  {
    hide Advance, CallerOk, RaceAnswered, Exclusive;
    if events == [] {
      NewAnswered(accounts, callers, i);
    } else {
      var before, e := events[..|events| - 1], events[|events| - 1];
      RunAnswered(accounts, callers, before, i);
      ReachableInv(accounts, callers, before);
      var middle := Run(Init(accounts, callers), before).value;
      assert CallerOk(middle.callers[i], |middle.db|);
      if e.caller == i {
        MoveAnswered(middle.callers[i], middle.db, e.move, FirstAnswer(before, i));
      }
    }
  }

  lemma NewAnswered(accounts: nat, callers: nat, i: nat)
    requires i < callers
    ensures RaceAnswered(Init(accounts, callers).callers[i], None)
  {
  }

  // A caller that acts gets, once its unlock write has landed, the answer of the first event that can settle its
  // race; one that does not act gets NoFreeAccount, an error, or nothing yet.
  lemma ResultIsFirstAnswer(accounts: nat, callers: nat, events: seq<Event>, i: nat)
    requires Run(Init(accounts, callers), events).Some? && i < callers
    ensures var s := Run(Init(accounts, callers), events).value;
      && |s.callers| == callers
      && var c := s.callers[i];
      && ResultOf(c) == (
           if c.phase.Acting? then (if c.phase.unlocked then AnswerOf(FirstAnswer(events, i)) else Pending)
           else if c.phase.NoAccount? then Resolved(NoFreeAccount)
           else if c.phase.Failed? then Rejected
           else Pending)
      && (c.phase.NoAccount? <==> c.lock.promise == Resolved(None) && !c.phase.Waiting?)
      && (c.phase.Failed? <==> c.lock.promise.Rejected? && !c.phase.Waiting?)
  {
    RunAnswered(accounts, callers, events, i);
    ReachableInv(accounts, callers, events);
    assert CallerOk(Run(Init(accounts, callers), events).value.callers[i], accounts);
    hide Run;
  }
}
