/** The account lock protocol of packages/faucet/src/database-helper.ts. Callers of `doWithAccount` share
    one `locked` flag per account; each move is one atomic piece of a caller, in any interleaving. */
module AccountPool {
  import opened Options
  import opened WithTimeout

  // The accounts, in database order, are 0 .. n - 1; `true` is locked.
  type Database = seq<bool>
  type Account = nat

  datatype ActionResult = Ok | NoFreeAccount | ActionTimeout

  // Where the acquisition loop of tryLockAccountWithRetries stands.
  datatype Acquire =
    | Looping                                                       // about to test `end`
    | Reading                                                       // awaiting once('value')
    | Scanning(snapshot: Database, at: Account)                     // about to look at account `at`
    | Transacting(snapshot: Database, at: Account)                  // transaction sent to the server
    | Answered(snapshot: Database, at: Account, committed: bool)    // its result is on the way back
    | Sleeping
    | Returned(account: Option<Account>)
    | Threw(lost: Option<Account>)                                  // the account of a commit whose answer was an error

  // Where doWithAccount itself stands. The action and the unlock write are started together: `return`
  // evaluates withTimeout without awaiting it, then `finally` sends the write.
  datatype Phase =
    | Waiting
    | NoAccount
    | Failed
    | Acting(account: Account, action: Race<ActionResult>, running: bool, unlocked: bool)

  datatype Caller = Caller(acquire: Acquire, end: bool, retries: nat, lock: Race<Option<Account>>, phase: Phase)

  datatype State = State(db: Database, callers: seq<Caller>)

  datatype Move =
    | Begin | Read | ReadFails | Scan | Commit | Abort | TransactFails | CommitLost | Answer | Wake
    | LockTimeout | LockSettles | Proceed | Unlock | ActionEnds(ok: bool) | ActionTimesOut

  datatype Event = Event(caller: nat, move: Move)

  const NEW_CALLER := Caller(Looping, false, 0, Start(), Waiting)

  function Init(accounts: nat, callers: nat): State {
    State(seq(accounts, _ => false), seq(callers, _ => NEW_CALLER))
  }

  // One move of one caller; None when it is not its turn.
  function Advance(c: Caller, db: Database, m: Move): Option<(Caller, Database)> {
    match m
    case Begin =>
      if c.acquire.Looping? then Some((c.(acquire := if c.end then Returned(None) else Reading), db)) else None
    case Read =>
      if c.acquire.Reading? then Some((c.(acquire := Scanning(db, 0)), db)) else None
    case ReadFails =>
      if c.acquire.Reading? then Some((c.(acquire := Threw(None)), db)) else None
    case Scan =>
      if !c.acquire.Scanning? then None
      else
        var snapshot, at := c.acquire.snapshot, c.acquire.at;
        if at >= |snapshot| then Some((c.(acquire := Sleeping), db))
        else if snapshot[at] then Some((c.(acquire := Scanning(snapshot, at + 1)), db))
        else Some((c.(acquire := Transacting(snapshot, at)), db))
    case Commit =>
      // The server accepts the update only against its current value, and that value must be unlocked.
      if !c.acquire.Transacting? then None
      else
        var at := c.acquire.at;
        if at >= |db| || db[at] then None
        else Some((c.(acquire := Answered(c.acquire.snapshot, at, true)), db[at := true]))
    case Abort =>
      // The update function saw a locked value, the server's or the client's stale one.
      if !c.acquire.Transacting? then None
      else Some((c.(acquire := Answered(c.acquire.snapshot, c.acquire.at, false)), db))
    case TransactFails =>
      if c.acquire.Transacting? then Some((c.(acquire := Threw(None)), db)) else None
    case CommitLost =>
      // The server accepts the update, but the caller gets an error instead of its answer.
      if !c.acquire.Transacting? then None
      else
        var at := c.acquire.at;
        if at >= |db| || db[at] then None else Some((c.(acquire := Threw(Some(at))), db[at := true]))
    case Answer =>
      if !c.acquire.Answered? then None
      else if c.acquire.committed then Some((c.(acquire := Returned(Some(c.acquire.at))), db))
      else Some((c.(acquire := Scanning(c.acquire.snapshot, c.acquire.at + 1)), db))
    case Wake =>
      if c.acquire.Sleeping? then Some((c.(acquire := Looping, retries := c.retries + 1), db)) else None
    case LockTimeout =>
      if c.lock.timer.Armed? then Some((c.(lock := c.lock.Fire(Some(None)), end := true), db)) else None
    case LockSettles =>
      if c.lock.delivered then None
      else if c.acquire.Returned? then Some((c.(lock := c.lock.Deliver(Resolved(c.acquire.account))), db))
      else if c.acquire.Threw? then Some((c.(lock := c.lock.Deliver(Rejected)), db))
      else None
    case Proceed =>
      if !c.phase.Waiting? || c.lock.promise.Pending? then None
      else if c.lock.promise.Rejected? then Some((c.(phase := Failed), db))
      else if c.lock.promise.value.None? then Some((c.(phase := NoAccount), db))
      else Some((c.(phase := Acting(c.lock.promise.value.value, Start(), true, false)), db))
    case Unlock =>
      if !c.phase.Acting? || c.phase.unlocked || c.phase.account >= |db| then None
      else Some((c.(phase := c.phase.(unlocked := true)), db[c.phase.account := false]))
    case ActionEnds(ok) =>
      if !c.phase.Acting? || !c.phase.running then None
      else
        var outcome := if ok then Resolved(ActionResult.Ok) else Rejected;
        Some((c.(phase := c.phase.(running := false, action := c.phase.action.Deliver(outcome))), db))
    case ActionTimesOut =>
      if !c.phase.Acting? || !c.phase.action.timer.Armed? then None
      else Some((c.(phase := c.phase.(action := c.phase.action.Fire(Some(ActionTimeout)))), db))
  }

  function Step(s: State, e: Event): Option<State> {
    if e.caller >= |s.callers| then None
    else
      var moved := Advance(s.callers[e.caller], s.db, e.move);
      if moved.None? then None else Some(State(moved.value.1, s.callers[e.caller := moved.value.0]))
  }

  function Run(s: State, events: seq<Event>): Option<State> {
    if events == [] then Some(s)
    else
      var before := Run(s, events[..|events| - 1]);
      if before.None? then None else Step(before.value, events[|events| - 1])
  }

  // The account whose lock this caller committed and has not yet written back to false, whether or not
  // anyone still waits for it.
  function Held(c: Caller): Option<Account> {
    if c.phase.Acting? then (if c.phase.unlocked then None else Some(c.phase.account))
    else if c.acquire.Answered? && c.acquire.committed then Some(c.acquire.at)
    else if c.acquire.Returned? then c.acquire.account
    else if c.acquire.Threw? then c.acquire.lost
    else None
  }

  function Holders(s: State, k: Account): set<nat> {
    set i | 0 <= i < |s.callers| && Held(s.callers[i]) == Some(k)
  }

  // ---------- invariants ----------

  // How a caller's acquisition and its first race go together.
  ghost predicate AcquireOk(c: Caller, accounts: nat) {
    && c.lock.Valid()
    && (c.lock.timer.Fired? ==> c.lock.promise == Resolved(None))
    && (c.lock.timer.Cleared? && c.acquire.Returned? ==> c.lock.promise == Resolved(c.acquire.account))
    && (c.lock.timer.Cleared? && c.acquire.Threw? ==> c.lock.promise.Rejected?)
    && (c.lock.delivered ==> c.acquire.Returned? || c.acquire.Threw?)
    && (c.end <==> c.lock.timer.Fired?)
    && (c.acquire == Returned(None) ==> c.end)
    && (c.acquire.Scanning? || c.acquire.Transacting? || c.acquire.Answered? ==> |c.acquire.snapshot| == accounts)
    && (c.acquire.Transacting? ==> c.acquire.at < accounts)
  }

  // How the rest of doWithAccount goes with them.
  ghost predicate PhaseOk(c: Caller, accounts: nat) {
    && (Held(c).Some? ==> Held(c).value < accounts)
    && (c.phase.NoAccount? ==> c.lock.promise == Resolved(None))
    && (c.phase.Failed? ==> c.lock.promise.Rejected?)
    && (c.phase.Acting? ==>
      && c.lock.promise == Resolved(Some(c.phase.account)) && c.acquire == Returned(Some(c.phase.account))
      && c.phase.account < accounts
      && c.phase.action.Valid() && (c.phase.running <==> !c.phase.action.delivered))
  }

  ghost predicate CallerOk(c: Caller, accounts: nat) {
    AcquireOk(c, accounts) && PhaseOk(c, accounts)
  }

  // A flag is up exactly when somebody holds its lock, and nobody shares.
  ghost predicate Exclusive(s: State) {
    && (forall i, j :: 0 <= i < j < |s.callers| && Held(s.callers[i]).Some? ==>
      Held(s.callers[i]) != Held(s.callers[j]))
    && (forall i :: 0 <= i < |s.callers| && Held(s.callers[i]).Some? ==>
      Held(s.callers[i]).value < |s.db| && s.db[Held(s.callers[i]).value])
    && (forall k :: 0 <= k < |s.db| && s.db[k] ==> exists i :: 0 <= i < |s.callers| && Held(s.callers[i]) == Some(k))
  }

  ghost predicate Inv(s: State) {
    && (forall i :: 0 <= i < |s.callers| ==> CallerOk(s.callers[i], |s.db|))
    && Exclusive(s)
  }

  // The mover's lock changes hands only with the flag.
  ghost predicate LockMoves(before: Option<Account>, after: Option<Account>, db: Database, db': Database) {
    || (after == before && db' == db)
    || (before.None? && after.Some? && after.value < |db| && !db[after.value] && db' == db[after.value := true])
    || (before.Some? && after.None? && before.value < |db| && db' == db[before.value := false])
  }

  // What one move does to the flags and to the mover's lock: nothing, take a free one, or give its own back.
  lemma MoveHeld(c: Caller, db: Database, m: Move)
    requires CallerOk(c, |db|) && Advance(c, db, m).Some?
    ensures var (c', db') := Advance(c, db, m).value; LockMoves(Held(c), Held(c'), db, db')
  {
  }

  lemma MoveAcquireOk(c: Caller, db: Database, m: Move)
    requires AcquireOk(c, |db|) && Advance(c, db, m).Some?
    ensures AcquireOk(Advance(c, db, m).value.0, |db|)
  {
  }

  lemma MovePhaseOk(c: Caller, db: Database, m: Move)
    requires CallerOk(c, |db|) && Advance(c, db, m).Some?
    ensures PhaseOk(Advance(c, db, m).value.0, |db|)
  {
  }

  lemma MoveOk(c: Caller, db: Database, m: Move)
    requires CallerOk(c, |db|) && Advance(c, db, m).Some?
    ensures CallerOk(Advance(c, db, m).value.0, |db|)
  {
    hide Advance, AcquireOk, PhaseOk;
    MoveAcquireOk(c, db, m);
    MovePhaseOk(c, db, m);
  }

  lemma LockMovesKeepExclusive(s: State, i: nat, c: Caller, db: Database)
    requires Exclusive(s) && i < |s.callers| && LockMoves(Held(s.callers[i]), Held(c), s.db, db)
    ensures Exclusive(State(db, s.callers[i := c]))
  {
    hide Held;
    var s' := State(db, s.callers[i := c]);
    forall k | 0 <= k < |s'.db| && s'.db[k]
      ensures exists j :: 0 <= j < |s'.callers| && Held(s'.callers[j]) == Some(k)
    {
      if Held(c) == Some(k) {
        assert s'.callers[i] == c;
      } else {
        var j :| 0 <= j < |s.callers| && Held(s.callers[j]) == Some(k);
        assert j != i && s'.callers[j] == s.callers[j];
      }
    }
  }

  lemma StepKeepsInv(s: State, e: Event)
    requires Inv(s) && Step(s, e).Some?
    ensures Inv(Step(s, e).value)
    ensures |Step(s, e).value.db| == |s.db| && |Step(s, e).value.callers| == |s.callers|
  {
    hide Advance, Held, CallerOk, Exclusive;
    var c := s.callers[e.caller];
    MoveHeld(c, s.db, e.move);
    MoveOk(c, s.db, e.move);
    var (c', db') := Advance(c, s.db, e.move).value;
    LockMovesKeepExclusive(s, e.caller, c', db');
  }

  lemma {:induction false} RunKeepsInv(s: State, events: seq<Event>)
    requires Inv(s) && Run(s, events).Some?
    ensures Inv(Run(s, events).value)
    ensures |Run(s, events).value.db| == |s.db| && |Run(s, events).value.callers| == |s.callers|
  {
    hide Inv, Step;
    if events == [] {
    } else {
      var before := events[..|events| - 1];
      RunKeepsInv(s, before);
      StepKeepsInv(Run(s, before).value, events[|events| - 1]);
    }
  }

  lemma InitInv(accounts: nat, callers: nat)
    ensures Inv(Init(accounts, callers))
  {
  }

  lemma ReachableInv(accounts: nat, callers: nat, events: seq<Event>)
    requires Run(Init(accounts, callers), events).Some?
    ensures var s := Run(Init(accounts, callers), events).value;
      Inv(s) && |s.db| == accounts && |s.callers| == callers
  {
    InitInv(accounts, callers);
    RunKeepsInv(Init(accounts, callers), events);
  }

  // ---------- the main results ----------

  // In every run, an account has one holder exactly when its flag is up, and none otherwise.
  lemma LocksAreExclusive(accounts: nat, callers: nat, events: seq<Event>, k: Account)
    requires Run(Init(accounts, callers), events).Some? && k < accounts
    ensures var s := Run(Init(accounts, callers), events).value;
      |s.db| == accounts && |Holders(s, k)| == if s.db[k] then 1 else 0
  {
    hide Run, Held, CallerOk;
    ReachableInv(accounts, callers, events);
    var s := Run(Init(accounts, callers), events).value;
    if s.db[k] {
      var i :| 0 <= i < |s.callers| && Held(s.callers[i]) == Some(k);
      assert Holders(s, k) == {i};
    } else {
      assert Holders(s, k) == {};
    }
  }

  // An acquisition that has timed out, or thrown, still holds a lock it can no longer hand to anyone.
  predicate Abandoned(c: Caller) {
    (c.lock.timer.Fired? || c.acquire.Threw?) && Held(c).Some?
  }

  lemma MoveKeepsAbandoned(c: Caller, db: Database, m: Move)
    requires CallerOk(c, |db|) && Abandoned(c) && Advance(c, db, m).Some?
    ensures var c' := Advance(c, db, m).value.0;
      Abandoned(c') && Held(c') == Held(c)
  {
  }

  // From then on, in every continuation, the flag stays up and no other caller ever commits that lock.
  lemma {:induction false} AbandonedLockIsForever(s: State, i: nat, events: seq<Event>)
    requires Inv(s) && i < |s.callers| && Abandoned(s.callers[i]) && Run(s, events).Some?
    ensures var s' := Run(s, events).value;
      && |s'.db| == |s.db| && |s'.callers| == |s.callers|
      && Abandoned(s'.callers[i]) && Held(s'.callers[i]) == Held(s.callers[i])
      && Held(s.callers[i]).value < |s.db| && s'.db[Held(s.callers[i]).value]
      && forall j :: 0 <= j < |s.callers| && j != i ==> Held(s'.callers[j]) != Held(s.callers[i])
  {
    hide Advance, Held, CallerOk, Abandoned;
    RunKeepsInv(s, events);
    if events == [] {
    } else {
      var before, e := events[..|events| - 1], events[|events| - 1];
      AbandonedLockIsForever(s, i, before);
      var middle := Run(s, before).value;
      RunKeepsInv(s, before);
      if e.caller == i {
        MoveKeepsAbandoned(middle.callers[i], middle.db, e.move);
      }
    }
    var s' := Run(s, events).value;
    AbandonedHolds(s.callers[i]);
    forall j | 0 <= j < |s.callers| && j != i
      ensures Held(s'.callers[j]) != Held(s.callers[i])
    {
      var low, high := if i < j then i else j, if i < j then j else i;
      assert Held(s'.callers[low]).Some? ==> Held(s'.callers[low]) != Held(s'.callers[high]);
    }
  }

  lemma AbandonedHolds(c: Caller)
    requires Abandoned(c)
    ensures Held(c).Some?
  {
  }

  // Nothing more will happen to this caller's acquisition, and its unlock write, if any, has landed.
  predicate Finished(c: Caller) {
    && (c.acquire.Returned? || c.acquire.Threw?)
    && !c.phase.Waiting?
    && (c.phase.Acting? ==> c.phase.unlocked)
  }

  // Once everybody is done, the accounts still locked are exactly the abandoned ones.
  lemma LeftLockedAreAbandoned(accounts: nat, callers: nat, events: seq<Event>, k: Account)
    requires Run(Init(accounts, callers), events).Some? && k < accounts
    requires var s := Run(Init(accounts, callers), events).value;
      forall i :: 0 <= i < |s.callers| ==> Finished(s.callers[i])
    ensures var s := Run(Init(accounts, callers), events).value;
      |s.db| == accounts &&
      (s.db[k] <==> exists i :: 0 <= i < |s.callers| && Abandoned(s.callers[i]) && Held(s.callers[i]) == Some(k))
  {
    ReachableInv(accounts, callers, events);
    var s := Run(Init(accounts, callers), events).value;
    hide Run, Held, CallerOk, Finished, Abandoned;
    if s.db[k] {
      var i :| 0 <= i < |s.callers| && Held(s.callers[i]) == Some(k);
      FinishedHolder(s.callers[i], |s.db|);
    }
  }

  lemma FinishedHolder(c: Caller, accounts: nat)
    requires CallerOk(c, accounts) && Finished(c) && Held(c).Some?
    ensures Abandoned(c)
  {
  }

  // Both races of every caller settle at most once; NoFreeAccount is the answer only after a timeout, and
  // an action is only ever started with the account whose lock this caller committed in time.
  lemma OutcomesAreSettledOnce(accounts: nat, callers: nat, events: seq<Event>, i: nat)
    requires Run(Init(accounts, callers), events).Some? && i < callers
    ensures var s := Run(Init(accounts, callers), events).value;
      |s.callers| == callers &&
      var c := s.callers[i];
      && c.lock.calls <= 1 && (c.lock.calls == 1 <==> !c.lock.promise.Pending?)
      && (c.phase.NoAccount? ==> c.lock.timer.Fired?)
      && (c.phase.Acting? ==>
        && c.lock.timer.Cleared? && c.acquire == Returned(Some(c.phase.account))
        && c.phase.action.calls <= 1 && (c.phase.action.calls == 1 <==> !c.phase.action.promise.Pending?))
  {
    ReachableInv(accounts, callers, events);
  }

  // Once settled, an outcome stays as it is.
  ghost predicate Final(c: Caller, c': Caller) {
    && (!c.lock.promise.Pending? ==> c'.lock.promise == c.lock.promise)
    && (c.phase.Acting? ==>
      && c'.phase.Acting? && c'.phase.account == c.phase.account
      && (!c.phase.action.promise.Pending? ==> c'.phase.action.promise == c.phase.action.promise))
  }

  lemma MoveIsFinal(c: Caller, db: Database, m: Move)
    requires Advance(c, db, m).Some?
    ensures Final(c, Advance(c, db, m).value.0)
  {
  }

  lemma {:induction false} OutcomesAreFinal(s: State, events: seq<Event>, i: nat)
    requires i < |s.callers| && Run(s, events).Some?
    ensures |Run(s, events).value.callers| == |s.callers|
    ensures Final(s.callers[i], Run(s, events).value.callers[i])
  {
    hide Advance;
    if events == [] {
    } else {
      var before, e := events[..|events| - 1], events[|events| - 1];
      OutcomesAreFinal(s, before, i);
      var middle := Run(s, before).value;
      MoveIsFinal(middle.callers[e.caller], middle.db, e.move);
    }
  }

  // ---------- exclusive use of an account ----------

  predicate UsesAccount(c: Caller, k: Account) {
    c.phase.Acting? && c.phase.account == k && c.phase.running
  }

  // Two actions run with the same account at the same time.
  ghost predicate Overlap(s: State) {
    exists i, j, k: nat ::
      0 <= i < j < |s.callers| && UsesAccount(s.callers[i], k) && UsesAccount(s.callers[j], k)
  }

  // A run to that point.
  ghost predicate Overlaps(accounts: nat, callers: nat, events: seq<Event>) {
    var s := Run(Init(accounts, callers), events);
    s.Some? && Overlap(s.value)
  }

  // The run of one caller that starts alone: it locks the first account and starts its action.
  const ACQUIRE: seq<Move> := [Begin, Read, Scan, Commit, Answer, LockSettles, Proceed]

  function ActingOn(k: Account, unlocked: bool): Caller {
    Caller(Returned(Some(k)), false, 0, Race(Cleared, true, Resolved(Some(k)), 1), Acting(k, Start(), true, unlocked))
  }

  lemma NoEvents(s: State)
    ensures Run(s, []) == Some(s)
  {
  }

  lemma OneMore(s: State, events: seq<Event>, e: Event)
    requires Run(s, events).Some?
    ensures Run(s, events + [e]) == Step(Run(s, events).value, e)
  {
    assert (events + [e])[..|events|] == events;
  }

  function Acquisition(i: nat, steps: nat): (r: seq<Event>)
    requires steps <= 7
    ensures |r| == steps
  {
    seq(steps, n requires 0 <= n < steps => Event(i, ACQUIRE[n]))
  }

  // Caller i after the first n of its seven moves.
  function AfterMoves(m: State, i: nat, n: nat): State
    requires |m.db| > 0 && i < |m.callers| && n <= 7
  {
    var c := NEW_CALLER;
    var c' :=
      if n == 0 then c
      else if n == 1 then c.(acquire := Reading)
      else if n == 2 then c.(acquire := Scanning(m.db, 0))
      else if n == 3 then c.(acquire := Transacting(m.db, 0))
      else if n == 4 then c.(acquire := Answered(m.db, 0, true))
      else if n == 5 then c.(acquire := Returned(Some(0)))
      else if n == 6 then ActingOn(0, false).(phase := Waiting)
      else ActingOn(0, false);
    State(if n >= 4 then m.db[0 := true] else m.db, m.callers[i := c'])
  }

  lemma AfterMovesStep(m: State, i: nat, n: nat)
    requires |m.db| > 0 && !m.db[0] && i < |m.callers| && n < 7
    ensures Step(AfterMoves(m, i, n), Event(i, ACQUIRE[n])) == Some(AfterMoves(m, i, n + 1))
  {
    var now, next := AfterMoves(m, i, n), AfterMoves(m, i, n + 1);
    assert now.callers[i := next.callers[i]] == next.callers;
  }

  lemma AfterCommit(m: State, i: nat)
    requires |m.db| > 0 && i < |m.callers|
    ensures AfterMoves(m, i, 4)
         == State(m.db[0 := true], m.callers[i := NEW_CALLER.(acquire := Answered(m.db, 0, true))])
  {
  }

  lemma AfterProceed(m: State, i: nat)
    requires |m.db| > 0 && i < |m.callers|
    ensures AfterMoves(m, i, 7) == State(m.db[0 := true], m.callers[i := ActingOn(0, false)])
  {
  }

  lemma NoMoves(m: State, i: nat)
    requires |m.db| > 0 && i < |m.callers| && m.callers[i] == NEW_CALLER
    ensures AfterMoves(m, i, 0) == m
  {
    assert AfterMoves(m, i, 0).callers == m.callers;
  }

  lemma {:induction false} AcquisitionRuns(s: State, events: seq<Event>, i: nat, steps: nat)
    requires Run(s, events).Some? && steps <= 7
    requires var m := Run(s, events).value;
      |m.db| > 0 && !m.db[0] && i < |m.callers| && m.callers[i] == NEW_CALLER
    ensures Run(s, events + Acquisition(i, steps)) == Some(AfterMoves(Run(s, events).value, i, steps))
  {
    hide Run, AfterMoves, Step;
    var m := Run(s, events).value;
    if steps == 0 {
      assert events + Acquisition(i, 0) == events;
      NoMoves(m, i);
    } else {
      var n := steps - 1;
      AcquisitionRuns(s, events, i, n);
      OneMore(s, events + Acquisition(i, n), Event(i, ACQUIRE[n]));
      AfterMovesStep(m, i, n);
      assert events + Acquisition(i, steps) == events + Acquisition(i, n) + [Event(i, ACQUIRE[n])];
    }
  }

  lemma LocksFirst(s: State, events: seq<Event>, i: nat, steps: nat) returns (more: seq<Event>)
    requires Run(s, events).Some? && steps <= 7
    requires var m := Run(s, events).value;
      |m.db| > 0 && !m.db[0] && i < |m.callers| && m.callers[i] == NEW_CALLER
    ensures more == events + Acquisition(i, steps)
    ensures Run(s, more) == Some(AfterMoves(Run(s, events).value, i, steps))
  {
    hide Run, AfterMoves;
    more := events + Acquisition(i, steps);
    AcquisitionRuns(s, events, i, steps);
  }

  // One caller is enough to lose an account: the timer fires while the answer of its commit is on the way.
  lemma TimeoutAbandons(accounts: nat, callers: nat) returns (events: seq<Event>)
    requires accounts >= 1 && callers >= 1
    ensures var s := Run(Init(accounts, callers), events);
      s.Some? && |s.value.callers| == callers && Abandoned(s.value.callers[0]) && Held(s.value.callers[0]) == Some(0)
  {
    var s := Init(accounts, callers);
    var committed := LocksFirst(s, [], 0, 4);
    OneMore(s, committed, Event(0, LockTimeout));
    events := committed + [Event(0, LockTimeout)];
  }

  // Because the unlock write does not wait for the action, two callers are enough for an overlap: the first
  // one's write lands while its action runs, and the second one locks the account and starts its own.
  lemma TwoCallersOverlap(accounts: nat, callers: nat) returns (events: seq<Event>)
    requires accounts >= 1 && callers >= 2
    ensures Overlaps(accounts, callers, events)
  {
    var s := Init(accounts, callers);
    var first := LocksFirst(s, [], 0, 7);
    OneMore(s, first, Event(0, Unlock));
    var unlocked := first + [Event(0, Unlock)];
    var m := Run(s, unlocked).value;
    assert m.callers[0] == ActingOn(0, true) && m.callers[1] == NEW_CALLER && !m.db[0];
    events := LocksFirst(s, unlocked, 1, 7);
    var end := Run(s, events).value;
    assert UsesAccount(end.callers[0], 0) && UsesAccount(end.callers[1], 0);
  }

  // Actions are exclusive in every run exactly when there is at most one caller, or no account at all.
  lemma ActionsOverlapIff(accounts: nat, callers: nat)
    ensures (exists events :: Overlaps(accounts, callers, events)) <==> accounts >= 1 && callers >= 2
  {
    if accounts >= 1 && callers >= 2 {
      var events := TwoCallersOverlap(accounts, callers);
    }
    forall events | Overlaps(accounts, callers, events)
      ensures accounts >= 1 && callers >= 2
    {
      ReachableInv(accounts, callers, events);
      var s := Run(Init(accounts, callers), events).value;
      var i, j, k :| 0 <= i < j < |s.callers| && UsesAccount(s.callers[i], k) && UsesAccount(s.callers[j], k);
      assert CallerOk(s.callers[i], accounts);
    }
  }

  // Every unlock write finds its own caller ready for it.
  ghost predicate UnlocksWhen(ready: Caller -> bool, s: State, events: seq<Event>) {
    events == [] || (
      var before, e := events[..|events| - 1], events[|events| - 1];
      && UnlocksWhen(ready, s, before)
      && (e.move.Unlock? && Run(s, before).Some? && e.caller < |Run(s, before).value.callers| ==>
        ready(Run(s, before).value.callers[e.caller])))
  }

  predicate ActionEnded(c: Caller) {
    c.phase.Acting? ==> !c.phase.running
  }

  // No unlock write lands while its own caller's action is still running.
  ghost predicate Patient(s: State, events: seq<Event>) {
    UnlocksWhen(ActionEnded, s, events)
  }

  ghost predicate HoldsWhileRunning(s: State) {
    forall i :: 0 <= i < |s.callers| && s.callers[i].phase.Acting? && s.callers[i].phase.running ==>
      !s.callers[i].phase.unlocked
  }

  // A caller that holds while running goes on doing so unless it writes back too early.
  lemma MoveHolds(c: Caller, db: Database, m: Move)
    requires Advance(c, db, m).Some? && (c.phase.Acting? && c.phase.running ==> !c.phase.unlocked)
    requires m.Unlock? && c.phase.Acting? ==> !c.phase.running
    ensures var c' := Advance(c, db, m).value.0; c'.phase.Acting? && c'.phase.running ==> !c'.phase.unlocked
  {
  }

  lemma {:induction false} PatientHolds(s: State, events: seq<Event>)
    requires HoldsWhileRunning(s) && Patient(s, events) && Run(s, events).Some?
    ensures HoldsWhileRunning(Run(s, events).value)
  {
    hide Advance;
    if events == [] {
    } else {
      var before, e := events[..|events| - 1], events[|events| - 1];
      PatientHolds(s, before);
      var middle := Run(s, before).value;
      MoveHolds(middle.callers[e.caller], middle.db, e.move);
    }
  }

  // Awaiting the action before unlocking would be enough: in every such run actions are exclusive.
  lemma PatientRunsAreExclusive(accounts: nat, callers: nat, events: seq<Event>)
    requires Run(Init(accounts, callers), events).Some? && Patient(Init(accounts, callers), events)
    ensures !Overlaps(accounts, callers, events)
  {
    ReachableInv(accounts, callers, events);
    PatientHolds(Init(accounts, callers), events);
    hide Run;
    var s := Run(Init(accounts, callers), events).value;
    forall i, j, k: nat | 0 <= i < j < |s.callers| && UsesAccount(s.callers[i], k)
      ensures !UsesAccount(s.callers[j], k)
    {
      assert Held(s.callers[i]) == Some(k);
    }
  }
}
