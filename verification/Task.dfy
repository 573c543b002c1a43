/** The self-rescheduling loop of packages/utils/src/task.ts and the two tasks built on it, as state
    machines over timer callbacks, settling promises and outside stops. */
module Task {
  import opened Options
  import F = Future

  // ---------- repeatTask ----------

  // `timers` and `running` count armed timeouts and calls of fn that have not settled.
  datatype Loop = Loop(isActive: bool, executionNumber: nat, timers: nat, running: nat) {

    // The body of `loop` up to its await.
    function Enter(): Loop {
      if isActive then this.(executionNumber := executionNumber + 1, running := running + 1) else this
    }

    function TimerFires(): Loop
      requires timers > 0
    {
      this.(timers := timers - 1).Enter()
    }

    // The `finally` block, however fn settled.
    function FnSettles(): Loop
      requires running > 0
    {
      var s := this.(running := running - 1);
      if isActive then s.(timers := timers + 1) else s
    }

    function Stop(): Loop {
      this.(isActive := false)
    }

    ghost predicate Valid() {
      && timers + running <= 1
      && (isActive ==> timers + running == 1)
    }
  }

  function Started(delayed: bool): Loop {
    if delayed then Loop(true, 0, 1, 0) else Loop(true, 0, 0, 0).Enter()
  }

  class RepeatTask {
    var isActive: bool
    var executionNumber: nat
    var timers: nat
    var running: nat

    function Value(): Loop
      reads this
    {
      Loop(isActive, executionNumber, timers, running)
    }

    constructor (delayed: bool)
      ensures Value() == Started(delayed)
    {
      isActive, executionNumber, timers, running := true, 0, 0, 0;
      new;
      if delayed {
        timers := 1;
      } else {
        Enter();
      }
    }

    method Enter()
      modifies this
      ensures Value() == old(Value()).Enter()
    {
      if !isActive {
        return;
      }
      executionNumber := executionNumber + 1;
      running := running + 1;
    }

    method TimerFires()
      requires timers > 0
      modifies this
      ensures Value() == old(Value()).TimerFires()
    {
      timers := timers - 1;
      Enter();
    }

    method FnSettles()
      requires running > 0
      modifies this
      ensures Value() == old(Value()).FnSettles()
    {
      running := running - 1;
      if isActive {
        timers := timers + 1;
      }
    }

    method Stop()
      modifies this
      ensures Value() == old(Value()).Stop()
    {
      isActive := false;
    }
  }

  // StopTask is anybody's: fn through its context, or the owner of the task.
  datatype LoopEvent = TimerFires | FnSettles | StopTask

  function LoopStep(s: Loop, e: LoopEvent): Option<Loop> {
    match e
    case TimerFires => if s.timers > 0 then Some(s.TimerFires()) else None
    case FnSettles => if s.running > 0 then Some(s.FnSettles()) else None
    case StopTask => Some(s.Stop())
  }

  function LoopRun(s: Loop, events: seq<LoopEvent>): Option<Loop> {
    if events == [] then Some(s)
    else
      var before := LoopRun(s, events[..|events| - 1]);
      if before.None? then None else LoopStep(before.value, events[|events| - 1])
  }

  // In every run at most one of a pending timer and a running fn exists, and exactly one while active.
  lemma {:induction false} SingleFlight(delayed: bool, events: seq<LoopEvent>)
    requires LoopRun(Started(delayed), events).Some?
    ensures LoopRun(Started(delayed), events).value.Valid()
  {
    if events == [] {
    } else {
      SingleFlight(delayed, events[..|events| - 1]);
    }
  }

  // Once stopped, a task never becomes active again and never starts fn again.
  lemma {:induction false} NoStartAfterStop(s: Loop, events: seq<LoopEvent>)
    requires !s.isActive && LoopRun(s, events).Some?
    ensures var s' := LoopRun(s, events).value;
      !s'.isActive && s'.executionNumber == s.executionNumber
  {
    if events == [] {
    } else {
      NoStartAfterStop(s, events[..|events| - 1]);
    }
  }

  // While active the loop waits for exactly one callback, and it can be stopped at any time.
  lemma AlwaysGoesOn(delayed: bool, events: seq<LoopEvent>)
    requires LoopRun(Started(delayed), events).Some?
    ensures var s := LoopRun(Started(delayed), events).value;
      && LoopStep(s, StopTask).Some?
      && (s.isActive ==> (LoopStep(s, TimerFires).Some? <==> LoopStep(s, FnSettles).None?))
  {
    SingleFlight(delayed, events);
  }

  lemma LoopOneMore(s: Loop, events: seq<LoopEvent>, e: LoopEvent)
    requires LoopRun(s, events).Some?
    ensures LoopRun(s, events + [e]) == LoopStep(LoopRun(s, events).value, e)
  {
    assert (events + [e])[..|events|] == events;
  }

  // Unless it is stopped it starts fn as often as one likes.
  lemma {:induction false} GoesOnForEver(delayed: bool, n: nat) returns (events: seq<LoopEvent>)
    ensures StopTask !in events && LoopRun(Started(delayed), events).Some?
    ensures LoopRun(Started(delayed), events).value.executionNumber >= n
  {
    events := [];
    if n > 0 {
      events := GoesOnForEver(delayed, n - 1);
      SingleFlight(delayed, events);
      StartsOncePerTimer(delayed, events);
      if LoopRun(Started(delayed), events).value.running > 0 {
        LoopOneMore(Started(delayed), events, FnSettles);
        events := events + [FnSettles];
      }
      LoopOneMore(Started(delayed), events, TimerFires);
      events := events + [TimerFires];
    }
  }

  function Callbacks(events: seq<LoopEvent>): nat {
    if events == [] then 0
    else Callbacks(events[..|events| - 1]) + if events[|events| - 1].StopTask? then 0 else 1
  }

  // After a stop at most one callback is still to come.
  lemma {:induction false} StopsSoon(s: Loop, events: seq<LoopEvent>)
    requires s.Valid() && !s.isActive && LoopRun(s, events).Some?
    ensures !LoopRun(s, events).value.isActive
    ensures var s' := LoopRun(s, events).value; Callbacks(events) + s'.timers + s'.running == s.timers + s.running <= 1
  {
    if events == [] {
    } else {
      StopsSoon(s, events[..|events| - 1]);
    }
  }

  // How many timers have fired.
  function Fired(events: seq<LoopEvent>): nat {
    if events == [] then 0
    else Fired(events[..|events| - 1]) + if events[|events| - 1].TimerFires? then 1 else 0
  }

  // fn starts once for every timer, and once before the first one exactly if there is no initial delay; stops
  // only make it fewer times.
  lemma {:induction false} StartsOncePerTimer(delayed: bool, events: seq<LoopEvent>)
    requires LoopRun(Started(delayed), events).Some?
    ensures var s, first := LoopRun(Started(delayed), events).value, if delayed then 0 else 1;
      && s.executionNumber <= Fired(events) + first
      && (StopTask !in events ==> s.isActive && s.executionNumber == Fired(events) + first)
  {
    if events == [] {
    } else {
      var before, e := events[..|events| - 1], events[|events| - 1];
      StartsOncePerTimer(delayed, before);
      assert events == before + [e];
    }
  }

  // ---------- conditionWatcher ----------

  datatype WatchPhase = Idle | Polling | Succeeding

  datatype Poll = True | False | Throws

  datatype WatchEvent = WatchTimer | PollSettles(poll: Poll) | SuccessSettles | WatchStop

  datatype Watcher = Watcher(loop: Loop, phase: WatchPhase, polls: nat, successes: nat) {
    function Polls(next: Loop): Watcher {
      if next.running > loop.running then Watcher(next, Polling, polls + 1, successes) else this.(loop := next)
    }
  }

  function WatchStart(delayed: bool): Watcher {
    Watcher(Loop(true, 0, 0, 0), Idle, 0, 0).Polls(Started(delayed))
  }

  function WatchStep(w: Watcher, e: WatchEvent): Option<Watcher> {
    match e
    case WatchTimer => if w.loop.timers > 0 then Some(w.Polls(w.loop.TimerFires())) else None
    case PollSettles(poll) =>
      if !w.phase.Polling? || w.loop.running == 0 then None
      else if poll.True? then
        Some(w.(loop := w.loop.Stop(), phase := Succeeding, successes := w.successes + 1))
      else Some(w.(loop := w.loop.FnSettles(), phase := Idle))
    case SuccessSettles =>
      if !w.phase.Succeeding? || w.loop.running == 0 then None
      else Some(w.(loop := w.loop.FnSettles(), phase := Idle))
    case WatchStop => Some(w.(loop := w.loop.Stop()))
  }

  function WatchRun(w: Watcher, events: seq<WatchEvent>): Option<Watcher> {
    if events == [] then Some(w)
    else
      var before := WatchRun(w, events[..|events| - 1]);
      if before.None? then None else WatchStep(before.value, events[|events| - 1])
  }

  ghost predicate WatchValid(w: Watcher) {
    && w.loop.Valid()
    && (w.phase.Idle? <==> w.loop.running == 0)
    && w.successes <= 1
    && (w.phase.Succeeding? ==> w.successes == 1)
    && (w.successes == 1 ==> !w.loop.isActive && !w.phase.Polling? && w.loop.timers == 0)
  }

  lemma WatchStepKeeps(w: Watcher, e: WatchEvent)
    requires WatchValid(w) && WatchStep(w, e).Some?
    ensures var next, isSuccess := WatchStep(w, e).value, e == PollSettles(True);
      && WatchValid(next) && next.successes == w.successes + (if isSuccess then 1 else 0)
      && (next.loop.isActive <==> w.loop.isActive && e != WatchStop && !isSuccess)
  {
  }

  lemma OneMoreEvent<E>(events: seq<E>)
    requires events != []
    ensures forall e :: e in events <==> e in events[..|events| - 1] || e == events[|events| - 1]
  {
    assert events == events[..|events| - 1] + [events[|events| - 1]];
  }

  lemma WatchOneMore(w: Watcher, events: seq<WatchEvent>, e: WatchEvent)
    requires WatchRun(w, events).Some?
    ensures WatchRun(w, events + [e]) == WatchStep(WatchRun(w, events).value, e)
  {
    assert (events + [e])[..|events|] == events;
  }

  // Wherever outside stops fall, onSuccess is called once if a poll came back true, and never otherwise; the
  // watcher goes on exactly until then or until a stop.
  lemma {:induction false} SucceedsOnce(delayed: bool, events: seq<WatchEvent>)
    requires WatchRun(WatchStart(delayed), events).Some?
    ensures var w := WatchRun(WatchStart(delayed), events).value;
      && WatchValid(w) && w.successes == (if PollSettles(True) in events then 1 else 0)
      && (w.loop.isActive <==> WatchStop !in events && PollSettles(True) !in events)
  {
    hide WatchStep;
    if events == [] {
    } else {
      var before, e := events[..|events| - 1], events[|events| - 1];
      SucceedsOnce(delayed, before);
      WatchStepKeeps(WatchRun(WatchStart(delayed), before).value, e);
      OneMoreEvent(events);
    }
  }

  // ---------- tryObtainValueWithRetries ----------

  datatype Attempt<+A> = Value(value: A) | NoValue | Failed

  datatype Error = MaxRetries | Cancelled

  datatype RetryEvent<+A> = RetryTimer | AttemptSettles(attempt: Attempt<A>) | RejectionSettles | RetryStop

  datatype RetryPhase = Resting | Trying | Rejecting

  datatype Retry<A> = Retry(loop: Loop, phase: RetryPhase, calls: nat, future: F.State<A, Error>) {
    // fn up to its first await: beyond maxAttemps it gives up, otherwise it calls tryGetValue.
    function FnStarts(maxAttemps: int): Retry<A> {
      if loop.executionNumber > maxAttemps then
        Retry(loop.Stop(), Rejecting, calls, future.Apply(F.Reject(MaxRetries)))
      else
        Retry(loop, Trying, calls + 1, future)
    }

    // fn starts whenever the loop enters.
    function Enters(next: Loop, maxAttemps: int): Retry<A> {
      var entered := this.(loop := next);
      if next.running <= loop.running then entered else entered.FnStarts(maxAttemps)
    }

    predicate Ended() {
      loop.timers == 0 && loop.running == 0
    }
  }

  function RetryStart<A>(maxAttemps: int): Retry<A> {
    Retry(Loop(true, 0, 0, 0), Resting, 0, F.New()).Enters(Started(false), maxAttemps)
  }

  function RetryStep<A>(r: Retry<A>, e: RetryEvent<A>, maxAttemps: int): Option<Retry<A>> {
    match e
    case RetryTimer => if r.loop.timers > 0 then Some(r.Enters(r.loop.TimerFires(), maxAttemps)) else None
    case AttemptSettles(attempt) =>
      if !r.phase.Trying? || r.loop.running == 0 then None
      else if attempt.Value? then
        var resolved := r.future.Apply(F.Resolve(attempt.value));
        Some(r.(loop := r.loop.Stop().FnSettles(), phase := Resting, future := resolved))
      else Some(r.(loop := r.loop.FnSettles(), phase := Resting))
    case RejectionSettles =>
      if !r.phase.Rejecting? || r.loop.running == 0 then None
      else Some(r.(loop := r.loop.FnSettles(), phase := Resting))
    case RetryStop => Some(r.(loop := r.loop.Stop(), future := r.future.Apply(F.Reject(Cancelled))))
  }

  function RetryRun<A>(maxAttemps: int, events: seq<RetryEvent<A>>): Option<Retry<A>> {
    if events == [] then Some(RetryStart(maxAttemps))
    else
      var before := RetryRun(maxAttemps, events[..|events| - 1]);
      if before.None? then None else RetryStep(before.value, events[|events| - 1], maxAttemps)
  }

  lemma RetryOneMore<A>(maxAttemps: int, events: seq<RetryEvent<A>>, e: RetryEvent<A>)
    requires RetryRun(maxAttemps, events).Some?
    ensures RetryRun(maxAttemps, events + [e]) == RetryStep(RetryRun(maxAttemps, events).value, e, maxAttemps)
  {
    assert (events + [e])[..|events|] == events;
  }

  function Limit(maxAttemps: int): nat {
    if maxAttemps < 0 then 0 else maxAttemps
  }

  function FirstOf<A>(first: Option<A>, e: RetryEvent<A>): Option<A> {
    if first.Some? then first
    else if e.AttemptSettles? && e.attempt.Value? then Some(e.attempt.value)
    else None
  }

  // The value of the first attempt that had one.
  function FirstValue<A>(events: seq<RetryEvent<A>>): Option<A> {
    if events == [] then None else FirstOf(FirstValue(events[..|events| - 1]), events[|events| - 1])
  }

  ghost predicate RetryValid<A>(r: Retry<A>, maxAttemps: int) {
    && r.loop.Valid()
    && (r.phase.Resting? <==> r.loop.running == 0)
    && 1 <= r.loop.executionNumber <= Limit(maxAttemps) + 1
    && r.calls == (if r.loop.executionNumber <= Limit(maxAttemps) then r.loop.executionNumber else Limit(maxAttemps))
    && (r.loop.executionNumber > Limit(maxAttemps) ==> !r.loop.isActive && !r.phase.Trying? && r.loop.timers == 0)
    && (r.loop.isActive ==> r.future.outcome.Pending?)
    && (r.phase.Rejecting? ==> !r.loop.isActive)
  }

  lemma StepKeepsValid<A>(r: Retry<A>, e: RetryEvent<A>, maxAttemps: int)
    requires RetryValid(r, maxAttemps) && RetryStep(r, e, maxAttemps).Some?
    ensures var next := RetryStep(r, e, maxAttemps).value;
      RetryValid(next, maxAttemps)
  {
  }

  lemma StartIsValid<A>(maxAttemps: int)
    ensures RetryValid(RetryStart<A>(maxAttemps), maxAttemps)
  {
    var entered: Retry<A> := Retry(Loop(true, 1, 0, 1), Resting, 0, F.New());
    assert RetryStart<A>(maxAttemps) == entered.FnStarts(maxAttemps);
  }

  // In every run, outside stops included, tryGetValue is called at most maxAttemps times.
  lemma {:induction false} AttemptsAreBounded<A>(maxAttemps: int, events: seq<RetryEvent<A>>)
    requires RetryRun(maxAttemps, events).Some?
    ensures var r := RetryRun(maxAttemps, events).value;
      RetryValid(r, maxAttemps) && r.calls <= Limit(maxAttemps)
  {
    hide RetryStep, RetryStart, RetryValid;
    if events == [] {
      StartIsValid<A>(maxAttemps);
    } else {
      var before := events[..|events| - 1];
      AttemptsAreBounded(maxAttemps, before);
      StepKeepsValid(RetryRun(maxAttemps, before).value, events[|events| - 1], maxAttemps);
    }
  }

  // One step settles a pending outcome or leaves it; only a value resolves it.
  lemma StepSettles<A>(r: Retry<A>, e: RetryEvent<A>, maxAttemps: int)
    requires RetryStep(r, e, maxAttemps).Some?
    ensures var before, after := r.future.outcome, RetryStep(r, e, maxAttemps).value.future.outcome;
      && (!before.Pending? ==> after == before)
      && (before.Pending? && after.Resolved? ==> e == AttemptSettles(Value(after.value)))
      && (e.AttemptSettles? && e.attempt.Value? ==> !after.Pending?)
  {
  }

  // A resolved value is the first one an attempt came back with, which leaves nothing pending.
  lemma {:induction false} ResolvesToFirst<A>(maxAttemps: int, events: seq<RetryEvent<A>>)
    requires RetryRun(maxAttemps, events).Some?
    ensures var outcome := RetryRun(maxAttemps, events).value.future.outcome;
      && (outcome.Resolved? ==> FirstValue(events) == Some(outcome.value))
      && (FirstValue(events).Some? ==> !outcome.Pending?)
  {
    hide RetryStep;
    if events == [] {
    } else {
      var before, e := events[..|events| - 1], events[|events| - 1];
      ResolvesToFirst(maxAttemps, before);
      StepSettles(RetryRun(maxAttemps, before).value, e, maxAttemps);
    }
  }

  lemma {:induction false} SettledStays<A>(maxAttemps: int, events: seq<RetryEvent<A>>, n: nat)
    requires n <= |events| && RetryRun(maxAttemps, events).Some?
    ensures RetryRun(maxAttemps, events[..n]).Some?
    ensures var early, late := RetryRun(maxAttemps, events[..n]).value, RetryRun(maxAttemps, events).value;
      !early.future.outcome.Pending? ==> late.future.outcome == early.future.outcome
  {
    hide RetryStep;
    if n == |events| {
      assert events[..n] == events;
    } else {
      var m := |events| - 1;
      SettledStays(maxAttemps, events[..m], n);
      assert events[..m][..n] == events[..n];
      StepSettles(RetryRun(maxAttemps, events[..m]).value, events[m], maxAttemps);
    }
  }

  // A settled outcome never changes, and a resolved one is the first value an attempt came back with.
  lemma OutcomeIsFinal<A>(maxAttemps: int, events: seq<RetryEvent<A>>, n: nat)
    requires n <= |events| && RetryRun(maxAttemps, events).Some?
    ensures RetryRun(maxAttemps, events[..n]).Some?
    ensures var early, late := RetryRun(maxAttemps, events[..n]).value, RetryRun(maxAttemps, events).value;
      && (!early.future.outcome.Pending? ==> late.future.outcome == early.future.outcome)
      && (late.future.outcome.Resolved? ==> Some(late.future.outcome.value) == FirstValue(events))
  {
    hide RetryRun, FirstValue;
    SettledStays(maxAttemps, events, n);
    ResolvesToFirst(maxAttemps, events);
  }

  lemma StepStops<A>(r: Retry<A>, e: RetryEvent<A>, maxAttemps: int)
    requires RetryStep(r, e, maxAttemps).Some?
    ensures var next := RetryStep(r, e, maxAttemps).value;
      && (!r.loop.isActive ==> !next.loop.isActive && next.calls == r.calls)
      && (e.RetryStop? || FirstOf(None, e).Some? ==> !next.loop.isActive)
  {
  }

  // A stop or a value ends the attempts.
  lemma {:induction false} NoAttemptAfterEnd<A>(maxAttemps: int, events: seq<RetryEvent<A>>)
    requires RetryRun(maxAttemps, events).Some? && (RetryStop in events || FirstValue(events).Some?)
    ensures !RetryRun(maxAttemps, events).value.loop.isActive
  {
    hide RetryStep;
    if events == [] {
    } else {
      var before, e := events[..|events| - 1], events[|events| - 1];
      OneMoreEvent(events);
      if RetryStop in before || FirstValue(before).Some? {
        NoAttemptAfterEnd(maxAttemps, before);
      }
      StepStops(RetryRun(maxAttemps, before).value, e, maxAttemps);
    }
  }

  ghost predicate Undisturbed<A>(events: seq<RetryEvent<A>>) {
    RetryStop !in events
  }

  function Expected<A>(first: Option<A>): F.Outcome<A, Error> {
    match first
    case Some(v) => F.Resolved(v)
    case None => F.Rejected(MaxRetries)
  }

  // Where an undisturbed run stands after so many events with this first value.
  ghost predicate OnSchedule<A>(r: Retry<A>, maxAttemps: int, events: nat, first: Option<A>) {
    && events == 2 * (r.loop.executionNumber - 1) + (if r.loop.running == 0 then 1 else 0)
    && (r.loop.timers > 0 ==> r.loop.isActive)
    && (r.loop.isActive <==> first.None? && r.loop.executionNumber <= Limit(maxAttemps))
    && (r.loop.isActive ==> r.future.outcome.Pending?)
    && (!r.loop.isActive ==> r.future.outcome == Expected(first))
    && (r.phase.Rejecting? ==> first.None?)
    && (r.phase.Trying? ==> r.loop.isActive)
    && F.ErrorTellsOutcome(r.future)
  }

  lemma StepOnSchedule<A>(r: Retry<A>, e: RetryEvent<A>, maxAttemps: int, events: nat, first: Option<A>)
    requires RetryValid(r, maxAttemps) && OnSchedule(r, maxAttemps, events, first)
    requires !e.RetryStop? && RetryStep(r, e, maxAttemps).Some?
    ensures OnSchedule(RetryStep(r, e, maxAttemps).value, maxAttemps, events + 1, FirstOf(first, e))
  {
  }

  lemma {:induction false} StaysOnSchedule<A>(maxAttemps: int, events: seq<RetryEvent<A>>)
    requires RetryRun(maxAttemps, events).Some? && Undisturbed(events)
    ensures OnSchedule(RetryRun(maxAttemps, events).value, maxAttemps, |events|, FirstValue(events))
  {
    if events == [] {
    } else {
      hide RetryStep, RetryValid, OnSchedule, FirstOf;
      var before, e := events[..|events| - 1], events[|events| - 1];
      OneMoreEvent(events);
      StaysOnSchedule(maxAttemps, before);
      AttemptsAreBounded(maxAttemps, before);
      StepOnSchedule(RetryRun(maxAttemps, before).value, e, maxAttemps, |before|, FirstValue(before));
    }
  }

  // What being on schedule means: a bounded number of events, and always either an end or a next move.
  lemma ScheduleEnds<A>(r: Retry<A>, maxAttemps: int, events: nat, first: Option<A>, any: Attempt<A>)
    requires RetryValid(r, maxAttemps) && OnSchedule(r, maxAttemps, events, first)
    ensures events <= 2 * Limit(maxAttemps) + 1 && r.loop.executionNumber <= Limit(maxAttemps) + 1
    ensures !r.Ended() ==>
      || RetryStep(r, RetryTimer, maxAttemps).Some?
      || RetryStep(r, AttemptSettles(any), maxAttemps).Some?
      || RetryStep(r, RejectionSettles, maxAttemps).Some?
    ensures r.Ended() ==> r.future.outcome == Expected(first)
    ensures r.Ended() && first.None? ==> r.calls == Limit(maxAttemps)
  {
  }

  // Without outside stops the task ends within maxAttemps + 1 executions: it has either ended or can move,
  // no run is longer than that, and once ended the promise is resolved to the first value, or rejected after
  // exactly maxAttemps attempts without one.
  lemma UndisturbedOutcome<A>(maxAttemps: int, events: seq<RetryEvent<A>>, any: Attempt<A>)
    requires RetryRun(maxAttemps, events).Some? && Undisturbed(events)
    ensures |events| <= 2 * Limit(maxAttemps) + 1
    ensures var r := RetryRun(maxAttemps, events).value;
      && r.loop.executionNumber <= Limit(maxAttemps) + 1
      && (!r.Ended() ==>
        || RetryStep(r, RetryTimer, maxAttemps).Some?
        || RetryStep(r, AttemptSettles(any), maxAttemps).Some?
        || RetryStep(r, RejectionSettles, maxAttemps).Some?)
      && (r.Ended() ==> r.future.outcome == Expected(FirstValue(events)))
      && (r.Ended() && FirstValue(events).None? ==> r.calls == Limit(maxAttemps))
  {
    hide RetryRun, RetryStep, RetryValid, OnSchedule, FirstValue, Limit, Expected, Undisturbed;
    StaysOnSchedule(maxAttemps, events);
    AttemptsAreBounded(maxAttemps, events);
    ScheduleEnds(RetryRun(maxAttemps, events).value, maxAttemps, |events|, FirstValue(events), any);
  }

  // ---------- what the error getter of the private future tells ----------

  datatype Settling = ByValue | ByStop

  function SettlingOf<A>(e: RetryEvent<A>): Option<Settling> {
    if e.RetryStop? then Some(ByStop)
    else if e.AttemptSettles? && e.attempt.Value? then Some(ByValue)
    else None
  }

  // The first and the last event of a run that is a value or a stop.
  function FirstSettling<A>(events: seq<RetryEvent<A>>): Option<Settling> {
    if events == [] then None
    else
      var before := FirstSettling(events[..|events| - 1]);
      if before.Some? then before else SettlingOf(events[|events| - 1])
  }

  function LastSettling<A>(events: seq<RetryEvent<A>>): Option<Settling> {
    if events == [] then None
    else
      var last := SettlingOf(events[|events| - 1]);
      if last.Some? then last else LastSettling(events[..|events| - 1])
  }

  // The timers that fired before any value or stop; with maxAttemps of them the task has given up.
  function Timers<A>(events: seq<RetryEvent<A>>): nat {
    if events == [] then 0
    else
      var before := events[..|events| - 1];
      Timers(before) + if FirstSettling(before).None? && events[|events| - 1].RetryTimer? then 1 else 0
  }

  predicate GaveUp<A>(maxAttemps: int, events: seq<RetryEvent<A>>) {
    Timers(events) >= maxAttemps
  }

  // How the future stands after so many timers, with this first and this last settling event.
  ghost predicate Accounted<A>(
    r: Retry<A>, maxAttemps: int, timers: nat, first: Option<Settling>, last: Option<Settling>)
  {
    && r.loop.executionNumber == timers + 1
    && (r.loop.isActive <==> timers < maxAttemps && first.None?)
    && (r.loop.timers > 0 && first.None? ==> r.loop.isActive)
    && (r.phase.Trying? ==> timers < maxAttemps)
    && (first.None? <==> last.None?)
    && (r.future.finished <==> timers >= maxAttemps || first.Some?)
    && (if timers >= maxAttemps then r.future.outcome == F.Rejected(MaxRetries) && last != Some(ByValue)
        else if first.None? then r.future.outcome.Pending?
        else if first == Some(ByStop) then r.future.outcome == F.Rejected(Cancelled)
        else r.future.outcome.Resolved?)
    && (match last
        case None => r.future.error == if timers >= maxAttemps then Some(MaxRetries) else None
        case Some(ByStop) => r.future.error == Some(Cancelled)
        case Some(ByValue) => r.future.error == None)
  }

  lemma StartAccounted<A>(maxAttemps: int)
    ensures Accounted(RetryStart<A>(maxAttemps), maxAttemps, 0, None, None)
  {
    var entered: Retry<A> := Retry(Loop(true, 1, 0, 1), Resting, 0, F.New());
    assert RetryStart<A>(maxAttemps) == entered.FnStarts(maxAttemps);
  }

  lemma StepAccounted<A>(
    r: Retry<A>, e: RetryEvent<A>, maxAttemps: int, timers: nat, first: Option<Settling>, last: Option<Settling>)
    requires RetryValid(r, maxAttemps) && Accounted(r, maxAttemps, timers, first, last)
    requires RetryStep(r, e, maxAttemps).Some?
    ensures Accounted(RetryStep(r, e, maxAttemps).value, maxAttemps,
      timers + (if first.None? && e.RetryTimer? then 1 else 0),
      if first.Some? then first else SettlingOf(e), if SettlingOf(e).Some? then SettlingOf(e) else last)
  {
  }

  lemma {:induction false} StaysAccounted<A>(maxAttemps: int, events: seq<RetryEvent<A>>)
    requires RetryRun(maxAttemps, events).Some?
    ensures Accounted(RetryRun(maxAttemps, events).value, maxAttemps, Timers(events),
      FirstSettling(events), LastSettling(events))
  {
    hide RetryStep, RetryStart, RetryValid, Accounted, SettlingOf;
    if events == [] {
      StartAccounted<A>(maxAttemps);
    } else {
      var before, e := events[..|events| - 1], events[|events| - 1];
      StaysAccounted(maxAttemps, before);
      AttemptsAreBounded(maxAttemps, before);
      StepAccounted(RetryRun(maxAttemps, before).value, e, maxAttemps, Timers(before),
        FirstSettling(before), LastSettling(before));
    }
  }

  // In every run: the getter describes the promise exactly when no value or stop has come, or the last of them
  // is a stop exactly if it was a stop that settled the promise.
  lemma ErrorTellsIff<A>(maxAttemps: int, events: seq<RetryEvent<A>>)
    requires RetryRun(maxAttemps, events).Some?
    ensures F.ErrorTellsOutcome(RetryRun(maxAttemps, events).value.future) <==>
      || LastSettling(events).None?
      || (LastSettling(events) == Some(ByStop) <==>
           !GaveUp(maxAttemps, events) && FirstSettling(events) == Some(ByStop))
  {
    hide RetryRun, Timers, FirstSettling, LastSettling;
    StaysAccounted(maxAttemps, events);
  }

  // So it does in every run without a stop.
  lemma UndisturbedErrorTells<A>(maxAttemps: int, events: seq<RetryEvent<A>>)
    requires RetryRun(maxAttemps, events).Some? && Undisturbed(events)
    ensures F.ErrorTellsOutcome(RetryRun(maxAttemps, events).value.future)
  {
    StaysOnSchedule(maxAttemps, events);
  }

  // A stop after the value has come leaves `error` saying that the task was cancelled, although the promise
  // is resolved to the value.
  lemma StopAfterValueMisleads<A>(maxAttemps: int, v: A)
    requires maxAttemps >= 1
    ensures var r := RetryRun(maxAttemps, [AttemptSettles(Value(v)), RetryStop]);
      && r.Some? && r.value.future.outcome == F.Resolved(v) && r.value.future.error == Some(Cancelled)
      && !F.ErrorTellsOutcome(r.value.future)
  {
    var one: seq<RetryEvent<A>>, both: seq<RetryEvent<A>> :=
      [AttemptSettles(Value(v))], [AttemptSettles(Value(v)), RetryStop];
    assert one[..0] == [] && both[..1] == one;
    assert RetryRun<A>(maxAttemps, []) == Some(RetryStart(maxAttemps));
    assert RetryRun(maxAttemps, one).Some?;
  }
}
