/** `conditionWatcher` and `tryObtainValueWithRetries` of packages/utils/src/task.ts as objects around a repeated
    task. Each keeps its history, and its callbacks promise what the runs in `Task` are proved to keep. */
module TaskObjects {
  import opened Options
  import opened Task
  import F = Future

  lemma BoundedMeans<A>(r: Retry<A>, maxAttemps: int)
    requires RetryValid(r, maxAttemps)
    ensures r.calls <= Limit(maxAttemps) && r.loop.timers + r.loop.running <= 1
  {
  }

  class ConditionWatcher {
    const task: RepeatTask
    const delayed: bool
    var phase: WatchPhase
    var polls: nat
    var successes: nat
    ghost var history: seq<WatchEvent>

    function Value(): Watcher
      reads this, task
    {
      Watcher(task.Value(), phase, polls, successes)
    }

    ghost predicate Valid()
      reads this, task
    {
      WatchRun(WatchStart(delayed), history) == Some(Value())
    }

    // onSuccess has been called once if a poll came back true and never otherwise, one timer or call is
    // there at most, and the task is active exactly until a stop or a true poll.
    ghost predicate Promised()
      reads this, task
    {
      && successes == (if WatchEvent.PollSettles(True) in history then 1 else 0)
      && task.timers + task.running <= 1
      && (task.isActive <==> WatchStop !in history && WatchEvent.PollSettles(True) !in history)
    }

    // The runs in `Task` carried over to this object.
    lemma Keeps()
      requires Valid()
      ensures Promised() && WatchValid(Value())
    {
      hide WatchRun;
      SucceedsOnce(delayed, history);
    }

    constructor (delayed: bool)
      ensures fresh(task) && this.delayed == delayed && history == [] && Valid() && Promised()
    {
      this.delayed := delayed;
      task := new RepeatTask(delayed);
      phase, polls, successes, history := Idle, 0, 0, [];
      new;
      hide Promised, WatchValid;
      if task.running > 0 {
        phase, polls := Polling, polls + 1;
      }
      Keeps();
    }

    method TimerFires()
      requires Valid() && task.timers > 0
      modifies this, task
      ensures Valid() && history == old(history) + [WatchTimer] && Promised()
      ensures polls == old(polls) + if old(task.isActive) then 1 else 0
    {
      hide WatchRun, Promised, WatchValid;
      WatchOneMore(WatchStart(delayed), history, WatchTimer);
      history := history + [WatchTimer];
      var before := task.running;
      task.TimerFires();
      if task.running > before {
        phase, polls := Polling, polls + 1;
      }
      Keeps();
    }

    method PollSettles(poll: Poll)
      requires Valid() && phase.Polling?
      modifies this, task
      ensures Valid() && history == old(history) + [WatchEvent.PollSettles(poll)] && Promised()
      ensures polls == old(polls) && (poll.True? <==> phase.Succeeding?)
    {
      hide WatchRun, Promised;
      Keeps();
      WatchOneMore(WatchStart(delayed), history, WatchEvent.PollSettles(poll));
      history := history + [WatchEvent.PollSettles(poll)];
      if poll.True? {
        task.Stop();
        successes := successes + 1;
        phase := Succeeding;
      } else {
        task.FnSettles();
        phase := Idle;
      }
      Keeps();
    }

    method SuccessSettles()
      requires Valid() && phase.Succeeding?
      modifies this, task
      ensures Valid() && history == old(history) + [WatchEvent.SuccessSettles] && Promised()
      ensures task.timers == task.running == 0 && polls == old(polls)
    {
      hide WatchRun, Promised;
      Keeps();
      WatchOneMore(WatchStart(delayed), history, WatchEvent.SuccessSettles);
      history := history + [WatchEvent.SuccessSettles];
      task.FnSettles();
      phase := Idle;
      Keeps();
    }

    method Stop()
      requires Valid()
      modifies this`history, task
      ensures Valid() && history == old(history) + [WatchStop] && Promised()
    {
      hide WatchRun, Promised, WatchValid;
      WatchOneMore(WatchStart(delayed), history, WatchStop);
      history := history + [WatchStop];
      task.Stop();
      Keeps();
    }
  }

  class RetryTask<A> {
    const maxAttemps: int
    const task: RepeatTask
    const futureValue: F.Future<A, Error>
    var phase: RetryPhase
    var calls: nat
    ghost var history: seq<RetryEvent<A>>

    function Value(): Retry<A>
      reads this, task, futureValue
    {
      Retry(task.Value(), phase, calls, futureValue.Value())
    }

    ghost predicate Valid()
      reads this, task, futureValue
    {
      RetryRun(maxAttemps, history) == Some(Value())
    }

    // No more attempts than allowed and none after a stop or a value, one timer or call at most, and a
    // resolved promise has the first value. Without a stop the task ends with that value, or rejected
    // after all its attempts.
    ghost predicate Promised()
      reads this, task, futureValue
    {
      && calls <= Limit(maxAttemps) && task.timers + task.running <= 1
      && (RetryStop in history || FirstValue(history).Some? ==> !task.isActive)
      && (futureValue.promise.Resolved? ==> FirstValue(history) == Some(futureValue.promise.value))
      && (Undisturbed(history) && task.timers == task.running == 0 ==>
        && futureValue.promise == Expected(FirstValue(history))
        && (FirstValue(history).None? ==> calls == Limit(maxAttemps)))
    }

    // The runs in `Task` carried over to this object.
    lemma Keeps()
      requires Valid()
      ensures Promised()
    {
      hide RetryRun, RetryValid, FirstValue, Undisturbed;
      AttemptsAreBounded(maxAttemps, history);
      BoundedMeans(Value(), maxAttemps);
      ResolvesToFirst(maxAttemps, history);
      if RetryStop in history || FirstValue(history).Some? {
        NoAttemptAfterEnd(maxAttemps, history);
      }
      if Undisturbed(history) {
        UndisturbedOutcome(maxAttemps, history, NoValue);
      }
    }

    lemma CallIsRunning()
      requires Valid()
      ensures phase.Resting? <==> task.running == 0
    {
      hide RetryRun;
      AttemptsAreBounded(maxAttemps, history);
    }

    // fn up to its first await.
    method FnStarts()
      modifies this`phase, this`calls, task, futureValue
      ensures Value() == old(Value()).FnStarts(maxAttemps)
    {
      if task.executionNumber > maxAttemps {
        task.Stop();
        futureValue.Reject(MaxRetries);
        phase := Rejecting;
      } else {
        calls := calls + 1;
        phase := Trying;
      }
    }

    constructor (maxAttemps: int)
      ensures fresh(task) && fresh(futureValue) && this.maxAttemps == maxAttemps
      ensures history == [] && Valid() && Promised()
    {
      this.maxAttemps := maxAttemps;
      futureValue := new F.Future<A, Error>();
      task := new RepeatTask(false);
      phase, calls, history := Resting, 0, [];
      new;
      hide Promised;
      FnStarts();
      Keeps();
    }

    method TimerFires()
      requires Valid() && task.timers > 0
      modifies this, task, futureValue
      ensures Valid() && history == old(history) + [RetryTimer] && Promised()
      ensures !old(futureValue.promise).Pending? ==> futureValue.promise == old(futureValue.promise)
      ensures RetryStop in old(history) || FirstValue(old(history)).Some? ==> calls == old(calls)
    {
      hide RetryRun, FirstValue, Promised;
      if RetryStop in history || FirstValue(history).Some? {
        NoAttemptAfterEnd(maxAttemps, history);
      }
      RetryOneMore(maxAttemps, history, RetryTimer);
      history := history + [RetryTimer];
      var before := task.running;
      task.TimerFires();
      if task.running > before {
        FnStarts();
      }
      Keeps();
    }

    method AttemptSettles(attempt: Attempt<A>)
      requires Valid() && phase.Trying?
      modifies this, task, futureValue
      ensures Valid() && history == old(history) + [RetryEvent.AttemptSettles(attempt)] && Promised()
      ensures !old(futureValue.promise).Pending? ==> futureValue.promise == old(futureValue.promise)
      ensures calls == old(calls) && (attempt.Value? ==> !task.isActive && !futureValue.promise.Pending?)
    {
      hide RetryRun, FirstValue, Promised;
      CallIsRunning();
      RetryOneMore(maxAttemps, history, RetryEvent.AttemptSettles(attempt));
      history := history + [RetryEvent.AttemptSettles(attempt)];
      if attempt.Value? {
        futureValue.Resolve(attempt.value);
        task.Stop();
      }
      task.FnSettles();
      phase := Resting;
      Keeps();
    }

    method RejectionSettles()
      requires Valid() && phase.Rejecting?
      modifies this, task
      ensures Valid() && history == old(history) + [RetryEvent.RejectionSettles] && Promised()
      ensures calls == old(calls) && task.timers == task.running == 0
    {
      hide RetryRun, FirstValue, Promised;
      AttemptsAreBounded(maxAttemps, history);
      RetryOneMore(maxAttemps, history, RetryEvent.RejectionSettles);
      history := history + [RetryEvent.RejectionSettles];
      task.FnSettles();
      phase := Resting;
      Keeps();
    }

    method Stop()
      requires Valid()
      modifies this`history, task, futureValue
      ensures Valid() && history == old(history) + [RetryStop] && Promised()
      ensures !old(futureValue.promise).Pending? ==> futureValue.promise == old(futureValue.promise)
      ensures !task.isActive && !futureValue.promise.Pending?
    {
      hide RetryRun, FirstValue, Promised;
      RetryOneMore(maxAttemps, history, RetryStop);
      history := history + [RetryStop];
      task.Stop();
      futureValue.Reject(Cancelled);
      Keeps();
    }
  }
}
