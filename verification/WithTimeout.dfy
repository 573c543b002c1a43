/** `withTimeout` of packages/faucet/src/database-helper.ts: a timer races an asynchronous function for
    one promise. */
module WithTimeout {
  import opened Options

  datatype Promise<+A> = Pending | Resolved(value: A) | Rejected

  function TimedOut<A>(onTimeout: Option<A>): Promise<A> {
    if onTimeout.Some? then Resolved(onTimeout.value) else Rejected
  }

  datatype Timer = Armed | Fired | Cleared

  // `calls` counts the resolve and reject calls made; `delivered` says that the function's own promise,
  // which settles at most once, has reached its handler.
  datatype Race<A(!new)> = Race(timer: Timer, delivered: bool, promise: Promise<A>, calls: nat) {

    // A promise keeps its first outcome and ignores any later call.
    function Settle(outcome: Promise<A>): Race<A> {
      this.(promise := if promise.Pending? then outcome else promise, calls := calls + 1)
    }

    // The timer callback: `timeoutHandler = null`, then resolve with what onTimeout returns, or reject when
    // there is no onTimeout.
    function Fire(onTimeout: Option<A>): Race<A> {
      this.(timer := Fired).Settle(TimedOut(onTimeout))
    }

    // The then/catch handler: only while `timeoutHandler` is not null.
    function Deliver(outcome: Promise<A>): Race<A> {
      if timer.Fired? then this.(delivered := true)
      else this.(timer := Cleared, delivered := true).Settle(outcome)
    }

    ghost predicate Valid() {
      && calls == (if timer.Armed? then 0 else 1)
      && (promise.Pending? <==> timer.Armed?)
      && (timer.Armed? ==> !delivered)
      && (timer.Cleared? ==> delivered)
    }

    // What may happen next: the armed timer fires, or the function settles, which it does once.
    ghost predicate Next(next: Race<A>, onTimeout: Option<A>) {
      || (timer.Armed? && next == Fire(onTimeout))
      || (!delivered && exists outcome: Promise<A> :: !outcome.Pending? && next == Deliver(outcome))
    }
  }

  function Start<A(!new)>(): Race<A> {
    Race(Armed, false, Pending, 0)
  }

  ghost predicate IsRun<A(!new)>(run: seq<Race<A>>, onTimeout: Option<A>) {
    && |run| > 0
    && run[0] == Start()
    && forall i :: 0 <= i < |run| - 1 ==> run[i].Next(run[i + 1], onTimeout)
  }

  // In every run resolve and reject are called at most once between them, exactly once when the timer has
  // fired or the function has settled, and a settled outcome never changes. Once the timer has fired it is
  // what onTimeout returned, or a rejection without one.
  lemma {:induction false} SettlesOnce<A(!new)>(run: seq<Race<A>>, onTimeout: Option<A>, i: nat, j: nat)
    requires IsRun(run, onTimeout) && i <= j < |run|
    ensures run[j].Valid() && run[j].calls <= 1
    ensures !run[i].promise.Pending? ==> run[j].promise == run[i].promise
    ensures run[j].timer.Fired? ==> run[j].promise == TimedOut(onTimeout)
    decreases j
  {
    if j == 0 {
    } else {
      SettlesOnce(run, onTimeout, if i < j then i else j - 1, j - 1);
      assert run[j - 1].Next(run[j - 1 + 1], onTimeout);
    }
  }

  // The callbacks as they share `timeoutHandler` and the promise.
  class Racer<A(!new)> {
    var timer: Timer
    var delivered: bool
    var promise: Promise<A>
    var calls: nat

    function Value(): Race<A>
      reads this
    {
      Race(timer, delivered, promise, calls)
    }

    constructor ()
      ensures Value() == Start() && Value().Valid()
    {
      timer, delivered, promise, calls := Armed, false, Pending, 0;
    }

    method Settle(outcome: Promise<A>)
      modifies this
      ensures Value() == old(Value()).Settle(outcome)
    {
      if promise.Pending? {
        promise := outcome;
      }
      calls := calls + 1;
    }

    method TimerFires(onTimeout: Option<A>)
      requires Value().Valid() && timer.Armed?
      modifies this
      ensures Value() == old(Value()).Fire(onTimeout) && old(Value()).Next(Value(), onTimeout)
      ensures Value().Valid() && promise == TimedOut(onTimeout) && calls == 1
    {
      timer := Fired;
      if onTimeout.Some? {
        Settle(Resolved(onTimeout.value));
      } else {
        Settle(Rejected);
      }
    }

    method FunctionSettles(outcome: Promise<A>, ghost onTimeout: Option<A>)
      requires Value().Valid() && !delivered && !outcome.Pending?
      modifies this
      ensures Value() == old(Value()).Deliver(outcome) && old(Value()).Next(Value(), onTimeout)
      ensures Value().Valid() && calls == 1
      ensures promise == if old(timer).Fired? then old(promise) else outcome
    {
      delivered := true;
      if !timer.Fired? {
        timer := Cleared;
        Settle(outcome);
      }
    }
  }
}
