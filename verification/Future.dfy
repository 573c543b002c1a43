/** The externally settled promise of packages/utils/src/future.ts. */
module Future {
  import opened Options

  datatype Outcome<+T, +E> = Pending | Resolved(value: T) | Rejected(error: E)

  datatype Call<+T, +E> = Resolve(value: T) | Reject(error: E)

  // The two flags follow the latest call; the promise behind them keeps the first one.
  datatype State<T, E> = State(finished: bool, error: Option<E>, outcome: Outcome<T, E>) {
    function Apply(call: Call<T, E>): State<T, E> {
      match call
      case Resolve(v) => State(true, None, if outcome.Pending? then Resolved(v) else outcome)
      case Reject(e) => State(true, Some(e), if outcome.Pending? then Rejected(e) else outcome)
    }
  }

  function New<T, E>(): State<T, E> {
    State(false, None, Pending)
  }

  class Future<T, E> {
    var finished: bool
    var error: Option<E>
    var promise: Outcome<T, E>

    function Value(): State<T, E>
      reads this
    {
      State(finished, error, promise)
    }

    constructor ()
      ensures Value() == New()
    {
      finished, error, promise := false, None, Pending;
    }

    method Resolve(value: T)
      modifies this
      ensures Value() == old(Value()).Apply(Call.Resolve(value))
    {
      finished := true;
      error := None;
      if promise.Pending? {
        promise := Resolved(value);
      }
    }

    method Reject(e: E)
      modifies this
      ensures Value() == old(Value()).Apply(Call.Reject(e))
    {
      finished := true;
      error := Some(e);
      if promise.Pending? {
        promise := Rejected(e);
      }
    }
  }

  function After<T, E>(calls: seq<Call<T, E>>): State<T, E> {
    if calls == [] then New() else After(calls[..|calls| - 1]).Apply(calls[|calls| - 1])
  }

  function OutcomeOf<T, E>(call: Call<T, E>): Outcome<T, E> {
    match call
    case Resolve(v) => Resolved(v)
    case Reject(e) => Rejected(e)
  }

  function ErrorOf<T, E>(call: Call<T, E>): Option<E> {
    match call
    case Resolve(_) => None
    case Reject(e) => Some(e)
  }

  // The promise has the outcome of the first call, the `error` getter that of the last.
  lemma {:induction false} FirstCallSettles<T, E>(calls: seq<Call<T, E>>)
    ensures After(calls).finished <==> calls != []
    ensures calls != [] ==> After(calls).outcome == OutcomeOf(calls[0])
    ensures calls != [] ==> After(calls).error == ErrorOf(calls[|calls| - 1])
  {
    if calls == [] {
    } else {
      FirstCallSettles(calls[..|calls| - 1]);
    }
  }

  // What a reader of `error` takes the promise to be.
  ghost predicate ErrorTellsOutcome<T, E>(s: State<T, E>) {
    match s.outcome
    case Pending => !s.finished
    case Resolved(_) => s.finished && s.error == None
    case Rejected(e) => s.finished && s.error == Some(e)
  }

  // `error` describes the promise exactly when the first and the last call say the same about errors;
  // a cancellation after a value, or a value after a cancellation, makes it wrong.
  lemma ErrorTellsOutcomeIff<T, E>(calls: seq<Call<T, E>>)
    ensures ErrorTellsOutcome(After(calls)) <==>
      calls == [] || ErrorOf(calls[0]) == ErrorOf(calls[|calls| - 1])
  {
    FirstCallSettles(calls);
  }
}
