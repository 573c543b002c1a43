/** The batched maps of packages/utils/src/async.ts. mapFn's promise for an element settles to a fixed
    outcome at a moment that is out of the program's hands. */
module ConcurrentMap {
  import opened Options
  import Arithmetic

  // What an observer sees: calls of mapFn, by index, and their promises settling.
  datatype Event = Start(index: nat) | Settle(index: nat)

  function Started(log: seq<Event>): nat {
    if log == [] then 0 else Started(log[..|log| - 1]) + if log[|log| - 1].Start? then 1 else 0
  }

  function Settled(log: seq<Event>): (r: set<nat>) {
    if log == [] then {}
    else
      var before, e := Settled(log[..|log| - 1]), log[|log| - 1];
      if e.Settle? then before + {e.index} else before
  }

  // The first index of the batch of an index.
  function BatchOf(i: nat, concurrency: nat): nat
    requires concurrency >= 1
  {
    i - i % concurrency
  }

  // The index after the last one of its batch.
  function BatchEnd(i: nat, concurrency: nat, total: nat): nat
    requires concurrency >= 1
  {
    var end := BatchOf(i, concurrency) + concurrency;
    if end < total then end else total
  }

  // One call per index, in order; a call only after every earlier batch has settled; each settles once, and none
  // before all the calls of its batch have been made.
  ghost predicate Orderly(log: seq<Event>, concurrency: nat, total: nat)
    requires concurrency >= 1
  {
    log == [] || (
      var before := log[..|log| - 1];
      && Orderly(before, concurrency, total)
      && match log[|log| - 1]
         case Start(i) =>
           && i == Started(before) && i < total
           && forall j: nat :: j < BatchOf(i, concurrency) ==> j in Settled(before)
         case Settle(i) =>
           && BatchEnd(i, concurrency, total) <= Started(before)
           && i < Started(before) && i !in Settled(before))
  }

  lemma Grow(log: seq<Event>, e: Event)
    ensures Started(log + [e]) == Started(log) + if e.Start? then 1 else 0
    ensures Settled(log + [e]) == Settled(log) + if e.Settle? then {e.index} else {}
  {
    assert (log + [e])[..|log|] == log;
  }

  lemma GrowOrderly(log: seq<Event>, e: Event, concurrency: nat, total: nat)
    requires concurrency >= 1 && Orderly(log, concurrency, total)
    requires e.Start? ==>
      && e.index == Started(log) && e.index < total
      && forall j: nat :: j < BatchOf(e.index, concurrency) ==> j in Settled(log)
    requires e.Settle? ==>
      BatchEnd(e.index, concurrency, total) <= Started(log) && e.index < Started(log) && e.index !in Settled(log)
    ensures Orderly(log + [e], concurrency, total)
  {
    assert (log + [e])[..|log|] == log;
  }

  function UpTo(n: nat): (r: set<nat>)
    ensures |r| == n
    ensures forall j: nat :: j in r <==> j < n
  {
    if n == 0 then {} else UpTo(n - 1) + {n - 1}
  }

  lemma Subset(s: set<nat>, t: set<nat>)
    requires s <= t
    ensures |s| <= |t| && |t - s| == |t| - |s|
  {
    assert t == s + (t - s);
  }

  lemma StartInBatch(settled: set<nat>, i: nat, concurrency: nat)
    requires concurrency >= 1 && forall j: nat :: j < BatchOf(i, concurrency) ==> j in settled
    ensures i + 1 - |settled| <= concurrency
  {
    var base := BatchOf(i, concurrency);
    Subset(UpTo(base), settled);
    assert i - base < concurrency;
  }

  // At every moment of an orderly run at most `concurrency` calls are in flight.
  lemma {:induction false} BoundedInFlight(log: seq<Event>, concurrency: nat, total: nat, n: nat)
    requires concurrency >= 1 && Orderly(log, concurrency, total) && n <= |log|
    ensures Settled(log[..n]) <= UpTo(Started(log[..n]))
    ensures Started(log[..n]) - |Settled(log[..n])| <= concurrency
  {
    if log == [] {
    } else if n < |log| {
      var before := log[..|log| - 1];
      BoundedInFlight(before, concurrency, total, n);
      assert before[..n] == log[..n];
    } else {
      assert log[..n] == log;
      var before, e := log[..|log| - 1], log[|log| - 1];
      BoundedInFlight(before, concurrency, total, |before|);
      assert before[..|before|] == before;
      if e.Start? {
        StartInBatch(Settled(before), e.index, concurrency);
      }
    }
  }

  lemma SameBatch(i: nat, k: nat, concurrency: nat)
    requires concurrency >= 1 && i % concurrency == 0 && k < concurrency
    ensures BatchOf(i + k, concurrency) == i
  {
    assert i == concurrency * (i / concurrency);
    Arithmetic.QuotientIs(i + k, concurrency, i / concurrency);
  }

  // An index from the first one of another's batch on, and before its end, is of that batch.
  lemma BatchHolds(i: nat, j: nat, concurrency: nat)
    requires concurrency >= 1 && BatchOf(i, concurrency) <= j < BatchOf(i, concurrency) + concurrency
    ensures BatchOf(j, concurrency) == BatchOf(i, concurrency)
  {
    var base, q := BatchOf(i, concurrency), i / concurrency;
    assert base == concurrency * q;
    Arithmetic.QuotientIs(base, concurrency, q);
    SameBatch(base, j - base, concurrency);
  }

  // Only the last batch with a call made can have calls in flight.
  lemma {:induction false} EarlierBatchesSettled(log: seq<Event>, concurrency: nat, total: nat)
    requires concurrency >= 1 && Orderly(log, concurrency, total) && Started(log) > 0
    ensures Settled(log) <= UpTo(Started(log)) && Started(log) <= total
    ensures UpTo(BatchOf(Started(log) - 1, concurrency)) <= Settled(log)
  {
    hide BatchOf, BatchEnd;
    BoundedInFlight(log, concurrency, total, |log|);
    assert log[..|log|] == log;
    if log[|log| - 1].Settle? {
      EarlierBatchesSettled(log[..|log| - 1], concurrency, total);
    }
  }

  lemma BatchBounds(i: nat, concurrency: nat)
    requires concurrency >= 1
    ensures BatchOf(i, concurrency) <= i < BatchOf(i, concurrency) + concurrency
  {
  }

  // The last call made is the last one of the batch of a settling call.
  lemma BatchIsComplete(i: nat, last: nat, concurrency: nat, total: nat)
    requires concurrency >= 1 && BatchOf(last, concurrency) <= i <= last < total
    requires BatchEnd(i, concurrency, total) <= last + 1
    ensures BatchOf(i, concurrency) == BatchOf(last, concurrency)
    ensures var left := total - BatchOf(i, concurrency);
      last + 1 - BatchOf(i, concurrency) == if left < concurrency then left else concurrency
  {
    hide BatchOf;
    BatchBounds(last, concurrency);
    BatchHolds(last, i, concurrency);
  }

  lemma OnlyEarlier(i: nat, started: nat, concurrency: nat, settled: set<nat>)
    requires concurrency >= 1 && UpTo(BatchOf(i, concurrency)) <= settled <= UpTo(started)
    requires started <= BatchOf(i, concurrency) + concurrency
    requires forall j :: j in settled ==> BatchOf(j, concurrency) != BatchOf(i, concurrency)
    ensures settled == UpTo(BatchOf(i, concurrency))
  {
    hide BatchOf;
    forall j: nat | BatchOf(i, concurrency) <= j < started
      ensures j !in settled
    {
      BatchHolds(i, j, concurrency);
    }
  }

  // When the first promise of a batch settles, the whole batch is in flight: `concurrency` calls, or all that
  // are left.
  lemma FullyInFlight(log: seq<Event>, concurrency: nat, total: nat, i: nat)
    requires concurrency >= 1 && Orderly(log + [Settle(i)], concurrency, total)
    requires forall j :: j in Settled(log) ==> BatchOf(j, concurrency) != BatchOf(i, concurrency)
    ensures var left := total - BatchOf(i, concurrency);
      Started(log) - |Settled(log)| == if left < concurrency then left else concurrency
  {
    hide Started, Settled, BatchOf, BatchEnd;
    assert (log + [Settle(i)])[..|log|] == log;
    EarlierBatchesSettled(log, concurrency, total);
    var last := Started(log) - 1;
    assert BatchOf(last, concurrency) <= i;
    BatchIsComplete(i, last, concurrency, total);
    OnlyEarlier(i, last + 1, concurrency, Settled(log));
  }

  // mapFn over the elements from one index to another, in order.
  ghost predicate AllOk<A, B, E>(xs: seq<A>, f: (A, nat) -> Result<B, E>, from: nat, to: nat)
    requires from <= to <= |xs|
  {
    forall i :: from <= i < to ==> f(xs[i], i).Ok?
  }

  function Values<A, B, E>(xs: seq<A>, f: (A, nat) -> Result<B, E>, from: nat, to: nat): (r: seq<B>)
    requires from <= to <= |xs| && AllOk(xs, f, from, to)
    ensures |r| == to - from
  {
    seq(to - from, k requires 0 <= k < to - from => f(xs[from + k], from + k).value)
  }

  lemma WholeBatch(i: nat, j: nat, end: nat, concurrency: nat, total: nat)
    requires concurrency >= 1 && i % concurrency == 0 && i <= j < end <= i + concurrency
    requires end <= total && (end == i + concurrency || end == total)
    ensures BatchEnd(j, concurrency, total) == end
  {
    hide BatchOf;
    SameBatch(i, j - i, concurrency);
  }

  // The calls of one batch, in order.
  method StartAll(before: seq<Event>, i: nat, sliceSize: nat, concurrency: nat, total: nat) returns (log: seq<Event>)
    requires concurrency >= 1 && i % concurrency == 0 && sliceSize <= concurrency && i + sliceSize <= total
    requires Orderly(before, concurrency, total) && Started(before) == i && Settled(before) == UpTo(i)
    ensures Orderly(log, concurrency, total) && Started(log) == i + sliceSize && Settled(log) == UpTo(i)
  {
    hide Orderly, Started, Settled, BatchOf, UpTo;
    log := before;
    for k := 0 to sliceSize
      invariant Orderly(log, concurrency, total) && Started(log) == i + k && Settled(log) == UpTo(i)
    {
      SameBatch(i, k, concurrency);
      Grow(log, Start(i + k));
      GrowOrderly(log, Start(i + k), concurrency, total);
      log := log + [Start(i + k)];
    }
  }

  // Promise.all over one batch: its calls settle in any order, until all have or one is rejected.
  method Batch<A, B, E>(
    xs: seq<A>, f: (A, nat) -> Result<B, E>, i: nat, sliceSize: nat, concurrency: nat, before: seq<Event>)
    returns (r: Result<seq<B>, E>, log: seq<Event>)
    requires concurrency >= 1 && i % concurrency == 0 && 1 <= sliceSize <= concurrency && i + sliceSize <= |xs|
    requires sliceSize == concurrency || i + sliceSize == |xs|
    requires Orderly(before, concurrency, |xs|) && Started(before) == i && Settled(before) == UpTo(i)
    ensures Orderly(log, concurrency, |xs|) && Started(log) == i + sliceSize
    ensures r.Ok? <==> AllOk(xs, f, i, i + sliceSize)
    ensures r.Ok? ==> Settled(log) == UpTo(i + sliceSize) && r.value == Values(xs, f, i, i + sliceSize)
    ensures r.Err? ==> exists j: nat :: i <= j < i + sliceSize && f(xs[j], j) == Err(r.error)
  {
    hide Orderly, Started, Settled, UpTo;
    log := StartAll(before, i, sliceSize, concurrency, |xs|);
    var failed;
    failed, log := SettleAll(xs, f, i, i + sliceSize, concurrency, log);
    if failed.Some? {
      return Err(failed.value), log;
    }
    assert AllOk(xs, f, i, i + sliceSize);
    return Ok(seq(sliceSize, k requires 0 <= k < sliceSize => f(xs[i + k], i + k).value)), log;
  }

  // One pending call settling.
  lemma SettleOne(log: seq<Event>, end: nat, concurrency: nat, total: nat, pending: set<nat>, j: nat)
    requires concurrency >= 1 && Orderly(log, concurrency, total) && Started(log) == end
    requires pending <= UpTo(end) && Settled(log) == UpTo(end) - pending && j in pending
    requires BatchEnd(j, concurrency, total) == end
    ensures var more := log + [Settle(j)];
      && Orderly(more, concurrency, total) && Started(more) == end
      && Settled(more) == UpTo(end) - (pending - {j})
  {
    hide Orderly, Started, Settled, UpTo, BatchEnd;
    Grow(log, Settle(j));
    GrowOrderly(log, Settle(j), concurrency, total);
  }

  method SettleAll<A, B, E>(
    xs: seq<A>, f: (A, nat) -> Result<B, E>, i: nat, end: nat, concurrency: nat, started: seq<Event>)
    returns (failed: Option<E>, log: seq<Event>)
    requires concurrency >= 1 && i % concurrency == 0 && i <= end <= |xs| && end <= i + concurrency
    requires end == i + concurrency || end == |xs|
    requires Orderly(started, concurrency, |xs|) && Started(started) == end && Settled(started) == UpTo(i)
    ensures Orderly(log, concurrency, |xs|) && Started(log) == end
    ensures failed.None? ==> Settled(log) == UpTo(end) && forall j: nat :: i <= j < end ==> f(xs[j], j).Ok?
    ensures failed.Some? ==> exists j: nat :: i <= j < end && f(xs[j], j) == Err(failed.value)
  {
    hide Orderly, Started, Settled, UpTo, BatchEnd;
    log := started;
    var pending := UpTo(end) - UpTo(i);
    while pending != {}
      invariant Orderly(log, concurrency, |xs|) && Started(log) == end
      invariant pending <= UpTo(end) - UpTo(i) && Settled(log) == UpTo(end) - pending
      invariant forall j: nat :: i <= j < end && j !in pending ==> f(xs[j], j).Ok?
      decreases pending
    {
      var j :| j in pending;
      WholeBatch(i, j, end, concurrency, |xs|);
      SettleOne(log, end, concurrency, |xs|, pending, j);
      log := log + [Settle(j)];
      pending := pending - {j};
      if f(xs[j], j).Err? {
        return Some(f(xs[j], j).error), log;
      }
    }
    return None, log;
  }

  // Index i is in the first batch with an error, and the last that was started.
  ghost predicate FailedIn<A, B, E>(xs: seq<A>, f: (A, nat) -> Result<B, E>, i: nat, concurrency: nat, log: seq<Event>)
    requires concurrency >= 1 && i < |xs|
  {
    AllOk(xs, f, 0, BatchOf(i, concurrency)) && i < Started(log) <= BatchOf(i, concurrency) + concurrency
  }

  // Resolves exactly when every call does, then to the same list as a sequential map, having called mapFn
  // once per index; otherwise it rejects with the error of a call in the first batch that has one, and
  // starts nothing after that batch.
  method ConcurrentMap<A, B, E>(concurrency: nat, xs: seq<A>, f: (A, nat) -> Result<B, E>)
    returns (r: Result<seq<B>, E>, log: seq<Event>)
    requires concurrency >= 1
    ensures Orderly(log, concurrency, |xs|)
    ensures r.Ok? <==> AllOk(xs, f, 0, |xs|)
    ensures r.Ok? ==> r.value == Values(xs, f, 0, |xs|)
    ensures r.Ok? ==> Started(log) == |xs| && Settled(log) == UpTo(|xs|)
    ensures r.Err? ==> exists i: nat :: i < |xs| && f(xs[i], i) == Err(r.error) && FailedIn(xs, f, i, concurrency, log)
  {
    hide Orderly, Started, Settled, UpTo, BatchOf, AllOk, Values, FailedIn, Progress;
    var res: seq<B> := [];
    var i: nat := 0;
    log := [];
    ProgressStart(concurrency, xs, f);
    while i < |xs|
      invariant i < |xs| ==> i % concurrency == 0
      invariant Progress(concurrency, xs, f, if i < |xs| then i else |xs|, res, log)
      decreases |xs| - i
    {
      ProgressMeans(concurrency, xs, f, i, res, log);
      var remaining := |xs| - i;
      var sliceSize := if remaining < concurrency then remaining else concurrency;
      var values;
      values, log := Batch(xs, f, i, sliceSize, concurrency, log);
      if values.Err? {
        Failure(concurrency, xs, f, i, sliceSize, values.error, log);
        return Err(values.error), log;
      }
      ProgressStep(concurrency, xs, f, i, i + sliceSize, log);
      res := res + values.value;
      NextMultiple(i, concurrency);
      i := i + concurrency;
    }
    ProgressMeans(concurrency, xs, f, |xs|, res, log);
    return Ok(res), log;
  }

  // All batches before index n are done.
  ghost predicate Progress<A, B, E>(
    concurrency: nat, xs: seq<A>, f: (A, nat) -> Result<B, E>, n: nat, res: seq<B>, log: seq<Event>)
    requires concurrency >= 1 && n <= |xs|
  {
    && Orderly(log, concurrency, |xs|)
    && AllOk(xs, f, 0, n) && res == Values(xs, f, 0, n)
    && Started(log) == n && Settled(log) == UpTo(n)
  }

  lemma ProgressStart<A, B, E>(concurrency: nat, xs: seq<A>, f: (A, nat) -> Result<B, E>)
    requires concurrency >= 1
    ensures Progress(concurrency, xs, f, 0, [], [])
  {
  }

  lemma ProgressMeans<A, B, E>(
    concurrency: nat, xs: seq<A>, f: (A, nat) -> Result<B, E>, n: nat, res: seq<B>, log: seq<Event>)
    requires concurrency >= 1 && n <= |xs| && Progress(concurrency, xs, f, n, res, log)
    ensures Orderly(log, concurrency, |xs|) && Started(log) == n && Settled(log) == UpTo(n)
    ensures AllOk(xs, f, 0, n) && res == Values(xs, f, 0, n)
  {
  }

  lemma ProgressStep<A, B, E>(
    concurrency: nat, xs: seq<A>, f: (A, nat) -> Result<B, E>, i: nat, j: nat, log: seq<Event>)
    requires concurrency >= 1 && i <= j <= |xs| && AllOk(xs, f, 0, i) && AllOk(xs, f, i, j)
    requires Orderly(log, concurrency, |xs|) && Started(log) == j && Settled(log) == UpTo(j)
    ensures Progress(concurrency, xs, f, j, Values(xs, f, 0, i) + Values(xs, f, i, j), log)
  {
    assert Values(xs, f, 0, i) + Values(xs, f, i, j) == Values(xs, f, 0, j);
  }

  lemma Failure<A, B, E>(
    concurrency: nat, xs: seq<A>, f: (A, nat) -> Result<B, E>, i: nat, sliceSize: nat, e: E, log: seq<Event>)
    requires concurrency >= 1 && i % concurrency == 0 && sliceSize <= concurrency && i + sliceSize <= |xs|
    requires AllOk(xs, f, 0, i) && Started(log) == i + sliceSize
    requires exists j: nat :: i <= j < i + sliceSize && f(xs[j], j) == Err(e)
    ensures !AllOk(xs, f, 0, |xs|)
    ensures exists j: nat :: j < |xs| && f(xs[j], j) == Err(e) && FailedIn(xs, f, j, concurrency, log)
  {
    hide Started, BatchOf;
    var j: nat :| i <= j < i + sliceSize && f(xs[j], j) == Err(e);
    SameBatch(i, j - i, concurrency);
    assert FailedIn(xs, f, j, concurrency, log);
  }

  lemma NextMultiple(i: nat, d: nat)
    requires d >= 1 && i % d == 0
    ensures (i + d) % d == 0
  {
    assert i == d * (i / d);
    assert d * (i / d + 1) == i + d;
    Arithmetic.QuotientIs(i + d, d, i / d + 1);
  }

  // The same over the values of an object, whose keys come in some order.
  method ConcurrentValuesMap<A, B, E>(
    concurrency: nat, x: map<string, A>, xk: seq<string>, f: (A, string) -> Result<B, E>)
    returns (r: Result<map<string, B>, E>, log: seq<Event>)
    requires concurrency >= 1
    requires (forall k :: k in xk <==> k in x) && forall i, j :: 0 <= i < j < |xk| ==> xk[i] != xk[j]
    ensures r.Ok? <==> forall k :: k in x ==> f(x[k], k).Ok?
    ensures r.Ok? ==> r.value.Keys == x.Keys && forall k :: k in x ==> r.value[k] == f(x[k], k).value
    ensures r.Err? ==> exists k :: k in x && f(x[k], k) == Err(r.error)
    ensures Orderly(log, concurrency, |xk|) && (r.Ok? ==> Started(log) == |xk| && Settled(log) == UpTo(|xk|))
  {
    hide Orderly, Started, Settled, UpTo, FailedIn, BatchOf;
    var xv := seq(|xk|, i requires 0 <= i < |xk| => x[xk[i]]);
    // mapFn is only called with an index of xk; any other index gets a key of no consequence.
    var byIndex := (val: A, idx: nat) => f(val, if idx < |xk| then xk[idx] else "");
    var res;
    res, log := ConcurrentMap(concurrency, xv, byIndex);
    if res.Err? {
      ghost var i: nat :| i < |xv| && byIndex(xv[i], i) == Err(res.error);
      assert xk[i] in x && f(x[xk[i]], xk[i]) == Err(res.error);
      return Err(res.error), log;
    }
    assert forall i :: 0 <= i < |xk| ==> byIndex(xv[i], i) == f(x[xk[i]], xk[i]);
    assert forall i :: 0 <= i < |xk| ==> f(x[xk[i]], xk[i]).Ok? && res.value[i] == f(x[xk[i]], xk[i]).value;
    var output := Collect(xk, res.value);
    forall k | k in x
      ensures k in output && f(x[k], k).Ok? && output[k] == f(x[k], k).value
    {
      var i :| 0 <= i < |xk| && xk[i] == k;
    }
    return Ok(output), log;
  }

  // The reduce that writes each result under its key.
  method Collect<B>(xk: seq<string>, res: seq<B>) returns (output: map<string, B>)
    requires |xk| == |res| && forall i, j :: 0 <= i < j < |xk| ==> xk[i] != xk[j]
    ensures output.Keys == set k | k in xk
    ensures forall i :: 0 <= i < |xk| ==> output[xk[i]] == res[i]
  {
    output := map[];
    for index := 0 to |res|
      invariant output.Keys == set k | k in xk[..index]
      invariant forall i :: 0 <= i < index ==> xk[i] in output && output[xk[i]] == res[i]
    {
      assert xk[..index + 1] == xk[..index] + [xk[index]];
      output := output[xk[index] := res[index]];
    }
    assert xk[..|xk|] == xk;
  }
}
