// Retrying a batch: applyWithRetry in cmd/cdc-applier/main.go over retryx.Do in internal/retryx/backoff.go.

module Retrying {
  import opened Wrappers
  import opened Events
  import opened Apply
  import opened Isolation

  /** Up to `attempts` calls of ApplyWithIsolation; a permanent error is not retried. */
  ghost function WithRetry(env: Env, db: Db, events: seq<Event>, positions: seq<Position>, attempts: nat): BatchResult
    decreases attempts
  {
    var r := WithIsolation(env, db, events, positions);
    if r.err.None? || r.err.value.Permanent? || attempts <= 1 then r
    else WithRetry(env, r.db, events, positions, attempts - 1)
  }

  method ApplyWithRetry(a: Applier, events: seq<Event>, positions: seq<Position>, maxAttempts: nat)
    returns (res: Summary, failed: seq<Event>, err: Option<ErrClass>)
    requires maxAttempts > 0
    modifies a
    ensures var r := WithRetry(a.env, old(a.State()), events, positions, maxAttempts);
            a.State() == r.db && res == r.summary && failed == r.failed && err == r.err
  {
    hide WithIsolation;
    ghost var goal := WithRetry(a.env, a.State(), events, positions, maxAttempts);
    var attempt := 1;
    while true
      invariant 1 <= attempt <= maxAttempts
      invariant goal == WithRetry(a.env, a.State(), events, positions, maxAttempts - attempt + 1)
      decreases maxAttempts - attempt
    {
      res, failed, err := ApplyWithIsolation(a, events, positions);
      if err.None? || err.value.Permanent? || attempt >= maxAttempts { return; }
      attempt := attempt + 1;
    }
  }

  /** A call that finds a fails, not permanently, and leaves b. */
  ghost predicate TriedAgain(env: Env, events: seq<Event>, positions: seq<Position>, a: Db, b: Db) {
    var r := WithIsolation(env, a, events, positions);
    r.err.Some? && r.err.value != Permanent && b == r.db
  }

  /** The calls of the loop, by the state each finds: the first finds the start, each later one what the call before has
      left after an error that was not permanent, and the last gives the result: a success, a permanent error or the
      end of the budget. */
  lemma {:induction false} RetryCalls(env: Env, db: Db, events: seq<Event>, positions: seq<Position>, attempts: nat)
    returns (found: seq<Db>)
    ensures 1 <= |found| <= (if attempts == 0 then 1 else attempts) && found[0] == db
    ensures forall i :: 0 <= i < |found| - 1 ==> TriedAgain(env, events, positions, found[i], found[i + 1])
    ensures var r := WithIsolation(env, found[|found| - 1], events, positions);
            r == WithRetry(env, db, events, positions, attempts) &&
            (r.err.None? || r.err.value == Permanent || |found| >= attempts)
    decreases attempts
  {
    hide WithIsolation;
    var r := WithIsolation(env, db, events, positions);
    found := [db];
    if r.err.Some? && r.err.value != Permanent && attempts > 1 {
      var rest := RetryCalls(env, r.db, events, positions, attempts - 1);
      found := [db] + rest;
      forall i | 0 <= i < |found| - 1
        ensures TriedAgain(env, events, positions, found[i], found[i + 1])
      {
        if i > 0 { assert found[i] == rest[i - 1] && found[i + 1] == rest[i]; }
      }
    }
  }

  /** However often it is retried: an error leaves the offsets as they were and, unless it is permanent, has used
      up the budget; success accounts for every event in its last call. */
  lemma {:induction false} WithRetryAccounts(env: Env, db: Db, events: seq<Event>, positions: seq<Position>,
                                             attempts: nat)
    requires events != []
    ensures var r := WithRetry(env, db, events, positions, attempts);
            (if r.err.Some? then r.db.marks == db.marks else EventsIn(r.segments) == events) &&
            (r.err.Some? && !r.err.value.Permanent? ==> r.db.calls >= db.calls + attempts)
    decreases attempts
  {
    hide WithIsolation, EventsIn;
    WithIsolationAccounts(env, db, events, positions);
    WithIsolationTakesOne(env, db, events, positions);
    var r := WithIsolation(env, db, events, positions);
    if r.err.Some? && !r.err.value.Permanent? && attempts > 1 {
      WithRetryAccounts(env, r.db, events, positions, attempts - 1);
    }
  }

  /** And what it hands back as dead letters: with those the last call committed, the whole batch; in batch order, and
      each rejected alone. */
  lemma {:induction false} RetryFailedAccounts(env: Env, db: Db, events: seq<Event>, positions: seq<Position>,
                                               attempts: nat) returns (at: seq<nat>)
    ensures var r := WithRetry(env, db, events, positions, attempts);
            Places(at, r.failed, events) && (forall e :: e in r.failed ==> RejectedAlone(env, e)) &&
            (r.err.None? ==> multiset(events) == multiset(Kept(r.segments)) + multiset(r.failed))
    decreases attempts
  {
    hide WithIsolation, Places, RejectedAlone, Kept, BisectedToEnd;
    var r := WithIsolation(env, db, events, positions);
    if r.err.Some? && !r.err.value.Permanent? && attempts > 1 {
      at := RetryFailedAccounts(env, r.db, events, positions, attempts - 1);
    } else {
      at := FailedAccounts(env, db, events, positions);
    }
  }

  lemma WithIsolationTakesOne(env: Env, db: Db, events: seq<Event>, positions: seq<Position>)
    requires events != []
    ensures WithIsolation(env, db, events, positions).db.calls >= db.calls + 1
  {
    var first := Applied(env, db, events, positions).0;
    ApplyTicks(env);
    BisectionTicks(AttemptOf(env), first, events);
    hide Isolate, AttemptOf;
  }

  lemma {:induction false} BisectionTicks(attempt: Attempt, db: Db, events: seq<Event>)
    requires Ticks(attempt)
    ensures db.calls <= Isolate(attempt, db, events).db.calls
    decreases |events|
  {
    if |events| > 1 && attempt(db, events).1.Failed? {
      var n := |events| / 2;
      BisectionTicks(attempt, attempt(db, events).0, events[..n]);
      BisectionTicks(attempt, Isolate(attempt, attempt(db, events).0, events[..n]).db, events[n..]);
    }
  }
}
