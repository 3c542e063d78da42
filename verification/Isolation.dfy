// Bisection of a failing batch (ApplyWithIsolation and isolate in internal/sink/applier.go).

module Isolation {
  import opened Wrappers
  import opened FencedRows
  import opened Events
  import opened Coalescing
  import opened Apply
  import opened Refinement
  import opened CommittedRows

  /** What became of one stretch of the batch: committed in one transaction, on the rows as they were before
      it, or dead-lettered after failing alone in transaction `call`. */
  datatype Segment = Committed(events: seq<Event>, before: Rows) | Dead(event: Event, kind: ErrClass, call: nat)

  datatype Isolated = Isolated(db: Db, segments: seq<Segment>, applied: nat, deleted: nat, err: Option<ErrClass>)

  /** One try at committing some events without offsets. */
  type Attempt = (Db, seq<Event>) -> (Db, Outcome<Summary>)

  ghost function AttemptOf(env: Env): Attempt { (db, events) => Applied(env, db, events, []) }

  /** isolate, over any attempt. */
  ghost function Isolate(attempt: Attempt, db: Db, events: seq<Event>): Isolated
    decreases |events|, 1
  {
    if events == [] then Isolated(db, [], 0, 0, None)
    else
      var (after, o) := attempt(db, events);
      if o.Done? then Isolated(after, [Committed(events, db.rows)], o.value.applied, o.value.deleted, None)
      else if o.kind.Transient? then Isolated(after, [], 0, 0, Some(o.kind))
      else if |events| == 1 then Isolated(after, [Dead(events[0], o.kind, db.calls)], 0, 0, None)
      else IsolateHalves(attempt, after, events)
  }

  ghost function IsolateHalves(attempt: Attempt, db: Db, events: seq<Event>): Isolated
    requires |events| > 1
    decreases |events|, 0
  {
    var left := Isolate(attempt, db, events[..|events| / 2]);
    if left.err.Some? then left.(applied := 0, deleted := 0)
    else
      var right := Isolate(attempt, left.db, events[|events| / 2..]);
      if right.err.Some? then Isolated(right.db, left.segments + right.segments, 0, 0, right.err)
      else Isolated(right.db, left.segments + right.segments, left.applied + right.applied,
                    left.deleted + right.deleted, None)
  }

  function EventsIn(segments: seq<Segment>): seq<Event> {
    if segments == [] then []
    else (match segments[0] case Committed(es, _) => es case Dead(e, _, _) => [e]) + EventsIn(segments[1..])
  }

  /** The events that reached the target, in batch order. */
  function Kept(segments: seq<Segment>): seq<Event> {
    if segments == [] then []
    else (if segments[0].Committed? then segments[0].events else []) + Kept(segments[1..])
  }

  function DeadLettered(segments: seq<Segment>): seq<Event> {
    if segments == [] then []
    else (if segments[0].Dead? then [segments[0].event] else []) + DeadLettered(segments[1..])
  }

  /** What ApplyWithIsolation leaves and returns. */
  datatype BatchResult = BatchResult(db: Db, segments: seq<Segment>, summary: Summary, failed: seq<Event>,
                                     err: Option<ErrClass>)

  const NOTHING := Summary(0, 0, 0)

  /** ApplyWithIsolation: offsets move only after every event is applied or dead-lettered; if only storing them
      fails, the dead letters and counts are returned with the error. */
  ghost function WithIsolation(env: Env, db: Db, events: seq<Event>, positions: seq<Position>): BatchResult {
    var (first, o) := Applied(env, db, events, positions);
    if o.Done? then BatchResult(first, if events == [] then [] else [Committed(events, db.rows)], o.value, [], None)
    else if o.kind.Transient? || events == [] then BatchResult(first, [], NOTHING, [], Some(o.kind))
    else
      var r := Isolate(AttemptOf(env), first, events);
      var summary, failed := Summary(r.applied, r.deleted, 0), DeadLettered(r.segments);
      if r.err.Some? then BatchResult(r.db, r.segments, NOTHING, [], r.err)
      else if positions == [] then BatchResult(r.db, r.segments, summary, failed, None)
      else
        var (last, offsets) := Applied(env, r.db, [], positions);
        BatchResult(last, r.segments, summary, failed, if offsets.Done? then None else Some(offsets.kind))
  }

  /** What isolate returns: on error, nothing but the error. */
  ghost predicate Reports(r: Isolated, failed: seq<Event>, applied: nat, deleted: nat, err: Option<ErrClass>) {
    err == r.err && if err.Some? then failed == [] && applied == deleted == 0
                    else failed == DeadLettered(r.segments) && applied == r.applied && deleted == r.deleted
  }

  method IsolateBatch(a: Applier, events: seq<Event>)
    returns (failed: seq<Event>, applied: nat, deleted: nat, err: Option<ErrClass>)
    modifies a
    ensures var r := Isolate(AttemptOf(a.env), old(a.State()), events);
            a.State() == r.db && Reports(r, failed, applied, deleted, err)
    decreases |events|, 1
  {
    if |events| == 0 { return [], 0, 0, None; }
    ghost var start := a.State();
    var res := a.Apply(events, []);
    if res.Done? {
      Single(Committed(events, start.rows));
      return [], res.value.applied, res.value.deleted, None;
    }
    if res.kind.Transient? { return [], 0, 0, Some(res.kind); }
    if |events| == 1 {
      Single(Dead(events[0], res.kind, start.calls));
      return [events[0]], 0, 0, None;
    }
    failed, applied, deleted, err := BisectBatch(a, events);
  }

  method BisectBatch(a: Applier, events: seq<Event>)
    returns (failed: seq<Event>, applied: nat, deleted: nat, err: Option<ErrClass>)
    requires |events| > 1
    modifies a
    ensures var r := IsolateHalves(AttemptOf(a.env), old(a.State()), events);
            a.State() == r.db && Reports(r, failed, applied, deleted, err)
    decreases |events|, 0
  {
    ghost var left := Isolate(AttemptOf(a.env), a.State(), events[..|events| / 2]);
    var lf, la, ld, le := IsolateBatch(a, events[..|events| / 2]);
    if le.Some? { return [], 0, 0, le; }
    ghost var right := Isolate(AttemptOf(a.env), a.State(), events[|events| / 2..]);
    var rf, ra, rd, re := IsolateBatch(a, events[|events| / 2..]);
    if re.Some? { return [], 0, 0, re; }
    DeadLetteredConcat(left.segments, right.segments);
    return lf + rf, la + ra, ld + rd, None;
  }

  method ApplyWithIsolation(a: Applier, events: seq<Event>, positions: seq<Position>)
    returns (res: Summary, failed: seq<Event>, err: Option<ErrClass>)
    modifies a
    ensures var r := WithIsolation(a.env, old(a.State()), events, positions);
            a.State() == r.db && res == r.summary && failed == r.failed && err == r.err
  {
    ghost var start := a.State();
    var o := a.Apply(events, positions);
    if o.Done? {
      Single(Committed(events, start.rows));
      return o.value, [], None;
    }
    if o.kind.Transient? || |events| == 0 { return Summary(0, 0, 0), [], Some(o.kind); }
    var f, applied, deleted, e := IsolateBatch(a, events);
    if e.Some? { return Summary(0, 0, 0), [], e; }
    if |positions| > 0 {
      var last := a.Apply([], positions);  // commitPositionsOnly: the same transaction without data
      if last.Failed? { return Summary(applied, deleted, 0), f, Some(last.kind); }
    }
    return Summary(applied, deleted, 0), f, None;
  }

  lemma {:induction false} EventsInConcat(a: seq<Segment>, b: seq<Segment>)
    ensures EventsIn(a + b) == EventsIn(a) + EventsIn(b)
  {
    if a == [] {
      assert a + b == b;
    } else {
      assert (a + b)[0] == a[0] && (a + b)[1..] == a[1..] + b;
      EventsInConcat(a[1..], b);
      var first := match a[0] case Committed(es, _) => es case Dead(e, _, _) => [e];
      assert first + (EventsIn(a[1..]) + EventsIn(b)) == EventsIn(a) + EventsIn(b);
    }
  }

  lemma {:induction false} KeptConcat(a: seq<Segment>, b: seq<Segment>)
    ensures Kept(a + b) == Kept(a) + Kept(b)
  {
    if a == [] {
      assert a + b == b;
    } else {
      assert (a + b)[0] == a[0] && (a + b)[1..] == a[1..] + b;
      KeptConcat(a[1..], b);
      assert (if a[0].Committed? then a[0].events else []) + (Kept(a[1..]) + Kept(b)) == Kept(a) + Kept(b);
    }
  }

  lemma {:induction false} DeadLetteredConcat(a: seq<Segment>, b: seq<Segment>)
    ensures DeadLettered(a + b) == DeadLettered(a) + DeadLettered(b)
  {
    if a == [] {
      assert a + b == b;
    } else {
      assert (a + b)[0] == a[0] && (a + b)[1..] == a[1..] + b;
      DeadLetteredConcat(a[1..], b);
      var first := if a[0].Dead? then [a[0].event] else [];
      assert first + (DeadLettered(a[1..]) + DeadLettered(b)) == DeadLettered(a) + DeadLettered(b);
    }
  }

  lemma Single(s: Segment)
    ensures EventsIn([s]) == (match s case Committed(es, _) => es case Dead(e, _, _) => [e])
    ensures Kept([s]) == (if s.Committed? then s.events else [])
    ensures DeadLettered([s]) == (if s.Dead? then [s.event] else [])
  {
  }

  // ------------------------------------------------------------ what one attempt promises

  /** Every attempt is one transaction and leaves the stored offsets alone. */
  ghost predicate Ticks(attempt: Attempt) {
    forall db: Db, es: seq<Event> :: es != [] ==>
      attempt(db, es).0.calls == db.calls + 1 && attempt(db, es).0.marks == db.marks
  }

  /** A committed attempt that agrees with arrival order is the in-order fold of its events; a failed one
      changes no row. */
  ghost predicate Folds(attempt: Attempt, plan: Plan) {
    forall db: Db, es: seq<Event> :: NoTruncate(es) && SignedSafe(es) ==>
      if attempt(db, es).1.Failed? then attempt(db, es).0.rows == db.rows
      else AgreesWithArrival(plan, db.rows, es) ==>
             SameView(attempt(db, es).0.rows, ExecAll(db.rows, Writes(plan, es)))
  }

  /** Every committed stretch agrees with its own arrival order. */
  ghost predicate SegmentsAgree(plan: Plan, segments: seq<Segment>) {
    forall s :: s in segments && s.Committed? ==> AgreesWithArrival(plan, s.before, s.events)
  }

  lemma ApplyTicks(env: Env)
    ensures Ticks(AttemptOf(env))
  {
    forall db: Db, es: seq<Event> | es != []
      ensures AttemptOf(env)(db, es).0.calls == db.calls + 1 && AttemptOf(env)(db, es).0.marks == db.marks
    {
      assert AttemptOf(env)(db, es) == Applied(env, db, es, []);
    }
  }

  lemma ApplyFolds(env: Env)
    ensures Folds(AttemptOf(env), env.plan)
  {
    forall db: Db, es: seq<Event> | NoTruncate(es) && SignedSafe(es)
      ensures if AttemptOf(env)(db, es).1.Failed? then AttemptOf(env)(db, es).0.rows == db.rows
              else AgreesWithArrival(env.plan, db.rows, es) ==>
                     SameView(AttemptOf(env)(db, es).0.rows, ExecAll(db.rows, Writes(env.plan, es)))
    {
      assert AttemptOf(env)(db, es) == Applied(env, db, es, []);
      if Applied(env, db, es, []).1.Done? { RefinesArrivalIff(env, db, es, []); }
    }
  }

  // ------------------------------------------------------------ conservation

  /** The event failed, non-transiently, in a transaction of its own. */
  ghost predicate FailedAlone(attempt: Attempt, s: Segment)
    requires s.Dead?
  {
    !s.kind.Transient? &&
    exists at: Db :: at.calls == s.call && attempt(at, [s.event]).1 == Failed(s.kind)
  }

  lemma {:induction false} IsolationKeepsOffsets(attempt: Attempt, db: Db, events: seq<Event>)
    requires Ticks(attempt)
    ensures Isolate(attempt, db, events).db.marks == db.marks
    decreases |events|
  {
    if events != [] {
      var (after, o) := attempt(db, events);
      if o.Failed? && !o.kind.Transient? && |events| > 1 {
        var n := |events| / 2;
        IsolationKeepsOffsets(attempt, after, events[..n]);
        IsolationKeepsOffsets(attempt, Isolate(attempt, after, events[..n]).db, events[n..]);
      }
    }
  }

  /** Unless a transient error stops it, bisection accounts for every event of the batch in order. */
  lemma {:induction false} IsolationAccounts(attempt: Attempt, db: Db, events: seq<Event>)
    ensures var r := Isolate(attempt, db, events);
            if r.err.Some? then r.err.value.Transient? else EventsIn(r.segments) == events
    decreases |events|
  {
    var (after, o) := attempt(db, events);
    if events == [] {
    } else if o.Done? {
      Single(Committed(events, db.rows));
    } else if !o.kind.Transient? {
      if |events| == 1 {
        assert events == [events[0]];
        Single(Dead(events[0], o.kind, db.calls));
      } else {
        var n := |events| / 2;
        var left := Isolate(attempt, after, events[..n]);
        IsolationAccounts(attempt, after, events[..n]);
        IsolationAccounts(attempt, left.db, events[n..]);
        EventsInConcat(left.segments, Isolate(attempt, left.db, events[n..]).segments);
        assert events == events[..n] + events[n..];
      }
    }
  }

  /** Nothing is dead-lettered that did not fail alone, and for a reason that is not transient. */
  lemma {:induction false} DeadFailedAlone(attempt: Attempt, db: Db, events: seq<Event>, s: Segment)
    requires s in Isolate(attempt, db, events).segments && s.Dead?
    ensures FailedAlone(attempt, s) && s.event in events
    decreases |events|
  {
    var (after, o) := attempt(db, events);
    if o.Failed? && !o.kind.Transient? {
      if |events| == 1 {
        assert events == [events[0]];
      } else {
        var n := |events| / 2;
        var left := Isolate(attempt, after, events[..n]);
        if s in left.segments {
          DeadFailedAlone(attempt, after, events[..n], s);
        } else {
          DeadFailedAlone(attempt, left.db, events[n..], s);
        }
      }
    }
  }

  lemma ExecAllSameView(a: Rows, b: Rows, ws: seq<Write>)
    requires SameView(a, b)
    ensures SameView(ExecAll(a, ws), ExecAll(b, ws))
  {
    forall id ensures Lookup(ExecAll(a, ws), id) == Lookup(ExecAll(b, ws), id) {
      ExecAllRow(a, ws, id);
      ExecAllRow(b, ws, id);
    }
  }

  /** Whether it finishes or a transient error stops it, bisection leaves the target at the in-order
      fold of exactly the events it committed. */
  lemma {:induction false} IsolationFolds(attempt: Attempt, plan: Plan, db: Db, events: seq<Event>)
    requires NoTruncate(events) && SignedSafe(events) && Folds(attempt, plan)
    requires SegmentsAgree(plan, Isolate(attempt, db, events).segments)
    ensures var r := Isolate(attempt, db, events);
            SameView(r.db.rows, ExecAll(db.rows, Writes(plan, Kept(r.segments))))
    decreases |events|
  {
    var (after, o) := attempt(db, events);
    if events == [] {
      NothingKept(plan, db.rows);
    } else if o.Done? {
      Single(Committed(events, db.rows));
      assert Isolate(attempt, db, events).segments[0].Committed?;
    } else if o.kind.Transient? {
      NothingKept(plan, db.rows);
    } else if |events| == 1 {
      Single(Dead(events[0], o.kind, db.calls));
      NothingKept(plan, db.rows);
    } else {
      var n := |events| / 2;
      var left := Isolate(attempt, after, events[..n]);
      assert after.rows == db.rows;
      assert forall s :: s in left.segments ==> s in Isolate(attempt, db, events).segments;
      assert left.err.Some? ==> Isolate(attempt, db, events) == left.(applied := 0, deleted := 0);
      var right := Isolate(attempt, left.db, events[n..]);
      assert left.err.None? ==> Isolate(attempt, db, events).segments == left.segments + right.segments &&
                                Isolate(attempt, db, events).db == right.db;
      hide Isolate, Folds, ExecAll, Writes, Kept, AgreesWithArrival, SameView;
      IsolationFolds(attempt, plan, after, events[..n]);
      if left.err.None? {
        assert forall s :: s in right.segments ==> s in left.segments + right.segments;
        IsolationFolds(attempt, plan, left.db, events[n..]);
        JoinFolds(plan, db.rows, left.db.rows, right.db.rows, left.segments, right.segments);
      }
    }
  }

  /** Batches whose ties arrive in offset order have only stretches that agree. */
  lemma {:induction false} IsolationTiesAgree(attempt: Attempt, plan: Plan, db: Db, events: seq<Event>)
    requires TiesInOrder(events)
    ensures SegmentsAgree(plan, Isolate(attempt, db, events).segments)
    decreases |events|
  {
    var (after, o) := attempt(db, events);
    TiesAgree(plan, db.rows, events);
    hide AgreesWithArrival;
    if |events| > 1 && o.Failed? && !o.kind.Transient? {
      var n := |events| / 2;
      IsolationTiesAgree(attempt, plan, after, events[..n]);
      IsolationTiesAgree(attempt, plan, Isolate(attempt, after, events[..n]).db, events[n..]);
    }
  }

  lemma JoinFolds(plan: Plan, start: Rows, middle: Rows, end: Rows, a: seq<Segment>, b: seq<Segment>)
    requires SameView(middle, ExecAll(start, Writes(plan, Kept(a))))
    requires SameView(end, ExecAll(middle, Writes(plan, Kept(b))))
    ensures SameView(end, ExecAll(start, Writes(plan, Kept(a + b))))
  {
    KeptConcat(a, b);
    WritesConcat(plan, Kept(a), Kept(b));
    ExecAllConcat(start, Writes(plan, Kept(a)), Writes(plan, Kept(b)));
    ExecAllSameView(middle, ExecAll(start, Writes(plan, Kept(a))), Writes(plan, Kept(b)));
  }

  /** ApplyWithIsolation: an error leaves the offsets as they were; success accounts for every event; and
      nothing is given up on that did not fail alone. */
  lemma WithIsolationAccounts(env: Env, db: Db, events: seq<Event>, positions: seq<Position>)
    ensures var r := WithIsolation(env, db, events, positions);
            (if r.err.Some? then r.db.marks == db.marks else EventsIn(r.segments) == events) &&
            forall s :: s in r.segments && s.Dead? ==> FailedAlone(AttemptOf(env), s) && s.event in events
  {
    hide Applied, Isolate, FailedAlone;
    var (first, o) := Applied(env, db, events, positions);
    FailedKeepsDb(env, db, events, positions);
    Single(Committed(events, db.rows));
    if o.Failed? && !o.kind.Transient? && events != [] {
      BisectionAccounts(env, first, events);
      var r := Isolate(AttemptOf(env), first, events);
      FailedKeepsDb(env, r.db, [], positions);
    }
  }

  lemma BisectionAccounts(env: Env, db: Db, events: seq<Event>)
    ensures var r := Isolate(AttemptOf(env), db, events);
            r.db.marks == db.marks && (r.err.None? ==> EventsIn(r.segments) == events) &&
            forall s :: s in r.segments && s.Dead? ==> FailedAlone(AttemptOf(env), s) && s.event in events
  {
    var attempt := AttemptOf(env);
    ApplyTicks(env);
    IsolationKeepsOffsets(attempt, db, events);
    IsolationAccounts(attempt, db, events);
    forall s | s in Isolate(attempt, db, events).segments && s.Dead?
      ensures FailedAlone(attempt, s) && s.event in events
    {
      DeadFailedAlone(attempt, db, events, s);
    }
  }

  // ------------------------------------------------------------ what the caller is handed

  lemma {:induction false} KeptOrDead(segments: seq<Segment>)
    ensures multiset(EventsIn(segments)) == multiset(Kept(segments)) + multiset(DeadLettered(segments))
  {
    if segments != [] { KeptOrDead(segments[1..]); }
  }

  /** The places at which the elements of one sequence are found, in order, in another. */
  ghost predicate Places(at: seq<nat>, part: seq<Event>, whole: seq<Event>) {
    |at| == |part| && (forall k :: 0 <= k < |at| ==> at[k] < |whole| && whole[at[k]] == part[k]) &&
    forall k, l :: 0 <= k < l < |at| ==> at[k] < at[l]
  }

  lemma PlacesAfter(at: seq<nat>, part: seq<Event>, whole: seq<Event>, before: seq<Event>) returns (more: seq<nat>)
    requires Places(at, part, whole)
    ensures Places(more, part, before + whole) && forall k :: 0 <= k < |more| ==> more[k] >= |before|
  {
    more := seq(|at|, k requires 0 <= k < |at| => |before| + at[k]);
  }

  lemma {:induction false} DeadPlaces(segments: seq<Segment>) returns (at: seq<nat>)
    ensures Places(at, DeadLettered(segments), EventsIn(segments))
  {
    at := [];
    if segments != [] {
      at := DeadPlaces(segments[1..]);
      hide Places;
      if segments[0].Dead? {
        at := PlacesAfter(at, DeadLettered(segments[1..]), EventsIn(segments[1..]), [segments[0].event]);
        at := PlacesFirst(at, DeadLettered(segments[1..]), segments[0].event, EventsIn(segments[1..]));
      } else {
        at := PlacesAfter(at, DeadLettered(segments[1..]), EventsIn(segments[1..]), segments[0].events);
        assert [] + DeadLettered(segments[1..]) == DeadLettered(segments[1..]);
      }
    }
  }

  lemma PlacesFirst(at: seq<nat>, part: seq<Event>, e: Event, rest: seq<Event>) returns (more: seq<nat>)
    requires Places(at, part, [e] + rest) && forall k :: 0 <= k < |at| ==> at[k] >= 1
    ensures Places(more, [e] + part, [e] + rest)
  {
    more := [0] + at;
  }

  lemma {:induction false} DeadIsSegment(segments: seq<Segment>, e: Event)
    requires e in DeadLettered(segments)
    ensures exists s :: s in segments && s.Dead? && s.event == e
  {
    if segments[0].Dead? && segments[0].event == e {
      assert segments[0] in segments;
    } else {
      DeadIsSegment(segments[1..], e);
    }
  }

  /** The event, tried alone, was rejected for a reason that is not transient. */
  ghost predicate RejectedAlone(env: Env, e: Event) {
    exists db, kind :: kind != Transient && Applied(env, db, [e], []).1 == Failed(kind)
  }

  /** The first attempt failed and was bisected to the end: what is left to fail is storing the offsets. */
  ghost predicate BisectedToEnd(env: Env, db: Db, events: seq<Event>, positions: seq<Position>) {
    var (first, o) := Applied(env, db, events, positions);
    events != [] && o.Failed? && o.kind != Transient && Isolate(AttemptOf(env), first, events).err.None?
  }

  /** The dead letters handed to the caller: with those committed they are the whole batch, when the call succeeds
      and when only storing the offsets has failed; they come in batch order, each rejected alone; and after any other
      error there are none. */
  lemma FailedAccounts(env: Env, db: Db, events: seq<Event>, positions: seq<Position>) returns (at: seq<nat>)
    ensures var r := WithIsolation(env, db, events, positions);
            Places(at, r.failed, events) && (forall e :: e in r.failed ==> RejectedAlone(env, e)) &&
            if r.err.None? || BisectedToEnd(env, db, events, positions)
            then multiset(events) == multiset(Kept(r.segments)) + multiset(r.failed)
            else r.failed == []
  {
    hide Applied, Isolate, RejectedAlone, EventsIn, Kept, DeadLettered;
    var (first, o) := Applied(env, db, events, positions);
    at := [];
    if BisectedToEnd(env, db, events, positions) {
      at := BisectionHands(env, first, events);
    } else if o.Done? {
      Single(Committed(events, db.rows));
      NothingIn();
    }
  }

  lemma NothingIn()
    ensures EventsIn([]) == [] && Kept([]) == [] && DeadLettered([]) == []
  {
  }

  lemma BisectionHands(env: Env, db: Db, events: seq<Event>) returns (at: seq<nat>)
    requires Isolate(AttemptOf(env), db, events).err.None?
    ensures var r := Isolate(AttemptOf(env), db, events);
            Places(at, DeadLettered(r.segments), events) &&
            (forall e :: e in DeadLettered(r.segments) ==> RejectedAlone(env, e)) &&
            multiset(events) == multiset(Kept(r.segments)) + multiset(DeadLettered(r.segments))
  {
    hide Applied, Isolate, EventsIn, Kept, DeadLettered;
    var r := Isolate(AttemptOf(env), db, events);
    BisectionAccounts(env, db, events);
    KeptOrDead(r.segments);
    at := DeadPlaces(r.segments);
    forall e | e in DeadLettered(r.segments) ensures RejectedAlone(env, e) {
      DeadIsSegment(r.segments, e);
      var s :| s in r.segments && s.Dead? && s.event == e;
      var tried: Db :| tried.calls == s.call && AttemptOf(env)(tried, [e]).1 == Failed(s.kind);
      assert Applied(env, tried, [e], []).1 == Failed(s.kind);
    }
  }

  /** And whatever it returns, the target is the in-order fold of the events it committed, that is, of all but
      the dead letters when it succeeds; ties in offset order suffice. */
  lemma WithIsolationFolds(env: Env, db: Db, events: seq<Event>, positions: seq<Position>)
    requires NoTruncate(events) && SignedSafe(events)
    ensures var r := WithIsolation(env, db, events, positions);
            (TiesInOrder(events) ==> SegmentsAgree(env.plan, r.segments)) &&
            (SegmentsAgree(env.plan, r.segments) ==>
               SameView(r.db.rows, ExecAll(db.rows, Writes(env.plan, Kept(r.segments)))))
  {
    hide Applied, Isolate, ExecAll, Writes, Lookup, AgreesWithArrival;
    var (first, o) := Applied(env, db, events, positions);
    FailedKeepsDb(env, db, events, positions);
    NothingKept(env.plan, db.rows);
    if o.Done? {
      Single(Committed(events, db.rows));
      RefinesArrivalIff(env, db, events, positions);
      if TiesInOrder(events) { TiesAgree(env.plan, db.rows, events); }
    } else if !o.kind.Transient? && events != [] {
      var r := Isolate(AttemptOf(env), first, events);
      ApplyFolds(env);
      if TiesInOrder(events) { IsolationTiesAgree(AttemptOf(env), env.plan, first, events); }
      if SegmentsAgree(env.plan, r.segments) { IsolationFolds(AttemptOf(env), env.plan, first, events); }
      if r.err.None? && positions != [] { OffsetsOnly(env, r.db, positions); }
    }
  }

  lemma NothingKept(plan: Plan, rows: Rows)
    ensures SameView(rows, ExecAll(rows, Writes(plan, Kept([]))))
  {
  }

  /** The counts of a bisection: every event is counted, dead-lettered or superseded within its stretch. */
  lemma {:induction false} IsolationCounts(env: Env, db: Db, events: seq<Event>)
    requires NoTruncate(events)
    ensures var r := Isolate(AttemptOf(env), db, events);
            r.err.None? ==> r.applied + r.deleted + |DeadLettered(r.segments)| <= |events|
    decreases |events|
  {
    if events != [] {
      var (after, o) := AttemptOf(env)(db, events);
      assert (after, o) == Applied(env, db, events, []);
      if o.Done? {
        SummaryConserves(env, db, events, []);
        Single(Committed(events, db.rows));
      } else if !o.kind.Transient? && |events| == 1 {
        Single(Dead(events[0], o.kind, db.calls));
      } else if !o.kind.Transient? {
        var n := |events| / 2;
        var left := Isolate(AttemptOf(env), after, events[..n]);
        IsolationCounts(env, after, events[..n]);
        IsolationCounts(env, left.db, events[n..]);
        DeadLetteredConcat(left.segments, Isolate(AttemptOf(env), left.db, events[n..]).segments);
      }
    }
  }

  /** What the caller reads off a call that ends well: exact counts when nothing was bisected. */
  lemma WithIsolationCounts(env: Env, db: Db, events: seq<Event>, positions: seq<Position>)
    requires NoTruncate(events) && WithIsolation(env, db, events, positions).err.None?
    ensures var r := WithIsolation(env, db, events, positions);
            var counted := r.summary.applied + r.summary.deleted + r.summary.skipped;
            counted + |DeadLettered(r.segments)| <= |events| &&
            (Applied(env, db, events, positions).1.Done? ==> counted == |events|)
  {
    var (first, o) := Applied(env, db, events, positions);
    if o.Done? {
      SummaryConserves(env, db, events, positions);
      Single(Committed(events, db.rows));
    } else {
      IsolationCounts(env, first, events);
    }
  }

  // ------------------------------------------------------------ when a call errs

  /** Bisection stops early only for a transient failure of one of its attempts, on a stretch of the batch. */
  lemma {:induction false} IsolationStops(attempt: Attempt, db: Db, events: seq<Event>)
    requires Isolate(attempt, db, events).err.Some?
    ensures Isolate(attempt, db, events).err == Some(Transient)
    ensures exists at, es :: attempt(at, es).1 == Failed(Transient) && forall e :: e in es ==> e in events
    decreases |events|
  {
    var (after, o) := attempt(db, events);
    if !o.kind.Transient? {
      var n := |events| / 2;
      var left := Isolate(attempt, after, events[..n]);
      if left.err.Some? { IsolationStops(attempt, after, events[..n]); }
      else { IsolationStops(attempt, left.db, events[n..]); }
    }
  }

  /** An error the caller sees is one the database raised, or the permanent one of a table outside the plan; and unless
      it is transient only storing the offsets is left to do. */
  lemma ErrorsAreRaised(env: Env, db: Db, events: seq<Event>, positions: seq<Position>)
    ensures var r := WithIsolation(env, db, events, positions);
            r.err.Some? ==>
              (exists call :: Raised(env, call, events, r.err.value)) &&
              (r.err.value == Transient || events == [] || BisectedToEnd(env, db, events, positions))
  {
    hide Applied, Isolate, Raised;
    var (first, o) := Applied(env, db, events, positions);
    FailsBecause(env, db, events, positions);
    if o.Failed? && o.kind != Transient && events != [] {
      var r := Isolate(AttemptOf(env), first, events);
      if r.err.Some? {
        TransientRaised(env, first, events);
      } else {
        FailsBecause(env, r.db, [], positions);
        RaisedWider(env, r.db.calls, events);
      }
    }
  }

  lemma RaisedWider(env: Env, call: nat, events: seq<Event>)
    ensures forall kind :: Raised(env, call, [], kind) ==> Raised(env, call, events, kind)
  {
  }

  lemma TransientRaised(env: Env, db: Db, events: seq<Event>)
    requires Isolate(AttemptOf(env), db, events).err.Some?
    ensures Isolate(AttemptOf(env), db, events).err == Some(Transient)
    ensures exists call :: Raised(env, call, events, Transient)
  {
    hide Applied, Isolate;
    IsolationStops(AttemptOf(env), db, events);
    var at: Db, es: seq<Event> :| AttemptOf(env)(at, es).1 == Failed(Transient) && forall e :: e in es ==> e in events;
    assert Applied(env, at, es, []).1 == Failed(Transient);
    FailsBecause(env, at, es, []);
    assert Raised(env, at.calls, events, Transient);
  }

  // ------------------------------------------------------------ each counter

  /** Rows upserted and rows tombstoned, over the committed stretches. */
  ghost function UpsertedIn(segments: seq<Segment>): nat {
    if segments == [] then 0
    else (if segments[0].Committed? then |WonByUpsert(segments[0].events)| else 0) + UpsertedIn(segments[1..])
  }

  ghost function DeletedIn(segments: seq<Segment>): nat {
    if segments == [] then 0
    else (if segments[0].Committed? then |WonByDelete(segments[0].events)| else 0) + DeletedIn(segments[1..])
  }

  lemma {:induction false} InConcat(a: seq<Segment>, b: seq<Segment>)
    ensures UpsertedIn(a + b) == UpsertedIn(a) + UpsertedIn(b) && DeletedIn(a + b) == DeletedIn(a) + DeletedIn(b)
  {
    if a == [] {
      assert a + b == b;
    } else {
      assert (a + b)[0] == a[0] && (a + b)[1..] == a[1..] + b;
      InConcat(a[1..], b);
    }
  }

  lemma InSingle(s: Segment)
    ensures UpsertedIn([s]) == if s.Committed? then |WonByUpsert(s.events)| else 0
    ensures DeletedIn([s]) == if s.Committed? then |WonByDelete(s.events)| else 0
  {
    assert [s][1..] == [];
  }

  lemma {:induction false} IsolationCounters(env: Env, db: Db, events: seq<Event>)
    ensures var r := Isolate(AttemptOf(env), db, events);
            r.err.None? ==> r.applied == UpsertedIn(r.segments) && r.deleted == DeletedIn(r.segments)
    decreases |events|
  {
    if events != [] {
      var (after, o) := AttemptOf(env)(db, events);
      assert (after, o) == Applied(env, db, events, []);
      if o.Done? {
        CountersAre(env, db, events, []);
        InSingle(Committed(events, db.rows));
      } else if !o.kind.Transient? && |events| == 1 {
        InSingle(Dead(events[0], o.kind, db.calls));
      } else if !o.kind.Transient? {
        var n := |events| / 2;
        var left := Isolate(AttemptOf(env), after, events[..n]);
        var right := Isolate(AttemptOf(env), left.db, events[n..]);
        var r := Isolate(AttemptOf(env), db, events);
        assert r.err.None? ==> left.err.None? && right.err.None? && r.segments == left.segments + right.segments &&
                               r.applied == left.applied + right.applied && r.deleted == left.deleted + right.deleted;
        hide UpsertedIn, DeletedIn, Isolate, Applied;
        IsolationCounters(env, after, events[..n]);
        IsolationCounters(env, left.db, events[n..]);
        InConcat(left.segments, right.segments);
      }
    }
  }

  /** Each counter of a call that succeeds: the rows its committed stretches upserted and tombstoned, and, when
      nothing was bisected, the events superseded within the batch. */
  lemma WithIsolationCounters(env: Env, db: Db, events: seq<Event>, positions: seq<Position>)
    requires WithIsolation(env, db, events, positions).err.None?
    ensures var r := WithIsolation(env, db, events, positions);
            r.summary.applied == UpsertedIn(r.segments) && r.summary.deleted == DeletedIn(r.segments) &&
            r.summary.skipped == if Applied(env, db, events, positions).1.Done? then |events| - |Won(events)| else 0
  {
    hide Applied, Isolate, UpsertedIn, DeletedIn;
    var (first, o) := Applied(env, db, events, positions);
    if o.Done? {
      CountersAre(env, db, events, positions);
      InSingle(Committed(events, db.rows));
      NoneIn();
    } else {
      IsolationCounters(env, first, events);
    }
  }

  lemma NoneIn()
    ensures UpsertedIn([]) == 0 && DeletedIn([]) == 0 && WonByUpsert([]) == {} && WonByDelete([]) == {}
  {
  }

  lemma OffsetsOnly(env: Env, db: Db, positions: seq<Position>)
    ensures SameView(Applied(env, db, [], positions).0.rows, db.rows)
    ensures Applied(env, db, [], positions).1.Failed? ==> Applied(env, db, [], positions).0.marks == db.marks
  {
    if Applied(env, db, [], positions).1.Done? {
      forall id ensures Lookup(Applied(env, db, [], positions).0.rows, id) == Lookup(db.rows, id) {
        ApplyRow(env, db, [], positions, id);
      }
    }
  }
}
