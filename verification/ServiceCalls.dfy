// A call of ApplyWithIsolation on a polled batch is a sequence of steps of the delivery protocol, so what the
// protocol keeps, the service keeps (cmd/cdc-applier/main.go, internal/sink/applier.go).

module ServiceCalls {
  import opened Wrappers
  import opened Events
  import opened Apply
  import opened HighWater
  import opened Delivery
  import Isolation
  import Retrying

  /** The steps, taken one after the other, lead from s to t. */
  ghost predicate Path(env: Env, log: Log, s: System, steps: seq<Step>, t: System)
    decreases |steps|
  {
    if steps == [] then s == t
    else Enabled(log, s, steps[0]) && Path(env, log, After(env, log, s, steps[0]), steps[1..], t)
  }

  lemma PathStep(env: Env, log: Log, s: System, step: Step, steps: seq<Step>, t: System)
    requires Enabled(log, s, step) && Path(env, log, After(env, log, s, step), steps, t)
    ensures Path(env, log, s, [step] + steps, t)
  {
    hide After, Enabled;
    assert ([step] + steps)[1..] == steps;
  }

  lemma PathHead(env: Env, log: Log, s: System, steps: seq<Step>, t: System)
    requires steps != [] && Path(env, log, s, steps, t)
    ensures Enabled(log, s, steps[0]) && Path(env, log, After(env, log, s, steps[0]), steps[1..], t)
  {
    hide After, Enabled;
  }

  lemma {:induction false} PathConcat(env: Env, log: Log, s: System, a: seq<Step>, t: System, b: seq<Step>, u: System)
    requires Path(env, log, s, a, t) && Path(env, log, t, b, u)
    ensures Path(env, log, s, a + b, u)
    decreases |a|
  {
    if a == [] {
      hide After, Enabled;
      assert a + b == b;
    } else {
      hide Path, After, Enabled;
      PathHead(env, log, s, a, t);
      assert a + b == [a[0]] + (a[1..] + b);
      PathConcat(env, log, After(env, log, s, a[0]), a[1..], t, b, u);
      PathStep(env, log, s, a[0], a[1..] + b, u);
    }
  }

  ghost predicate AtWork(s: System, i: nat) {
    i < |s.instances| && s.instances[i].Up? && s.instances[i].work.Busy?
  }

  /** The effect of bisecting batch[lo..hi]: r is what isolate computes for that stretch. */
  ghost predicate Bisected(s: System, t: System, i: nat, lo: nat, hi: nat, r: Isolation.Isolated) {
    AtWork(s, i) && AtWork(t, i) &&
    var w, v := s.instances[i].work, t.instances[i].work;
    t.instances == s.instances[i := s.instances[i].(work := v)] && v.batch == w.batch &&
    t.db == r.db && t.dead == s.dead && t.applied == s.applied + Members(Isolation.Kept(r.segments)) &&
    w.handled <= v.handled && w.dead <= v.dead &&
    GivenUp(v) == GivenUp(w) + Members(Isolation.DeadLettered(r.segments)) &&
    (r.err.None? ==> forall k :: lo <= k < hi ==> k in v.handled + v.dead)
  }

  lemma OneStretch(env: Env, log: Log, s: System, i: nat, lo: nat, hi: nat)
    requires AtWork(s, i) && lo < hi <= |s.instances[i].work.batch|
    ensures var batch := s.instances[i].work.batch;
            var step := Step.Isolate(i, lo, hi, None);
            var (db, o) := Applied(env, s.db, batch[lo..hi], []);
            Enabled(log, s, step) &&
            var t := After(env, log, s, step);
            var r := Isolation.Isolate(Isolation.AttemptOf(env), s.db, batch[lo..hi]);
            (o.Done? || o.kind.Transient? || hi == lo + 1 ==> Bisected(s, t, i, lo, hi, r)) &&
            (o.Failed? && !o.kind.Transient? && hi > lo + 1 ==> t == s.(db := db))
  {
    var batch := s.instances[i].work.batch;
    var step := Step.Isolate(i, lo, hi, None);
    var t := After(env, log, s, step);
    var r := Isolation.Isolate(Isolation.AttemptOf(env), s.db, batch[lo..hi]);
    var (db, o) := Applied(env, s.db, batch[lo..hi], []);
    assert Enabled(log, s, step);
    IsolateEffect(env, log, s, i, lo, hi, None);
    StretchIsolated(env, s.db, batch[lo..hi]);
    hide Applied, After, Enabled, Isolation.Isolate, Bisected;
    if o.Done? { StretchCommitted(s, t, i, lo, hi, r); }
    else if o.kind.Transient? { StretchStopped(s, i, lo, hi, r); }
    else if hi == lo + 1 { StretchGivenUp(s, i, lo, o.kind, s.db.calls, r); }
    assert s.instances[i := s.instances[i].(work := s.instances[i].work)] == s.instances;
  }

  /** isolate on a stretch it does not split. */
  lemma StretchIsolated(env: Env, db: Db, part: seq<Event>)
    requires part != []
    ensures var (after, o) := Applied(env, db, part, []);
            var r := Isolation.Isolate(Isolation.AttemptOf(env), db, part);
            (o.Done? ==> r.db == after && r.segments == [Isolation.Committed(part, db.rows)] && r.err.None?) &&
            (o.Failed? && o.kind.Transient? ==> r.db == after && r.segments == [] && r.err == Some(o.kind)) &&
            (o.Failed? && !o.kind.Transient? && |part| == 1 ==>
               r.db == after && r.segments == [Isolation.Dead(part[0], o.kind, db.calls)] && r.err.None?)
  {
    assert Isolation.AttemptOf(env)(db, part) == Applied(env, db, part, []);
    hide Applied;
  }

  lemma StretchCommitted(s: System, t: System, i: nat, lo: nat, hi: nat, r: Isolation.Isolated)
    requires AtWork(s, i) && lo < hi <= |s.instances[i].work.batch|
    requires var me := s.instances[i];
             var part := me.work.batch[lo..hi];
             r.segments == [Isolation.Committed(part, s.db.rows)] && r.err.None? &&
             t == With(s.(db := r.db, applied := s.applied + Members(part)), i,
                       me.(work := me.work.(handled := me.work.handled + Stretch(lo, hi))))
    ensures Bisected(s, t, i, lo, hi, r)
  {
    Isolation.Single(r.segments[0]);
  }

  lemma StretchStopped(s: System, i: nat, lo: nat, hi: nat, r: Isolation.Isolated)
    requires AtWork(s, i) && r.segments == [] && r.err.Some?
    ensures Bisected(s, With(s.(db := r.db), i, s.instances[i]), i, lo, hi, r)
  {
    Nothing(s);
  }

  lemma StretchGivenUp(s: System, i: nat, lo: nat, kind: ErrClass, call: nat, r: Isolation.Isolated)
    requires AtWork(s, i) && lo < |s.instances[i].work.batch|
    requires r.segments == [Isolation.Dead(s.instances[i].work.batch[lo], kind, call)] && r.err.None?
    ensures var me := s.instances[i];
            Bisected(s, With(s.(db := r.db), i, me.(work := me.work.(dead := me.work.dead + {lo}))), i, lo, lo + 1, r)
  {
    Nothing(s);
    Isolation.Single(r.segments[0]);
    GiveUpOne(s.instances[i].work, lo);
  }

  lemma Nothing(s: System)
    ensures s.applied + Members([]) == s.applied && s.dead + Members([]) == s.dead
    ensures Isolation.Kept([]) == [] && Isolation.DeadLettered([]) == []
  {
  }

  lemma GiveUpOne(work: Work, lo: nat)
    requires work.Busy? && lo < |work.batch|
    ensures GivenUp(work.(dead := work.dead + {lo})) == GivenUp(work) + Members([work.batch[lo]])
  {
    var more := work.(dead := work.dead + {lo});
    forall e: Event ensures e in GivenUp(more) <==> e in GivenUp(work) || e in [work.batch[lo]] {
      if e in GivenUp(more) { var k :| k in more.dead && k < |work.batch| && work.batch[k] == e; }
      if e in GivenUp(work) {
        var k :| k in work.dead && k < |work.batch| && work.batch[k] == e;
        assert k in more.dead;
      }
      if e == work.batch[lo] { assert lo in more.dead; }
    }
  }

  lemma BisectedTwice(s: System, m: System, t: System, i: nat, lo: nat, mid: nat, hi: nat,
                      a: Isolation.Isolated, b: Isolation.Isolated, r: Isolation.Isolated)
    requires lo <= mid <= hi && Bisected(s, m, i, lo, mid, a) && Bisected(m, t, i, mid, hi, b) && a.err.None?
    requires r.db == b.db && r.segments == a.segments + b.segments && r.err == b.err
    ensures Bisected(s, t, i, lo, hi, r)
  {
    Isolation.KeptConcat(a.segments, b.segments);
    Isolation.DeadLetteredConcat(a.segments, b.segments);
    MembersConcat(Isolation.Kept(a.segments), Isolation.Kept(b.segments));
    MembersConcat(Isolation.DeadLettered(a.segments), Isolation.DeadLettered(b.segments));
    hide Members, GivenUp, Isolation.Kept, Isolation.DeadLettered;
    var ka, kb := Members(Isolation.Kept(a.segments)), Members(Isolation.Kept(b.segments));
    var da, db := Members(Isolation.DeadLettered(a.segments)), Members(Isolation.DeadLettered(b.segments));
    var w, u, v := s.instances[i].work, m.instances[i].work, t.instances[i].work;
    assert s.applied + ka + kb == s.applied + (ka + kb);
    assert GivenUp(w) + da + db == GivenUp(w) + (da + db);
    assert forall k :: k in u.handled + u.dead ==> k in v.handled + v.dead;
  }

  lemma MembersConcat(a: seq<Event>, b: seq<Event>)
    ensures Members(a + b) == Members(a) + Members(b)
  {
  }

  /** isolate on a stretch of the batch, transaction by transaction. */
  lemma {:induction false} BisectionIsSteps(env: Env, log: Log, s: System, i: nat, lo: nat, hi: nat)
    returns (steps: seq<Step>, t: System)
    requires AtWork(s, i) && lo <= hi <= |s.instances[i].work.batch|
    ensures Path(env, log, s, steps, t)
    ensures Bisected(s, t, i, lo, hi,
                     Isolation.Isolate(Isolation.AttemptOf(env), s.db, s.instances[i].work.batch[lo..hi]))
    decreases hi - lo
  {
    hide Applied, After, Enabled, Bisected;
    var batch := s.instances[i].work.batch;
    var part := batch[lo..hi];
    if lo == hi {
      NothingToBisect(s, i, lo, Isolation.Isolate(Isolation.AttemptOf(env), s.db, part));
      return [], s;
    }
    var step := Step.Isolate(i, lo, hi, None);
    OneStretch(env, log, s, i, lo, hi);
    var m := After(env, log, s, step);
    var o := Applied(env, s.db, part, []).1;
    if o.Done? || o.kind.Transient? || hi == lo + 1 {
      PathStep(env, log, s, step, [], m);
      assert [step] + [] == [step];
      return [step], m;
    }
    var mid := lo + |part| / 2;
    assert part[..|part| / 2] == batch[lo..mid] && part[|part| / 2..] == batch[mid..hi];
    var a, u := BisectionIsSteps(env, log, m, i, lo, mid);
    var left := Isolation.Isolate(Isolation.AttemptOf(env), m.db, batch[lo..mid]);
    HalvesOf(env, s.db, part);
    SameStart(s, m, u, i, lo, mid, left);
    PathStep(env, log, s, step, a, u);
    if left.err.Some? {
      StoppedEarly(s, u, i, lo, mid, hi, left, Isolation.Isolate(Isolation.AttemptOf(env), s.db, part));
      return [step] + a, u;
    }
    var b, v := BisectionIsSteps(env, log, u, i, mid, hi);
    PathConcat(env, log, s, [step] + a, u, b, v);
    BisectedTwice(s, u, v, i, lo, mid, hi, left, Isolation.Isolate(Isolation.AttemptOf(env), left.db, batch[mid..hi]),
                  Isolation.Isolate(Isolation.AttemptOf(env), s.db, part));
    return [step] + a + b, v;
  }

  lemma NothingToBisect(s: System, i: nat, lo: nat, r: Isolation.Isolated)
    requires AtWork(s, i) && r.db == s.db && r.segments == []
    ensures Bisected(s, s, i, lo, lo, r)
  {
    assert s.instances[i := s.instances[i].(work := s.instances[i].work)] == s.instances;
  }

  lemma HalvesOf(env: Env, db: Db, part: seq<Event>)
    requires |part| > 1 && Applied(env, db, part, []).1.Failed? && !Applied(env, db, part, []).1.kind.Transient?
    ensures var attempt, n := Isolation.AttemptOf(env), |part| / 2;
            var after := Applied(env, db, part, []).0;
            var r, left := Isolation.Isolate(attempt, db, part), Isolation.Isolate(attempt, after, part[..n]);
            if left.err.Some? then r.db == left.db && r.segments == left.segments && r.err == left.err
            else var right := Isolation.Isolate(attempt, left.db, part[n..]);
                 r.db == right.db && r.segments == left.segments + right.segments && r.err == right.err
  {
    assert Isolation.AttemptOf(env)(db, part) == Applied(env, db, part, []);
    hide Applied;
  }

  lemma SameStart(s: System, m: System, u: System, i: nat, lo: nat, hi: nat, r: Isolation.Isolated)
    requires AtWork(s, i) && m == s.(db := m.db) && Bisected(m, u, i, lo, hi, r)
    ensures Bisected(s, u, i, lo, hi, r) && AtWork(u, i) && u.db == r.db
    ensures u.instances[i].work.batch == s.instances[i].work.batch
  {
  }

  lemma StoppedEarly(s: System, u: System, i: nat, lo: nat, mid: nat, hi: nat, a: Isolation.Isolated,
                     r: Isolation.Isolated)
    requires Bisected(s, u, i, lo, mid, a) && r.db == a.db && r.segments == a.segments && r.err == a.err && a.err.Some?
    ensures Bisected(s, u, i, lo, hi, r)
  {
  }

  // ------------------------------------------------------------ the whole call

  /** What the caller sees: either the batch is finished with, or it still holds it. */
  ghost predicate Returned(s: System, t: System, i: nat, r: Isolation.BatchResult) {
    AtWork(s, i) && i < |t.instances| && t.db == r.db &&
    t.applied == s.applied + Members(Isolation.Kept(r.segments)) &&
    if r.err.None? then
      t.dead == s.dead + Members(r.failed) &&
      t.instances == s.instances[i := s.instances[i].(work := Idle)]
    else t.dead == s.dead && AtWork(t, i) && t.instances[i].work.batch == s.instances[i].work.batch
  }

  lemma MarksToStore(log: Log, batch: seq<Event>)
    requires LogOk(log) && batch != [] && forall ev :: ev in batch ==> At(log, ev)
    ensures Positions(batch) != []
  {
    BestIsMaximum(batch, PartitionOf(batch[0]));
    var p := PartitionOf(batch[0]);
    assert batch[0] in batch && p in Best(batch);
    assert Position(p, Best(batch)[p]) in Positions(batch);
  }

  lemma LastAttempt(env: Env, log: Log, s: System, i: nat)
    requires AtWork(s, i)
    requires var w := s.instances[i].work; forall k :: 0 <= k < |w.batch| ==> k in w.handled + w.dead
    ensures var step := Finish(i, None);
            var w := s.instances[i].work;
            var (db, o) := Applied(env, s.db, [], Positions(w.batch));
            Enabled(log, s, step) &&
            After(env, log, s, step) ==
            if o.Failed? then s.(db := db)
            else s.(db := db, dead := s.dead + GivenUp(w), instances := s.instances[i := s.instances[i].(work := Idle)])
  {
    hide Applied;
  }

  /** A call of ApplyWithIsolation on a batch just polled, with its high-water marks, is a sequence of steps:
      one commit, the bisection's stretches, and the offsets alone. */
  lemma CallIsSteps(env: Env, log: Log, s: System, i: nat) returns (steps: seq<Step>, t: System)
    requires LogOk(log) && Base(env.plan, log, s) && AtWork(s, i)
    requires var w := s.instances[i].work; w.batch != [] && w.handled == {} && w.dead == {}
    ensures var batch := s.instances[i].work.batch;
            Path(env, log, s, steps, t) &&
            Returned(s, t, i, Isolation.WithIsolation(env, s.db, batch, Positions(batch)))
  {
    var batch := s.instances[i].work.batch;
    assert Reads(log, s.instances[i], s.applied);
    MarksToStore(log, batch);
    assert Enabled(log, s, Commit(i, None));
    CommitEffect(env, log, s, i, None);
    hide Applied, After, Enabled, Base, LogOk, Bisected, Returned;
    var first := Commit(i, None);
    var m := After(env, log, s, first);
    var o := Applied(env, s.db, batch, Positions(batch)).1;
    PathStep(env, log, s, first, [], m);
    assert [first] + [] == [first];
    if o.Done? || o.kind.Transient? {
      FirstDecides(env, s, m, i);
      return [first], m;
    }
    var a, u := BisectionIsSteps(env, log, m, i, 0, |batch|);
    assert batch[0..|batch|] == batch;
    var r := Isolation.Isolate(Isolation.AttemptOf(env), m.db, batch);
    PathConcat(env, log, s, [first], m, a, u);
    SameStart(s, m, u, i, 0, |batch|, r);
    if r.err.Some? {
      BisectionStops(env, s, u, i, r);
      return [first] + a, u;
    }
    LastAttempt(env, log, u, i);
    var last := Finish(i, None);
    t := After(env, log, u, last);
    PathStep(env, log, u, last, [], t);
    assert [last] + [] == [last];
    PathConcat(env, log, s, [first] + a, u, [last], t);
    BisectionEnds(env, s, u, t, i, r);
    return [first] + a + [last], t;
  }

  lemma FirstDecides(env: Env, s: System, m: System, i: nat)
    requires AtWork(s, i) && s.instances[i].work.batch != []
    requires var batch := s.instances[i].work.batch;
             var (db, o) := Applied(env, s.db, batch, Positions(batch));
             (o.Done? || o.kind.Transient?) &&
             m == if o.Failed? then s.(db := db)
                  else s.(db := db, applied := s.applied + Members(batch),
                          instances := s.instances[i := s.instances[i].(work := Idle)])
    ensures var batch := s.instances[i].work.batch;
            Returned(s, m, i, Isolation.WithIsolation(env, s.db, batch, Positions(batch)))
  {
    var batch := s.instances[i].work.batch;
    FirstOnly(env, s.db, batch, Positions(batch));
    Nothing(s);
    hide Applied, Isolation.WithIsolation, Members, Isolation.Kept, Isolation.DeadLettered;
  }

  lemma FirstOnly(env: Env, db: Db, batch: seq<Event>, ps: seq<Position>)
    requires batch != []
    ensures var (after, o) := Applied(env, db, batch, ps);
            var whole := Isolation.WithIsolation(env, db, batch, ps);
            o.Done? || o.kind.Transient? ==>
              whole.db == after && (whole.err.None? <==> o.Done?) && whole.failed == [] &&
              Isolation.Kept(whole.segments) == if o.Done? then batch else []
  {
    Isolation.Single(Isolation.Committed(batch, db.rows));
    hide Applied, Isolation.Isolate;
  }

  lemma BisectionStops(env: Env, s: System, u: System, i: nat, r: Isolation.Isolated)
    requires AtWork(s, i) && s.instances[i].work.batch != []
    requires var batch := s.instances[i].work.batch;
             var (db, o) := Applied(env, s.db, batch, Positions(batch));
             o.Failed? && !o.kind.Transient? && r == Isolation.Isolate(Isolation.AttemptOf(env), db, batch)
    requires r.err.Some? && Bisected(s, u, i, 0, |s.instances[i].work.batch|, r)
    ensures var batch := s.instances[i].work.batch;
            Returned(s, u, i, Isolation.WithIsolation(env, s.db, batch, Positions(batch)))
  {
    hide Applied, Isolation.Isolate;
  }

  lemma BisectionEnds(env: Env, s: System, u: System, t: System, i: nat, r: Isolation.Isolated)
    requires AtWork(s, i) && s.instances[i].work.batch != [] && s.instances[i].work.dead == {} && AtWork(u, i)
    requires var batch := s.instances[i].work.batch;
             var (db, o) := Applied(env, s.db, batch, Positions(batch));
             Positions(batch) != [] &&
             o.Failed? && !o.kind.Transient? && r == Isolation.Isolate(Isolation.AttemptOf(env), db, batch)
    requires r.err.None? && Bisected(s, u, i, 0, |s.instances[i].work.batch|, r)
    requires var w := u.instances[i].work;
             var (db, o) := Applied(env, u.db, [], Positions(w.batch));
             t == if o.Failed? then u.(db := db)
                  else u.(db := db, dead := u.dead + GivenUp(w),
                          instances := u.instances[i := u.instances[i].(work := Idle)])
    ensures var batch := s.instances[i].work.batch;
            Returned(s, t, i, Isolation.WithIsolation(env, s.db, batch, Positions(batch)))
  {
    var batch := s.instances[i].work.batch;
    OffsetsLast(env, s.db, batch, Positions(batch));
    BisectedAll(s, u, i, r);
    hide Applied, Isolation.Isolate, GivenUp, Isolation.WithIsolation, Members, Isolation.AttemptOf, Isolation.Kept,
         Isolation.DeadLettered, Bisected;
  }

  lemma BisectedAll(s: System, u: System, i: nat, r: Isolation.Isolated)
    requires AtWork(s, i) && s.instances[i].work.dead == {} && Bisected(s, u, i, 0, |s.instances[i].work.batch|, r)
    ensures AtWork(u, i) && u.instances[i].work.batch == s.instances[i].work.batch
    ensures u.db == r.db && u.dead == s.dead && u.applied == s.applied + Members(Isolation.Kept(r.segments))
    ensures GivenUp(u.instances[i].work) == Members(Isolation.DeadLettered(r.segments))
    ensures u.instances[i := u.instances[i].(work := Idle)] == s.instances[i := s.instances[i].(work := Idle)]
  {
    assert GivenUp(s.instances[i].work) == {};
  }

  lemma OffsetsLast(env: Env, db: Db, batch: seq<Event>, ps: seq<Position>)
    requires batch != [] && ps != []
    requires var o := Applied(env, db, batch, ps).1; o.Failed? && !o.kind.Transient?
    ensures var r := Isolation.Isolate(Isolation.AttemptOf(env), Applied(env, db, batch, ps).0, batch);
            var whole := Isolation.WithIsolation(env, db, batch, ps);
            r.err.None? ==>
              var (last, o) := Applied(env, r.db, [], ps);
              whole.db == last && whole.segments == r.segments && (whole.err.None? <==> o.Done?) &&
              whole.failed == Isolation.DeadLettered(r.segments)
  {
    hide Applied, Isolation.Isolate;
  }

  // ------------------------------------------------------------ with retries

  lemma {:induction false} PathKeeps(env: Env, log: Log, s: System, steps: seq<Step>, t: System)
    requires LogOk(log) && Base(env.plan, log, s) && Path(env, log, s, steps, t)
    ensures Base(env.plan, log, t)
    decreases |steps|
  {
    if steps != [] {
      hide After, Enabled, Base, LogOk;
      StepKeeps(env, log, s, steps[0]);
      PathKeeps(env, log, After(env, log, s, steps[0]), steps[1..], t);
    }
  }

  /** What the caller of the retry loop sees. */
  ghost predicate Ended(s: System, t: System, i: nat, r: Isolation.BatchResult) {
    AtWork(s, i) && i < |t.instances| && t.db == r.db && s.applied <= t.applied &&
    if r.err.None? then
      t.dead == s.dead + Members(r.failed) &&
      Members(Isolation.Kept(r.segments)) <= t.applied && t.instances[i].Up? && t.instances[i].work.Idle?
    else t.dead == s.dead && AtWork(t, i) && t.instances[i].work.batch == s.instances[i].work.batch
  }

  /** The state from which a failed batch is tried again. */
  ghost predicate Again(s: System, v: System, i: nat, db: Db) {
    AtWork(s, i) && AtWork(v, i) && v.db == db && s.applied <= v.applied && v.dead == s.dead &&
    v.instances[i].work == Busy(s.instances[i].work.batch, {}, {})
  }

  lemma TryAgain(env: Env, log: Log, s: System, i: nat, a: seq<Step>, u: System, r: Isolation.BatchResult)
    returns (v: System)
    requires LogOk(log) && Base(env.plan, log, s)
    requires Path(env, log, s, a, u) && Returned(s, u, i, r) && r.err.Some?
    ensures Path(env, log, s, a + [Retry(i)], v) && Base(env.plan, log, v) && Again(s, v, i, r.db)
  {
    v := After(env, log, u, Retry(i));
    assert Again(s, v, i, r.db);
    assert Path(env, log, v, [], v);
    PathStep(env, log, u, Retry(i), [], v);
    assert [Retry(i)] + [] == [Retry(i)];
    hide Path, After, LogOk, Base;
    PathConcat(env, log, s, a, u, [Retry(i)], v);
    PathKeeps(env, log, s, a + [Retry(i)], v);
  }

  lemma EndedOnce(s: System, t: System, i: nat, r: Isolation.BatchResult)
    requires Returned(s, t, i, r)
    ensures Ended(s, t, i, r)
  {
    hide Members, Isolation.Kept, Isolation.DeadLettered;
  }

  lemma EndedLater(s: System, v: System, t: System, i: nat, db: Db, r: Isolation.BatchResult)
    requires Again(s, v, i, db) && Ended(v, t, i, r)
    ensures Ended(s, t, i, r)
  {
    hide Members, Isolation.Kept, Isolation.DeadLettered;
  }

  /** The whole retry loop on a polled batch is a sequence of steps too: calls, and a fresh start after each
      that failed. */
  lemma {:induction false} RetriesAreSteps(env: Env, log: Log, s: System, i: nat, attempts: nat)
    returns (steps: seq<Step>, t: System)
    requires LogOk(log) && Base(env.plan, log, s) && AtWork(s, i)
    requires s.instances[i].work == Busy(s.instances[i].work.batch, {}, {}) && s.instances[i].work.batch != []
    ensures var batch := s.instances[i].work.batch;
            Path(env, log, s, steps, t) &&
            Ended(s, t, i, Retrying.WithRetry(env, s.db, batch, Positions(batch), attempts))
    decreases attempts
  {
    hide Isolation.WithIsolation, Path, Base, LogOk, After, Enabled, Returned, Ended;
    var batch := s.instances[i].work.batch;
    var r := Isolation.WithIsolation(env, s.db, batch, Positions(batch));
    var a, u := CallIsSteps(env, log, s, i);
    if r.err.None? || r.err.value.Permanent? || attempts <= 1 {
      EndedOnce(s, u, i, r);
      return a, u;
    }
    var v := TryAgain(env, log, s, i, a, u, r);
    var b, w := RetriesAreSteps(env, log, v, i, attempts - 1);
    hide Retrying.WithRetry, Again;
    PathConcat(env, log, s, a + [Retry(i)], v, b, w);
    AgainEnds(env, s, v, w, i, attempts);
    return a + [Retry(i)] + b, w;
  }

  lemma AgainEnds(env: Env, s: System, v: System, w: System, i: nat, attempts: nat)
    requires AtWork(s, i) && attempts > 1
    requires var batch := s.instances[i].work.batch;
             var r := Isolation.WithIsolation(env, s.db, batch, Positions(batch));
             r.err.Some? && !r.err.value.Permanent? && Again(s, v, i, r.db) &&
             Ended(v, w, i, Retrying.WithRetry(env, v.db, batch, Positions(batch), attempts - 1))
    ensures var batch := s.instances[i].work.batch;
            Ended(s, w, i, Retrying.WithRetry(env, s.db, batch, Positions(batch), attempts))
  {
    hide Isolation.WithIsolation, Ended;
    var batch := s.instances[i].work.batch;
    EndedLater(s, v, w, i, v.db, Retrying.WithRetry(env, v.db, batch, Positions(batch), attempts - 1));
  }
}
