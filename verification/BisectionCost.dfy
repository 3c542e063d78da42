// What isolating the bad events of a batch costs (isolate in internal/sink/applier.go).

module BisectionCost {
  import opened Wrappers
  import opened CeilLog
  import opened Events
  import opened Coalescing
  import opened Statements
  import opened Apply
  import opened Refinement
  import opened Isolation

  /** Bisecting n events takes at most 2n - 1 transactions. */
  lemma {:induction false} IsolationCost(attempt: Attempt, db: Db, events: seq<Event>)
    requires events != [] && Ticks(attempt)
    ensures db.calls < Isolate(attempt, db, events).db.calls <= db.calls + 2 * |events| - 1
    decreases |events|
  {
    var (after, o) := attempt(db, events);
    if o.Failed? && !o.kind.Transient? && |events| > 1 {
      var n := |events| / 2;
      IsolationCost(attempt, after, events[..n]);
      IsolationCost(attempt, Isolate(attempt, after, events[..n]).db, events[n..]);
    }
  }

  /** How many of the events are bad. */
  ghost function Bad(events: seq<Event>, bad: set<Event>): nat {
    if events == [] then 0 else (if events[0] in bad then 1 else 0) + Bad(events[1..], bad)
  }

  lemma {:induction false} BadConcat(a: seq<Event>, b: seq<Event>, bad: set<Event>)
    ensures Bad(a + b, bad) == Bad(a, bad) + Bad(b, bad)
  {
    if a == [] {
      assert a + b == b;
    } else {
      assert (a + b)[1..] == a[1..] + b;
      BadConcat(a[1..], b, bad);
    }
  }

  lemma {:induction false} BadIff(events: seq<Event>, bad: set<Event>)
    ensures Bad(events, bad) > 0 <==> exists e :: e in events && e in bad
  {
    if events != [] {
      BadIff(events[1..], bad);
      assert events == [events[0]] + events[1..];
    }
  }

  /** A stretch of this batch is rejected only if it contains a bad event. */
  ghost predicate FailsOnlyOn(attempt: Attempt, events: seq<Event>, bad: set<Event>) {
    forall db: Db, i, j :: 0 <= i < j <= |events| && attempt(db, events[i..j]).1.Failed? ==> Bad(events[i..j], bad) > 0
  }

  lemma FailsOnlyOnWhole(attempt: Attempt, db: Db, events: seq<Event>, bad: set<Event>)
    requires FailsOnlyOn(attempt, events, bad) && events != []
    ensures attempt(db, events).1.Failed? ==> Bad(events, bad) > 0
  {
    assert events[0..|events|] == events;
    assert attempt(db, events) == attempt(db, events[0..|events|]);
  }

  lemma FailsOnlyOnPart(attempt: Attempt, events: seq<Event>, bad: set<Event>, lo: nat, hi: nat)
    requires FailsOnlyOn(attempt, events, bad) && lo <= hi <= |events|
    ensures FailsOnlyOn(attempt, events[lo..hi], bad)
  {
    forall db: Db, i, j | 0 <= i < j <= hi - lo && attempt(db, events[lo..hi][i..j]).1.Failed?
      ensures Bad(events[lo..hi][i..j], bad) > 0
    {
      SliceOfSlice(events, lo, hi, i, j);
      assert attempt(db, events[lo..hi][i..j]) == attempt(db, events[lo + i..lo + j]);
    }
  }

  lemma SliceOfSlice<T>(s: seq<T>, lo: nat, hi: nat, i: nat, j: nat)
    requires lo <= hi <= |s| && i <= j <= hi - lo
    ensures s[lo..hi][i..j] == s[lo + i..lo + j]
  {
    var a, b := s[lo..hi][i..j], s[lo + i..lo + j];
    assert |a| == |b|;
    assert forall k :: 0 <= k < |a| ==> a[k] == s[lo..hi][i + k] == s[lo + (i + k)] == b[k];
  }

  /** 1 + 2 p ceil(log2 n). */
  function LogBound(p: nat, n: nat): nat { 1 + 2 * p * CLog2(n) }

  /** Bisection is logarithmic: finding p bad events among n takes at most 1 + 2 p ceil(log2 n) calls. */
  lemma {:induction false} IsolationLogCost(attempt: Attempt, db: Db, events: seq<Event>, bad: set<Event>)
    requires events != [] && Ticks(attempt) && FailsOnlyOn(attempt, events, bad)
    ensures Isolate(attempt, db, events).db.calls - db.calls <= LogBound(Bad(events, bad), |events|)
    decreases |events|
  {
    FailsOnlyOnWhole(attempt, db, events, bad);
    if |events| > 1 && attempt(db, events).1.Failed? && !attempt(db, events).1.kind.Transient? {
      var n := |events| / 2;
      var after := attempt(db, events).0;
      var left := Isolate(attempt, after, events[..n]);
      IsolateCalls(attempt, db, events);
      hide Isolate, LogBound, Bad, Ticks, FailsOnlyOn;
      FailsOnlyOnHalves(attempt, events, bad, n);
      IsolationLogCost(attempt, after, events[..n], bad);
      IsolationLogCost(attempt, left.db, events[n..], bad);
      assert events == events[..n] + events[n..];
      BadConcat(events[..n], events[n..], bad);
      HalvesCost(Bad(events[..n], bad), Bad(events[n..], bad), n, |events| - n);
    } else {
      AtLeastOne(Bad(events, bad), |events|);
    }
  }

  lemma FailsOnlyOnHalves(attempt: Attempt, events: seq<Event>, bad: set<Event>, n: nat)
    requires FailsOnlyOn(attempt, events, bad) && n <= |events|
    ensures FailsOnlyOn(attempt, events[..n], bad) && FailsOnlyOn(attempt, events[n..], bad)
  {
    FailsOnlyOnPart(attempt, events, bad, 0, n);
    FailsOnlyOnPart(attempt, events, bad, n, |events|);
    assert events[0..n] == events[..n] && events[n..|events|] == events[n..];
  }

  lemma AtLeastOne(p: nat, n: nat)
    ensures LogBound(p, n) >= 1
  {
    assert 0 <= p * CLog2(n);
  }

  /** A stretch that is split costs its own attempt and its halves. */
  lemma IsolateCalls(attempt: Attempt, db: Db, events: seq<Event>)
    requires |events| > 1 && Ticks(attempt) && attempt(db, events).1.Failed? && !attempt(db, events).1.kind.Transient?
    ensures var n := |events| / 2;
            var after := attempt(db, events).0;
            var left := Isolate(attempt, after, events[..n]);
            var right := Isolate(attempt, left.db, events[n..]);
            Isolate(attempt, db, events).db.calls - db.calls <=
            1 + (left.db.calls - after.calls) + (right.db.calls - left.db.calls)
  {
    var n := |events| / 2;
    var left := Isolate(attempt, attempt(db, events).0, events[..n]);
    IsolationCost(attempt, left.db, events[n..]);
  }

  lemma HalvesCost(p1: nat, p2: nat, n1: nat, n2: nat)
    requires n1 <= n2 <= n1 + 1 && n1 >= 1 && p1 + p2 >= 1
    ensures 1 + LogBound(p1, n1) + LogBound(p2, n2) <= LogBound(p1 + p2, n1 + n2)
  {
    var levels := CLog2(n1 + n2);
    CLog2Monotone(n1, n2);
    assert (n1 + n2 + 1) / 2 == n2;
    SplitCost(p1, p2, p1 + p2, LogBound(p1, n1), LogBound(p2, n2), levels);
  }

  // ------------------------------------------------------------ the cost of the applier

  /** The database raises an error only at a statement that writes a bad event. */
  ghost predicate FaultsOnlyOn(env: Env, bad: set<Event>) {
    forall call, k, rows :: env.fault(call, k, rows).Some? ==> exists e :: e in rows && e in bad
  }

  lemma {:induction false} GoodStmtsPass(env: Env, call: nat, k: nat, stmts: seq<Stmt>, bad: set<Event>)
    requires FaultsOnlyOn(env, bad) && forall i, e :: 0 <= i < |stmts| && e in RowsOf(stmts[i]) ==> e !in bad
    ensures StmtsPass(env, call, k, stmts)
    decreases |stmts|
  {
    if stmts != [] {
      assert forall e :: e in RowsOf(stmts[0]) ==> e !in bad;
      forall i, e | 0 <= i < |stmts[1..]| && e in RowsOf(stmts[1..][i]) ensures e !in bad {
        assert stmts[1..][i] == stmts[i + 1];
      }
      GoodStmtsPass(env, call, k + 1, stmts[1..], bad);
    }
  }

  /** So a planned stretch without bad events commits. */
  lemma GoodCommits(env: Env, db: Db, events: seq<Event>, bad: set<Event>)
    requires events != [] && Planned(env.plan, events) && FaultsOnlyOn(env, bad)
    requires forall e :: e in events ==> e !in bad
    ensures Applied(env, db, events, []).1.Done?
  {
    var stmts := BatchStmts(env, Coalesced(events));
    hide Applied, BatchStmts, Coalesced;
    forall i, e | 0 <= i < |stmts| && e in RowsOf(stmts[i]) ensures e !in bad { StmtEvents(env, events, i, e); }
    GoodStmtsPass(env, db.calls, 1, stmts, bad);
    CommitsIff(env, db, events, []);
  }

  lemma RealFailsOnlyOn(env: Env, events: seq<Event>, bad: set<Event>)
    requires Planned(env.plan, events) && FaultsOnlyOn(env, bad)
    ensures FailsOnlyOn(AttemptOf(env), events, bad)
  {
    forall db: Db, i, j | 0 <= i < j <= |events| && AttemptOf(env)(db, events[i..j]).1.Failed?
      ensures Bad(events[i..j], bad) > 0
    {
      var part := events[i..j];
      assert AttemptOf(env)(db, part) == Applied(env, db, part, []);
      assert forall e :: e in part ==> e in events;
      BadIff(part, bad);
      if Bad(part, bad) == 0 { GoodCommits(env, db, part, bad); }
    }
  }

  lemma RealIsolationLogCost(env: Env, db: Db, events: seq<Event>, bad: set<Event>)
    requires events != [] && Planned(env.plan, events) && FaultsOnlyOn(env, bad)
    ensures Isolate(AttemptOf(env), db, events).db.calls - db.calls <= LogBound(Bad(events, bad), |events|)
  {
    ApplyTicks(env);
    RealFailsOnlyOn(env, events, bad);
    hide Ticks, FailsOnlyOn, FaultsOnlyOn, Isolate, AttemptOf;
    IsolationLogCost(AttemptOf(env), db, events, bad);
  }

  /** One attempt, the bisection, one transaction for the offsets. */
  lemma WithIsolationCalls(env: Env, db: Db, events: seq<Event>, positions: seq<Position>)
    requires events != []
    ensures var (first, o) := Applied(env, db, events, positions);
            var calls := WithIsolation(env, db, events, positions).db.calls;
            var bisected := Isolate(AttemptOf(env), first, events).db.calls;
            first.calls == db.calls + 1 && (calls == first.calls || calls <= bisected + 1) &&
            (o.Failed? && !o.kind.Transient? ==> bisected <= calls)
  {
    hide Isolate, AttemptOf;
  }

  /** What the applier spends on a planned batch of n events, p of them bad: one attempt, at most
      1 + 2 p ceil(log2 n) for the bisection, and one for the offsets. */
  lemma WithIsolationLogCost(env: Env, db: Db, events: seq<Event>, positions: seq<Position>, bad: set<Event>)
    requires events != [] && Planned(env.plan, events) && FaultsOnlyOn(env, bad)
    ensures WithIsolation(env, db, events, positions).db.calls - db.calls <= 2 + LogBound(Bad(events, bad), |events|)
  {
    hide LogBound, Isolate, AttemptOf, WithIsolation, Applied, FaultsOnlyOn;
    WithIsolationCalls(env, db, events, positions);
    RealIsolationLogCost(env, Applied(env, db, events, positions).0, events, bad);
    AtLeastOne(Bad(events, bad), |events|);
  }

  // ------------------------------------------------------------ the cost of one bad event, from below

  /** A stretch of this batch is rejected, and not transiently, exactly when it contains a bad event. */
  ghost predicate FailsExactlyOn(attempt: Attempt, events: seq<Event>, bad: set<Event>) {
    forall db: Db, i, j :: 0 <= i < j <= |events| ==>
      var o := attempt(db, events[i..j]).1;
      (o.Failed? <==> Bad(events[i..j], bad) > 0) && (o.Failed? ==> !o.kind.Transient?)
  }

  lemma FailsExactlyOnParts(attempt: Attempt, db: Db, events: seq<Event>, bad: set<Event>, n: nat)
    requires FailsExactlyOn(attempt, events, bad) && n <= |events|
    ensures FailsExactlyOn(attempt, events[..n], bad) && FailsExactlyOn(attempt, events[n..], bad)
    ensures events != [] ==>
              var o := attempt(db, events).1;
              (o.Failed? <==> Bad(events, bad) > 0) && (o.Failed? ==> !o.kind.Transient?)
  {
    FailsExactlyOnPart(attempt, events, bad, 0, n);
    FailsExactlyOnPart(attempt, events, bad, n, |events|);
    assert events[0..n] == events[..n] && events[n..|events|] == events[n..];
    assert events[0..|events|] == events;
    assert attempt(db, events) == attempt(db, events[0..|events|]);
  }

  lemma FailsExactlyOnPart(attempt: Attempt, events: seq<Event>, bad: set<Event>, lo: nat, hi: nat)
    requires FailsExactlyOn(attempt, events, bad) && lo <= hi <= |events|
    ensures FailsExactlyOn(attempt, events[lo..hi], bad)
  {
    forall db: Db, i, j | 0 <= i < j <= hi - lo
      ensures var o := attempt(db, events[lo..hi][i..j]).1;
              (o.Failed? <==> Bad(events[lo..hi][i..j], bad) > 0) && (o.Failed? ==> !o.kind.Transient?)
    {
      SliceOfSlice(events, lo, hi, i, j);
      assert attempt(db, events[lo..hi][i..j]) == attempt(db, events[lo + i..lo + j]);
    }
  }

  /** How often n can be halved, rounding down, before one is left. */
  function FLog2(n: nat): nat { if n <= 1 then 0 else 1 + FLog2(n / 2) }

  lemma {:induction false} FLog2Monotone(a: nat, b: nat)
    requires a <= b
    ensures FLog2(a) <= FLog2(b)
    decreases b
  {
    if a > 1 { FLog2Monotone(a / 2, b / 2); }
  }

  /** Such a bisection is never cut short. */
  lemma {:induction false} NeverCutShort(attempt: Attempt, db: Db, events: seq<Event>, bad: set<Event>)
    requires FailsExactlyOn(attempt, events, bad)
    ensures Isolate(attempt, db, events).err.None?
    decreases |events|
  {
    if events != [] {
      var n := |events| / 2;
      FailsExactlyOnParts(attempt, db, events, bad, n);
      hide FailsExactlyOn;
      if |events| > 1 && attempt(db, events).1.Failed? {
        NeverCutShort(attempt, attempt(db, events).0, events[..n], bad);
        NeverCutShort(attempt, Isolate(attempt, attempt(db, events).0, events[..n]).db, events[n..], bad);
      }
    }
  }

  /** One bad event among n already costs 1 + 2 floor(log2 n) calls. */
  lemma {:induction false} IsolationCostsAtLeast(attempt: Attempt, db: Db, events: seq<Event>, bad: set<Event>)
    requires Ticks(attempt) && FailsExactlyOn(attempt, events, bad) && Bad(events, bad) > 0
    ensures Isolate(attempt, db, events).db.calls - db.calls >= 1 + 2 * FLog2(|events|)
    decreases |events|
  {
    var n := |events| / 2;
    FailsExactlyOnParts(attempt, db, events, bad, n);
    IsolationCost(attempt, db, events);
    if |events| > 1 {
      var after := attempt(db, events).0;
      var left := Isolate(attempt, after, events[..n]);
      IsolatesBothHalves(attempt, db, events, bad);
      IsolationCost(attempt, after, events[..n]);
      IsolationCost(attempt, left.db, events[n..]);
      hide FailsExactlyOn, Isolate, Bad;
      assert events == events[..n] + events[n..];
      BadConcat(events[..n], events[n..], bad);
      FLog2Monotone(n, |events| - n);
      if Bad(events[..n], bad) > 0 {
        IsolationCostsAtLeast(attempt, after, events[..n], bad);
      } else {
        IsolationCostsAtLeast(attempt, left.db, events[n..], bad);
      }
    }
  }

  lemma IsolatesBothHalves(attempt: Attempt, db: Db, events: seq<Event>, bad: set<Event>)
    requires Ticks(attempt) && FailsExactlyOn(attempt, events, bad) && Bad(events, bad) > 0 && |events| > 1
    ensures var n := |events| / 2;
            var after := attempt(db, events).0;
            var left := Isolate(attempt, after, events[..n]);
            after.calls == db.calls + 1 &&
            Isolate(attempt, db, events).db == Isolate(attempt, left.db, events[n..]).db
  {
    var n := |events| / 2;
    FailsExactlyOnParts(attempt, db, events, bad, n);
    hide FailsExactlyOn;
    NeverCutShort(attempt, attempt(db, events).0, events[..n], bad);
  }

  /** The database rejects, and not transiently, exactly the statements that write a bad event. */
  ghost predicate FaultsExactlyOn(env: Env, bad: set<Event>) {
    forall call, k, rows ::
      (env.fault(call, k, rows).Some? <==> exists e :: e in rows && e in bad) &&
      env.fault(call, k, rows) != Some(Transient)
  }

  /** Nothing else in the batch addresses the row of a bad event, so that every stretch holding one writes it. */
  ghost predicate Exposed(events: seq<Event>, bad: set<Event>) {
    forall i :: 0 <= i < |events| && events[i] in bad ==>
      !events[i].op.OpTruncate? &&
      forall j :: 0 <= j < |events| && events[j].Id() == events[i].Id() ==> events[j] == events[i]
  }

  lemma {:induction false} BadStmtFails(env: Env, call: nat, k: nat, stmts: seq<Stmt>, e: Event, bad: set<Event>)
    requires FaultsExactlyOn(env, bad) && e in bad && e in Carried(stmts)
    ensures !StmtsPass(env, call, k, stmts)
    decreases |stmts|
  {
    if e !in RowsOf(stmts[0]) { BadStmtFails(env, call, k + 1, stmts[1..], e, bad); }
  }

  /** A bad event with its row to itself is written. */
  lemma BadIsCarried(env: Env, events: seq<Event>, e: Event)
    requires Planned(env.plan, events) && e in events && !e.op.OpTruncate?
    requires forall j :: 0 <= j < |events| && events[j].Id() == e.Id() ==> events[j] == e
    ensures e in Carried(BatchStmts(env, Coalesced(events)))
  {
    var id := e.Id();
    var batch := Coalesced(events);
    hide Coalesced, BatchStmts;
    PlannedBatch(env, events);
    EventsOfMember(events, id, e);
    CoalescedRow(events, id);
    WinnerLsn(EventsOf(events, id));
    EventsOfMember(events, id, Winner(EventsOf(events, id)));
    CommittedRow(env, batch, id);
    assert [e][1..] == [];
    EventsOfMember(Carried(BatchStmts(env, batch)), id, e);
  }

  lemma {:induction false} StmtsKind(env: Env, call: nat, k: nat, stmts: seq<Stmt>, d: Data)
    requires forall c, n, rows :: env.fault(c, n, rows) != Some(Transient)
    ensures RunStmts(env, call, k, stmts, d) != Failed(Transient)
    decreases |stmts|
  {
    if stmts != [] {
      var o := TryStmt(env, call, k, stmts[0], d);
      if o.Done? { StmtsKind(env, call, k + 1, stmts[1..], o.value); }
    }
  }

  lemma NeverTransient(env: Env, db: Db, events: seq<Event>)
    requires forall c, n, rows :: env.fault(c, n, rows) != Some(Transient)
    ensures Applied(env, db, events, []).1 != Failed(Transient)
  {
    StmtsKind(env, db.calls, 1, BatchStmts(env, Coalesced(events)), Data(db.rows, 0, 0));
    hide RunStmts, BatchStmts;
  }

  lemma BadIsRejected(env: Env, db: Db, events: seq<Event>, e: Event, bad: set<Event>)
    requires Planned(env.plan, events) && FaultsExactlyOn(env, bad) && Exposed(events, bad) && e in events && e in bad
    ensures Applied(env, db, events, []).1.Failed?
  {
    hide Applied, BatchStmts, Coalesced;
    BadIsCarried(env, events, e);
    BadStmtFails(env, db.calls, 1, BatchStmts(env, Coalesced(events)), e, bad);
    CommitsIff(env, db, events, []);
  }

  lemma RealFailsExactlyOn(env: Env, events: seq<Event>, bad: set<Event>)
    requires Planned(env.plan, events) && FaultsExactlyOn(env, bad) && Exposed(events, bad)
    ensures FailsExactlyOn(AttemptOf(env), events, bad)
  {
    forall db: Db, i, j | 0 <= i < j <= |events|
      ensures var o := AttemptOf(env)(db, events[i..j]).1;
              (o.Failed? <==> Bad(events[i..j], bad) > 0) && (o.Failed? ==> !o.kind.Transient?)
    {
      var part := events[i..j];
      assert AttemptOf(env)(db, part) == Applied(env, db, part, []);
      assert forall e :: e in part ==> e in events;
      BadIff(part, bad);
      NeverTransient(env, db, part);
      PartExposed(events, bad, i, j);
      hide Applied, Exposed, Bad;
      if Bad(part, bad) == 0 {
        GoodCommits(env, db, part, bad);
      } else {
        var e :| e in part && e in bad;
        BadIsRejected(env, db, part, e, bad);
      }
    }
  }

  lemma PartExposed(events: seq<Event>, bad: set<Event>, lo: nat, hi: nat)
    requires Exposed(events, bad) && lo <= hi <= |events|
    ensures Exposed(events[lo..hi], bad)
  {
    var part := events[lo..hi];
    assert forall i :: 0 <= i < |part| ==> part[i] == events[lo + i];
  }

  /** So isolating even one bad event among n takes the applier at least 1 + 2 floor(log2 n) transactions beyond
      the first attempt. */
  lemma WithIsolationCostsAtLeast(env: Env, db: Db, events: seq<Event>, positions: seq<Position>, bad: set<Event>)
    requires Planned(env.plan, events) && FaultsExactlyOn(env, bad) && Exposed(events, bad) && Bad(events, bad) > 0
    ensures WithIsolation(env, db, events, positions).db.calls - db.calls >= 2 + 2 * FLog2(|events|)
  {
    BadIff(events, bad);
    var e :| e in events && e in bad;
    FirstRejected(env, db, events, positions, e, bad);
    WithIsolationCalls(env, db, events, positions);
    ApplyTicks(env);
    RealFailsExactlyOn(env, events, bad);
    hide Applied, Isolate, AttemptOf, Bad, WithIsolation, Exposed, FaultsExactlyOn, FailsExactlyOn, Ticks;
    IsolationCostsAtLeast(AttemptOf(env), Applied(env, db, events, positions).0, events, bad);
  }

  lemma FirstRejected(env: Env, db: Db, events: seq<Event>, positions: seq<Position>, e: Event, bad: set<Event>)
    requires Planned(env.plan, events) && FaultsExactlyOn(env, bad) && Exposed(events, bad) && e in events && e in bad
    ensures var (after, o) := Applied(env, db, events, positions);
            after.calls == db.calls + 1 && o.Failed? && !o.kind.Transient?
  {
    var stmts := BatchStmts(env, Coalesced(events));
    BadIsCarried(env, events, e);
    BadStmtFails(env, db.calls, 1, stmts, e, bad);
    StmtsKind(env, db.calls, 1, stmts, Data(db.rows, 0, 0));
    DataDone(env, db.calls, events, Data(db.rows, 0, 0));
    hide RunStmts, BatchStmts, Coalesced, StmtsPass;
  }

  /** A batch of 500 with one record that is actually broken: seventeen transactions beyond the first, not nine. */
  lemma FiveHundred()
    ensures 1 + 2 * FLog2(500) == 17
  {
    assert FLog2(500) == 1 + FLog2(250) == 2 + FLog2(125) == 3 + FLog2(62);
    assert FLog2(62) == 1 + FLog2(31) == 2 + FLog2(15) == 3 + FLog2(7) == 4 + FLog2(3) == 5 + FLog2(1);
  }
}
