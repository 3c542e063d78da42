// Delivery over whole runs: when nothing is lost, who loses nothing, what a loss means, and the run of the
// service loop as written that loses an event.

module DeliveryRuns {
  import opened Wrappers
  import opened FencedRows
  import opened Events
  import opened Coalescing
  import opened Offsets
  import opened Apply
  import opened Refinement
  import opened HighWater
  import opened Delivery
  import Isolation
  import Retrying

  ghost predicate Init(s: System) {
    s.db.rows == map[] && s.db.marks == map[] && s.applied == {} && s.dead == {} &&
    forall i :: 0 <= i < |s.instances| ==> s.instances[i].Down?
  }

  ghost predicate Steps(env: Env, log: Log, s: System, step: Step, t: System) {
    Enabled(log, s, step) && t == After(env, log, s, step)
  }

  ghost predicate IsRun(env: Env, log: Log, states: seq<System>, steps: seq<Step>) {
    |states| == |steps| + 1 && Init(states[0]) &&
    forall i :: 0 <= i < |steps| ==> Steps(env, log, states[i], steps[i], states[i + 1])
  }

  lemma {:induction false} RunKeeps(env: Env, log: Log, states: seq<System>, steps: seq<Step>, n: nat)
    requires LogOk(log) && IsRun(env, log, states, steps) && n < |states|
    ensures Base(env.plan, log, states[n])
    decreases n
  {
    if n > 0 {
      assert Steps(env, log, states[n - 1], steps[n - 1], states[n]);
      RunKeeps(env, log, states, steps, n - 1);
      StepKeeps(env, log, states[n - 1], steps[n - 1]);
    }
  }

  /** Over every run the stored offsets never fall. */
  lemma RunRaises(env: Env, log: Log, states: seq<System>, steps: seq<Step>, m: nat, n: nat)
    requires LogOk(log) && IsRun(env, log, states, steps) && m <= n < |states|
    ensures MarksRise(states[m].db.marks, states[n].db.marks)
  {
    var marks := seq(|states|, i requires 0 <= i < |states| => states[i].db.marks);
    forall k | 0 < k < |marks| ensures MarksRise(marks[k - 1], marks[k]) { RaisesOnce(env, log, states, steps, k); }
    ChainRises(marks, m, n);
  }

  lemma {:induction false} ChainRises(marks: seq<Marks>, m: nat, n: nat)
    requires m <= n < |marks| && forall k :: 0 < k < |marks| ==> MarksRise(marks[k - 1], marks[k])
    ensures MarksRise(marks[m], marks[n])
    decreases n
  {
    if m < n { ChainRises(marks, m, n - 1); }
  }

  lemma RaisesOnce(env: Env, log: Log, states: seq<System>, steps: seq<Step>, n: nat)
    requires LogOk(log) && IsRun(env, log, states, steps) && 0 < n < |states|
    ensures MarksRise(states[n - 1].db.marks, states[n].db.marks)
  {
    hide After, Enabled, MarksRise, Base, LogOk;
    assert Steps(env, log, states[n - 1], steps[n - 1], states[n]);
    RunKeeps(env, log, states, steps, n - 1);
    StepKeeps(env, log, states[n - 1], steps[n - 1]);
  }

  // ------------------------------------------------------------ when nothing is lost

  /** No commit up to step n has stored offsets over a gap. */
  ghost predicate GaplessTo(env: Env, log: Log, states: seq<System>, steps: seq<Step>, n: nat)
    requires n <= |steps| <= |states|
  {
    forall i :: 0 <= i < n && Moves(env, log, states[i], steps[i]) ==> Gapless(log, states[i], steps[i])
  }

  lemma {:induction false} GaplessLosesNothing(env: Env, log: Log, states: seq<System>, steps: seq<Step>, n: nat)
    requires LogOk(log) && IsRun(env, log, states, steps) && n < |states| && GaplessTo(env, log, states, steps, n)
    ensures NothingLost(log, states[n])
    decreases n
  {
    if n > 0 {
      hide After, Enabled, Gapless, Moves;
      assert Steps(env, log, states[n - 1], steps[n - 1], states[n]);
      RunKeeps(env, log, states, steps, n - 1);
      GaplessLosesNothing(env, log, states, steps, n - 1);
      StepLosesNothingIff(env, log, states[n - 1], steps[n - 1]);
    }
  }

  /** Whatever the instances do, polling past failed batches included: nothing is ever lost if and only if no
      commit stores offsets over a row change that is neither in its batch nor accounted for. */
  lemma RunLosesNothingIff(env: Env, log: Log, states: seq<System>, steps: seq<Step>)
    requires LogOk(log) && IsRun(env, log, states, steps)
    ensures (forall n :: 0 <= n < |states| ==> NothingLost(log, states[n])) <==>
            GaplessTo(env, log, states, steps, |steps|)
  {
    hide After, Enabled, Gapless, Moves;
    if GaplessTo(env, log, states, steps, |steps|) {
      forall n | 0 <= n < |states| ensures NothingLost(log, states[n]) {
        GaplessLosesNothing(env, log, states, steps, n);
      }
    }
    if forall n :: 0 <= n < |states| ==> NothingLost(log, states[n]) {
      forall i | 0 <= i < |steps| && Moves(env, log, states[i], steps[i]) ensures Gapless(log, states[i], steps[i]) {
        assert Steps(env, log, states[i], steps[i], states[i + 1]);
        RunKeeps(env, log, states, steps, i);
        StepLosesNothingIff(env, log, states[i], steps[i]);
      }
    }
  }

  /** Delivery: while no commit has stored offsets over a gap, an event at or below a stored offset is
      dead-lettered or folded into its row; and in any case what a row shows is an event of the log. */
  lemma Delivered(env: Env, log: Log, states: seq<System>, steps: seq<Step>, n: nat)
    requires LogOk(log) && IsRun(env, log, states, steps) && n < |states|
    ensures var s := states[n];
            (GaplessTo(env, log, states, steps, n) ==>
               forall ev :: At(log, ev) && PartitionOf(ev) in s.db.marks &&
                            ev.offset <= s.db.marks[PartitionOf(ev)].offset ==>
                 ev in s.dead || FoldedIn(env.plan, s.db.rows, ev)) &&
            (forall id :: Lookup(s.db.rows, id).Some? ==>
               exists ev :: At(log, ev) && ev.Id() == id && Lookup(s.db.rows, id) == Some(ViewOf(env.plan, ev)))
  {
    var s := states[n];
    RunKeeps(env, log, states, steps, n);
    if GaplessTo(env, log, states, steps, n) { GaplessLosesNothing(env, log, states, steps, n); }
    hide GaplessTo, IsRun, LogOk;
    forall ev | ev in s.applied ensures FoldedIn(env.plan, s.db.rows, ev) {
      assert RowNewest(env.plan, Lookup(s.db.rows, ev.Id()), s.applied, ev.Id());
    }
    forall id | Lookup(s.db.rows, id).Some?
      ensures exists ev :: At(log, ev) && ev.Id() == id && Lookup(s.db.rows, id) == Some(ViewOf(env.plan, ev))
    {
      assert RowNewest(env.plan, Lookup(s.db.rows, id), s.applied, id);
      var v := Lookup(s.db.rows, id).value;
      var e :| e in s.applied && e.Id() == id && ViewOf(env.plan, e) == v;
      assert e in s.applied + s.dead && At(log, e);
    }
  }

  /** The row is at the event's LSN or above. */
  ghost predicate FoldedIn(plan: Plan, rows: Rows, ev: Event) {
    Lookup(rows, ev.Id()).Some? && ViewOf(plan, ev).lsn <= Lookup(rows, ev.Id()).value.lsn
  }

  /** Effectively once: as soon as the stored offset has passed a row's highest-LSN change, and that
      change was not dead-lettered, the row is that change, whatever was redelivered, retried or
      overlapped, and whatever else of the log is still to come. */
  lemma EffectivelyOnce(env: Env, log: Log, states: seq<System>, steps: seq<Step>, n: nat, ev: Event)
    requires LogOk(log) && IsRun(env, log, states, steps) && n < |states| && GaplessTo(env, log, states, steps, n)
    requires PartitionOf(ev) in states[n].db.marks && ev.offset <= states[n].db.marks[PartitionOf(ev)].offset
    requires At(log, ev) && ev !in states[n].dead
    requires forall e :: At(log, e) && e.Id() == ev.Id() ==>
               e.lsn < ev.lsn || (e.lsn == ev.lsn && ViewOf(env.plan, e) == ViewOf(env.plan, ev))
    ensures Lookup(states[n].db.rows, ev.Id()) == Some(ViewOf(env.plan, ev))
  {
    Delivered(env, log, states, steps, n);
    var row := Lookup(states[n].db.rows, ev.Id());
    assert FoldedIn(env.plan, states[n].db.rows, ev);
    var e :| At(log, e) && e.Id() == ev.Id() && row == Some(ViewOf(env.plan, e));
    hide IsRun, GaplessTo;
    SignedView(env.plan, ev);
    SignedView(env.plan, e);
  }

  // ------------------------------------------------------------ who loses nothing

  /** Since it last started, instance i has polled past nothing that was outstanding. */
  ghost predicate Diligent(states: seq<System>, steps: seq<Step>, i: nat, n: nat)
    requires n <= |steps| <= |states|
    decreases n
  {
    n == 0 ||
    (if steps[n - 1].i == i && (steps[n - 1].Start? || steps[n - 1].Crash?) then true
     else Diligent(states, steps, i, n - 1) && (steps[n - 1].i == i ==> LeavesNothing(states[n - 1], steps[n - 1])))
  }

  /** The step drops no event that is still outstanding. */
  ghost predicate Answered(s: System, step: Step)
    requires step.i < |s.instances| && s.instances[step.i].Up? && s.instances[step.i].work.Busy?
  {
    Dropped(s, step) <= s.applied + s.dead
  }

  /** Whoever stores offsets has been diligent, and learns what it has given up on: failed batches are retried,
      or the instance restarts first. */
  ghost predicate Disciplined(env: Env, log: Log, states: seq<System>, steps: seq<Step>)
    requires |steps| <= |states|
  {
    forall n :: 0 <= n < |steps| && Moves(env, log, states[n], steps[n]) ==>
      Diligent(states, steps, steps[n].i, n) && Answered(states[n], steps[n])
  }

  lemma {:induction false} DiligentIsWhole(env: Env, log: Log, states: seq<System>, steps: seq<Step>, n: nat)
    requires LogOk(log) && IsRun(env, log, states, steps) && Disciplined(env, log, states, steps) && n < |states|
    ensures NothingLost(log, states[n])
    ensures forall j :: 0 <= j < |states[n].instances| && Diligent(states, steps, j, n) ==>
              Whole(log, states[n].instances[j], states[n].applied + states[n].dead)
    decreases n
  {
    if n > 0 {
      var s, step := states[n - 1], steps[n - 1];
      hide After, Enabled, Whole, Moves, NothingLost, LogOk, Base, Gapless, LeavesNothing;
      assert Steps(env, log, s, step, states[n]);
      RunKeeps(env, log, states, steps, n - 1);
      DiligentIsWhole(env, log, states, steps, n - 1);
      LocalEffect(env, log, s, step);
      if Moves(env, log, s, step) { MoverIsGapless(env, log, s, step); }
      StepLosesNothingIff(env, log, s, step);
      forall j | 0 <= j < |states[n].instances| && Diligent(states, steps, j, n)
        ensures Whole(log, states[n].instances[j], states[n].applied + states[n].dead)
      {
        WholeStep(env, log, states, steps, n, j);
      }
    }
  }

  lemma MoverIsGapless(env: Env, log: Log, s: System, step: Step)
    requires Base(env.plan, log, s) && Moves(env, log, s, step)
    requires step.i < |s.instances| && Whole(log, s.instances[step.i], s.applied + s.dead) && Answered(s, step)
    ensures Gapless(log, s, step)
  {
    WholeIsGapless(env.plan, log, s, step);
  }

  lemma WholeStep(env: Env, log: Log, states: seq<System>, steps: seq<Step>, n: nat, j: nat)
    requires 0 < n <= |steps| < |states| && LogOk(log) && Base(env.plan, log, states[n - 1])
    requires Steps(env, log, states[n - 1], steps[n - 1], states[n]) && NothingLost(log, states[n - 1])
    requires j < |states[n - 1].instances| && Diligent(states, steps, j, n)
    requires Diligent(states, steps, j, n - 1) ==>
               Whole(log, states[n - 1].instances[j], states[n - 1].applied + states[n - 1].dead)
    ensures j < |states[n].instances| && Whole(log, states[n].instances[j], states[n].applied + states[n].dead)
  {
    var s, step := states[n - 1], steps[n - 1];
    hide Applied, Base, NothingLost, LogOk;
    LocalEffect(env, log, s, step);
    if !(step.Crash? && step.i == j) { StepStaysWhole(env, log, s, step, j); }
  }

  /** So instances that retry a failed batch to completion, or restart, lose nothing. */
  lemma DisciplinedIsGapless(env: Env, log: Log, states: seq<System>, steps: seq<Step>, n: nat)
    requires LogOk(log) && IsRun(env, log, states, steps) && Disciplined(env, log, states, steps) && n <= |steps|
    ensures GaplessTo(env, log, states, steps, n)
  {
    hide After, Gapless, Whole, NothingLost, Diligent;
    forall i | 0 <= i < n && Moves(env, log, states[i], steps[i]) ensures Gapless(log, states[i], steps[i]) {
      RunKeeps(env, log, states, steps, i);
      DiligentIsWhole(env, log, states, steps, i);
      MoverIsGapless(env, log, states[i], steps[i]);
    }
  }

  // ------------------------------------------------------------ what is lost stays lost

  /** Below the stored offset, unaccounted for, in nobody's hands and behind everybody's read position. */
  ghost predicate Lost(log: Log, s: System, ev: Event) {
    var p := PartitionOf(ev);
    At(log, ev) && ev !in s.applied + s.dead && p in s.db.marks && ev.offset <= s.db.marks[p].offset &&
    forall i :: 0 <= i < |s.instances| ==> Missed(s.instances[i], ev)
  }

  ghost predicate Missed(me: Instance, ev: Event) {
    me.Up? ==> PartitionOf(ev) in me.next && ev.offset < me.next[PartitionOf(ev)] && ev !in InHand(me.work)
  }

  lemma LostStays(env: Env, log: Log, s: System, step: Step, ev: Event)
    requires LogOk(log) && Base(env.plan, log, s) && Lost(log, s, ev) && Enabled(log, s, step)
    ensures Lost(log, After(env, log, s, step), ev)
  {
    var t := After(env, log, s, step);
    StepKeeps(env, log, s, step);
    assert Missed(s.instances[step.i], ev);
    StaysMissed(env, log, s, step, ev);
    hide After, Enabled, Base, LogOk, Missed;
    LocalEffect(env, log, s, step);
    assert forall j :: 0 <= j < |t.instances| ==> Missed(t.instances[j], ev);
  }

  /** A step accounts only for what its instance has in hand, and an instance behind the event does not come back
      to it: it restarts beyond it and polls on. */
  lemma StaysMissed(env: Env, log: Log, s: System, step: Step, ev: Event)
    requires Enabled(log, s, step) && At(log, ev) && Missed(s.instances[step.i], ev) && step.i < |s.instances|
    requires PartitionOf(ev) in s.db.marks && ev.offset <= s.db.marks[PartitionOf(ev)].offset
    requires ev !in s.applied + s.dead
    ensures var t := After(env, log, s, step);
            step.i < |t.instances| && Missed(t.instances[step.i], ev) && ev !in t.applied + t.dead
  {
    hide Applied;
  }

  /** Lost for good: no continuation applies or dead-letters it. */
  lemma {:induction false} LostForGood(env: Env, log: Log, states: seq<System>, steps: seq<Step>, m: nat, n: nat,
                                       ev: Event)
    requires LogOk(log) && IsRun(env, log, states, steps) && m <= n < |states| && Lost(log, states[m], ev)
    ensures Lost(log, states[n], ev)
    decreases n
  {
    if m < n {
      hide *;
      LostForGood(env, log, states, steps, m, n - 1, ev);
      LostOnce(env, log, states, steps, n, ev);
    }
  }

  lemma LostOnce(env: Env, log: Log, states: seq<System>, steps: seq<Step>, n: nat, ev: Event)
    requires LogOk(log) && IsRun(env, log, states, steps) && 0 < n < |states| && Lost(log, states[n - 1], ev)
    ensures Lost(log, states[n], ev)
  {
    hide After, Enabled, Lost, Base, LogOk;
    assert Steps(env, log, states[n - 1], steps[n - 1], states[n]);
    RunKeeps(env, log, states, steps, n - 1);
    LostStays(env, log, states[n - 1], steps[n - 1], ev);
  }

  // ------------------------------------------------------------ the loop as written

  function SampleEvent(key: nat): Event
    requires key < 256
  {
    Event([97], OpCreate, [key], map[], map[], key, [116], 0, key)
  }

  function SampleLog(): Log { map[Partition([116], 0) := [Some(SampleEvent(0)), Some(SampleEvent(1))]] }

  /** A database that is away for its first k transactions. */
  function SampleEnv(k: nat): Env {
    Env(map[[97] := {}], 0, (call: nat, n: nat, rows: seq<Event>) => if call < k then Some(Transient) else None)
  }

  lemma SampleOk()
    ensures LogOk(SampleLog())
    ensures forall ev :: At(SampleLog(), ev) <==> ev == SampleEvent(0) || ev == SampleEvent(1)
  {
    var log := SampleLog();
    var p := Partition([116], 0);
    assert log[p][0] == Some(SampleEvent(0)) && log[p][1] == Some(SampleEvent(1));
    assert At(log, SampleEvent(0)) && At(log, SampleEvent(1));
  }

  function Holding(calls: nat, marks: Marks, rows: Rows, me: Instance, applied: set<Event>): System {
    System(Db(rows, marks, calls), [me], applied, {})
  }

  lemma SampleCommit(k: nat, calls: nat, key: nat)
    requires key < 2
    ensures var batch := [SampleEvent(key)];
            var (db, o) := Applied(SampleEnv(k), Db(map[], map[], calls), batch, Positions(batch));
            if calls < k then db == Db(map[], map[], calls + 1) && o == Failed(Transient) else o.Done?
  {
    var env := SampleEnv(k);
    var batch := [SampleEvent(key)];
    hide RunStmts, BatchStmts, RunMarks;
    if calls >= k {
      CommitsIff(env, Db(map[], map[], calls), batch, Positions(batch));
      AllPass(env, calls, 1, BatchStmts(env, Coalesced(batch)));
    }
  }

  /** The first poll, k failed attempts, and on to the next poll. */
  function SampleState(k: nat, n: nat): System {
    var p := Partition([116], 0);
    if n == 0 then Holding(0, map[], map[], Down, {})
    else if n == 1 then Holding(0, map[], map[], Up(map[p := 0], Idle), {})
    else if n <= k + 2 then Holding(n - 2, map[], map[], Up(map[p := 1], Busy([SampleEvent(0)], {}, {})), {})
    else if n == k + 3 then Holding(k, map[], map[], Up(map[p := 1], Idle), {})
    else Holding(k, map[], map[], Up(map[p := 2], Busy([SampleEvent(1)], {}, {})), {})
  }

  function SampleStep(k: nat, n: nat): Step {
    var p := Partition([116], 0);
    if n == 0 then Start(0)
    else if n == 1 then Poll(0, map[p := 1], [SampleEvent(0)])
    else if n < k + 2 then Commit(0, None)
    else if n == k + 2 then Abandon(0)
    else if n == k + 3 then Poll(0, map[p := 2], [SampleEvent(1)])
    else Commit(0, None)
  }

  lemma SampleSteps(k: nat, n: nat)
    requires k > 0 && n < k + 4
    ensures Steps(SampleEnv(k), SampleLog(), SampleState(k, n), SampleStep(k, n), SampleState(k, n + 1))
  {
    hide Steps;
    if n == 0 { SampleStart(k); }
    else if n == 1 || n == k + 3 { SamplePoll(k, n); }
    else if n < k + 2 { SampleFailure(k, n); }
    else { SampleAbandon(k); }
  }

  lemma SampleStart(k: nat)
    ensures Steps(SampleEnv(k), SampleLog(), SampleState(k, 0), SampleStep(k, 0), SampleState(k, 1))
  {
    SampleOk();
    hide Applied, LogOk;
    assert Resume(map[], SampleLog()) == map[Partition([116], 0) := 0];
  }

  lemma SamplePoll(k: nat, n: nat)
    requires n == 1 || n == k + 3
    ensures Steps(SampleEnv(k), SampleLog(), SampleState(k, n), SampleStep(k, n), SampleState(k, n + 1))
  {
    SampleOk();
    hide Applied, LogOk;
  }

  lemma SampleFailure(k: nat, n: nat)
    requires 2 <= n < k + 2
    ensures Steps(SampleEnv(k), SampleLog(), SampleState(k, n), SampleStep(k, n), SampleState(k, n + 1))
  {
    SampleCommit(k, n - 2, 0);
    hide LogOk, Applied;
  }

  lemma SampleAbandon(k: nat)
    requires k > 0
    ensures Steps(SampleEnv(k), SampleLog(), SampleState(k, k + 2), SampleStep(k, k + 2), SampleState(k, k + 3))
  {
    hide LogOk, Applied;
  }

  /** Every call of the retry loop fails, and so does the loop. */
  lemma {:induction false} SampleRetries(k: nat, calls: nat)
    requires calls < k
    ensures var batch, db := [SampleEvent(0)], Db(map[], map[], calls);
            Isolation.WithIsolation(SampleEnv(k), db, batch, Positions(batch)).err == Some(Transient) &&
            var r := Retrying.WithRetry(SampleEnv(k), db, batch, Positions(batch), k - calls);
            r.err == Some(Transient) && r.db == Db(map[], map[], k)
    decreases k - calls
  {
    SampleCommit(k, calls, 0);
    hide Applied;
    var batch := [SampleEvent(0)];
    var r := Isolation.WithIsolation(SampleEnv(k), Db(map[], map[], calls), batch, Positions(batch));
    assert r.db == Db(map[], map[], calls + 1) && r.err == Some(Transient);
    hide Isolation.WithIsolation;
    if calls + 1 < k { SampleRetries(k, calls + 1); }
  }

  /** The service loop as written polls on once its retries are spent, and this run of it loses an event for good,
      whatever the retry budget k: the database is away for k transactions, the loop gives up with its error, and
      the next commit stores an offset beyond an event that no transaction carried and nothing dead-lettered. */
  lemma PollingOnLosesEvents(k: nat)
    returns (env: Env, log: Log, states: seq<System>, steps: seq<Step>, ev: Event)
    requires k > 0
    ensures LogOk(log) && IsRun(env, log, states, steps) && |steps| == k + 5 && steps[k + 2] == Abandon(0)
    ensures forall j :: 2 <= j < k + 2 ==>
              steps[j] == Commit(0, None) &&
              Isolation.WithIsolation(env, states[j].db, [ev], Positions([ev])).err == Some(Transient)
    ensures var r := Retrying.WithRetry(env, states[2].db, [ev], Positions([ev]), k);
            states[2].instances == [Up(map[PartitionOf(ev) := 1], Busy([ev], {}, {}))] &&
            r.err == Some(Transient) && r.db == states[k + 2].db
    ensures Lost(log, states[k + 5], ev) && Lookup(states[k + 5].db.rows, ev.Id()).None?
  {
    env, log, ev := SampleEnv(k), SampleLog(), SampleEvent(0);
    SampleOk();
    states, steps := SampleRun(k);
    hide IsRun, LogOk, Isolation.WithIsolation, Retrying.WithRetry, Lost;
    forall j | 2 <= j < k + 2
      ensures Isolation.WithIsolation(env, states[j].db, [ev], Positions([ev])).err == Some(Transient)
    {
      SampleRetries(k, j - 2);
    }
    SampleRetries(k, 0);
  }

  lemma SampleRun(k: nat) returns (states: seq<System>, steps: seq<Step>)
    requires k > 0
    ensures IsRun(SampleEnv(k), SampleLog(), states, steps) && |steps| == k + 5 && |states| == k + 6
    ensures forall i :: 0 <= i < k + 5 ==> states[i] == SampleState(k, i) && steps[i] == SampleStep(k, i)
    ensures Lost(SampleLog(), states[k + 5], SampleEvent(0))
    ensures Lookup(states[k + 5].db.rows, SampleEvent(0).Id()).None?
  {
    SampleEnabled(k);
    var last := After(SampleEnv(k), SampleLog(), SampleState(k, k + 4), SampleStep(k, k + 4));
    hide After, Enabled, Lost, SampleStep, SampleLog, SampleEnv;
    states := seq(k + 5, i requires 0 <= i < k + 5 => SampleState(k, i)) + [last];
    steps := seq(k + 5, i requires 0 <= i < k + 5 => SampleStep(k, i));
    forall i | 0 <= i < k + 5 ensures Steps(SampleEnv(k), SampleLog(), states[i], steps[i], states[i + 1]) {
      if i < k + 4 { SampleSteps(k, i); }
    }
    LastStep(k, last);
  }

  lemma SampleEnabled(k: nat)
    requires k > 0
    ensures Enabled(SampleLog(), SampleState(k, k + 4), SampleStep(k, k + 4))
  {
  }

  lemma LastStep(k: nat, last: System)
    requires k > 0 && Enabled(SampleLog(), SampleState(k, k + 4), SampleStep(k, k + 4))
    requires last == After(SampleEnv(k), SampleLog(), SampleState(k, k + 4), SampleStep(k, k + 4))
    ensures Lost(SampleLog(), last, SampleEvent(0)) && Lookup(last.db.rows, SampleEvent(0).Id()).None?
  {
    LostEvent(k, Db(map[], map[], k));
    LastState(k, last);
    hide After, Enabled;
    SampleOk();
  }

  lemma LastState(k: nat, last: System)
    requires k > 0 && Enabled(SampleLog(), SampleState(k, k + 4), SampleStep(k, k + 4))
    requires last == After(SampleEnv(k), SampleLog(), SampleState(k, k + 4), SampleStep(k, k + 4))
    ensures last.db == Applied(SampleEnv(k), Db(map[], map[], k), [SampleEvent(1)], Positions([SampleEvent(1)])).0
    ensures last.instances == [Up(map[Partition([116], 0) := 2], Idle)]
    ensures last.applied + last.dead == {SampleEvent(1)}
  {
    SampleCommit(k, k, 1);
    hide Applied;
  }

  lemma LostEvent(k: nat, db: Db)
    requires db == Db(map[], map[], k)
    ensures var after := Applied(SampleEnv(k), db, [SampleEvent(1)], Positions([SampleEvent(1)])).0;
            Partition([116], 0) in after.marks && after.marks[Partition([116], 0)].offset == 1 &&
            Lookup(after.rows, SampleEvent(0).Id()).None?
  {
    var batch := [SampleEvent(1)];
    var ps := Positions(batch);
    var p := Partition([116], 0);
    SampleCommit(k, k, 1);
    CommitMarks(SampleEnv(k), db, batch, ps, Best(batch));
    BestIsMaximum(batch, p);
    assert Stores(Applied(SampleEnv(k), db, batch, ps).0.marks, p, Raise(db.marks, Best(batch), p));
    ApplyRow(SampleEnv(k), db, batch, ps, SampleEvent(0).Id());
    EventsOfMember(batch, SampleEvent(0).Id(), SampleEvent(1));
    assert EventsOf(batch, SampleEvent(0).Id()) == [] by { assert batch[1..] == []; }
  }
}
