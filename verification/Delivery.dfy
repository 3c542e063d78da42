// The delivery protocol: any number of applier instances (cmd/cdc-applier/main.go) polling one log
// (internal/stream/consumer.go), committing data and offsets together, failing, retrying, isolating,
// polling on, crashing and restarting from the stored offset.

module Delivery {
  import opened Wrappers
  import opened FencedRows
  import opened Events
  import opened Coalescing
  import opened Offsets
  import opened Apply
  import opened Refinement
  import opened HighWater

  /** The stream: per partition, one message per offset; None is a message that carries no row change
      (a compaction tombstone, a watermark, an undecodable message). */
  type Log = map<Partition, seq<Option<Event>>>

  ghost predicate At(log: Log, ev: Event) {
    var p := PartitionOf(ev);
    p in log && 0 <= ev.offset < |log[p]| && log[p][ev.offset] == Some(ev)
  }

  /** Every message sits at its own offset; row changes are data changes with LSNs below 2^63. */
  ghost predicate LogOk(log: Log) {
    (forall p, i :: p in log && 0 <= i < |log[p]| && log[p][i].Some? ==>
      At(log, log[p][i].value) && PartitionOf(log[p][i].value) == p && log[p][i].value.offset == i) &&
    (forall ev :: At(log, ev) ==> ev.topic != [] && !ev.op.OpTruncate? && ev.lsn < 0x8000_0000_0000_0000)
  }

  /** A polled batch in hand: which of its events isolation has committed and which it gave up on. */
  datatype Work = Idle | Busy(batch: seq<Event>, handled: set<nat>, dead: set<nat>)

  datatype Instance = Down | Up(next: map<Partition, nat>, work: Work)

  /** `applied` and `dead` record, for the statements below, which events committed transactions have
      carried and which have been returned as dead letters. */
  datatype System = System(db: Db, instances: seq<Instance>, applied: set<Event>, dead: set<Event>)

  /** A commit whose acknowledgement is lost has happened, but its caller sees `lost`, an error of that class. */
  datatype Step =
    | Start(i: nat)                                       // seek every partition to its stored offset + 1
    | Poll(i: nat, next: map<Partition, nat>, batch: seq<Event>)
    | Commit(i: nat, lost: Option<ErrClass>)              // one Apply of the batch with its high-water marks
    | Isolate(i: nat, lo: nat, hi: nat, lost: Option<ErrClass>)  // one Apply of a stretch, no offsets
    | Finish(i: nat, lost: Option<ErrClass>)              // offsets alone, once every event is accounted for
    | Retry(i: nat)                                       // start over with the same batch
    | Crash(i: nat)
    | Abandon(i: nat)                                     // poll on after a failed batch

  function Resume(marks: Marks, log: Log): map<Partition, nat> {
    map p | p in log :: if p in marks && marks[p].offset >= 0 then marks[p].offset + 1 else 0
  }

  /** A poll returns exactly the row changes between the old and the new read positions. */
  ghost predicate Polled(log: Log, from: map<Partition, nat>, to: map<Partition, nat>, batch: seq<Event>) {
    from.Keys == to.Keys == log.Keys &&
    (forall p :: p in log ==> from[p] <= to[p] <= |log[p]|) &&
    forall ev :: ev in batch <==> At(log, ev) && from[PartitionOf(ev)] <= ev.offset < to[PartitionOf(ev)]
  }

  ghost predicate Enabled(log: Log, s: System, step: Step) {
    step.i < |s.instances| &&
    var me := s.instances[step.i];
    match step
    case Start(_) => me.Down?
    case Poll(_, next, batch) => me.Up? && me.work.Idle? && Polled(log, me.next, next, batch)
    case Isolate(_, lo, hi, _) => me.Up? && me.work.Busy? && lo < hi <= |me.work.batch|
    case Finish(_, _) =>
      me.Up? && me.work.Busy? && forall k :: 0 <= k < |me.work.batch| ==> k in me.work.handled + me.work.dead
    case Crash(_) => me.Up?
    case _ => me.Up? && me.work.Busy?
  }

  function Stretch(lo: nat, hi: nat): (r: set<nat>)
    ensures forall k :: k in r <==> lo <= k < hi
    decreases hi - lo
  {
    if lo >= hi then {} else {lo} + Stretch(lo + 1, hi)
  }

  ghost function Members(es: seq<Event>): set<Event> { set e | e in es }

  ghost function Positions(batch: seq<Event>): (ps: seq<Position>)
    ensures Lists(ps, Best(batch))
  {
    PositionsExist(Best(batch));
    var ps :| Lists(ps, Best(batch));
    ps
  }

  lemma PositionsExist(best: Marks)
    ensures exists ps :: Lists(ps, best)
  {
    if best == map[] {
      assert Lists([], best);
    } else {
      var k :| k in best;
      PositionsExist(best - {k});
      var ps :| Lists(ps, best - {k});
      assert Lists(ps + [Position(k, best[k])], best);
    }
  }

  ghost function With(s: System, i: nat, me: Instance): System
    requires i < |s.instances|
  {
    s.(instances := s.instances[i := me])
  }

  /** The batch's events that isolation gave up on. */
  ghost function GivenUp(work: Work): set<Event>
    requires work.Busy?
  {
    set k | k in work.dead && k < |work.batch| :: work.batch[k]
  }

  /** What isolation makes of an error on a stretch: a single event is given up on, unless the error is
      transient. */
  function AfterError(work: Work, lo: nat, hi: nat, kind: ErrClass): Work
    requires work.Busy?
  {
    if hi == lo + 1 && !kind.Transient? then work.(dead := work.dead + {lo}) else work
  }

  /** The effect of a step; whether its transaction commits is the environment's choice. */
  ghost function After(env: Env, log: Log, s: System, step: Step): System
    requires Enabled(log, s, step)
  {
    var me := s.instances[step.i];
    match step
    case Start(i) => With(s, i, Up(Resume(s.db.marks, log), Idle))
    case Poll(i, next, batch) => With(s, i, Up(next, if batch == [] then Idle else Busy(batch, {}, {})))
    case Commit(i, lost) =>
      var (db, o) := Applied(env, s.db, me.work.batch, Positions(me.work.batch));
      if o.Failed? then s.(db := db)
      else
        With(s.(db := db, applied := s.applied + Members(me.work.batch)), i,
             if lost.None? then me.(work := Idle) else me)
    case Isolate(i, lo, hi, lost) =>
      var (db, o) := Applied(env, s.db, me.work.batch[lo..hi], []);
      if o.Failed? then With(s.(db := db), i, me.(work := AfterError(me.work, lo, hi, o.kind)))
      else
        With(s.(db := db, applied := s.applied + Members(me.work.batch[lo..hi])), i,
             me.(work := if lost.None? then me.work.(handled := me.work.handled + Stretch(lo, hi))
                         else AfterError(me.work, lo, hi, lost.value)))
    case Finish(i, lost) =>
      var (db, o) := Applied(env, s.db, [], Positions(me.work.batch));
      if o.Failed? then s.(db := db)
      else
        // the dead letters are returned with the answer; without it they are dropped
        if lost.Some? then s.(db := db) else With(s.(db := db, dead := s.dead + GivenUp(me.work)), i, me.(work := Idle))
    case Retry(i) => With(s, i, me.(work := Busy(me.work.batch, {}, {})))
    case Crash(i) => With(s, i, Down)
    case Abandon(i) => With(s, i, me.(work := Idle))
  }

  // ------------------------------------------------------------ what every step keeps

  /** The row shows the newest of the applied events that address it. */
  ghost predicate RowNewest(plan: Plan, row: Option<View>, applied: set<Event>, id: RowId) {
    match row
    case None => forall e :: e in applied ==> e.Id() != id
    case Some(v) =>
      (exists e :: e in applied && e.Id() == id && ViewOf(plan, e) == v) &&
      forall e :: e in applied && e.Id() == id ==> ViewOf(plan, e).lsn <= v.lsn
  }

  ghost predicate RowsNewest(plan: Plan, rows: Rows, applied: set<Event>) {
    forall id :: RowNewest(plan, Lookup(rows, id), applied, id)
  }

  /** Stored offsets are offsets of the log. */
  ghost predicate Stored(log: Log, marks: Marks) {
    forall p :: p in marks ==> p in log && 0 <= marks[p].offset < |log[p]|
  }

  ghost predicate WorkOk(log: Log, next: map<Partition, nat>, work: Work, applied: set<Event>) {
    work.Busy? ==>
      (forall ev :: ev in work.batch ==> At(log, ev) && PartitionOf(ev) in next && ev.offset < next[PartitionOf(ev)]) &&
      forall k :: k in work.handled && k < |work.batch| ==> work.batch[k] in applied
  }

  ghost predicate Reads(log: Log, me: Instance, applied: set<Event>) {
    me.Up? ==> me.next.Keys == log.Keys && WorkOk(log, me.next, me.work, applied)
  }

  ghost predicate Base(plan: Plan, log: Log, s: System) {
    (forall ev :: ev in s.applied + s.dead ==> At(log, ev)) &&
    RowsNewest(plan, s.db.rows, s.applied) && Stored(log, s.db.marks) &&
    forall i :: 0 <= i < |s.instances| ==> Reads(log, s.instances[i], s.applied)
  }

  ghost predicate MarksRise(before: Marks, after: Marks) {
    forall p :: p in before ==> p in after && before[p].offset <= after[p].offset
  }

  lemma CommitRow(env: Env, db: Db, batch: seq<Event>, ps: seq<Position>, applied: set<Event>, id: RowId)
    requires NoTruncate(batch) && SignedSafe(batch) && Applied(env, db, batch, ps).1.Done?
    requires RowNewest(env.plan, Lookup(db.rows, id), applied, id)
    ensures RowNewest(env.plan, Lookup(Applied(env, db, batch, ps).0.rows, id), applied + Members(batch), id)
  {
    ApplyRow(env, db, batch, ps, id);
    var mine := EventsOf(batch, id);
    forall e: Event ensures e in Members(batch) && e.Id() == id <==> e in mine { EventsOfMember(batch, id, e); }
    if mine != [] {
      MineSafe(batch, id);
      var row := Lookup(Applied(env, db, batch, ps).0.rows, id);
      NewestJoins(env.plan, Lookup(db.rows, id), mine, applied, id);
    } else {
    }
  }

  lemma MineSafe(batch: seq<Event>, id: RowId)
    requires SignedSafe(batch)
    ensures SignedSafe(EventsOf(batch, id))
  {
    forall i | 0 <= i < |EventsOf(batch, id)| ensures EventsOf(batch, id)[i].lsn < 0x8000_0000_0000_0000 {
      EventsOfMember(batch, id, EventsOf(batch, id)[i]);
    }
  }

  /** A row's winner, under the fence, is the newest of what was applied and its own events. */
  lemma NewestJoins(plan: Plan, row: Option<View>, mine: seq<Event>, applied: set<Event>, id: RowId)
    requires mine != [] && SignedSafe(mine) && forall e :: e in mine ==> e.Id() == id
    requires RowNewest(plan, row, applied, id)
    ensures RowNewest(plan, Some(Newer(row, ViewOf(plan, Winner(mine)))), applied + Members(mine), id)
  {
    var w := WinnerIsMaximum(mine);
    assert mine[w] in Members(mine);
    var v := Newer(row, ViewOf(plan, mine[w]));
    forall e | e in applied + Members(mine) && e.Id() == id ensures ViewOf(plan, e).lsn <= v.lsn {
      if e in mine { var i :| 0 <= i < |mine| && mine[i] == e; }
    }
    if v == ViewOf(plan, mine[w]) { assert mine[w] in applied + Members(mine); }
    else { var e :| e in applied && e.Id() == id && ViewOf(plan, e) == v; assert e in applied + Members(mine); }
  }

  /** A transaction that carries a batch's high-water marks raises each partition's mark to the batch's,
      never lowers it. */
  lemma CommitMarks(env: Env, db: Db, batch: seq<Event>, ps: seq<Position>, best: Marks)
    requires Lists(ps, best) && Applied(env, db, batch, ps).1.Done?
    ensures forall p :: Stores(Applied(env, db, batch, ps).0.marks, p, Raise(db.marks, best, p))
  {
    forall p ensures Stores(Applied(env, db, batch, ps).0.marks, p, Raise(db.marks, best, p)) {
      assert p in best ==> Position(p, best[p]) in ps;
      if !NoWork(batch, ps) {
        RunMarksRaise(env, db.calls, 1 + |BatchStmts(env, Coalesced(batch))|, ps, db.marks, best, p);
      }
    }
  }

  /** Raised to positions of the log, stored offsets stay in the log and never fall. */
  lemma RaisedStored(log: Log, before: Marks, after: Marks, batch: seq<Event>)
    requires Stored(log, before) && forall p :: Stores(after, p, Raise(before, Best(batch), p))
    requires forall ev :: ev in batch ==> At(log, ev)
    ensures Stored(log, after) && MarksRise(before, after)
  {
    forall p | p in after ensures p in log && 0 <= after[p].offset < |log[p]| {
      assert Stores(after, p, Raise(before, Best(batch), p));
      BestIsMaximum(batch, p);
      if p in Best(batch) {
        var i :| 0 <= i < |batch| && Tops(batch, i, p) && Best(batch)[p] == Mark(batch[i].offset, batch[i].lsn);
        assert At(log, batch[i]);
      }
    }
    forall p | p in before ensures p in after && before[p].offset <= after[p].offset {
      assert Stores(after, p, Raise(before, Best(batch), p));
    }
  }

  lemma UnmarkedCommit(env: Env, db: Db, part: seq<Event>)
    ensures Applied(env, db, part, []).0.marks == db.marks
  {
    hide BatchStmts, RunStmts;
  }

  /** A committed transaction that carries some of the log's events keeps the rows newest. */
  lemma CommitRows(env: Env, log: Log, s: System, batch: seq<Event>, ps: seq<Position>)
    requires LogOk(log) && Base(env.plan, log, s) && Applied(env, s.db, batch, ps).1.Done?
    requires forall ev :: ev in batch ==> At(log, ev)
    ensures RowsNewest(env.plan, Applied(env, s.db, batch, ps).0.rows, s.applied + Members(batch))
    ensures forall i :: 0 <= i < |s.instances| ==> Reads(log, s.instances[i], s.applied + Members(batch))
  {
    var rows := Applied(env, s.db, batch, ps).0.rows;
    forall id ensures RowNewest(env.plan, Lookup(rows, id), s.applied + Members(batch), id) {
      CommitRow(env, s.db, batch, ps, s.applied, id);
    }
  }

  /** Replacing one instance, with nothing committed. */
  lemma LocalBase(plan: Plan, log: Log, s: System, db: Db, i: nat, me: Instance)
    requires Base(plan, log, s) && i < |s.instances| && Reads(log, me, s.applied)
    requires db.rows == s.db.rows && db.marks == s.db.marks
    ensures Base(plan, log, With(s.(db := db), i, me))
  {
  }

  lemma CommitEffect(env: Env, log: Log, s: System, i: nat, lost: Option<ErrClass>)
    requires Enabled(log, s, Commit(i, lost))
    ensures i < |s.instances| && s.instances[i].Up? && s.instances[i].work.Busy?
    ensures var me := s.instances[i];
            var (db, o) := Applied(env, s.db, me.work.batch, Positions(me.work.batch));
            After(env, log, s, Commit(i, lost)) ==
            if o.Failed? then s.(db := db)
            else s.(db := db, applied := s.applied + Members(me.work.batch),
                    instances := s.instances[i := if lost.None? then me.(work := Idle) else me])
  {
    hide Applied;
  }

  lemma CommitBase(env: Env, log: Log, s: System, i: nat, lost: Option<ErrClass>)
    requires LogOk(log) && Base(env.plan, log, s) && Enabled(log, s, Commit(i, lost))
    ensures var t := After(env, log, s, Commit(i, lost));
            Base(env.plan, log, t) && MarksRise(s.db.marks, t.db.marks)
  {
    CommitEffect(env, log, s, i, lost);
    var batch := s.instances[i].work.batch;
    var ps := Positions(batch);
    hide Applied, RowsNewest, After, Enabled;
    assert Reads(log, s.instances[i], s.applied);
    FailedKeepsDb(env, s.db, batch, ps);
    if Applied(env, s.db, batch, ps).1.Done? {
      CommitRows(env, log, s, batch, ps);
      CommitMarks(env, s.db, batch, ps, Best(batch));
      RaisedStored(log, s.db.marks, Applied(env, s.db, batch, ps).0.marks, batch);
      assert Reads(log, s.instances[i], s.applied + Members(batch));
    }
  }

  /** Carrying a stretch of the batch, and recording it as handled. */
  lemma StretchReads(log: Log, me: Instance, applied: set<Event>, lo: nat, hi: nat)
    requires me.Up? && me.work.Busy? && Reads(log, me, applied) && lo < hi <= |me.work.batch|
    ensures var part := me.work.batch[lo..hi];
            (forall ev :: ev in part ==> At(log, ev)) &&
            Reads(log, me.(work := me.work.(handled := me.work.handled + Stretch(lo, hi))), applied + Members(part))
  {
    var part := me.work.batch[lo..hi];
    forall k | lo <= k < hi ensures me.work.batch[k] in part { assert part[k - lo] == me.work.batch[k]; }
  }

  lemma ErrorReads(log: Log, me: Instance, applied: set<Event>, lo: nat, hi: nat, kind: ErrClass)
    requires me.Up? && me.work.Busy? && Reads(log, me, applied)
    ensures Reads(log, me.(work := AfterError(me.work, lo, hi, kind)), applied)
  {
  }

  lemma IsolateBase(env: Env, log: Log, s: System, i: nat, lo: nat, hi: nat, lost: Option<ErrClass>)
    requires LogOk(log) && Base(env.plan, log, s) && Enabled(log, s, Isolate(i, lo, hi, lost))
    ensures var t := After(env, log, s, Isolate(i, lo, hi, lost));
            Base(env.plan, log, t) && t.db.marks == s.db.marks
  {
    var me := s.instances[i];
    hide Applied, RowsNewest, AfterError, WorkOk;
    assert Reads(log, me, s.applied);
    StretchReads(log, me, s.applied, lo, hi);
    UnmarkedCommit(env, s.db, me.work.batch[lo..hi]);
    if Applied(env, s.db, me.work.batch[lo..hi], []).1.Failed? {
      StretchFailed(env, log, s, i, lo, hi, lost);
    } else {
      StretchCommitted(env, log, s, i, lo, hi, lost);
    }
  }

  lemma IsolateEffect(env: Env, log: Log, s: System, i: nat, lo: nat, hi: nat, lost: Option<ErrClass>)
    requires Enabled(log, s, Isolate(i, lo, hi, lost))
    ensures i < |s.instances| && s.instances[i].Up? && s.instances[i].work.Busy?
    ensures lo < hi <= |s.instances[i].work.batch|
    ensures var me := s.instances[i];
            var part := me.work.batch[lo..hi];
            var (db, o) := Applied(env, s.db, part, []);
            After(env, log, s, Isolate(i, lo, hi, lost)) ==
            if o.Failed? then With(s.(db := db), i, me.(work := AfterError(me.work, lo, hi, o.kind)))
            else With(s.(db := db, applied := s.applied + Members(part)), i,
                      me.(work := if lost.None? then me.work.(handled := me.work.handled + Stretch(lo, hi))
                                  else AfterError(me.work, lo, hi, lost.value)))
  {
    hide Applied;
  }

  lemma StretchFailed(env: Env, log: Log, s: System, i: nat, lo: nat, hi: nat, lost: Option<ErrClass>)
    requires Base(env.plan, log, s) && Enabled(log, s, Isolate(i, lo, hi, lost))
    requires Applied(env, s.db, s.instances[i].work.batch[lo..hi], []).1.Failed?
    ensures Base(env.plan, log, After(env, log, s, Isolate(i, lo, hi, lost)))
    ensures After(env, log, s, Isolate(i, lo, hi, lost)).db.marks == s.db.marks
  {
    IsolateEffect(env, log, s, i, lo, hi, lost);
    var me := s.instances[i];
    var part := me.work.batch[lo..hi];
    var (db, o) := Applied(env, s.db, part, []);
    hide Applied, After, Enabled, RowsNewest, AfterError, WorkOk;
    assert Reads(log, me, s.applied);
    FailedKeepsDb(env, s.db, part, []);
    ErrorReads(log, me, s.applied, lo, hi, o.kind);
    LocalBase(env.plan, log, s, db, i, me.(work := AfterError(me.work, lo, hi, o.kind)));
  }

  /** Carrying some events, with the offsets as they were, and replacing one instance. */
  lemma CarriedBase(plan: Plan, log: Log, s: System, db: Db, part: seq<Event>, i: nat, me: Instance)
    requires Base(plan, log, s) && i < |s.instances| && db.marks == s.db.marks
    requires RowsNewest(plan, db.rows, s.applied + Members(part)) && forall ev :: ev in part ==> At(log, ev)
    requires forall j :: 0 <= j < |s.instances| ==> Reads(log, s.instances[j], s.applied + Members(part))
    requires Reads(log, me, s.applied + Members(part))
    ensures Base(plan, log, With(s.(db := db, applied := s.applied + Members(part)), i, me))
  {
    hide RowsNewest, Reads, Stored, At;
  }

  lemma StretchCommitted(env: Env, log: Log, s: System, i: nat, lo: nat, hi: nat, lost: Option<ErrClass>)
    requires LogOk(log) && Base(env.plan, log, s) && Enabled(log, s, Isolate(i, lo, hi, lost))
    requires Applied(env, s.db, s.instances[i].work.batch[lo..hi], []).1.Done?
    requires forall ev :: ev in s.instances[i].work.batch[lo..hi] ==> At(log, ev)
    ensures Base(env.plan, log, After(env, log, s, Isolate(i, lo, hi, lost)))
  {
    IsolateEffect(env, log, s, i, lo, hi, lost);
    var me := s.instances[i];
    var part := me.work.batch[lo..hi];
    var work := if lost.None? then me.work.(handled := me.work.handled + Stretch(lo, hi))
                else AfterError(me.work, lo, hi, lost.value);
    assert Reads(log, me, s.applied);
    hide Applied, After, Enabled, RowsNewest, AfterError, Reads, LogOk, Base;
    StretchReads(log, me, s.applied, lo, hi);
    UnmarkedCommit(env, s.db, part);
    CommitRows(env, log, s, part, []);
    if lost.Some? { ErrorReads(log, me, s.applied + Members(part), lo, hi, lost.value); }
    CarriedBase(env.plan, log, s, Applied(env, s.db, part, []).0, part, i, me.(work := work));
  }

  lemma FinishBase(env: Env, log: Log, s: System, i: nat, lost: Option<ErrClass>)
    requires LogOk(log) && Base(env.plan, log, s) && Enabled(log, s, Finish(i, lost))
    ensures var t := After(env, log, s, Finish(i, lost));
            Base(env.plan, log, t) && MarksRise(s.db.marks, t.db.marks)
  {
    var me := s.instances[i];
    var batch := me.work.batch;
    var ps := Positions(batch);
    hide Applied, RowsNewest;
    assert Reads(log, me, s.applied);
    FailedKeepsDb(env, s.db, [], ps);
    if Applied(env, s.db, [], ps).1.Done? {
      CommitRows(env, log, s, [], ps);
      assert s.applied + Members([]) == s.applied;
      CommitMarks(env, s.db, [], ps, Best(batch));
      RaisedStored(log, s.db.marks, Applied(env, s.db, [], ps).0.marks, batch);
    }
  }

  /** Every step of every instance, polling on included: rows show the newest applied event, stored offsets are
      offsets of the log and never fall. */
  lemma StepKeeps(env: Env, log: Log, s: System, step: Step)
    requires LogOk(log) && Base(env.plan, log, s) && Enabled(log, s, step)
    ensures var t := After(env, log, s, step);
            Base(env.plan, log, t) && MarksRise(s.db.marks, t.db.marks)
  {
    var me := s.instances[step.i];
    assert Reads(log, me, s.applied);
    match step
    case Start(i) => LocalBase(env.plan, log, s, s.db, i, Up(Resume(s.db.marks, log), Idle));
    case Poll(i, next, batch) =>
      LocalBase(env.plan, log, s, s.db, i, Up(next, if batch == [] then Idle else Busy(batch, {}, {})));
    case Commit(i, lost) => CommitBase(env, log, s, i, lost);
    case Isolate(i, lo, hi, lost) => IsolateBase(env, log, s, i, lo, hi, lost);
    case Finish(i, lost) => FinishBase(env, log, s, i, lost);
    case Retry(i) => LocalBase(env.plan, log, s, s.db, i, me.(work := Busy(me.work.batch, {}, {})));
    case Crash(i) => LocalBase(env.plan, log, s, s.db, i, Down);
    case Abandon(i) => LocalBase(env.plan, log, s, s.db, i, me.(work := Idle));
  }

  // ------------------------------------------------------------ when offsets move

  /** Every row change at or below a stored offset has been applied or dead-lettered. */
  ghost predicate NothingLost(log: Log, s: System) {
    forall ev :: At(log, ev) && PartitionOf(ev) in s.db.marks && ev.offset <= s.db.marks[PartitionOf(ev)].offset ==>
      ev in s.applied + s.dead
  }

  /** The step's transaction stores offsets and commits. */
  ghost predicate Moves(env: Env, log: Log, s: System, step: Step) {
    Enabled(log, s, step) &&
    var me := s.instances[step.i];
    (step.Commit? && Applied(env, s.db, me.work.batch, Positions(me.work.batch)).1.Done?) ||
    (step.Finish? && Applied(env, s.db, [], Positions(me.work.batch)).1.Done?)
  }

  /** The events given up on by a call that stores the offsets but whose answer is lost: its caller never learns
      of them. */
  ghost function Dropped(s: System, step: Step): set<Event>
    requires step.i < |s.instances| && s.instances[step.i].Up? && s.instances[step.i].work.Busy?
  {
    if step.Finish? && step.lost.Some? then GivenUp(s.instances[step.i].work) else {}
  }

  /** Between the stored offsets and the high-water marks of its batch, the instance is about to skip no row
      change: each is in the batch and not dropped, or was applied or dead-lettered before. */
  ghost predicate Gapless(log: Log, s: System, step: Step) {
    step.i < |s.instances| && s.instances[step.i].Up? && s.instances[step.i].work.Busy? &&
    var batch := s.instances[step.i].work.batch;
    forall ev :: At(log, ev) && PartitionOf(ev) in Best(batch) && ev.offset <= Best(batch)[PartitionOf(ev)].offset &&
                 (PartitionOf(ev) in s.db.marks ==> s.db.marks[PartitionOf(ev)].offset < ev.offset) ==>
      (ev in batch && ev !in Dropped(s, step)) || ev in s.applied + s.dead
  }

  lemma MoveEffect(env: Env, log: Log, s: System, step: Step)
    requires Base(env.plan, log, s) && Moves(env, log, s, step)
    ensures var t := After(env, log, s, step);
            var batch := s.instances[step.i].work.batch;
            t.applied + t.dead == s.applied + s.dead + (Members(batch) - Dropped(s, step)) &&
            forall p :: Stores(t.db.marks, p, Raise(s.db.marks, Best(batch), p))
  {
    var me := s.instances[step.i];
    var batch := me.work.batch;
    hide Applied;
    assert Reads(log, me, s.applied);
    CommitMarks(env, s.db, if step.Commit? then batch else [], Positions(batch), Best(batch));
    if step.Finish? {
      forall ev | ev in Members(batch) ensures ev in s.applied + GivenUp(me.work) {
        var k :| 0 <= k < |batch| && batch[k] == ev;
        assert k in me.work.handled + me.work.dead;
      }
      assert GivenUp(me.work) <= Members(batch);
    }
  }

  lemma StillEffect(env: Env, log: Log, s: System, step: Step)
    requires Enabled(log, s, step) && !Moves(env, log, s, step)
    ensures var t := After(env, log, s, step);
            t.db.marks == s.db.marks && s.applied <= t.applied && s.dead <= t.dead
  {
    var me := s.instances[step.i];
    hide Applied;
    match step
    case Commit(_, _) => FailedKeepsDb(env, s.db, me.work.batch, Positions(me.work.batch));
    case Finish(_, _) => FailedKeepsDb(env, s.db, [], Positions(me.work.batch));
    case Isolate(_, lo, hi, _) => UnmarkedCommit(env, s.db, me.work.batch[lo..hi]);
    case _ =>
  }

  /** From a state where nothing is lost, a step loses something exactly when it stores offsets over a gap. */
  lemma StepLosesNothingIff(env: Env, log: Log, s: System, step: Step)
    requires Base(env.plan, log, s) && NothingLost(log, s) && Enabled(log, s, step)
    ensures NothingLost(log, After(env, log, s, step)) <==> (Moves(env, log, s, step) ==> Gapless(log, s, step))
  {
    var t := After(env, log, s, step);
    if Moves(env, log, s, step) {
      MoveEffect(env, log, s, step);
      hide Moves, After, Base;
      MoveLosesNothingIff(log, s, t, step);
    } else {
      StillEffect(env, log, s, step);
    }
  }

  lemma MoveLosesNothingIff(log: Log, s: System, t: System, step: Step)
    requires NothingLost(log, s)
    requires step.i < |s.instances| && s.instances[step.i].Up? && s.instances[step.i].work.Busy?
    requires var batch := s.instances[step.i].work.batch;
             t.applied + t.dead == s.applied + s.dead + (Members(batch) - Dropped(s, step)) &&
             forall p :: Stores(t.db.marks, p, Raise(s.db.marks, Best(batch), p))
    ensures NothingLost(log, t) <==> Gapless(log, s, step)
  {
    var batch := s.instances[step.i].work.batch;
    forall ev | At(log, ev)
      ensures var p := PartitionOf(ev);
              (p in t.db.marks && ev.offset <= t.db.marks[p].offset) <==>
              (p in s.db.marks && ev.offset <= s.db.marks[p].offset) ||
              (p in Best(batch) && ev.offset <= Best(batch)[p].offset)
    {
      assert Stores(t.db.marks, PartitionOf(ev), Raise(s.db.marks, Best(batch), PartitionOf(ev)));
    }
    assert forall ev :: ev in t.applied + t.dead <==>
                        ev in s.applied + s.dead || (ev in batch && ev !in Dropped(s, step));
  }

  /** Storing the offsets and losing the answer loses every event that the call had given up on. */
  lemma UnansweredFinishLoses(env: Env, log: Log, s: System, step: Step, ev: Event)
    requires LogOk(log) && Base(env.plan, log, s) && NothingLost(log, s) && Moves(env, log, s, step)
    requires ev in Dropped(s, step) && ev !in s.applied + s.dead
    ensures !NothingLost(log, After(env, log, s, step))
  {
    var batch := s.instances[step.i].work.batch;
    assert Reads(log, s.instances[step.i], s.applied);
    assert ev in batch && At(log, ev);
    BestIsMaximum(batch, PartitionOf(ev));
    StepLosesNothingIff(env, log, s, step);
    hide Applied, After;
    assert !Gapless(log, s, step);
  }

  // ------------------------------------------------------------ instances that leave no gap

  /** Every row change of partition p below offset n is among the accounted events. */
  ghost predicate CoveredTo(log: Log, p: Partition, n: int, accounted: set<Event>) {
    p in log && n <= |log[p]| && forall j :: 0 <= j < n && log[p][j].Some? ==> log[p][j].value in accounted
  }

  ghost function InHand(work: Work): set<Event> {
    if work.Busy? then Members(work.batch) else {}
  }

  /** Everything the instance has read past is applied, dead-lettered or in its hands. */
  ghost predicate Whole(log: Log, me: Instance, accounted: set<Event>) {
    me.Up? ==> forall p :: p in log ==> p in me.next && CoveredTo(log, p, me.next[p], accounted + InHand(me.work))
  }

  /** Whatever the instance polls past is finished with. */
  ghost predicate LeavesNothing(s: System, step: Step) {
    step.Abandon? && step.i < |s.instances| && s.instances[step.i].Up? ==>
      InHand(s.instances[step.i].work) <= s.applied + s.dead
  }

  /** A whole instance leaves no gap, if it drops nothing. */
  lemma WholeIsGapless(plan: Plan, log: Log, s: System, step: Step)
    requires step.i < |s.instances| && s.instances[step.i].Up? && s.instances[step.i].work.Busy?
    requires Base(plan, log, s) && Whole(log, s.instances[step.i], s.applied + s.dead)
    requires Dropped(s, step) <= s.applied + s.dead
    ensures Gapless(log, s, step)
  {
    var me := s.instances[step.i];
    var batch := me.work.batch;
    assert Reads(log, me, s.applied);
    forall ev | At(log, ev) && PartitionOf(ev) in Best(batch) && ev.offset <= Best(batch)[PartitionOf(ev)].offset
      ensures ev in batch || ev in s.applied + s.dead
    {
      var p := PartitionOf(ev);
      BestIsMaximum(batch, p);
      var e :| e in batch && PartitionOf(e) == p && e.offset == Best(batch)[p].offset;
      assert ev.offset < me.next[p];
      assert CoveredTo(log, p, me.next[p], s.applied + s.dead + InHand(me.work));
    }
  }

  /** A restart makes an instance whole again, as long as nothing is lost. */
  lemma StartIsWhole(log: Log, s: System)
    requires LogOk(log) && Stored(log, s.db.marks) && NothingLost(log, s)
    ensures Whole(log, Up(Resume(s.db.marks, log), Idle), s.applied + s.dead)
  {
    var next := Resume(s.db.marks, log);
    forall p | p in log ensures CoveredTo(log, p, next[p], s.applied + s.dead + InHand(Idle)) {
      forall j | 0 <= j < next[p] && log[p][j].Some? ensures log[p][j].value in s.applied + s.dead {
        assert At(log, log[p][j].value);
      }
    }
  }

  lemma PollIsWhole(log: Log, me: Instance, next: map<Partition, nat>, batch: seq<Event>, accounted: set<Event>)
    requires LogOk(log) && me.Up? && me.work.Idle? && Whole(log, me, accounted) && Polled(log, me.next, next, batch)
    ensures Whole(log, Up(next, if batch == [] then Idle else Busy(batch, {}, {})), accounted)
  {
    forall p | p in log ensures CoveredTo(log, p, next[p], accounted + Members(batch)) {
      assert CoveredTo(log, p, me.next[p], accounted + InHand(me.work));
      forall j | 0 <= j < next[p] && log[p][j].Some? ensures log[p][j].value in accounted + Members(batch) {
        var ev := log[p][j].value;
        assert At(log, ev) && PartitionOf(ev) == p && ev.offset == j;
        if j >= me.next[p] { assert ev in batch; }
      }
    }
  }

  lemma WholeGrows(log: Log, me: Instance, work: Work, a: set<Event>, b: set<Event>)
    requires me.Up? && Whole(log, me, a) && a <= b && InHand(me.work) <= b + InHand(work)
    ensures Whole(log, me.(work := work), b)
  {
    forall p | p in log ensures CoveredTo(log, p, me.next[p], b + InHand(work)) {
      assert CoveredTo(log, p, me.next[p], a + InHand(me.work));
    }
  }

  /** What a step accounts for only grows, and covers a batch that its own instance lets go of. */
  lemma StepAccounts(env: Env, log: Log, s: System, step: Step, j: nat)
    requires Base(env.plan, log, s) && Enabled(log, s, step) && j < |s.instances| && s.instances[j].Up?
    requires step.i == j ==> LeavesNothing(s, step) && !step.Start? && !step.Poll? && !step.Crash?
    ensures var t := After(env, log, s, step);
            var me, you := s.instances[j], t.instances[j];
            s.applied + s.dead <= t.applied + t.dead && you.Up? && you.next == me.next &&
            InHand(me.work) <= t.applied + t.dead + InHand(you.work)
  {
    hide Applied, Base, Moves;
    if Moves(env, log, s, step) { MoveEffect(env, log, s, step); } else { StillEffect(env, log, s, step); }
    if step.i == j { OwnWork(env, log, s, step); } else { LocalEffect(env, log, s, step); }
  }

  lemma OwnWork(env: Env, log: Log, s: System, step: Step)
    requires Enabled(log, s, step) && LeavesNothing(s, step) && !step.Start? && !step.Poll? && !step.Crash?
    ensures var t := After(env, log, s, step);
            var me, you := s.instances[step.i], t.instances[step.i];
            you.Up? && you.next == me.next &&
            (you.work.Idle? ==> Moves(env, log, s, step) || InHand(me.work) <= s.applied + s.dead) &&
            (you.work.Busy? ==> InHand(you.work) == InHand(me.work))
  {
    hide Applied;
  }

  /** Every step leaves every whole instance whole, except polling on past events that are outstanding; and a
      restart needs no more than that nothing is lost. */
  lemma StepStaysWhole(env: Env, log: Log, s: System, step: Step, j: nat)
    requires LogOk(log) && Base(env.plan, log, s) && NothingLost(log, s) && Enabled(log, s, step)
    requires j < |s.instances| && (Whole(log, s.instances[j], s.applied + s.dead) || step == Start(j))
    requires step.i == j ==> LeavesNothing(s, step)
    ensures var t := After(env, log, s, step);
            Whole(log, t.instances[j], t.applied + t.dead)
  {
    var me := s.instances[j];
    var t := After(env, log, s, step);
    LocalEffect(env, log, s, step);
    assert Stored(log, s.db.marks);
    hide After, Enabled, Base, Applied;
    if step == Start(j) {
      StartIsWhole(log, s);
    } else if step.i == j && step.Poll? {
      PollIsWhole(log, me, step.next, step.batch, s.applied + s.dead);
    } else if me.Up? && step != Crash(j) {
      StepAccounts(env, log, s, step, j);
      WholeGrows(log, me, t.instances[j].work, s.applied + s.dead, t.applied + t.dead);
      assert me.(work := t.instances[j].work) == t.instances[j];
    } else {
      assert t.instances[j].Down?;
    }
  }

  lemma LocalEffect(env: Env, log: Log, s: System, step: Step)
    requires Enabled(log, s, step)
    ensures step.i < |s.instances| == |After(env, log, s, step).instances|
    ensures forall j :: 0 <= j < |s.instances| && j != step.i ==>
              After(env, log, s, step).instances[j] == s.instances[j]
    ensures step.Crash? ==> After(env, log, s, step).instances[step.i].Down?
    ensures s.instances[step.i].Down? ==> step.Start?
    ensures step.Start? ==> After(env, log, s, step) == With(s, step.i, Up(Resume(s.db.marks, log), Idle))
    ensures step.Poll? ==>
              s.instances[step.i].Up? && s.instances[step.i].work.Idle? &&
              Polled(log, s.instances[step.i].next, step.next, step.batch) &&
              After(env, log, s, step) ==
              With(s, step.i, Up(step.next, if step.batch == [] then Idle else Busy(step.batch, {}, {})))
  {
    hide Applied;
  }
}
