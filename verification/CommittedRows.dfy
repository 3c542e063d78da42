// What a committed batch leaves in the target, and what its counters say, in terms of the events alone.

module CommittedRows {
  import opened FencedRows
  import opened Events
  import opened Coalescing
  import opened Statements
  import opened Apply
  import opened Refinement

  /** The 64-bit sequence number as the signed integer with the same bits. */
  predicate Signed(lsn: int, bits: uint64) {
    -0x8000_0000_0000_0000 <= lsn < 0x8000_0000_0000_0000 && (bits - lsn) % 0x1_0000_0000_0000_0000 == 0
  }

  /** What an upsert stores in column c: the after image decides, and the before image stands in for it only when
      there is none. */
  ghost predicate Bound(e: Event, c: Bytes.Text, v: Value) {
    if c in e.after then v == e.after[c]
    else if e.after == map[] && c in e.before then v == e.before[c]
    else v == Null
  }

  /** The row as the event leaves it. */
  ghost predicate Shows(plan: Plan, rows: Rows, e: Event, lsn: int) {
    var id := RowId(e.table, e.key);
    id in rows && rows[id].lsn == lsn &&
    if e.op.OpDelete? then rows[id].deleted
    else !rows[id].deleted && e.table in plan && rows[id].image.Keys == plan[e.table] &&
         forall c :: c in plan[e.table] ==> Bound(e, c, rows[id].image[c])
  }

  /** A committed batch, row by row: unless the stored row is newer, the event that wins the row decides it. An
      upsert leaves the row live at its LSN with exactly the planned columns; a delete leaves a tombstone at its LSN;
      and every table of the batch is planned. */
  lemma WinnerIsWritten(env: Env, db: Db, events: seq<Event>, positions: seq<Position>, j: nat, lsn: int)
    requires Applied(env, db, events, positions).1.Done?
    requires j < |events| && Wins(events, j) && Signed(lsn, events[j].lsn)
    ensures var e, rows := events[j], Applied(env, db, events, positions).0.rows;
            var id := RowId(e.table, e.key);
            e.table in env.plan &&
            if e.op.OpTruncate? || (id in db.rows && db.rows[id].lsn > lsn) then Lookup(rows, id) == Lookup(db.rows, id)
            else Shows(env.plan, rows, e, lsn)
  {
    hide Applied, Wins, Winner;
    WinsIff(events, j);
    RowCommitted(env, db, events, positions, events[j].Id());
    SignedIs(lsn, events[j].lsn);
    if !events[j].op.OpTruncate? {
      NewerShows(env.plan, db.rows, Applied(env, db, events, positions).0.rows, events[j]);
    }
  }

  lemma SignedIs(lsn: int, bits: uint64)
    requires Signed(lsn, bits)
    ensures SignedLsn(bits) == lsn
  {
  }

  lemma NewerShows(plan: Plan, before: Rows, rows: Rows, e: Event)
    requires e.table in plan && !e.op.OpTruncate?
    requires Lookup(rows, e.Id()) == Wrappers.Some(Newer(Lookup(before, e.Id()), ViewOf(plan, e)))
    ensures if e.Id() in before && before[e.Id()].lsn > SignedLsn(e.lsn)
            then Lookup(rows, e.Id()) == Lookup(before, e.Id())
            else Shows(plan, rows, e, SignedLsn(e.lsn))
  {
  }

  /** A row the batch does not mention stays as it was. */
  lemma OthersStay(env: Env, db: Db, events: seq<Event>, positions: seq<Position>, id: RowId)
    requires Applied(env, db, events, positions).1.Done?
    requires forall e :: e in events ==> RowId(e.table, e.key) != id
    ensures Lookup(Applied(env, db, events, positions).0.rows, id) == Lookup(db.rows, id)
  {
    hide Applied, Winner;
    RowCommitted(env, db, events, positions, id);
    if EventsOf(events, id) != [] { EventsOfMember(events, id, EventsOf(events, id)[0]); }
  }

  // ------------------------------------------------------------ the counters

  /** The rows of a batch that an upsert wins, that a delete wins, and all of them, by the winning event. */
  ghost function WonByUpsert(es: seq<Event>): set<nat> {
    set j | 0 <= j < |es| && Wins(es, j) && (es[j].op.OpCreate? || es[j].op.OpUpdate? || es[j].op.OpRead?)
  }

  ghost function WonByDelete(es: seq<Event>): set<nat> { set j | 0 <= j < |es| && Wins(es, j) && es[j].op.OpDelete? }

  ghost function Won(es: seq<Event>): set<nat> { set j | 0 <= j < |es| && Wins(es, j) }

  lemma {:induction false} CountWins(es: seq<Event>, out: seq<Event>, at: seq<nat>)
    requires |out| == |at| && forall k :: 0 <= k < |at| ==> at[k] < |es| && out[k] == es[at[k]]
    requires forall k, l :: 0 <= k < l < |at| ==> at[k] < at[l]
    ensures |out| == |Picked(es, at, e => true)|
    ensures |Upserts(out)| == |Picked(es, at, (e: Event) => e.op.IsUpsert())|
    ensures |Deletes(out)| == |Picked(es, at, (e: Event) => e.op.OpDelete?)|
  {
    if at != [] {
      var n := |at| - 1;
      CountWins(es, out[..n], at[..n]);
      assert out == out[..n] + [out[n]];
      SplitSnoc(out[..n], out[n]);
      PickedSnoc(es, at, e => true);
      PickedSnoc(es, at, (e: Event) => e.op.IsUpsert());
      PickedSnoc(es, at, (e: Event) => e.op.OpDelete?);
    }
  }

  function Picked(es: seq<Event>, at: seq<nat>, kind: Event -> bool): set<nat> {
    set j | j in at && j < |es| && kind(es[j])
  }

  lemma PickedSnoc(es: seq<Event>, at: seq<nat>, kind: Event -> bool)
    requires at != [] && at[|at| - 1] < |es| && forall k, l :: 0 <= k < l < |at| ==> at[k] < at[l]
    ensures var n := |at| - 1;
            |Picked(es, at, kind)| == |Picked(es, at[..n], kind)| + if kind(es[at[n]]) then 1 else 0
  {
    var n := |at| - 1;
    assert at == at[..n] + [at[n]];
    assert at[n] !in at[..n];
    assert Picked(es, at, kind) == Picked(es, at[..n], kind) + if kind(es[at[n]]) then {at[n]} else {};
  }

  lemma SplitSnoc(es: seq<Event>, e: Event)
    ensures |Upserts(es + [e])| == |Upserts(es)| + if e.op.IsUpsert() then 1 else 0
    ensures |Deletes(es + [e])| == |Deletes(es)| + if e.op.OpDelete? then 1 else 0
  {
    assert [e][1..] == [];
    UpsertsConcat(es, [e]);
    DeletesConcat(es, [e]);
  }

  /** Each counter: rows upserted, rows tombstoned, and events superseded by another of their row. */
  lemma CountersAre(env: Env, db: Db, events: seq<Event>, positions: seq<Position>)
    requires Applied(env, db, events, positions).1.Done?
    ensures var s := Applied(env, db, events, positions).1.value;
            s.applied == |WonByUpsert(events)| && s.deleted == |WonByDelete(events)| &&
            s.skipped == |events| - |Won(events)|
  {
    hide Applied, Wins;
    SurvivorCounts(env, db, events, positions);
    var at := CoalescedAre(events);
    CountWins(events, Coalesced(events), at);
    assert Picked(events, at, e => true) == Won(events);
    assert Picked(events, at, (e: Event) => e.op.IsUpsert()) == WonByUpsert(events);
    assert Picked(events, at, (e: Event) => e.op.OpDelete?) == WonByDelete(events);
  }

  // ------------------------------------------------------------ why a batch fails

  /** A multi-row statement goes through only if it names no row twice. */
  lemma RepeatedRowAborts(plan: Plan, es: seq<Event>, d: Data)
    ensures RunStmt(plan, UpsertRows(es), d).Done? <==> DistinctRows(es)
  {
  }

  lemma {:induction false} StmtsFail(env: Env, call: nat, k: nat, stmts: seq<Stmt>, d: Data)
    requires forall i :: 0 <= i < |stmts| && stmts[i].UpsertRows? ==> DistinctRows(stmts[i].rows)
    ensures var o := RunStmts(env, call, k, stmts, d);
            ((exists s :: s in stmts && s.Unplanned?) ==> o.Failed?) &&
            (o.Failed? ==>
               (exists n, rows :: env.fault(call, n, rows) == Wrappers.Some(o.kind)) ||
               (o.kind == Permanent && exists s :: s in stmts && s.Unplanned?))
    decreases |stmts|
  {
    if stmts != [] {
      var o := TryStmt(env, call, k, stmts[0], d);
      assert stmts[0] in stmts;
      if o.Done? { StmtsFail(env, call, k + 1, stmts[1..], o.value); }
      assert stmts == [stmts[0]] + stmts[1..];
    }
  }

  lemma {:induction false} MarksFail(env: Env, call: nat, k: nat, positions: seq<Position>, marks: Offsets.Marks)
    ensures var o := RunMarks(env, call, k, positions, marks);
            o.Failed? ==> exists n, rows :: env.fault(call, n, rows) == Wrappers.Some(o.kind)
    decreases |positions|
  {
    if positions != [] {
      MarksFail(env, call, k + 1, positions[1..], Offsets.UpsertOffset(marks, positions[0].at, positions[0].mark));
    }
  }

  /** The error is one the database raised in this transaction, or the permanent one of a table outside the plan. */
  ghost predicate Raised(env: Env, call: nat, events: seq<Event>, kind: ErrClass) {
    (exists k, rows :: env.fault(call, k, rows) == Wrappers.Some(kind)) ||
    (kind == Permanent && !Planned(env.plan, events))
  }

  lemma FailsBecause(env: Env, db: Db, events: seq<Event>, positions: seq<Position>)
    ensures var o := Applied(env, db, events, positions).1;
            o.Failed? ==> Raised(env, db.calls, events, o.kind)
  {
    var batch := Coalesced(events);
    var stmts := BatchStmts(env, batch);
    forall i | 0 <= i < |stmts| && stmts[i].UpsertRows? ensures DistinctRows(stmts[i].rows) {
      StatementsDistinct(env, events, i);
    }
    StmtsFail(env, db.calls, 1, stmts, Data(db.rows, 0, 0));
    MarksFail(env, db.calls, 1 + |stmts|, positions, db.marks);
    if Planned(env.plan, events) { PlannedBatch(env, events); }
    hide RunStmts, RunMarks, BatchStmts, Coalesced, EventsOf;
  }

  /** A batch with a table outside the plan never commits; unless the database raises another error first, it fails
      permanently, so it is isolated and not retried. */
  lemma UnplannedFails(env: Env, db: Db, events: seq<Event>, positions: seq<Position>)
    requires exists e :: e in events && e.table !in env.plan
    ensures var o := Applied(env, db, events, positions).1;
            o.Failed? &&
            (o.kind == Permanent || exists k, rows :: env.fault(db.calls, k, rows) == Wrappers.Some(o.kind))
  {
    FailsBecause(env, db, events, positions);
    var e :| e in events && e.table !in env.plan;
    var batch := Coalesced(events);
    var stmts := BatchStmts(env, batch);
    EventsOfMember(events, e.Id(), e);
    CoalescedRow(events, e.Id());
    TableOfRowListed(batch, e.Id());
    UnplannedIsStated(env.plan, env.chunk, batch, Bytes.Sorted(TablesOf(batch)), e.table);
    forall i | 0 <= i < |stmts| && stmts[i].UpsertRows? ensures DistinctRows(stmts[i].rows) {
      StatementsDistinct(env, events, i);
    }
    StmtsFail(env, db.calls, 1, stmts, Data(db.rows, 0, 0));
    hide RunStmts, BatchStmts, Coalesced, EventsOf;
  }
}
