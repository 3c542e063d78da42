// A committed Apply, for all its coalescing, grouping, splitting and chunking, shows the table that
// one fenced write per event in arrival order would show.

module Refinement {
  import opened Wrappers
  import opened Bytes
  import opened FencedRows
  import opened Events
  import opened Coalescing
  import opened Statements
  import opened Offsets
  import opened Apply

  /** A TRUNCATE event is coalesced like any other and then dropped by the split into statements. */
  predicate NoTruncate(es: seq<Event>) { forall i :: 0 <= i < |es| ==> !es[i].op.OpTruncate? }

  lemma {:induction false} RunStmtsRows(env: Env, call: nat, k: nat, stmts: seq<Stmt>, d: Data)
    requires RunStmts(env, call, k, stmts, d).Done?
    ensures var r := RunStmts(env, call, k, stmts, d).value;
            r.rows == ExecAll(d.rows, Writes(env.plan, Carried(stmts)))
    ensures forall s :: s in stmts ==> !s.Unplanned?
    decreases |stmts|
  {
    if stmts != [] {
      var o := TryStmt(env, call, k, stmts[0], d).value;
      RunStmtsRows(env, call, k + 1, stmts[1..], o);
      var head := Carried([stmts[0]]);
      StmtRows(env.plan, stmts[0], d);
      assert stmts == [stmts[0]] + stmts[1..];
      CarriedConcat([stmts[0]], stmts[1..]);
      WritesConcat(env.plan, head, Carried(stmts[1..]));
      ExecAllConcat(d.rows, Writes(env.plan, head), Writes(env.plan, Carried(stmts[1..])));
    }
  }

  lemma StmtRows(plan: Plan, stmt: Stmt, d: Data)
    requires RunStmt(plan, stmt, d).Done?
    ensures var r := RunStmt(plan, stmt, d).value;
            r.rows == ExecAll(d.rows, Writes(plan, Carried([stmt])))
  {
    assert [stmt][1..] == [];
    match stmt
    case UpsertRows(es) => assert Carried([stmt]) == es + [] == es;
    case Tombstone(ev) =>
      assert Carried([stmt]) == [ev] + [] == [ev];
      assert [ev][1..] == [];
      assert Writes(plan, [ev]) == [WriteOf(plan, ev)] + [] == [WriteOf(plan, ev)];
      assert [WriteOf(plan, ev)][1..] == [];
  }

  lemma {:induction false} UnplannedIsStated(plan: Plan, size: int, batch: seq<Event>, tables: seq<Text>, t: Text)
    requires t in tables && t !in plan
    ensures Unplanned(t) in AllStmts(plan, size, batch, tables)
  {
    if tables[0] != t { UnplannedIsStated(plan, size, batch, tables[1..], t); }
    else { assert TableStmts(plan, size, batch, t)[0] == Unplanned(t); }
  }

  lemma StatedImpliesPlanned(plan: Plan, size: int, batch: seq<Event>, tables: seq<Text>)
    requires forall s :: s in AllStmts(plan, size, batch, tables) ==> !s.Unplanned?
    ensures forall t :: t in tables ==> t in plan
  {
    forall t | t in tables ensures t in plan {
      if t !in plan { UnplannedIsStated(plan, size, batch, tables, t); }
    }
  }

  lemma TableOfRowListed(batch: seq<Event>, id: RowId)
    ensures EventsOf(batch, id) != [] ==> id.table in Sorted(TablesOf(batch))
  {
    if EventsOf(batch, id) != [] {
      var e := EventsOf(batch, id)[0];
      EventsOfMember(batch, id, e);
      assert e.table in TablesOf(batch);
    }
  }

  lemma BatchRow(env: Env, call: nat, batch: seq<Event>, rows: Rows, id: RowId)
    requires RunStmts(env, call, 1, BatchStmts(env, batch), Data(rows, 0, 0)).Done?
    requires |EventsOf(batch, id)| <= 1
    ensures var mine := EventsOf(batch, id);
            Lookup(RunStmts(env, call, 1, BatchStmts(env, batch), Data(rows, 0, 0)).value.rows, id) ==
            FoldRow(Lookup(rows, id), Views(env.plan, if mine != [] && mine[0].op.OpTruncate? then [] else mine)) &&
            (mine != [] ==> id.table in env.plan)
  {
    hide RunStmts, BatchStmts, ExecAll, Writes, FoldRow, ViewOf, Lookup, Carried;
    var stmts := BatchStmts(env, batch);
    RunStmtsRows(env, call, 1, stmts, Data(rows, 0, 0));
    ExecAllRow(rows, Writes(env.plan, Carried(stmts)), id);
    OfRowEvents(env.plan, Carried(stmts), id);
    CommittedRow(env, batch, id);
    TablesPlanned(env, batch, id);
    SplitShort(EventsOf(batch, id));
  }

  lemma TablesPlanned(env: Env, batch: seq<Event>, id: RowId)
    requires forall s :: s in BatchStmts(env, batch) ==> !s.Unplanned?
    ensures EventsOf(batch, id) != [] ==> id.table in env.plan
  {
    StatedImpliesPlanned(env.plan, env.chunk, batch, Sorted(TablesOf(batch)));
    TableOfRowListed(batch, id);
  }

  /** The split into statements drops a TRUNCATE event. */
  lemma SplitShort(es: seq<Event>)
    requires |es| <= 1
    ensures Upserts(es) + Deletes(es) == if es != [] && es[0].op.OpTruncate? then [] else es
  {
    if es != [] { assert es[1..] == []; }
  }

  /** What a committed batch writes to a row: the winner of its events, under the fence, unless that is a
      TRUNCATE event; and the row's table is planned. */
  lemma RowCommitted(env: Env, db: Db, events: seq<Event>, positions: seq<Position>, id: RowId)
    requires Applied(env, db, events, positions).1.Done?
    ensures var mine := EventsOf(events, id);
            Lookup(Applied(env, db, events, positions).0.rows, id) ==
            (if mine == [] || Winner(mine).op.OpTruncate? then Lookup(db.rows, id)
             else Some(Newer(Lookup(db.rows, id), ViewOf(env.plan, Winner(mine))))) &&
            (mine != [] ==> id.table in env.plan)
  {
    hide BatchStmts, RunStmts, RunMarks, Coalesced, ViewOf, FoldRow, Winner;
    if !NoWork(events, positions) {
      var batch := Coalesced(events);
      CoalescedRow(events, id);
      BatchRow(env, db.calls, batch, db.rows, id);
      FoldRowShort(env.plan, Lookup(db.rows, id), EventsOf(batch, id));
      FoldRowShort(env.plan, Lookup(db.rows, id), []);
    }
  }

  lemma ApplyRow(env: Env, db: Db, events: seq<Event>, positions: seq<Position>, id: RowId)
    requires NoTruncate(events) && Applied(env, db, events, positions).1.Done?
    ensures var mine := EventsOf(events, id);
            Lookup(Applied(env, db, events, positions).0.rows, id) ==
            if mine == [] then Lookup(db.rows, id)
            else Some(Newer(Lookup(db.rows, id), ViewOf(env.plan, Winner(mine))))
  {
    hide Applied, ViewOf, Winner;
    RowCommitted(env, db, events, positions, id);
    if EventsOf(events, id) != [] { WinnerNoTruncate(events, id); }
  }

  lemma WinnerNoTruncate(events: seq<Event>, id: RowId)
    requires NoTruncate(events) && EventsOf(events, id) != []
    ensures !Winner(EventsOf(events, id)).op.OpTruncate?
    ensures Winner(EventsOf(events, id)) in events && Winner(EventsOf(events, id)).Id() == id
  {
    var mine := EventsOf(events, id);
    var w := WinnerIsMaximum(mine);
    EventsOfMember(events, id, mine[w]);
  }

  lemma FoldRowShort(plan: Plan, v: Option<View>, es: seq<Event>)
    requires |es| <= 1
    ensures FoldRow(v, Views(plan, es)) == if es == [] then v else Some(Newer(v, ViewOf(plan, es[0])))
  {
  }

  lemma CommittedRow(env: Env, batch: seq<Event>, id: RowId)
    ensures EventsOf(Carried(BatchStmts(env, batch)), id) ==
            if id.table in env.plan then Upserts(EventsOf(batch, id)) + Deletes(EventsOf(batch, id)) else []
  {
    CarriedRow(env.plan, env.chunk, batch, Sorted(TablesOf(batch)), id);
    TableOfRowListed(batch, id);
  }

  /** For every row the event that coalescing keeps writes what the last of the newest would, or the
      stored row is newer than both. */
  ghost predicate AgreesWithArrival(plan: Plan, rows: Rows, events: seq<Event>) {
    forall id :: EventsOf(events, id) != [] ==>
      var kept := ViewOf(plan, Winner(EventsOf(events, id)));
      kept == ViewOf(plan, LastNewest(EventsOf(events, id))) ||
      (Lookup(rows, id).Some? && Lookup(rows, id).value.lsn > kept.lsn)
  }

  /** What arrival order writes to a row. */
  lemma ArrivalRow(plan: Plan, rows: Rows, events: seq<Event>, id: RowId)
    requires SignedSafe(events)
    ensures var mine := EventsOf(events, id);
            Lookup(ExecAll(rows, Writes(plan, events)), id) ==
            if mine == [] then Lookup(rows, id) else Some(Newer(Lookup(rows, id), ViewOf(plan, LastNewest(mine))))
  {
    var mine := EventsOf(events, id);
    ExecAllRow(rows, Writes(plan, events), id);
    OfRowEvents(plan, events, id);
    if mine != [] {
      forall i | 0 <= i < |mine| ensures mine[i].lsn < 0x8000_0000_0000_0000 { EventsOfMember(events, id, mine[i]); }
      var w := LastNewestIsLaterAll(plan, mine);
      FoldRowLater(Lookup(rows, id), Views(plan, mine));
    } else {
      assert Views(plan, mine) == [];
    }
  }

  /** Refinement, exactly: the committed batch shows what arrival order shows if and only if every row's
      survivor writes what arrival order ends on, or is overtaken by the stored row. */
  lemma RefinesArrivalIff(env: Env, db: Db, events: seq<Event>, positions: seq<Position>)
    requires NoTruncate(events) && SignedSafe(events) && Applied(env, db, events, positions).1.Done?
    ensures SameView(Applied(env, db, events, positions).0.rows, ExecAll(db.rows, Writes(env.plan, events))) <==>
            AgreesWithArrival(env.plan, db.rows, events)
  {
    hide Applied, ViewOf, Winner, LastNewest, ExecAll, Lookup;
    var after := Applied(env, db, events, positions).0.rows;
    var direct := ExecAll(db.rows, Writes(env.plan, events));
    forall id ensures EventsOf(events, id) == [] ==> Lookup(after, id) == Lookup(direct, id)
              ensures EventsOf(events, id) != [] ==>
                (Lookup(after, id) == Lookup(direct, id) <==>
                 var kept := ViewOf(env.plan, Winner(EventsOf(events, id)));
                 kept == ViewOf(env.plan, LastNewest(EventsOf(events, id))) ||
                 (Lookup(db.rows, id).Some? && Lookup(db.rows, id).value.lsn > kept.lsn))
    {
      ApplyRow(env, db, events, positions, id);
      ArrivalRow(env.plan, db.rows, events, id);
      if EventsOf(events, id) != [] { SameLsn(env.plan, events, id); }
    }
  }

  lemma SameLsn(plan: Plan, events: seq<Event>, id: RowId)
    requires EventsOf(events, id) != []
    ensures ViewOf(plan, Winner(EventsOf(events, id))).lsn == ViewOf(plan, LastNewest(EventsOf(events, id))).lsn
  {
    WinnerLsn(EventsOf(events, id));
  }

  /** The condition a caller meets by reading partitions in order. */
  lemma TiesAgree(plan: Plan, rows: Rows, events: seq<Event>)
    requires TiesInOrder(events)
    ensures AgreesWithArrival(plan, rows, events)
  {
    forall id | EventsOf(events, id) != []
      ensures Winner(EventsOf(events, id)) == LastNewest(EventsOf(events, id))
    {
      var mine := EventsOf(events, id);
      TiesInOrderOfRow(events, id);
      forall i | 0 <= i < |mine| ensures mine[i].Id() == id { EventsOfMember(events, id, mine[i]); }
      TiedWinner(mine);
    }
  }

  lemma RefinesArrival(env: Env, db: Db, events: seq<Event>, positions: seq<Position>)
    requires NoTruncate(events) && SignedSafe(events) && TiesInOrder(events)
    requires Applied(env, db, events, positions).1.Done?
    ensures SameView(Applied(env, db, events, positions).0.rows, ExecAll(db.rows, Writes(env.plan, events)))
  {
    TiesAgree(env.plan, db.rows, events);
    RefinesArrivalIff(env, db, events, positions);
  }

  // ------------------------------------------------------------ when a transaction commits

  lemma FailedKeepsDb(env: Env, db: Db, batch: seq<Event>, ps: seq<Position>)
    ensures Applied(env, db, batch, ps).1.Failed? ==>
              Applied(env, db, batch, ps).0.rows == db.rows && Applied(env, db, batch, ps).0.marks == db.marks
  {
  }

  ghost predicate Planned(plan: Plan, events: seq<Event>) { forall e :: e in events ==> e.table in plan }

  predicate StmtsPass(env: Env, call: nat, k: nat, stmts: seq<Stmt>)
    decreases |stmts|
  {
    stmts == [] || (env.fault(call, k, RowsOf(stmts[0])).None? && StmtsPass(env, call, k + 1, stmts[1..]))
  }

  predicate OffsetsPass(env: Env, call: nat, k: nat, n: nat) {
    forall j :: k <= j < k + n ==> env.fault(call, j, []).None?
  }

  /** The database raises no error anywhere in the transaction. */
  predicate NoFault(env: Env, call: nat, stmts: seq<Stmt>, positions: nat) {
    env.fault(call, 0, []).None? && StmtsPass(env, call, 1, stmts) &&
    OffsetsPass(env, call, 1 + |stmts|, positions) && env.fault(call, 1 + |stmts| + positions, []).None?
  }

  lemma {:induction false} RunStmtsDone(env: Env, call: nat, k: nat, stmts: seq<Stmt>, d: Data)
    requires forall i :: 0 <= i < |stmts| ==>
               !stmts[i].Unplanned? && (stmts[i].UpsertRows? ==> DistinctRows(stmts[i].rows))
    ensures RunStmts(env, call, k, stmts, d).Done? <==> StmtsPass(env, call, k, stmts)
    decreases |stmts|
  {
    if stmts != [] {
      var o := TryStmt(env, call, k, stmts[0], d);
      if o.Done? { RunStmtsDone(env, call, k + 1, stmts[1..], o.value); }
    }
  }

  lemma {:induction false} RunMarksDone(env: Env, call: nat, k: nat, positions: seq<Position>, marks: Offsets.Marks)
    ensures RunMarks(env, call, k, positions, marks).Done? <==> OffsetsPass(env, call, k, |positions|)
    decreases |positions|
  {
    if positions != [] && env.fault(call, k, []).None? {
      RunMarksDone(env, call, k + 1, positions[1..], UpsertOffset(marks, positions[0].at, positions[0].mark));
    }
  }

  lemma {:induction false} StatedTables(plan: Plan, size: int, batch: seq<Event>, tables: seq<Text>)
    requires forall t :: t in tables ==> t in plan
    ensures forall s :: s in AllStmts(plan, size, batch, tables) ==> !s.Unplanned?
  {
    if tables != [] {
      var events := OfTable(batch, tables[0]);
      StatedTables(plan, size, batch, tables[1..]);
      StatedRows(Chunks(Upserts(events), size), Deletes(events));
    }
  }

  lemma {:induction false} StatedRows(chunks: seq<seq<Event>>, deletes: seq<Event>)
    ensures forall s :: s in UpsertStmts(chunks) ==> !s.Unplanned?
    ensures forall s :: s in DeleteStmts(deletes) ==> !s.Unplanned?
    decreases |chunks| + |deletes|
  {
    if chunks != [] { StatedRows(chunks[1..], []); }
    if deletes != [] { StatedRows([], deletes[1..]); }
  }

  /** No statement of a coalesced batch names a row twice, so a hot row cannot abort its batch. */
  lemma StatementsDistinct(env: Env, events: seq<Event>, i: nat)
    requires i < |BatchStmts(env, Coalesced(events))| && BatchStmts(env, Coalesced(events))[i].UpsertRows?
    ensures DistinctRows(BatchStmts(env, Coalesced(events))[i].rows)
  {
    var batch := Coalesced(events);
    var stmts := BatchStmts(env, batch);
    forall id ensures |EventsOf(stmts[i].rows, id)| <= 1 {
      StmtRowBound(stmts, i, id);
      CommittedRow(env, batch, id);
      CoalescedRow(events, id);
      SplitShort(EventsOf(batch, id));
    }
    AtMostOneIsDistinct(stmts[i].rows);
  }

  lemma PlannedBatch(env: Env, events: seq<Event>)
    requires Planned(env.plan, events)
    ensures forall s :: s in BatchStmts(env, Coalesced(events)) ==> !s.Unplanned?
  {
    var batch := Coalesced(events);
    forall t | t in Sorted(TablesOf(batch)) ensures t in env.plan {
      var e :| e in batch && e.table == t;
      EventsOfMember(batch, e.Id(), e);
      CoalescedRow(events, e.Id());
      var w := WinnerIsMaximum(EventsOf(events, e.Id()));
      EventsOfMember(events, e.Id(), e);
    }
    StatedTables(env.plan, env.chunk, batch, Sorted(TablesOf(batch)));
  }

  lemma {:induction false} RowsCarried(stmts: seq<Stmt>, i: nat, e: Event)
    requires i < |stmts| && e in RowsOf(stmts[i])
    ensures e in Carried(stmts)
  {
    if i > 0 { RowsCarried(stmts[1..], i - 1, e); }
  }

  /** A statement writes events of the batch only. */
  lemma StmtEvents(env: Env, events: seq<Event>, i: nat, e: Event)
    requires i < |BatchStmts(env, Coalesced(events))| && e in RowsOf(BatchStmts(env, Coalesced(events))[i])
    ensures e in events
  {
    var batch := Coalesced(events);
    var stmts := BatchStmts(env, batch);
    var id := e.Id();
    hide Coalesced, BatchStmts;
    RowsCarried(stmts, i, e);
    EventsOfMember(Carried(stmts), id, e);
    CommittedRow(env, batch, id);
    CoalescedRow(events, id);
    WinnerLsn(EventsOf(events, id));
    EventsOfMember(events, id, e);
  }

  lemma DataDone(env: Env, call: nat, events: seq<Event>, d: Data)
    requires Planned(env.plan, events)
    ensures var stmts := BatchStmts(env, Coalesced(events));
            RunStmts(env, call, 1, stmts, d).Done? <==> StmtsPass(env, call, 1, stmts)
  {
    var stmts := BatchStmts(env, Coalesced(events));
    PlannedBatch(env, events);
    forall i | 0 <= i < |stmts| ensures !stmts[i].Unplanned? && (stmts[i].UpsertRows? ==> DistinctRows(stmts[i].rows)) {
      assert stmts[i] in stmts;
      if stmts[i].UpsertRows? { StatementsDistinct(env, events, i); }
    }
    RunStmtsDone(env, call, 1, stmts, d);
  }

  /** A planned batch commits exactly when the database raises no error in its transaction: begin,
      statements, offsets, commit. */
  lemma CommitsIff(env: Env, db: Db, events: seq<Event>, positions: seq<Position>)
    requires Planned(env.plan, events) && !NoWork(events, positions)
    ensures Applied(env, db, events, positions).1.Done? <==>
            NoFault(env, db.calls, BatchStmts(env, Coalesced(events)), |positions|)
  {
    hide RunStmts, RunMarks, BatchStmts, Coalesced, StmtsPass, OffsetsPass;
    DataDone(env, db.calls, events, Data(db.rows, 0, 0));
    RunMarksDone(env, db.calls, 1 + |BatchStmts(env, Coalesced(events))|, positions, db.marks);
  }

  // ------------------------------------------------------------ accounting

  function OfTables(es: seq<Event>, tables: seq<Text>): seq<Event> {
    if es == [] then [] else (if es[0].table in tables then [es[0]] else []) + OfTables(es[1..], tables)
  }

  lemma {:induction false} TablesCount(es: seq<Event>, t: Text, rest: seq<Text>)
    requires t !in rest
    ensures |OfTables(es, [t] + rest)| == |OfTable(es, t)| + |OfTables(es, rest)|
  {
    if es != [] { TablesCount(es[1..], t, rest); }
  }

  lemma {:induction false} SplitCount(es: seq<Event>)
    requires NoTruncate(es)
    ensures |Upserts(es)| + |Deletes(es)| == |es|
  {
    if es != [] { SplitCount(es[1..]); }
  }

  lemma {:induction false} OfTablesNone(es: seq<Event>)
    ensures OfTables(es, []) == []
  {
    if es != [] { OfTablesNone(es[1..]); }
  }

  lemma {:induction false} OfTablesAll(es: seq<Event>, tables: seq<Text>)
    requires forall e :: e in es ==> e.table in tables
    ensures OfTables(es, tables) == es
  {
    if es != [] { OfTablesAll(es[1..], tables); }
  }

  /** Splitting by operation and by table commute. */
  lemma {:induction false} SplitOfTable(es: seq<Event>, t: Text)
    ensures Upserts(OfTable(es, t)) == OfTable(Upserts(es), t)
    ensures Deletes(OfTable(es, t)) == OfTable(Deletes(es), t)
  {
    if es != [] {
      SplitOfTable(es[1..], t);
      var e := [es[0]];
      assert e[1..] == [];
      UpsertsConcat(if es[0].table == t then e else [], OfTable(es[1..], t));
      DeletesConcat(if es[0].table == t then e else [], OfTable(es[1..], t));
      OfTableConcat(Upserts(e), Upserts(es[1..]), t);
      OfTableConcat(Deletes(e), Deletes(es[1..]), t);
    }
  }

  lemma {:induction false} OfTableConcat(a: seq<Event>, b: seq<Event>, t: Text)
    ensures OfTable(a + b, t) == OfTable(a, t) + OfTable(b, t)
  {
    if a == [] {
      assert a + b == b;
    } else {
      assert (a + b)[0] == a[0] && (a + b)[1..] == a[1..] + b;
      OfTableConcat(a[1..], b, t);
      var head := if a[0].table == t then [a[0]] else [];
      assert head + (OfTable(a[1..], t) + OfTable(b, t)) == OfTable(a, t) + OfTable(b, t);
    }
  }

  /** How many rows the multi-row statements write, and how many tombstones there are. */
  function Upserted(stmts: seq<Stmt>): nat {
    if stmts == [] then 0 else (if stmts[0].UpsertRows? then |stmts[0].rows| else 0) + Upserted(stmts[1..])
  }

  function Tombstoned(stmts: seq<Stmt>): nat {
    if stmts == [] then 0 else (if stmts[0].Tombstone? then 1 else 0) + Tombstoned(stmts[1..])
  }

  lemma {:induction false} RunStmtsCount(env: Env, call: nat, k: nat, stmts: seq<Stmt>, d: Data)
    requires RunStmts(env, call, k, stmts, d).Done?
    ensures var r := RunStmts(env, call, k, stmts, d).value;
            r.applied == d.applied + Upserted(stmts) && r.deleted == d.deleted + Tombstoned(stmts)
    decreases |stmts|
  {
    if stmts != [] { RunStmtsCount(env, call, k + 1, stmts[1..], TryStmt(env, call, k, stmts[0], d).value); }
  }

  lemma {:induction false} CountConcat(a: seq<Stmt>, b: seq<Stmt>)
    ensures Upserted(a + b) == Upserted(a) + Upserted(b) && Tombstoned(a + b) == Tombstoned(a) + Tombstoned(b)
  {
    if a == [] {
      assert a + b == b;
    } else {
      assert (a + b)[0] == a[0] && (a + b)[1..] == a[1..] + b;
      CountConcat(a[1..], b);
    }
  }

  lemma {:induction false} UpsertCount(es: seq<Event>, size: int)
    ensures Upserted(UpsertStmts(Chunks(es, size))) == |es| && Tombstoned(UpsertStmts(Chunks(es, size))) == 0
    decreases |es|
  {
    var n := if size <= 0 then DEFAULT_CHUNK else size;
    if |es| > n { UpsertCount(es[n..], size); }
    else if es != [] { assert UpsertStmts([es])[1..] == []; }
  }

  lemma {:induction false} DeleteCount(es: seq<Event>)
    ensures Upserted(DeleteStmts(es)) == 0 && Tombstoned(DeleteStmts(es)) == |es|
  {
    if es != [] { DeleteCount(es[1..]); }
  }

  lemma {:induction false} StatedCount(plan: Plan, size: int, batch: seq<Event>, tables: seq<Text>)
    requires Ascending(tables) && forall t :: t in tables ==> t in plan
    ensures Upserted(AllStmts(plan, size, batch, tables)) == |OfTables(Upserts(batch), tables)|
    ensures Tombstoned(AllStmts(plan, size, batch, tables)) == |OfTables(Deletes(batch), tables)|
    decreases |tables|
  {
    if tables == [] {
      OfTablesNone(Upserts(batch));
      OfTablesNone(Deletes(batch));
    } else {
      var t := tables[0];
      var events := OfTable(batch, t);
      assert tables == [t] + tables[1..];
      assert t !in tables[1..] by { LessIrreflexive(t); }
      StatedCount(plan, size, batch, tables[1..]);
      TablesCount(Upserts(batch), t, tables[1..]);
      TablesCount(Deletes(batch), t, tables[1..]);
      CountConcat(TableStmts(plan, size, batch, t), AllStmts(plan, size, batch, tables[1..]));
      CountConcat(UpsertStmts(Chunks(Upserts(events), size)), DeleteStmts(Deletes(events)));
      UpsertCount(Upserts(events), size);
      DeleteCount(Deletes(events));
      SplitOfTable(batch, t);
      assert t in plan;
    }
  }

  lemma {:induction false} SplitMembers(es: seq<Event>)
    ensures forall e :: e in Upserts(es) + Deletes(es) ==> e in es
  {
    if es != [] {
      SplitMembers(es[1..]);
      assert es == [es[0]] + es[1..];
    }
  }

  /** The counters of a committed batch are the survivors of each kind. */
  lemma SurvivorCounts(env: Env, db: Db, events: seq<Event>, positions: seq<Position>)
    requires Applied(env, db, events, positions).1.Done?
    ensures var s, batch := Applied(env, db, events, positions).1.value, Coalesced(events);
            s.applied == |Upserts(batch)| && s.deleted == |Deletes(batch)| && s.skipped == |events| - |batch|
  {
    var batch := Coalesced(events);
    if !NoWork(events, positions) {
      var tables := Sorted(TablesOf(batch));
      RunStmtsRows(env, db.calls, 1, BatchStmts(env, batch), Data(db.rows, 0, 0));
      RunStmtsCount(env, db.calls, 1, BatchStmts(env, batch), Data(db.rows, 0, 0));
      StatedImpliesPlanned(env.plan, env.chunk, batch, tables);
      StatedCount(env.plan, env.chunk, batch, tables);
      forall e | e in batch ensures e.table in tables { assert e.table in TablesOf(batch); }
      SplitMembers(batch);
      OfTablesAll(Upserts(batch), tables);
      OfTablesAll(Deletes(batch), tables);
    }
  }

  /** Conservation: a committed batch counts every event once, as applied, deleted or superseded. */
  lemma SummaryConserves(env: Env, db: Db, events: seq<Event>, positions: seq<Position>)
    requires NoTruncate(events) && Applied(env, db, events, positions).1.Done?
    ensures var s := Applied(env, db, events, positions).1.value;
            s.applied + s.deleted + s.skipped == |events|
  {
    hide Applied;
    SurvivorCounts(env, db, events, positions);
    CoalescedNoTruncate(events);
    SplitCount(Coalesced(events));
  }

  lemma CoalescedNoTruncate(events: seq<Event>)
    requires NoTruncate(events)
    ensures NoTruncate(Coalesced(events))
  {
    var batch := Coalesced(events);
    forall i | 0 <= i < |batch| ensures !batch[i].op.OpTruncate? {
      var id := batch[i].Id();
      EventsOfMember(batch, id, batch[i]);
      CoalescedRow(events, id);
      WinnerNoTruncate(events, id);
    }
  }

  // ------------------------------------------------------------ the tie that coalescing decides differently

  lemma {:induction false} AllPass(env: Env, call: nat, k: nat, stmts: seq<Stmt>)
    requires forall n, rows :: env.fault(call, n, rows).None?
    ensures StmtsPass(env, call, k, stmts)
    decreases |stmts|
  {
    if stmts != [] { AllPass(env, call, k + 1, stmts[1..]); }
  }

  /** A row updated twice at one LSN, read from two partitions, the later stream offset first. */
  function TiedUpdate(partition: int, offset: int, value: byte): Event {
    Event([97], OpUpdate, [0], map[], map[[99] := Datum([value])], 1, [116], partition, offset)
  }

  function TiedBatch(): seq<Event> { [TiedUpdate(0, 5, 1), TiedUpdate(1, 3, 2)] }

  function CalmEnv(): Env { Env(map[[97] := {[99]}], 0, (c: nat, k: nat, rows: seq<Event>) => None) }

  /** Arrival order ends on the second update; the committed batch has kept the first. */
  lemma TiedOffsetsDisagree()
    ensures var (after, o) := Applied(CalmEnv(), Db(map[], map[], 0), TiedBatch(), []);
            o.Done? && !SameView(after.rows, ExecAll(map[], Writes(CalmEnv().plan, TiedBatch())))
  {
    TiedCommits(Db(map[], map[], 0));
    TiedPair();
    hide Applied, ViewOf, EventsOf, Winner, LastNewest, Writes, ExecAll;
    var id := TiedBatch()[0].Id();
    assert EventsOf(TiedBatch(), id) != [] && Lookup(map[], id).None?;
    assert !AgreesWithArrival(CalmEnv().plan, map[], TiedBatch());
    RefinesArrivalIff(CalmEnv(), Db(map[], map[], 0), TiedBatch(), []);
  }

  lemma TiedCommits(db: Db)
    ensures Applied(CalmEnv(), db, TiedBatch(), []).1.Done?
  {
    hide Applied, BatchStmts, Coalesced, StmtsPass;
    AllPass(CalmEnv(), db.calls, 1, BatchStmts(CalmEnv(), Coalesced(TiedBatch())));
    CommitsIff(CalmEnv(), db, TiedBatch(), []);
  }

  lemma TiedPair()
    ensures var a, b := TiedBatch()[0], TiedBatch()[1];
            EventsOf(TiedBatch(), a.Id()) == TiedBatch() && Winner(TiedBatch()) == a && LastNewest(TiedBatch()) == b &&
            ViewOf(CalmEnv().plan, a) != ViewOf(CalmEnv().plan, b)
  {
    var a, b := TiedUpdate(0, 5, 1), TiedUpdate(1, 3, 2);
    assert [a, b][1..] == [b] && [a, b][..1] == [a];
    assert EventsOf([b], a.Id()) == [b] by { assert [b][1..] == []; }
    assert ViewOf(CalmEnv().plan, a).image[[99]] == Datum([1]);
    assert ViewOf(CalmEnv().plan, b).image[[99]] == Datum([2]);
  }
}
