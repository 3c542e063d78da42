// Transactional apply (internal/sink/applier.go): coalesce, group, chunk, execute under the fence,
// record offsets, commit or roll back; and the proof that all of it amounts to one fenced write
// per event in arrival order.

/** The statements a coalesced batch becomes, and the events they carry. */
module Statements {
  import opened Bytes
  import opened FencedRows
  import opened Events

  datatype Stmt = UpsertRows(rows: seq<Event>) | Tombstone(ev: Event) | Unplanned(table: Text)

  function OfTable(es: seq<Event>, table: Text): seq<Event> {
    if es == [] then [] else (if es[0].table == table then [es[0]] else []) + OfTable(es[1..], table)
  }

  function Upserts(es: seq<Event>): seq<Event> {
    if es == [] then []
    else (if !es[0].op.OpDelete? && es[0].op.IsUpsert() then [es[0]] else []) + Upserts(es[1..])
  }

  function Deletes(es: seq<Event>): seq<Event> {
    if es == [] then [] else (if es[0].op.OpDelete? then [es[0]] else []) + Deletes(es[1..])
  }

  const DEFAULT_CHUNK := 500

  function Chunks(es: seq<Event>, size: int): seq<seq<Event>>
    decreases |es|
  {
    var n := if size <= 0 then DEFAULT_CHUNK else size;
    if es == [] then [] else if |es| <= n then [es] else [es[..n]] + Chunks(es[n..], size)
  }

  function UpsertStmts(chunks: seq<seq<Event>>): seq<Stmt> {
    if chunks == [] then [] else [UpsertRows(chunks[0])] + UpsertStmts(chunks[1..])
  }

  function DeleteStmts(es: seq<Event>): seq<Stmt> {
    if es == [] then [] else [Tombstone(es[0])] + DeleteStmts(es[1..])
  }

  function TableStmts(plan: Plan, size: int, batch: seq<Event>, table: Text): seq<Stmt> {
    var events := OfTable(batch, table);
    if table !in plan then [Unplanned(table)]
    else UpsertStmts(Chunks(Upserts(events), size)) + DeleteStmts(Deletes(events))
  }

  function AllStmts(plan: Plan, size: int, batch: seq<Event>, tables: seq<Text>): seq<Stmt> {
    if tables == [] then []
    else TableStmts(plan, size, batch, tables[0]) + AllStmts(plan, size, batch, tables[1..])
  }

  function TablesOf(batch: seq<Event>): set<Text> { set e | e in batch :: e.table }

  function RowsOf(stmt: Stmt): seq<Event> {
    match stmt
    case UpsertRows(rows) => rows
    case Tombstone(ev) => [ev]
    case Unplanned(_) => []
  }

  /** The events a statement list writes, in execution order. */
  function Carried(stmts: seq<Stmt>): seq<Event> {
    if stmts == [] then [] else RowsOf(stmts[0]) + Carried(stmts[1..])
  }

  // ------------------------------------------------------------ building them

  method SplitByOp(events: seq<Event>) returns (upserts: seq<Event>, deletes: seq<Event>)
    ensures upserts == Upserts(events) && deletes == Deletes(events)
  {
    upserts, deletes := [], [];
    for i := 0 to |events|
      invariant upserts + Upserts(events[i..]) == Upserts(events)
      invariant deletes + Deletes(events[i..]) == Deletes(events)
    {
      var ev := events[i];
      assert events[i..][0] == ev && events[i..][1..] == events[i + 1..];
      if ev.op.OpDelete? {
        deletes := deletes + [ev];
      } else if ev.op.IsUpsert() {
        upserts := upserts + [ev];
      }
    }
  }

  function ChunkEnd(i: nat, size: int, length: nat): nat {
    var end := i + if size <= 0 then DEFAULT_CHUNK else size;
    if end > length then length else end
  }

  lemma NextChunk(events: seq<Event>, size: int, i: nat)
    requires i < |events|
    ensures var end := ChunkEnd(i, size, |events|);
            i < end && Chunks(events[i..], size) == [events[i..end]] + Chunks(events[end..], size)
  {
    var end := ChunkEnd(i, size, |events|);
    var n := if size <= 0 then DEFAULT_CHUNK else size;
    if |events[i..]| <= n {
      assert events[i..] == events[i..end] && events[end..] == [];
    } else {
      assert events[i..][..n] == events[i..end] && events[i..][n..] == events[end..];
    }
  }

  method ChunkEvents(events: seq<Event>, size: int) returns (out: seq<seq<Event>>)
    ensures out == Chunks(events, size)
  {
    out := [];
    var i := 0;
    assert events[0..] == events;
    while i < |events|
      invariant 0 <= i <= |events|
      invariant out + Chunks(events[i..], size) == Chunks(events, size)
    {
      NextChunk(events, size, i);
      var end := ChunkEnd(i, size, |events|);
      assert (out + [events[i..end]]) + Chunks(events[end..], size) ==
             out + ([events[i..end]] + Chunks(events[end..], size));
      out := out + [events[i..end]];
      i := end;
    }
  }

  /** No chunk is empty or larger than the statement bound. */
  lemma {:induction false} ChunkBounds(es: seq<Event>, size: int, c: seq<Event>)
    requires c in Chunks(es, size)
    ensures 1 <= |c| <= if size <= 0 then DEFAULT_CHUNK else size
    decreases |es|
  {
    var n := if size <= 0 then DEFAULT_CHUNK else size;
    if |es| > n && c != es[..n] { ChunkBounds(es[n..], size, c); }
  }

  // ------------------------------------------------------------ what each row's share of them is

  lemma {:induction false} UpsertsConcat(a: seq<Event>, b: seq<Event>)
    ensures Upserts(a + b) == Upserts(a) + Upserts(b)
  {
    if a == [] {
      assert a + b == b;
    } else {
      assert (a + b)[0] == a[0] && (a + b)[1..] == a[1..] + b;
      UpsertsConcat(a[1..], b);
      var head := if a[0].op.IsUpsert() then [a[0]] else [];
      assert head + (Upserts(a[1..]) + Upserts(b)) == Upserts(a) + Upserts(b);
    }
  }

  lemma {:induction false} DeletesConcat(a: seq<Event>, b: seq<Event>)
    ensures Deletes(a + b) == Deletes(a) + Deletes(b)
  {
    if a == [] {
      assert a + b == b;
    } else {
      assert (a + b)[0] == a[0] && (a + b)[1..] == a[1..] + b;
      DeletesConcat(a[1..], b);
      var head := if a[0].op.OpDelete? then [a[0]] else [];
      assert head + (Deletes(a[1..]) + Deletes(b)) == Deletes(a) + Deletes(b);
    }
  }

  lemma {:induction false} OfTableRow(es: seq<Event>, table: Text, id: RowId)
    ensures EventsOf(OfTable(es, table), id) == if id.table == table then EventsOf(es, id) else []
  {
    if es != [] {
      OfTableRow(es[1..], table, id);
      EventsOfConcat(if es[0].table == table then [es[0]] else [], OfTable(es[1..], table), id);
      assert EventsOf([es[0]], id) == if es[0].Id() == id then [es[0]] else [];
    }
  }

  lemma {:induction false} SplitRow(es: seq<Event>, id: RowId)
    ensures EventsOf(Upserts(es), id) == Upserts(EventsOf(es, id))
    ensures EventsOf(Deletes(es), id) == Deletes(EventsOf(es, id))
  {
    if es != [] {
      SplitRow(es[1..], id);
      var head := if es[0].Id() == id then [es[0]] else [];
      assert Upserts([es[0]]) == if es[0].op.IsUpsert() then [es[0]] else [];
      assert Deletes([es[0]]) == if es[0].op.OpDelete? then [es[0]] else [];
      EventsOfConcat(Upserts([es[0]]), Upserts(es[1..]), id);
      EventsOfConcat(Deletes([es[0]]), Deletes(es[1..]), id);
      UpsertsConcat(head, EventsOf(es[1..], id));
      DeletesConcat(head, EventsOf(es[1..], id));
    }
  }

  lemma {:induction false} CarriedConcat(a: seq<Stmt>, b: seq<Stmt>)
    ensures Carried(a + b) == Carried(a) + Carried(b)
  {
    if a == [] {
      assert a + b == b;
    } else {
      assert (a + b)[0] == a[0] && (a + b)[1..] == a[1..] + b;
      CarriedConcat(a[1..], b);
      assert RowsOf(a[0]) + (Carried(a[1..]) + Carried(b)) == Carried(a) + Carried(b);
    }
  }

  lemma {:induction false} CarriedChunks(es: seq<Event>, size: int)
    ensures Carried(UpsertStmts(Chunks(es, size))) == es
    decreases |es|
  {
    var n := if size <= 0 then DEFAULT_CHUNK else size;
    if es != [] && |es| > n {
      CarriedChunks(es[n..], size);
      assert es == es[..n] + es[n..];
    } else if es != [] {
      assert UpsertStmts([es])[1..] == [];
      assert Carried(UpsertStmts([es])) == es + [];
    }
  }

  lemma {:induction false} CarriedDeletes(es: seq<Event>)
    ensures Carried(DeleteStmts(es)) == es
  {
    if es != [] { CarriedDeletes(es[1..]); }
  }

  lemma CarriedTableRow(plan: Plan, size: int, batch: seq<Event>, table: Text, id: RowId)
    ensures EventsOf(Carried(TableStmts(plan, size, batch, table)), id) ==
            if table in plan && id.table == table then Upserts(EventsOf(batch, id)) + Deletes(EventsOf(batch, id))
            else []
  {
    if table !in plan {
      assert [Unplanned(table)][1..] == [];
      return;
    }
    var events := OfTable(batch, table);
    CarriedConcat(UpsertStmts(Chunks(Upserts(events), size)), DeleteStmts(Deletes(events)));
    CarriedChunks(Upserts(events), size);
    CarriedDeletes(Deletes(events));
    EventsOfConcat(Upserts(events), Deletes(events), id);
    SplitRow(events, id);
    OfTableRow(batch, table, id);
  }

  /** Whatever the grouping, a row of a planned table receives its own upserts and then its own deletes. */
  lemma {:induction false} CarriedRow(plan: Plan, size: int, batch: seq<Event>, tables: seq<Text>, id: RowId)
    requires Ascending(tables)
    ensures EventsOf(Carried(AllStmts(plan, size, batch, tables)), id) ==
            if id.table in tables && id.table in plan then Upserts(EventsOf(batch, id)) + Deletes(EventsOf(batch, id))
            else []
    decreases |tables|
  {
    if tables != [] {
      var t := tables[0];
      CarriedTableRow(plan, size, batch, t, id);
      CarriedRow(plan, size, batch, tables[1..], id);
      CarriedConcat(TableStmts(plan, size, batch, t), AllStmts(plan, size, batch, tables[1..]));
      EventsOfConcat(Carried(TableStmts(plan, size, batch, t)),
                     Carried(AllStmts(plan, size, batch, tables[1..])), id);
      LessIrreflexive(t);
      assert t !in tables[1..];
      assert tables == [t] + tables[1..];
    }
  }

  /** A statement's rows are part of what the list carries. */
  lemma {:induction false} StmtRowBound(stmts: seq<Stmt>, k: nat, id: RowId)
    requires k < |stmts| && stmts[k].UpsertRows?
    ensures |EventsOf(stmts[k].rows, id)| <= |EventsOf(Carried(stmts), id)|
  {
    var head := Carried([stmts[0]]);
    assert [stmts[0]][1..] == [];
    assert stmts == [stmts[0]] + stmts[1..];
    CarriedConcat([stmts[0]], stmts[1..]);
    EventsOfConcat(head, Carried(stmts[1..]), id);
    if k == 0 {
      assert head == stmts[0].rows + [] == stmts[0].rows;
    } else {
      StmtRowBound(stmts[1..], k - 1, id);
    }
  }
}

/** The apply transaction. */
module Apply {
  import opened Wrappers
  import opened Bytes
  import opened FencedRows
  import opened Offsets
  import opened Events
  import opened Coalescing
  import opened Statements

  /** The verdict errclass.Classify passes on an error. */
  datatype ErrClass = Transient | Permanent | Unknown

  datatype Outcome<+T> = Done(value: T) | Failed(kind: ErrClass)

  datatype Position = Position(at: Partition, mark: Mark)

  /** The target database: its rows, its applied_offset table and how many transactions it has seen. */
  datatype Db = Db(rows: Rows, marks: Marks, calls: nat)

  /** fault(c, k, rows) is the error, if any, the database raises at step k of transaction c: step 0
      begins it, then one step per data statement (with the rows it writes) and per offset in turn,
      then the commit. */
  datatype Env = Env(plan: Plan, chunk: int, fault: (nat, nat, seq<Event>) -> Option<ErrClass>)

  /** A transaction's uncommitted rows and the applier's counters. */
  datatype Data = Data(rows: Rows, applied: nat, deleted: nat)

  datatype Summary = Summary(applied: nat, deleted: nat, skipped: nat)

  /** One statement. Two tuples of a multi-row upsert with one key make Postgres abort it. */
  function RunStmt(plan: Plan, stmt: Stmt, d: Data): Outcome<Data> {
    match stmt
    case UpsertRows(es) =>
      if exists i, j :: 0 <= i < j < |es| && es[i].Id() == es[j].Id() then Failed(Unknown)
      else Done(Data(ExecAll(d.rows, Writes(plan, es)), d.applied + |es|, d.deleted))
    case Tombstone(ev) => Done(Data(Exec(d.rows, WriteOf(plan, ev)), d.applied, d.deleted + 1))
    case Unplanned(_) => Failed(Permanent)
  }

  function TryStmt(env: Env, call: nat, k: nat, stmt: Stmt, d: Data): Outcome<Data> {
    var f := env.fault(call, k, RowsOf(stmt));
    if stmt.Unplanned? || f.None? then RunStmt(env.plan, stmt, d) else Failed(f.value)
  }

  /** Statements number k, k + 1, .. of a transaction, up to the first error. */
  function RunStmts(env: Env, call: nat, k: nat, stmts: seq<Stmt>, d: Data): Outcome<Data>
    decreases |stmts|
  {
    if stmts == [] then Done(d)
    else
      var o := TryStmt(env, call, k, stmts[0], d);
      if o.Failed? then o else RunStmts(env, call, k + 1, stmts[1..], o.value)
  }

  function RunMarks(env: Env, call: nat, k: nat, positions: seq<Position>, marks: Marks): Outcome<Marks>
    decreases |positions|
  {
    if positions == [] then Done(marks)
    else if env.fault(call, k, []).Some? then Failed(env.fault(call, k, []).value)
    else RunMarks(env, call, k + 1, positions[1..], UpsertOffset(marks, positions[0].at, positions[0].mark))
  }

  ghost function BatchStmts(env: Env, batch: seq<Event>): seq<Stmt> {
    AllStmts(env.plan, env.chunk, batch, Sorted(TablesOf(batch)))
  }

  /** The transaction body: data statements, offset statements, commit. */
  ghost function Body(env: Env, db: Db, stmts: seq<Stmt>, positions: seq<Position>): Outcome<(Data, Marks)> {
    if env.fault(db.calls, 0, []).Some? then Failed(env.fault(db.calls, 0, []).value)
    else
      var data := RunStmts(env, db.calls, 1, stmts, Data(db.rows, 0, 0));
      if data.Failed? then Failed(data.kind)
      else
        var marks := RunMarks(env, db.calls, 1 + |stmts|, positions, db.marks);
        var last := 1 + |stmts| + |positions|;
        if marks.Failed? then Failed(marks.kind)
        else if env.fault(db.calls, last, []).Some? then Failed(env.fault(db.calls, last, []).value)
        else Done((data.value, marks.value))
  }

  ghost predicate NoWork(events: seq<Event>, positions: seq<Position>) { events == [] && positions == [] }

  /** Apply commits everything the body did or nothing. */
  ghost function Applied(env: Env, db: Db, events: seq<Event>, positions: seq<Position>): (Db, Outcome<Summary>) {
    if NoWork(events, positions) then (db, Done(Summary(0, 0, 0)))
    else
      var o := Body(env, db, BatchStmts(env, Coalesced(events)), positions);
      if o.Failed? then (db.(calls := db.calls + 1), Failed(o.kind))
      else (Db(o.value.0.rows, o.value.1, db.calls + 1),
            Done(Summary(o.value.0.applied, o.value.0.deleted, |events| - |Coalesced(events)|)))
  }

  lemma {:induction false} RunStmtsConcat(env: Env, call: nat, k: nat, a: seq<Stmt>, b: seq<Stmt>, d: Data)
    ensures RunStmts(env, call, k, a + b, d) ==
            var o := RunStmts(env, call, k, a, d);
            if o.Failed? then o else RunStmts(env, call, k + |a|, b, o.value)
    decreases |a|
  {
    if a == [] {
      assert a + b == b;
    } else {
      assert (a + b)[1..] == a[1..] + b;
      var o := TryStmt(env, call, k, a[0], d);
      if o.Done? { RunStmtsConcat(env, call, k + 1, a[1..], b, o.value); }
    }
  }

  class Applier {
    const env: Env
    var rows: Rows
    var marks: Marks
    var calls: nat

    constructor (env: Env)
      ensures this.env == env && State() == Db(map[], map[], 0)
    {
      this.env := env;
      rows, marks, calls := map[], map[], 0;
    }

    ghost function State(): Db reads this { Db(rows, marks, calls) }

    method ExecUpserts(call: nat, k: nat, chunks: seq<seq<Event>>, d: Data) returns (o: Outcome<Data>)
      ensures o == RunStmts(env, call, k, UpsertStmts(chunks), d)
    {
      hide TryStmt;
      o := Done(d);
      ghost var goal := RunStmts(env, call, k, UpsertStmts(chunks), d);
      assert chunks[0..] == chunks;
      for i := 0 to |chunks|
        invariant o.Done? && goal == RunStmts(env, call, k + i, UpsertStmts(chunks[i..]), o.value)
      {
        assert chunks[i..][0] == chunks[i] && chunks[i..][1..] == chunks[i + 1..];
        o := TryStmt(env, call, k + i, UpsertRows(chunks[i]), o.value);
        if o.Failed? { return; }
      }
    }

    method ExecDeletes(call: nat, k: nat, deletes: seq<Event>, d: Data) returns (o: Outcome<Data>)
      ensures o == RunStmts(env, call, k, DeleteStmts(deletes), d)
    {
      hide TryStmt;
      o := Done(d);
      ghost var goal := RunStmts(env, call, k, DeleteStmts(deletes), d);
      assert deletes[0..] == deletes;
      for i := 0 to |deletes|
        invariant o.Done? && goal == RunStmts(env, call, k + i, DeleteStmts(deletes[i..]), o.value)
      {
        assert deletes[i..][0] == deletes[i] && deletes[i..][1..] == deletes[i + 1..];
        o := TryStmt(env, call, k + i, Tombstone(deletes[i]), o.value);
        if o.Failed? { return; }
      }
    }

    method ExecSplit(call: nat, k: nat, chunks: seq<seq<Event>>, deletes: seq<Event>, d: Data)
      returns (o: Outcome<Data>, next: nat)
      ensures o == RunStmts(env, call, k, UpsertStmts(chunks) + DeleteStmts(deletes), d)
      ensures next == k + |UpsertStmts(chunks) + DeleteStmts(deletes)|
    {
      hide TryStmt;
      StmtCounts(chunks, deletes);
      RunStmtsConcat(env, call, k, UpsertStmts(chunks), DeleteStmts(deletes), d);
      next := k + |chunks| + |deletes|;
      o := ExecUpserts(call, k, chunks, d);
      if o.Failed? { return; }
      o := ExecDeletes(call, k + |chunks|, deletes, o.value);
    }

    /** The statements of one table, from statement number k on. */
    method WriteTable(call: nat, k: nat, batch: seq<Event>, table: Text, d: Data)
      returns (o: Outcome<Data>, next: nat)
      ensures (o, next) == RunTable(env, call, k, batch, table, d)
    {
      hide Chunks, Upserts, Deletes, OfTable, ExecAll, Writes;
      if table !in env.plan { return Failed(Permanent), k + 1; }
      var events := GroupTable(batch, table);
      var upserts, deletes := SplitByOp(events);
      var chunks := ChunkEvents(upserts, env.chunk);
      o, next := ExecSplit(call, k, chunks, deletes, d);
    }

    method WriteTables(call: nat, k: nat, batch: seq<Event>, tables: seq<Text>, d: Data)
      returns (o: Outcome<Data>, next: nat)
      ensures (o, next) == RunTables(env, call, k, batch, tables, d)
    {
      hide RunTable;
      o, next := Done(d), k;
      ghost var goal := RunTables(env, call, k, batch, tables, d);
      assert tables[0..] == tables;
      for i := 0 to |tables|
        invariant o.Done? && goal == RunTables(env, call, next, batch, tables[i..], o.value)
      {
        assert tables[i..][1..] == tables[i + 1..];
        o, next := WriteTable(call, next, batch, tables[i], o.value);
        if o.Failed? { return; }
      }
    }

    /** write: every table of the batch, in sorted order. */
    method Write(call: nat, batch: seq<Event>) returns (o: Outcome<Data>, next: nat)
      ensures o == RunStmts(env, call, 1, BatchStmts(env, batch), Data(rows, 0, 0))
      ensures o.Done? ==> next == 1 + |BatchStmts(env, batch)|
    {
      var tables := SortTables(batch);
      RunTablesIsRunStmts(env, call, 1, batch, tables, Data(rows, 0, 0));
      o, next := WriteTables(call, 1, batch, tables, Data(rows, 0, 0));
    }

    method CommitOffsets(call: nat, k: nat, positions: seq<Position>) returns (o: Outcome<Marks>)
      ensures o == RunMarks(env, call, k, positions, marks)
    {
      var acc := marks;
      assert positions[0..] == positions;
      for i := 0 to |positions|
        invariant RunMarks(env, call, k, positions, marks) == RunMarks(env, call, k + i, positions[i..], acc)
      {
        assert positions[i..][1..] == positions[i + 1..];
        if env.fault(call, k + i, []).Some? { return Failed(env.fault(call, k + i, []).value); }
        acc := UpsertOffset(acc, positions[i].at, positions[i].mark);
      }
      o := Done(acc);
    }

    method Transaction(call: nat, batch: seq<Event>, positions: seq<Position>) returns (o: Outcome<(Data, Marks)>)
      ensures o == Body(env, Db(rows, marks, call), BatchStmts(env, batch), positions)
    {
      if env.fault(call, 0, []).Some? { return Failed(env.fault(call, 0, []).value); }
      var data, next := Write(call, batch);
      if data.Failed? { return Failed(data.kind); }
      var offsets := CommitOffsets(call, next, positions);
      if offsets.Failed? { return Failed(offsets.kind); }
      if env.fault(call, next + |positions|, []).Some? { return Failed(env.fault(call, next + |positions|, []).value); }
      o := Done((data.value, offsets.value));
    }

    method Apply(events: seq<Event>, positions: seq<Position>) returns (res: Outcome<Summary>)
      modifies this
      ensures (State(), res) == Applied(env, old(State()), events, positions)
    {
      hide Body, BatchStmts, Coalesced;
      if |events| == 0 && |positions| == 0 { return Done(Summary(0, 0, 0)); }
      var batch := Coalesce(events);
      var o := Transaction(calls, batch, positions);
      calls := calls + 1;
      if o.Failed? { return Failed(o.kind); }
      rows, marks := o.value.0.rows, o.value.1;
      res := Done(Summary(o.value.0.applied, o.value.0.deleted, |events| - |batch|));
    }
  }

  function RunTable(env: Env, call: nat, k: nat, batch: seq<Event>, table: Text, d: Data): (Outcome<Data>, nat) {
    var stmts := TableStmts(env.plan, env.chunk, batch, table);
    (RunStmts(env, call, k, stmts, d), k + |stmts|)
  }

  /** The same statements, taken table by table; with the next statement number. */
  function RunTables(env: Env, call: nat, k: nat, batch: seq<Event>, tables: seq<Text>, d: Data)
    : (Outcome<Data>, nat)
    decreases |tables|
  {
    if tables == [] then (Done(d), k)
    else
      var (o, next) := RunTable(env, call, k, batch, tables[0], d);
      if o.Failed? then (o, next) else RunTables(env, call, next, batch, tables[1..], o.value)
  }

  lemma {:induction false} RunTablesIsRunStmts(env: Env, call: nat, k: nat, batch: seq<Event>, tables: seq<Text>,
                                               d: Data)
    ensures var stmts := AllStmts(env.plan, env.chunk, batch, tables);
            var r := RunTables(env, call, k, batch, tables, d);
            r.0 == RunStmts(env, call, k, stmts, d) && (r.0.Done? ==> r.1 == k + |stmts|)
    decreases |tables|
  {
    hide TableStmts, TryStmt;
    if tables != [] {
      var stmts := TableStmts(env.plan, env.chunk, batch, tables[0]);
      RunStmtsConcat(env, call, k, stmts, AllStmts(env.plan, env.chunk, batch, tables[1..]), d);
      var o := RunStmts(env, call, k, stmts, d);
      if o.Done? { RunTablesIsRunStmts(env, call, k + |stmts|, batch, tables[1..], o.value); }
    }
  }

  method SortTables(batch: seq<Event>) returns (tables: seq<Text>)
    ensures tables == Sorted(TablesOf(batch))
  {
    tables := Sort(set e | e in batch :: e.table);
    SortedListingUnique(tables, Sorted(TablesOf(batch)), TablesOf(batch));
  }

  /** groupByTable, one table at a time. */
  method GroupTable(batch: seq<Event>, table: Text) returns (events: seq<Event>)
    ensures events == OfTable(batch, table)
  {
    events := [];
    for i := 0 to |batch|
      invariant events + OfTable(batch[i..], table) == OfTable(batch, table)
    {
      assert batch[i..][1..] == batch[i + 1..];
      if batch[i].table == table { events := events + [batch[i]]; }
    }
  }

  lemma {:induction false} StmtCounts(chunks: seq<seq<Event>>, deletes: seq<Event>)
    ensures |UpsertStmts(chunks)| == |chunks| && |DeleteStmts(deletes)| == |deletes|
    decreases |chunks| + |deletes|
  {
    if chunks != [] { StmtCounts(chunks[1..], deletes); }
    else if deletes != [] { StmtCounts(chunks, deletes[1..]); }
  }
}
