// Any batches: what a series of attempts to apply them, failed ones included, leaves on the target.

module Batches {
  import opened Wrappers
  import opened FencedRows
  import opened Events
  import opened Coalescing
  import opened Apply
  import opened Refinement

  /** A series of attempts to apply batches, each from where the previous one left the database. */
  ghost function ApplyAll(env: Env, db: Db, batches: seq<seq<Event>>): Db
    decreases |batches|
  {
    if batches == [] then db else ApplyAll(env, Applied(env, db, batches[0], []).0, batches[1..])
  }

  /** The events of the attempts that committed. */
  ghost function Landed(env: Env, db: Db, batches: seq<seq<Event>>): seq<Event>
    decreases |batches|
  {
    if batches == [] then []
    else
      var (after, o) := Applied(env, db, batches[0], []);
      (if o.Done? then batches[0] else []) + Landed(env, after, batches[1..])
  }

  ghost predicate Sound(batches: seq<seq<Event>>) {
    forall i :: 0 <= i < |batches| ==> NoTruncate(batches[i]) && SignedSafe(batches[i])
  }

  // ------------------------------------------------------------ against arrival order

  /** Every attempt that commits agrees with its own batch's arrival order. */
  ghost predicate AllAgree(env: Env, db: Db, batches: seq<seq<Event>>)
    decreases |batches|
  {
    batches != [] ==>
      var (after, o) := Applied(env, db, batches[0], []);
      (o.Done? ==> AgreesWithArrival(env.plan, db.rows, batches[0])) && AllAgree(env, after, batches[1..])
  }

  /** Then the target shows one fenced write per committed event, in the order of the attempts. */
  lemma {:induction false} ApplyAllFolds(env: Env, db: Db, batches: seq<seq<Event>>)
    requires Sound(batches) && AllAgree(env, db, batches)
    ensures SameView(ApplyAll(env, db, batches).rows, ExecAll(db.rows, Writes(env.plan, Landed(env, db, batches))))
    decreases |batches|
  {
    if batches != [] {
      hide Applied, Writes, ExecAll, AgreesWithArrival;
      var (after, o) := Applied(env, db, batches[0], []);
      var first := if o.Done? then batches[0] else [];
      var rest := Landed(env, after, batches[1..]);
      WritesConcat(env.plan, first, rest);
      ApplyAllFolds(env, after, batches[1..]);
      AttemptFolds(env, db, batches[0], first);
      JoinViews(db.rows, after.rows, ApplyAll(env, db, batches).rows, Writes(env.plan, first), Writes(env.plan, rest));
    }
  }

  lemma AttemptFolds(env: Env, db: Db, events: seq<Event>, committed: seq<Event>)
    requires NoTruncate(events) && SignedSafe(events)
    requires Applied(env, db, events, []).1.Done? ==> AgreesWithArrival(env.plan, db.rows, events)
    requires committed == if Applied(env, db, events, []).1.Done? then events else []
    ensures SameView(Applied(env, db, events, []).0.rows, ExecAll(db.rows, Writes(env.plan, committed)))
  {
    if Applied(env, db, events, []).1.Done? { RefinesArrivalIff(env, db, events, []); }
  }

  lemma JoinViews(start: Rows, middle: Rows, end: Rows, a: seq<Write>, b: seq<Write>)
    requires SameView(middle, ExecAll(start, a)) && SameView(end, ExecAll(middle, b))
    ensures SameView(end, ExecAll(start, a + b))
  {
    ExecAllConcat(start, a, b);
    forall id ensures Lookup(end, id) == Lookup(ExecAll(start, a + b), id) {
      ExecAllRow(middle, b, id);
      ExecAllRow(ExecAll(start, a), b, id);
    }
  }

  /** A caller meets this by reading partitions in order. */
  lemma {:induction false} TiesInOrderAgree(env: Env, db: Db, batches: seq<seq<Event>>)
    requires forall i :: 0 <= i < |batches| ==> TiesInOrder(batches[i])
    ensures AllAgree(env, db, batches)
    decreases |batches|
  {
    if batches != [] {
      hide Applied;
      var (after, o) := Applied(env, db, batches[0], []);
      TiesInOrderAgree(env, after, batches[1..]);
      TiesAgree(env.plan, db.rows, batches[0]);
    }
  }

  // ------------------------------------------------------------ convergence

  /** v is what a highest-LSN event of the row writes. */
  ghost predicate NewestOf(plan: Plan, v: View, es: seq<Event>, id: RowId) {
    (exists e :: e in es && e.Id() == id && ViewOf(plan, e) == v) &&
    forall e :: e in es && e.Id() == id ==> ViewOf(plan, e).lsn <= v.lsn
  }

  lemma NewestOfJoin(plan: Plan, a: seq<Event>, b: seq<Event>, u: View, v: View, id: RowId)
    requires NewestOf(plan, u, a, id) && NewestOf(plan, v, b, id)
    ensures NewestOf(plan, Later(u, v), a + b, id)
  {
    var e :| e in a && e.Id() == id && ViewOf(plan, e) == u;
    var f :| f in b && f.Id() == id && ViewOf(plan, f) == v;
    assert e in a + b && f in a + b;
  }

  lemma NewestOfAlone(plan: Plan, a: seq<Event>, b: seq<Event>, v: View, id: RowId)
    requires forall e :: e in b ==> e.Id() != id
    ensures NewestOf(plan, v, a, id) ==> NewestOf(plan, v, a + b, id) && NewestOf(plan, v, b + a, id)
  {
    if NewestOf(plan, v, a, id) {
      var e :| e in a && e.Id() == id && ViewOf(plan, e) == v;
      assert e in a + b && e in b + a;
    }
  }

  /** What one committed batch does to a row, whatever its ties. */
  lemma BatchNewest(env: Env, db: Db, batch: seq<Event>, id: RowId)
    requires NoTruncate(batch) && SignedSafe(batch) && Applied(env, db, batch, []).1.Done?
    ensures (forall e :: e in batch ==> e.Id() != id) ==>
              Lookup(Applied(env, db, batch, []).0.rows, id) == Lookup(db.rows, id)
    ensures (exists e :: e in batch && e.Id() == id) ==>
              exists v :: NewestOf(env.plan, v, batch, id) &&
                          Lookup(Applied(env, db, batch, []).0.rows, id) == Some(Newer(Lookup(db.rows, id), v))
  {
    ApplyRow(env, db, batch, [], id);
    hide Applied, Lookup;
    var mine := EventsOf(batch, id);
    forall e: Event ensures e in mine <==> e in batch && e.Id() == id { EventsOfMember(batch, id, e); }
    if mine != [] {
      var w := WinnerIsMaximum(mine);
      assert mine[w] in batch;
      forall e | e in batch && e.Id() == id ensures ViewOf(env.plan, e).lsn <= ViewOf(env.plan, mine[w]).lsn {
        var i :| 0 <= i < |mine| && mine[i] == e;
        SignedView(env.plan, mine[i]);
        SignedView(env.plan, mine[w]);
      }
      assert NewestOf(env.plan, ViewOf(env.plan, mine[w]), batch, id);
    }
  }

  lemma LaterAssociates(stored: Option<View>, u: View, v: View)
    ensures Newer(Some(Newer(stored, u)), v) == Newer(stored, Later(u, v))
  {
  }

  /** Any series of attempts leaves a row at a newest committed event, unless the target was newer. */
  lemma {:induction false} ApplyAllNewest(env: Env, db: Db, batches: seq<seq<Event>>, id: RowId)
    requires Sound(batches)
    ensures var landed := Landed(env, db, batches);
            var row := Lookup(ApplyAll(env, db, batches).rows, id);
            if forall e :: e in landed ==> e.Id() != id then row == Lookup(db.rows, id)
            else exists v :: NewestOf(env.plan, v, landed, id) && row == Some(Newer(Lookup(db.rows, id), v))
    decreases |batches|
  {
    hide Applied, Lookup, NewestOf, Newer, Later;
    if batches != [] {
      var (after, o) := Applied(env, db, batches[0], []);
      var first := if o.Done? then batches[0] else [];
      var rest := Landed(env, after, batches[1..]);
      FailedKeepsDb(env, db, batches[0], []);
      if o.Done? { BatchNewest(env, db, batches[0], id); }
      ApplyAllNewest(env, after, batches[1..], id);
      JoinNewest(env.plan, first, rest, Lookup(db.rows, id), Lookup(after.rows, id),
                 Lookup(ApplyAll(env, db, batches).rows, id), id);
    }
  }

  /** The row is where the events left it. */
  ghost predicate LeftBy(plan: Plan, es: seq<Event>, before: Option<View>, row: Option<View>, id: RowId) {
    if forall e :: e in es ==> e.Id() != id then row == before
    else exists v :: NewestOf(plan, v, es, id) && row == Some(Newer(before, v))
  }

  lemma JoinNewest(plan: Plan, a: seq<Event>, b: seq<Event>, before: Option<View>, middle: Option<View>,
                   row: Option<View>, id: RowId)
    requires LeftBy(plan, a, before, middle, id) && LeftBy(plan, b, middle, row, id)
    ensures LeftBy(plan, a + b, before, row, id)
  {
    hide NewestOf, Newer, Later;
    var none_a := forall e :: e in a ==> e.Id() != id;
    var none_b := forall e :: e in b ==> e.Id() != id;
    if none_b {
      forall v { NewestOfAlone(plan, a, b, v, id); }
    } else if none_a {
      forall v { NewestOfAlone(plan, b, a, v, id); }
    } else {
      var u :| NewestOf(plan, u, a, id) && middle == Some(Newer(before, u));
      var v :| NewestOf(plan, v, b, id) && row == Some(Newer(middle, v));
      NewestOfJoin(plan, a, b, u, v, id);
      LaterAssociates(before, u, v);
    }
    assert (forall e :: e in a + b ==> e.Id() != id) <==> none_a && none_b;
  }

  /** One of the events writes u to the row. */
  ghost predicate Wrote(plan: Plan, es: seq<Event>, id: RowId, u: View) {
    exists e :: e in es && e.Id() == id && ViewOf(plan, e) == u
  }

  lemma WrittenBy(plan: Plan, es: seq<Event>, id: RowId, u: View)
    ensures Write(id, u) in Elements(Writes(plan, es)) <==> Wrote(plan, es, id, u)
  {
    hide Writes, EventsOf, ViewOf, OfRow;
    var mine := EventsOf(es, id);
    OfRowMember(Writes(plan, es), id, u);
    OfRowEvents(plan, es, id);
    forall e: Event ensures e in mine <==> e in es && e.Id() == id { EventsOfMember(es, id, e); }
    if u in Views(plan, mine) {
      var i :| 0 <= i < |mine| && Views(plan, mine)[i] == u;
      assert mine[i] in mine;
    }
    if Wrote(plan, es, id, u) {
      var e :| e in es && e.Id() == id && ViewOf(plan, e) == u;
      var i :| 0 <= i < |mine| && mine[i] == e;
      assert Views(plan, mine)[i] == u;
    }
  }

  lemma NewestOfWrites(plan: Plan, v: View, es: seq<Event>, id: RowId)
    ensures NewestOf(plan, v, es, id) <==> IsNewest(v, Elements(Writes(plan, es)), id)
  {
    hide Writes;
    forall u ensures Write(id, u) in Elements(Writes(plan, es)) <==> Wrote(plan, es, id, u) {
      WrittenBy(plan, es, id, u);
    }
    forall e | e in es && e.Id() == id ensures Wrote(plan, es, id, ViewOf(plan, e)) {}
    forall w | w in Elements(Writes(plan, es)) && w.id == id ensures Wrote(plan, es, id, w.view) {
      assert w == Write(id, w.view);
    }
    if IsNewest(v, Elements(Writes(plan, es)), id) {
      forall e | e in es && e.Id() == id ensures ViewOf(plan, e).lsn <= v.lsn {
        assert Write(id, ViewOf(plan, e)) in Elements(Writes(plan, es));
      }
    }
  }

  /** Convergence of the service: two targets fed the same writes, in any batches, any order and any number of
      times, with failed attempts in between, show the same rows, if each row that was not already newer has
      one newest write. Ties below it are of no consequence. */
  lemma BatchesConverge(env1: Env, env2: Env, db1: Db, db2: Db, a: seq<seq<Event>>, b: seq<seq<Event>>)
    requires env1.plan == env2.plan && db1.rows == db2.rows && Sound(a) && Sound(b)
    requires Elements(Writes(env1.plan, Landed(env1, db1, a))) == Elements(Writes(env1.plan, Landed(env2, db2, b)))
    requires OneNewest(db1.rows, Elements(Writes(env1.plan, Landed(env1, db1, a))))
    ensures SameView(ApplyAll(env1, db1, a).rows, ApplyAll(env2, db2, b).rows)
  {
    hide ApplyAll, Landed, Lookup, Writes;
    var plan := env1.plan;
    var la, lb := Landed(env1, db1, a), Landed(env2, db2, b);
    forall id ensures Lookup(ApplyAll(env1, db1, a).rows, id) == Lookup(ApplyAll(env2, db2, b).rows, id) {
      ApplyAllNewest(env1, db1, a, id);
      ApplyAllNewest(env2, db2, b, id);
      forall v ensures NewestOf(plan, v, la, id) <==> NewestOf(plan, v, lb, id) {
        NewestOfWrites(plan, v, la, id);
        NewestOfWrites(plan, v, lb, id);
      }
      SameRow(plan, la, lb, id);
      OneNewestRow(plan, db1.rows, la, id);
    }
  }

  lemma SameRow(plan: Plan, la: seq<Event>, lb: seq<Event>, id: RowId)
    requires Elements(Writes(plan, la)) == Elements(Writes(plan, lb))
    ensures (exists e :: e in la && e.Id() == id) <==> exists e :: e in lb && e.Id() == id
  {
    if e :| e in la && e.Id() == id { SameWrote(plan, la, lb, id, ViewOf(plan, e)); }
    if e :| e in lb && e.Id() == id { SameWrote(plan, lb, la, id, ViewOf(plan, e)); }
  }

  lemma SameWrote(plan: Plan, la: seq<Event>, lb: seq<Event>, id: RowId, u: View)
    requires Elements(Writes(plan, la)) == Elements(Writes(plan, lb)) && Wrote(plan, la, id, u)
    ensures Wrote(plan, lb, id, u)
  {
    WrittenBy(plan, la, id, u);
    WrittenBy(plan, lb, id, u);
  }

  lemma OneNewestRow(plan: Plan, rows: Rows, es: seq<Event>, id: RowId)
    requires OneNewest(rows, Elements(Writes(plan, es)))
    ensures forall u, v :: NewestOf(plan, u, es, id) && NewestOf(plan, v, es, id) ==>
              Newer(Lookup(rows, id), u) == Newer(Lookup(rows, id), v)
  {
    forall u, v | NewestOf(plan, u, es, id) && NewestOf(plan, v, es, id)
      ensures Newer(Lookup(rows, id), u) == Newer(Lookup(rows, id), v)
    {
      NewestOfWrites(plan, u, es, id);
      NewestOfWrites(plan, v, es, id);
      assert u.lsn == v.lsn;
    }
  }
}
