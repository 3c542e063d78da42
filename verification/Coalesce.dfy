// Change events and the reduction of a batch to one event per row (internal/sink/applier.go).

module Events {
  import opened Bytes
  import opened FencedRows

  type uint64 = n: int | 0 <= n < 0x1_0000_0000_0000_0000

  /** The conversion int64(ev.Source.LSN) that every statement argument goes through. */
  function SignedLsn(lsn: uint64): int {
    if lsn < 0x8000_0000_0000_0000 then lsn else lsn - 0x1_0000_0000_0000_0000
  }

  datatype Op = OpCreate | OpUpdate | OpDelete | OpRead | OpTruncate {
    predicate IsUpsert() { OpCreate? || OpUpdate? || OpRead? }
  }

  datatype Event = Event(table: Text, op: Op, key: Text, before: map<Text, Value>, after: map<Text, Value>,
                         lsn: uint64, topic: Text, partition: int, offset: int)
  {
    function Id(): RowId { RowId(table, key) }

    function Values(): map<Text, Value> { if |after| > 0 then after else before }
  }

  /** The non-key columns of every planned table. */
  type Plan = map<Text, set<Text>>

  /** The bound arguments of one upserted row; a column missing from the event binds NULL. */
  function ImageOf(plan: Plan, ev: Event): Image {
    var values := ev.Values();
    map c | c in (if ev.table in plan then plan[ev.table] else {}) :: if c in values then values[c] else Null
  }

  function ViewOf(plan: Plan, ev: Event): View {
    if ev.op.OpDelete? then Tomb(SignedLsn(ev.lsn)) else Live(SignedLsn(ev.lsn), ImageOf(plan, ev))
  }

  function WriteOf(plan: Plan, ev: Event): Write { Write(ev.Id(), ViewOf(plan, ev)) }

  function Writes(plan: Plan, es: seq<Event>): seq<Write> {
    if es == [] then [] else [WriteOf(plan, es[0])] + Writes(plan, es[1..])
  }

  function Views(plan: Plan, es: seq<Event>): (vs: seq<View>)
    ensures |vs| == |es|
    ensures forall i :: 0 <= i < |es| ==> vs[i] == ViewOf(plan, es[i])
  {
    seq(|es|, i requires 0 <= i < |es| => ViewOf(plan, es[i]))
  }

  /** The events of one row, in order. */
  function EventsOf(es: seq<Event>, id: RowId): seq<Event> {
    if es == [] then [] else (if es[0].Id() == id then [es[0]] else []) + EventsOf(es[1..], id)
  }

  lemma {:induction false} WritesConcat(plan: Plan, a: seq<Event>, b: seq<Event>)
    ensures Writes(plan, a + b) == Writes(plan, a) + Writes(plan, b)
  {
    if a == [] {
      assert a + b == b;
    } else {
      hide WriteOf;
      assert (a + b)[0] == a[0] && (a + b)[1..] == a[1..] + b;
      WritesConcat(plan, a[1..], b);
      assert [WriteOf(plan, a[0])] + (Writes(plan, a[1..]) + Writes(plan, b)) == Writes(plan, a) + Writes(plan, b);
    }
  }

  lemma {:induction false} OfRowEvents(plan: Plan, es: seq<Event>, id: RowId)
    ensures OfRow(Writes(plan, es), id) == Views(plan, EventsOf(es, id))
  {
    if es != [] {
      OfRowEvents(plan, es[1..], id);
      assert Writes(plan, es)[1..] == Writes(plan, es[1..]);
    }
  }

  lemma {:induction false} EventsOfConcat(a: seq<Event>, b: seq<Event>, id: RowId)
    ensures EventsOf(a + b, id) == EventsOf(a, id) + EventsOf(b, id)
  {
    if a == [] {
      assert a + b == b;
    } else {
      assert (a + b)[0] == a[0] && (a + b)[1..] == a[1..] + b;
      EventsOfConcat(a[1..], b, id);
      var head := if a[0].Id() == id then [a[0]] else [];
      assert head + (EventsOf(a[1..], id) + EventsOf(b, id)) == EventsOf(a, id) + EventsOf(b, id);
    }
  }

  lemma EventsOfSnoc(es: seq<Event>, e: Event, id: RowId)
    ensures EventsOf(es + [e], id) == if e.Id() == id then EventsOf(es, id) + [e] else EventsOf(es, id)
  {
    EventsOfConcat(es, [e], id);
    assert [e][1..] == [];
  }

  lemma {:induction false} EventsOfMember(es: seq<Event>, id: RowId, e: Event)
    ensures e in EventsOf(es, id) <==> e in es && e.Id() == id
  {
    if es != [] { EventsOfMember(es[1..], id, e); }
  }

  ghost predicate DistinctRows(es: seq<Event>) {
    forall i, j :: 0 <= i < j < |es| ==> es[i].Id() != es[j].Id()
  }

  lemma TwoOfRow(es: seq<Event>, i: nat, j: nat)
    requires i < j < |es| && es[i].Id() == es[j].Id()
    ensures |EventsOf(es, es[i].Id())| >= 2
  {
    var id := es[i].Id();
    assert es == es[..j] + es[j..];
    EventsOfConcat(es[..j], es[j..], id);
    assert es[i] in es[..j] by { assert es[..j][i] == es[i]; }
    EventsOfMember(es[..j], id, es[i]);
    EventsOfMember(es[j..], id, es[j]);
  }

  lemma AtMostOneIsDistinct(es: seq<Event>)
    requires forall id :: |EventsOf(es, id)| <= 1
    ensures DistinctRows(es)
  {
    forall i, j | 0 <= i < j < |es| ensures es[i].Id() != es[j].Id() {
      if es[i].Id() == es[j].Id() { TwoOfRow(es, i, j); }
    }
  }
}

module Coalescing {
  import opened FencedRows
  import opened Events

  /** Higher LSN first; within one LSN the later stream position; within that the later arrival. */
  predicate Beats(ev: Event, prev: Event) {
    ev.lsn > prev.lsn || (ev.lsn == prev.lsn && ev.offset >= prev.offset)
  }

  /** The slot map after scanning the batch: each row's best event so far, by arrival position. */
  function Latest(es: seq<Event>): (m: map<RowId, nat>)
    ensures forall id :: id in m ==> m[id] < |es| && es[m[id]].Id() == id
    ensures forall i :: 0 <= i < |es| ==> es[i].Id() in m
  {
    if es == [] then map[]
    else
      var n := |es| - 1;
      var m := Latest(es[..n]);
      var id := es[n].Id();
      assert es == es[..n] + [es[n]];
      if id !in m || Beats(es[n], es[m[id]]) then m[id := n] else m
  }

  /** The surviving events among the first n, in arrival order. */
  function Survivors(es: seq<Event>, latest: map<RowId, nat>, n: nat): (out: seq<Event>)
    requires n <= |es| && forall k :: 0 <= k < n ==> es[k].Id() in latest
    ensures |out| <= n
  {
    if n == 0 then []
    else
      var rest := Survivors(es, latest, n - 1);
      if latest[es[n - 1].Id()] == n - 1 then rest + [es[n - 1]] else rest
  }

  function Coalesced(es: seq<Event>): (out: seq<Event>)
    ensures |out| <= |es|
  {
    if |es| <= 1 then es else Survivors(es, Latest(es), |es|)
  }

  method FillSlots(events: seq<Event>) returns (latest: map<RowId, nat>)
    ensures latest == Latest(events)
  {
    latest := map[];
    for i := 0 to |events|
      invariant latest == Latest(events[..i])
    {
      var prefix := events[..i + 1];
      assert prefix[..i] == events[..i] && prefix[i] == events[i];
      var ev := events[i];
      if ev.Id() !in latest || Beats(ev, events[latest[ev.Id()]]) {
        latest := latest[ev.Id() := i];
      }
    }
    assert events[..|events|] == events;
  }

  method Coalesce(events: seq<Event>) returns (out: seq<Event>)
    ensures out == Coalesced(events)
  {
    if |events| <= 1 { return events; }
    var latest := FillSlots(events);
    // The slots are distinct arrival positions; sorting them by position is reading them in order.
    out := [];
    for i := 0 to |events|
      invariant out == Survivors(events, latest, i)
    {
      if latest[events[i].Id()] == i { out := out + [events[i]]; }
    }
  }

  /** The event of a row's events that coalescing keeps. */
  function Winner(es: seq<Event>): Event
    requires es != []
    decreases |es|
  {
    var n := |es| - 1;
    if n == 0 then es[0]
    else
      var w := Winner(es[..n]);
      if Beats(es[n], w) then es[n] else w
  }

  lemma {:induction false} LatestIsWinner(es: seq<Event>, id: RowId)
    ensures id in Latest(es) <==> EventsOf(es, id) != []
    ensures id in Latest(es) ==> es[Latest(es)[id]] == Winner(EventsOf(es, id))
    decreases |es|
  {
    if es != [] {
      var n := |es| - 1;
      assert es == es[..n] + [es[n]];
      LatestIsWinner(es[..n], id);
      EventsOfConcat(es[..n], [es[n]], id);
      if es[n].Id() == id {
        assert EventsOf([es[n]], id) == [es[n]];
        assert EventsOf(es, id)[..|EventsOf(es[..n], id)|] == EventsOf(es[..n], id);
      } else {
        assert EventsOf([es[n]], id) == [];
        assert EventsOf(es, id) == EventsOf(es[..n], id);
      }
    }
  }

  lemma NoEvents(id: RowId)
    ensures EventsOf([], id) == []
  {
  }

  lemma {:induction false} SurvivorsOfRow(es: seq<Event>, latest: map<RowId, nat>, n: nat, id: RowId)
    requires n <= |es| && forall k :: 0 <= k < n ==> es[k].Id() in latest
    requires forall r :: r in latest ==> latest[r] < |es| && es[latest[r]].Id() == r
    ensures EventsOf(Survivors(es, latest, n), id) ==
            if id in latest && latest[id] < n then [es[latest[id]]] else []
  {
    hide EventsOf;
    if n == 0 {
      assert Survivors(es, latest, n) == [];
      NoEvents(id);
    } else {
      var e := es[n - 1];
      SurvivorsOfRow(es, latest, n - 1, id);
      if latest[e.Id()] == n - 1 {
        EventsOfSnoc(Survivors(es, latest, n - 1), e, id);
        if e.Id() != id && id in latest { assert latest[id] != n - 1; }
      }
    }
  }

  /** Coalescing leaves every row of the batch exactly one event, its winner, and no other row. */
  lemma CoalescedRow(es: seq<Event>, id: RowId)
    ensures EventsOf(Coalesced(es), id) == if EventsOf(es, id) == [] then [] else [Winner(EventsOf(es, id))]
  {
    if |es| <= 1 {
      assert es != [] ==> es[1..] == [];
    } else {
      LatestIsWinner(es, id);
      SurvivorsOfRow(es, Latest(es), |es|, id);
    }
  }

  /** The winner is the row's lexicographic maximum of LSN, stream position and arrival. */
  lemma {:induction false} WinnerIsMaximum(es: seq<Event>) returns (w: nat)
    requires es != []
    ensures w < |es| && Winner(es) == es[w]
    ensures forall i :: 0 <= i < |es| ==>
              es[i].lsn < es[w].lsn ||
              (es[i].lsn == es[w].lsn && (es[i].offset < es[w].offset || (es[i].offset == es[w].offset && i <= w)))
    decreases |es|
  {
    var n := |es| - 1;
    w := n;
    if n > 0 {
      var u := WinnerIsMaximum(es[..n]);
      if !Beats(es[n], es[u]) { w := u; }
    }
  }

  /** es[j] has the highest LSN of its row's events, of those the highest offset, and of those the last arrival. */
  ghost predicate Wins(es: seq<Event>, j: nat)
    requires j < |es|
  {
    forall i :: 0 <= i < |es| && es[i].Id() == es[j].Id() ==>
      es[i].lsn < es[j].lsn ||
      (es[i].lsn == es[j].lsn && (es[i].offset < es[j].offset || (es[i].offset == es[j].offset && i <= j)))
  }

  /** One more event: it wins its row if it is the first or beats the winner so far; other winners stay. */
  lemma WinsNext(es: seq<Event>, u: nat)
    requires es != [] && u < |es|
    requires var n := |es| - 1; if u == n then forall i :: 0 <= i < n ==> es[i].Id() != es[n].Id() else Wins(es[..n], u)
    ensures var n := |es| - 1; Wins(es, if u < n && es[n].Id() == es[u].Id() && Beats(es[n], es[u]) then n else u)
  {
    var n := |es| - 1;
    assert forall i :: 0 <= i < n ==> es[..n][i] == es[i];
  }

  lemma LatestStep(es: seq<Event>)
    requires es != []
    ensures var n := |es| - 1;
            var m, last := Latest(es[..n]), es[n].Id();
            (n == 0 ==> m == map[]) && Latest(es) == if last !in m || Beats(es[n], es[m[last]]) then m[last := n] else m
  {
  }

  lemma {:induction false} LatestWins(es: seq<Event>, id: RowId)
    requires es != [] && id in Latest(es)
    ensures Wins(es, Latest(es)[id])
    decreases |es|
  {
    hide Wins, Beats, Latest;
    var n := |es| - 1;
    var m := Latest(es[..n]);
    LatestStep(es);
    assert forall i :: 0 <= i < n ==> es[i] == es[..n][i] && es[..n][i].Id() in m;
    if id in m {
      LatestWins(es[..n], id);
      WinsNext(es, m[id]);
    } else {
      WinsNext(es, n);
    }
  }

  /** One event wins a row. */
  lemma WinsIff(es: seq<Event>, j: nat)
    requires j < |es|
    ensures Wins(es, j) <==> Latest(es)[es[j].Id()] == j
    ensures Wins(es, j) ==> EventsOf(es, es[j].Id()) != [] && Winner(EventsOf(es, es[j].Id())) == es[j]
  {
    LatestWins(es, es[j].Id());
    LatestIsWinner(es, es[j].Id());
  }

  /** Coalescing keeps exactly the events that win their row, in arrival order. */
  lemma CoalescedAre(es: seq<Event>) returns (at: seq<nat>)
    ensures |at| == |Coalesced(es)| && forall k :: 0 <= k < |at| ==> at[k] < |es| && Coalesced(es)[k] == es[at[k]]
    ensures forall k, l :: 0 <= k < l < |at| ==> at[k] < at[l]
    ensures forall j :: 0 <= j < |es| ==> (j in at <==> Wins(es, j))
  {
    if |es| <= 1 {
      at := if es == [] then [] else [0];
    } else {
      at := SurvivorsAt(es, Latest(es), |es|);
      forall j | 0 <= j < |es| ensures j in at <==> Wins(es, j) { WinsIff(es, j); }
    }
  }

  lemma {:induction false} SurvivorsAt(es: seq<Event>, latest: map<RowId, nat>, n: nat) returns (at: seq<nat>)
    requires n <= |es| && forall k :: 0 <= k < |es| ==> es[k].Id() in latest
    ensures |at| == |Survivors(es, latest, n)|
    ensures forall k :: 0 <= k < |at| ==> at[k] < n && Survivors(es, latest, n)[k] == es[at[k]]
    ensures forall k, l :: 0 <= k < l < |at| ==> at[k] < at[l]
    ensures forall j :: 0 <= j < n ==> (j in at <==> latest[es[j].Id()] == j)
  {
    at := [];
    if n > 0 {
      at := SurvivorsAt(es, latest, n - 1);
      if latest[es[n - 1].Id()] == n - 1 { at := at + [n - 1]; }
    }
  }

  /** No two survivors address the same row, so no multi-row statement built from them can. */
  lemma CoalescedDistinct(es: seq<Event>)
    ensures DistinctRows(Coalesced(es))
  {
    forall id ensures |EventsOf(Coalesced(es), id)| <= 1 { CoalescedRow(es, id); }
    AtMostOneIsDistinct(Coalesced(es));
  }

  // ------------------------------------------------------------ against arrival order

  /** Equal-LSN events of a row arrive in non-decreasing stream position. */
  ghost predicate TiesInOrder(es: seq<Event>) {
    forall i, j :: 0 <= i < j < |es| && es[i].Id() == es[j].Id() && es[i].lsn == es[j].lsn ==>
      es[i].offset <= es[j].offset
  }

  ghost predicate SignedSafe(es: seq<Event>) {
    forall i :: 0 <= i < |es| ==> es[i].lsn < 0x8000_0000_0000_0000
  }

  /** The last event of those that carry the row's highest LSN: what arrival order ends on. */
  function LastNewest(es: seq<Event>): Event
    requires es != []
    decreases |es|
  {
    var n := |es| - 1;
    if n == 0 then es[0]
    else
      var w := LastNewest(es[..n]);
      if es[n].lsn >= w.lsn then es[n] else w
  }

  lemma SignedView(plan: Plan, e: Event)
    requires e.lsn < 0x8000_0000_0000_0000
    ensures ViewOf(plan, e).lsn == e.lsn
  {
  }

  lemma {:induction false} LastNewestIsLaterAll(plan: Plan, es: seq<Event>) returns (w: nat)
    requires es != [] && SignedSafe(es)
    ensures w < |es| && LastNewest(es) == es[w]
    ensures LaterAll(Views(plan, es)) == ViewOf(plan, es[w])
    decreases |es|
  {
    hide ViewOf;
    var n := |es| - 1;
    w := n;
    if n > 0 {
      var u := LastNewestIsLaterAll(plan, es[..n]);
      var vs := Views(plan, es);
      assert vs[..n] == Views(plan, es[..n]);
      assert es[..n][u] == es[u];
      SignedView(plan, es[n]);
      SignedView(plan, es[u]);
      if es[n].lsn < es[u].lsn { w := u; }
    }
  }

  lemma {:induction false} TiedWinner(es: seq<Event>)
    requires es != [] && forall i, j :: 0 <= i < j < |es| && es[i].lsn == es[j].lsn ==> es[i].offset <= es[j].offset
    ensures Winner(es) == LastNewest(es) && Winner(es) in es
    decreases |es|
  {
    var n := |es| - 1;
    if n > 0 {
      TiedWinner(es[..n]);
      var i :| 0 <= i < n && es[i] == Winner(es[..n]);
    }
  }

  /** Whatever the ties, coalescing and arrival order end on the same LSN. */
  lemma {:induction false} WinnerLsn(es: seq<Event>)
    requires es != []
    ensures Winner(es).lsn == LastNewest(es).lsn && Winner(es) in es && LastNewest(es) in es
    decreases |es|
  {
    var n := |es| - 1;
    if n > 0 {
      assert es == es[..n] + [es[n]];
      WinnerLsn(es[..n]);
    }
  }

  lemma {:induction false} TiesInOrderOfRow(es: seq<Event>, id: RowId)
    requires TiesInOrder(es)
    ensures TiesInOrder(EventsOf(es, id))
    decreases |es|
  {
    if es != [] {
      TiesInOrderOfRow(es[1..], id);
      var rest := EventsOf(es[1..], id);
      forall j | 0 <= j < |rest| && es[0].Id() == id && es[0].lsn == rest[j].lsn
        ensures es[0].offset <= rest[j].offset
      {
        EventsOfMember(es[1..], id, rest[j]);
        var k :| 1 <= k < |es| && es[k] == rest[j];
      }
    }
  }
}
