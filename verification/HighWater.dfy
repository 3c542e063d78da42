// HighWaterMarks (internal/sink/applier.go), and what committing its result stores.

module HighWater {
  import opened Wrappers
  import opened Bytes
  import opened Events
  import opened Offsets
  import opened Apply

  function PartitionOf(ev: Event): Partition { Partition(ev.topic, ev.partition) }

  function Best(es: seq<Event>): (best: Marks)
    decreases |es|
  {
    if es == [] then map[]
    else
      var ev := es[|es| - 1];
      var best := Best(es[..|es| - 1]);
      var k := PartitionOf(ev);
      if ev.topic == [] || (k in best && ev.offset <= best[k].offset) then best
      else best[k := Mark(ev.offset, ev.lsn)]
  }

  /** One position per partition. */
  ghost predicate Lists(positions: seq<Position>, best: Marks) {
    (forall p :: p in positions <==> p.at in best && best[p.at] == p.mark) &&
    forall i, j :: 0 <= i < j < |positions| ==> positions[i].at != positions[j].at
  }

  /** By topic, then by partition number. */
  predicate Before(a: Partition, b: Partition) {
    Less(a.topic, b.topic) || (a.topic == b.topic && a.number < b.number)
  }

  ghost predicate InOrder(s: seq<Position>) {
    forall i, j :: 0 <= i < j < |s| ==>
      Less(s[i].at.topic, s[j].at.topic) || (s[i].at.topic == s[j].at.topic && s[i].at.number < s[j].at.number)
  }

  function Place(s: seq<Position>, p: Position): seq<Position> {
    if s == [] || Before(p.at, s[0].at) then [p] + s else [s[0]] + Place(s[1..], p)
  }

  lemma BeforeOrder(a: Partition, b: Partition, c: Partition)
    ensures Before(a, b) && Before(b, c) ==> Before(a, c)
    ensures Before(a, b) || a == b || Before(b, a)
    ensures !Before(a, a)
  {
    LessTotal(a.topic, b.topic);
    LessIrreflexive(a.topic);
    if Less(a.topic, b.topic) && Less(b.topic, c.topic) { LessTransitive(a.topic, b.topic, c.topic); }
  }

  lemma {:induction false} PlaceMembers(s: seq<Position>, p: Position)
    ensures forall q :: q in Place(s, p) <==> q in s || q == p
  {
    if s != [] {
      PlaceMembers(s[1..], p);
      assert s == [s[0]] + s[1..];
    }
  }

  lemma {:induction false} PlaceInOrder(s: seq<Position>, p: Position)
    requires InOrder(s) && forall q :: q in s ==> q.at != p.at
    ensures InOrder(Place(s, p))
  {
    if s != [] {
      BeforeOrder(s[0].at, p.at, p.at);
      if Before(p.at, s[0].at) {
        forall k | 0 <= k < |s| ensures Before(p.at, s[k].at) { BeforeOrder(p.at, s[0].at, s[k].at); }
      } else {
        PlaceInOrder(s[1..], p);
        PlaceMembers(s[1..], p);
        var r := Place(s[1..], p);
        forall k | 0 <= k < |r| ensures Before(s[0].at, r[k].at) {
          if r[k] != p { assert r[k] in s[1..]; }
        }
      }
    }
  }

  method FillBest(events: seq<Event>) returns (best: Marks)
    ensures best == Best(events)
  {
    best := map[];
    for i := 0 to |events|
      invariant best == Best(events[..i])
    {
      var ev := events[i];
      var prefix := events[..i + 1];
      assert prefix[|prefix| - 1] == ev && prefix[..|prefix| - 1] == events[..i];
      var k := PartitionOf(ev);
      if ev.topic != [] && (k !in best || ev.offset > best[k].offset) {
        best := best[k := Mark(ev.offset, ev.lsn)];
      }
    }
    assert events[..|events|] == events;
  }

  method HighWaterMarks(events: seq<Event>) returns (out: seq<Position>)
    ensures Lists(out, Best(events)) && InOrder(out)
  {
    var best := FillBest(events);
    out := [];
    var rest := best.Keys;
    while rest != {}
      invariant rest <= best.Keys && InOrder(out)
      invariant forall p :: p in out <==> p.at in best.Keys - rest && best[p.at] == p.mark
      decreases |rest|
    {
      var k :| k in rest;
      PlaceMembers(out, Position(k, best[k]));
      PlaceInOrder(out, Position(k, best[k]));
      out := Place(out, Position(k, best[k]));
      rest := rest - {k};
    }
    forall i, j | 0 <= i < j < |out| ensures out[i].at != out[j].at { BeforeOrder(out[i].at, out[j].at, out[j].at); }
  }

  /** Each mark is the position and sequence number of the first event at its partition's highest offset, and no event
      of the partition lies beyond it; a partition without a topic has no mark. */
  lemma {:induction false} BestIsMaximum(es: seq<Event>, k: Partition)
    ensures k in Best(es) ==>
              k.topic != [] &&
              exists i :: 0 <= i < |es| && Tops(es, i, k) && Best(es)[k] == Mark(es[i].offset, es[i].lsn)
    ensures forall e :: e in es && e.topic != [] && PartitionOf(e) == k ==>
              k in Best(es) && e.offset <= Best(es)[k].offset
    decreases |es|
  {
    if es != [] {
      var n := |es| - 1;
      BestIsMaximum(es[..n], k);
      assert es == es[..n] + [es[n]];
      if k in Best(es) {
        if k in Best(es[..n]) && Best(es)[k] == Best(es[..n])[k] {
          var i :| 0 <= i < n && Tops(es[..n], i, k) && Best(es[..n])[k] == Mark(es[..n][i].offset, es[..n][i].lsn);
          assert Tops(es, i, k);
        } else {
          forall j | 0 <= j < n && PartitionOf(es[j]) == k ensures es[j].offset < es[n].offset {
            assert es[..n][j] in es[..n];
          }
          assert Tops(es, n, k);
        }
      }
    }
  }

  /** es[i] is of partition k and lies beyond every earlier event of it. */
  ghost predicate Tops(es: seq<Event>, i: nat, k: Partition)
    requires i < |es|
  {
    PartitionOf(es[i]) == k && forall j :: 0 <= j < i && PartitionOf(es[j]) == k ==> es[j].offset < es[i].offset
  }

  /** What the offset statements of a transaction leave stored for a partition. */
  function Raise(marks: Marks, best: Marks, k: Partition): Option<Mark> {
    if k in best && (k !in marks || marks[k].offset <= best[k].offset) then Some(best[k])
    else if k in marks then Some(marks[k]) else None
  }

  ghost predicate Stores(marks: Marks, k: Partition, m: Option<Mark>) {
    if k in marks then m == Some(marks[k]) else m.None?
  }

  lemma {:induction false} RunMarksRaise(env: Env, call: nat, n: nat, positions: seq<Position>, marks: Marks,
                                         best: Marks, k: Partition)
    requires Lists(positions, best) && RunMarks(env, call, n, positions, marks).Done?
    ensures Stores(RunMarks(env, call, n, positions, marks).value, k, Raise(marks, best, k))
    decreases |positions|
  {
    assert k in best ==> Position(k, best[k]) in positions;
    if positions != [] {
      var p := positions[0];
      assert p in positions;
      var rest := best - {p.at};
      var next := UpsertOffset(marks, p.at, p.mark);
      forall q ensures q in positions[1..] <==> q.at in rest && rest[q.at] == q.mark {
        if q in positions[1..] { var j :| 1 <= j < |positions| && positions[j] == q; }
        if q.at in rest && rest[q.at] == q.mark {
          assert q in positions;
          var j :| 0 <= j < |positions| && positions[j] == q;
          assert positions[1..][j - 1] == q;
        }
      }
      RunMarksRaise(env, call, n + 1, positions[1..], next, rest, k);
    }
  }
}
