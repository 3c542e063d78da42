// The dead-letter store (internal/dlq/entry.go, internal/store/store.go).

module DeadLetters {
  import opened Wrappers

  datatype Status = Pending | Retrying | Quarantined | Resolved | Discarded {
    predicate Open() { Pending? || Retrying? || Quarantined? }
  }

  datatype Entry = Entry(id: nat, migration: nat, attempts: int, status: Status, firstSeen: int,
                         nextRetry: Option<int>, claimedBy: Option<nat>)
  {
    predicate Claimable(now: int) { status.Pending? && nextRetry.Some? && nextRetry.value <= now }
  }

  datatype Decision = Decision(status: Status, attempts: int, nextRetry: Option<int>)

  type Entries = map<nat, Entry>

  /** retryx.Policy.Exhausted: no positive maximum means no budget. */
  predicate Exhausted(maxAttempts: int, attempts: int) { maxAttempts > 0 && attempts >= maxAttempts }

  function Evaluate(e: Entry, permanent: bool, maxAttempts: int, retryAt: int): Decision {
    var attempts := e.attempts + 1;
    if permanent || Exhausted(maxAttempts, attempts) then Decision(Quarantined, attempts, None)
    else Decision(Pending, attempts, Some(retryAt))
  }

  function EvaluateSuccess(e: Entry): Decision { Decision(Resolved, e.attempts + 1, None) }

  /** The entry of a failed event; the database numbers it. */
  function NewEntry(migration: nat, permanent: bool, now: int, retryAt: int): Entry {
    Entry(0, migration, 1, if permanent then Quarantined else Pending, now, if permanent then None else Some(retryAt),
          None)
  }

  // ------------------------------------------------------------ what each statement does to the table

  function Inserted(t: Entries, id: nat, e: Entry): Entries { t[id := e.(id := id)] }

  function InsertedAll(t: Entries, id: nat, es: seq<Entry>): Entries {
    if es == [] then t
    else Inserted(InsertedAll(t, id, es[..|es| - 1]), id + |es| - 1, es[|es| - 1])
  }

  function Claimed(t: Entries, ids: set<nat>, worker: nat): Entries {
    map id | id in t :: if id in ids then t[id].(status := Retrying, claimedBy := Some(worker)) else t[id]
  }

  function AfterResolve(t: Entries, id: nat, d: Decision): Entries {
    if id in t then t[id := t[id].(status := d.status, attempts := d.attempts, claimedBy := None)] else t
  }

  function AfterReschedule(t: Entries, id: nat, d: Decision): Entries {
    if id in t
    then t[id := t[id].(status := d.status, attempts := d.attempts, nextRetry := d.nextRetry, claimedBy := None)]
    else t
  }

  function AfterRequeue(t: Entries, ids: set<nat>, now: int): Entries {
    map id | id in t ::
      RequeuedRow(t[id], id in ids && t[id].status.Quarantined?, now)
  }

  /** The same entries, and only those named differ. */
  ghost predicate OnlyChanges(t: Entries, u: Entries, ids: set<nat>) {
    t.Keys == u.Keys && forall id :: id in t && id !in ids ==> u[id] == t[id]
  }

  function RequeuedRow(e: Entry, hit: bool, now: int): Entry {
    if hit then e.(status := Pending, nextRetry := Some(now), attempts := 0) else e
  }

  function QuarantinedIn(t: Entries, ids: set<nat>): set<nat> {
    set id | id in ids && id in t && t[id].status.Quarantined?
  }

  lemma RequeueEffect(t: Entries, ids: set<nat>, now: int)
    ensures var u := AfterRequeue(t, ids, now);
            OnlyChanges(t, u, QuarantinedIn(t, ids)) &&
            (forall id :: id in QuarantinedIn(t, ids) ==>
               u[id].attempts == 0 && forall at :: u[id].Claimable(at) <==> now <= at) &&
            (set id | id in t && t[id].status.Quarantined? && u[id].status.Pending?) == QuarantinedIn(t, ids)
  {
  }

  function InStatus(t: Entries, migration: nat, s: Status): set<nat> {
    set id | id in t && t[id].migration == migration && t[id].status == s
  }

  function OfMigration(t: Entries, migration: nat): set<nat> { set id | id in t && t[id].migration == migration }

  datatype Counts = Counts(pending: nat, retrying: nat, quarantined: nat, resolved: nat, discarded: nat,
                           oldestOpenAge: int)
  {
    function Of(s: Status): nat {
      match s
      case Pending => pending
      case Retrying => retrying
      case Quarantined => quarantined
      case Resolved => resolved
      case Discarded => discarded
    }

    function Total(): nat { pending + retrying + quarantined + resolved + discarded }

    predicate Clean() { pending + retrying + quarantined == 0 }
  }

  /** A batch put at the sequence's next numbers: each entry under its own, every other as it was. */
  lemma {:induction false} InsertedAre(t: Entries, id: nat, es: seq<Entry>)
    ensures var u := InsertedAll(t, id, es);
            (forall i :: 0 <= i < |es| ==> id + i in u && u[id + i] == es[i].(id := id + i)) &&
            (forall k :: k in u <==> k in t || id <= k < id + |es|) &&
            forall k :: k in t && !(id <= k < id + |es|) ==> u[k] == t[k]
  {
    if es != [] {
      var n := |es| - 1;
      InsertedAre(t, id, es[..n]);
      assert forall i :: 0 <= i < n ==> es[..n][i] == es[i];
    }
  }

  /** A selection of due entries: earliest first, at most limit, skipping rows another claim holds locked. */
  ghost predicate Picked(t: Entries, now: int, locked: set<nat>, limit: nat, picked: seq<Entry>) {
    && |picked| <= limit
    && (forall i :: 0 <= i < |picked| ==>
          picked[i].id in t && t[picked[i].id] == picked[i] && picked[i].Claimable(now) && picked[i].id !in locked)
    && (forall i, j :: 0 <= i < j < |picked| ==>
          picked[i].id != picked[j].id && picked[i].nextRetry.value <= picked[j].nextRetry.value)
    && (forall id :: id in t && t[id].Claimable(now) && id !in locked &&
                     (forall i :: 0 <= i < |picked| ==> picked[i].id != id) ==>
          |picked| == limit && forall i :: 0 <= i < |picked| ==> picked[i].nextRetry.value <= t[id].nextRetry.value)
  }

  /** Midway: picked are the earliest, in order, and rest are the due entries left. */
  ghost predicate Selecting(t: Entries, now: int, locked: set<nat>, picked: seq<Entry>, rest: set<nat>) {
    && (forall id :: id in rest ==> id in t && t[id].Claimable(now) && id !in locked)
    && (forall i :: 0 <= i < |picked| ==>
          picked[i].id in t && t[picked[i].id] == picked[i] && picked[i].Claimable(now) &&
            picked[i].id !in locked + rest)
    && (forall i, j :: 0 <= i < j < |picked| ==>
          picked[i].id != picked[j].id && picked[i].nextRetry.value <= picked[j].nextRetry.value)
    && (forall i, id :: 0 <= i < |picked| && id in rest ==> picked[i].nextRetry.value <= t[id].nextRetry.value)
    && (forall id :: id in t && t[id].Claimable(now) && id !in locked + rest ==>
          exists i :: 0 <= i < |picked| && picked[i].id == id)
  }

  /** The selection begins with nothing picked, goes on while entries are due, and ends as a selection. */
  lemma SelectionEnds(t: Entries, now: int, locked: set<nat>, limit: nat, picked: seq<Entry>, rest: set<nat>)
    ensures picked == [] && (forall id :: id in rest <==> id in t && t[id].Claimable(now) && id !in locked) ==>
              Selecting(t, now, locked, picked, rest)
    ensures Selecting(t, now, locked, picked, rest) ==> forall id :: id in rest ==> id in t && t[id].nextRetry.Some?
    ensures Selecting(t, now, locked, picked, rest) && |picked| <= limit && (rest == {} || |picked| == limit) ==>
              Picked(t, now, locked, limit, picked)
  {
  }

  lemma PickNext(t: Entries, now: int, locked: set<nat>, picked: seq<Entry>, rest: set<nat>, id: nat)
    requires Selecting(t, now, locked, picked, rest) && id in rest && t[id].id == id
    requires forall k :: k in rest ==> k in t && t[k].nextRetry.Some? && t[id].nextRetry.value <= t[k].nextRetry.value
    ensures Selecting(t, now, locked, picked + [t[id]], rest - {id})
  {
    var more := picked + [t[id]];
    assert more[|picked|].id == id;
    forall k | k in t && t[k].Claimable(now) && k !in locked + (rest - {id})
      ensures exists i :: 0 <= i < |more| && more[i].id == k
    {
      if k != id {
        var i :| 0 <= i < |picked| && picked[i].id == k;
        assert more[i].id == k;
      }
    }
  }

  function Ids(es: seq<Entry>): set<nat> { set e | e in es :: e.id }

  class Store {
    const migration: nat
    var entries: Entries
    /** The next value of the id column's sequence. */
    var nextId: nat

    ghost predicate Valid()
      reads this
    {
      forall id :: id in entries ==> entries[id].id == id && id < nextId
    }

    constructor (migration: nat)
      ensures Valid() && entries == map[] && this.migration == migration
    {
      this.migration := migration;
      entries, nextId := map[], 0;
    }

    /** The database numbers the entry; nothing else changes. */
    method PutDeadLetter(e: Entry)
      requires Valid()
      modifies this
      ensures Valid() && entries == Inserted(old(entries), old(nextId), e) && nextId == old(nextId) + 1
      ensures old(nextId) !in old(entries) && OnlyChanges(old(entries), entries - {old(nextId)}, {})
    {
      entries := entries[nextId := e.(id := nextId)];
      nextId := nextId + 1;
    }

    /** A batch of failures: each becomes an entry of its own, and none overwrites another. */
    method PutDeadLetters(es: seq<Entry>)
      requires Valid()
      modifies this
      ensures Valid() && entries == InsertedAll(old(entries), old(nextId), es) && nextId == old(nextId) + |es|
      ensures |entries| == |old(entries)| + |es|
      ensures forall id :: id in old(entries) ==> id in entries && entries[id] == old(entries)[id]
    {
      for i := 0 to |es|
        invariant Valid() && entries == InsertedAll(old(entries), old(nextId), es[..i]) && nextId == old(nextId) + i
        invariant |entries| == |old(entries)| + i
      {
        assert es[..i + 1][..i] == es[..i] && es[..i + 1][i] == es[i];
        PutDeadLetter(es[i]);
      }
      assert es[..|es|] == es;
      hide InsertedAll;
      InsertedAre(old(entries), old(nextId), es);
    }

    /** The earliest of a non-empty set of due entries. */
    method Earliest(due: set<nat>) returns (best: nat)
      requires due != {} && forall id :: id in due ==> id in entries && entries[id].nextRetry.Some?
      ensures best in due
      ensures forall id :: id in due ==> entries[best].nextRetry.value <= entries[id].nextRetry.value
    {
      best :| best in due;
      var rest := due - {best};
      while rest != {}
        invariant best in due && rest <= due
        invariant forall id :: id in due - rest ==> entries[best].nextRetry.value <= entries[id].nextRetry.value
        decreases |rest|
      {
        var id :| id in rest;
        if entries[id].nextRetry.value < entries[best].nextRetry.value { best := id; }
        rest := rest - {id};
      }
    }

    method SelectClaimable(limit: nat, now: int, locked: set<nat>) returns (picked: seq<Entry>)
      requires Valid()
      ensures Picked(entries, now, locked, limit, picked)
    {
      hide Selecting, Picked;
      picked := [];
      var rest := set id | id in entries && entries[id].Claimable(now) && id !in locked;
      SelectionEnds(entries, now, locked, limit, picked, rest);
      while |picked| < limit && rest != {}
        invariant |picked| <= limit && Selecting(entries, now, locked, picked, rest)
        decreases |rest|
      {
        SelectionEnds(entries, now, locked, limit, picked, rest);
        var id := Earliest(rest);
        PickNext(entries, now, locked, picked, rest, id);
        picked := picked + [entries[id]];
        rest := rest - {id};
      }
      SelectionEnds(entries, now, locked, limit, picked, rest);
    }

    /** Claim: select, then mark, in one transaction. */
    method Claim(worker: nat, limit: nat, now: int, locked: set<nat>) returns (claimed: seq<Entry>)
      requires Valid()
      modifies this
      ensures Valid() && Picked(old(entries), now, locked, limit, claimed)
      ensures entries == Claimed(old(entries), Ids(claimed), worker)
    {
      claimed := SelectClaimable(limit, now, locked);
      if claimed == [] { assert Claimed(entries, {}, worker) == entries; return; }
      entries := Claimed(entries, Ids(claimed), worker);
    }

    /** The decision is recorded and the entry let go; a resolved one is never claimable again. */
    method Resolve(e: Entry, d: Decision)
      requires Valid()
      modifies this
      ensures Valid() && entries == AfterResolve(old(entries), e.id, d)
      ensures OnlyChanges(old(entries), entries, {e.id})
      ensures e.id in entries ==>
                entries[e.id].status == d.status && entries[e.id].attempts == d.attempts &&
                  entries[e.id].claimedBy.None? &&
                entries[e.id].nextRetry == old(entries)[e.id].nextRetry
      ensures e.id in entries && !d.status.Pending? ==> forall now :: !entries[e.id].Claimable(now)
    {
      if e.id in entries {
        entries := entries[e.id := entries[e.id].(status := d.status, attempts := d.attempts, claimedBy := None)];
      }
    }

    /** The decision is recorded and the entry let go; it is claimable again from the decision's time on,
        if the decision was to retry, and otherwise not at all. */
    method Reschedule(e: Entry, d: Decision)
      requires Valid()
      modifies this
      ensures Valid() && entries == AfterReschedule(old(entries), e.id, d)
      ensures OnlyChanges(old(entries), entries, {e.id})
      ensures e.id in entries ==>
                entries[e.id].status == d.status && entries[e.id].attempts == d.attempts &&
                  entries[e.id].claimedBy.None?
      ensures e.id in entries ==>
                forall now :: entries[e.id].Claimable(now) <==>
                  d.status.Pending? && d.nextRetry.Some? && d.nextRetry.value <= now
    {
      if e.id in entries {
        var row := entries[e.id].(status := d.status, attempts := d.attempts, nextRetry := d.nextRetry);
        entries := entries[e.id := row.(claimedBy := None)];
      }
    }

    /** Exactly the named entries that were quarantined become claimable, from now on and with a fresh budget;
        n counts the entries that went from quarantined to pending. */
    method Requeue(ids: seq<nat>, now: int) returns (n: nat)
      requires Valid()
      modifies this
      ensures Valid() && entries == AfterRequeue(old(entries), (set id | id in ids), now)
      ensures OnlyChanges(old(entries), entries, QuarantinedIn(old(entries), (set id | id in ids)))
      ensures forall id :: id in QuarantinedIn(old(entries), (set k | k in ids)) ==>
                entries[id].attempts == 0 && forall at :: entries[id].Claimable(at) <==> now <= at
      ensures n == |set id | id in old(entries) && old(entries)[id].status.Quarantined? && entries[id].status.Pending?|
    {
      var named := set id | id in ids;
      RequeueEffect(entries, named, now);
      if ids == [] {
        return 0;
      }
      n := UpdateQuarantined(named, now);
    }

    /** The UPDATE, row by row; n is the number of rows affected. */
    method UpdateQuarantined(ids: set<nat>, now: int) returns (n: nat)
      modifies this`entries
      ensures entries == AfterRequeue(old(entries), ids, now) && n == |QuarantinedIn(old(entries), ids)|
    {
      n := 0;
      ghost var hit: set<nat> := {};
      var rest := entries.Keys;
      while rest != {}
        invariant rest <= old(entries).Keys == entries.Keys && n == |hit|
        invariant forall id :: id in rest ==> entries[id] == old(entries)[id]
        invariant forall id :: id in hit <==> id in old(entries).Keys - rest && id in QuarantinedIn(old(entries), ids)
        invariant forall id :: id in old(entries).Keys - rest ==>
                  entries[id] == RequeuedRow(old(entries)[id], id in hit, now)
        decreases |rest|
      {
        var id :| id in rest;
        if id in ids && entries[id].status.Quarantined? {
          entries := entries[id := entries[id].(status := Pending, nextRetry := Some(now), attempts := 0)];
          n := n + 1;
          hit := hit + {id};
        }
        rest := rest - {id};
      }
      assert hit == QuarantinedIn(old(entries), ids);
    }

    /** Counts: one number per status, and the age of the oldest entry still open. */
    method CountByStatus(now: int) returns (c: Counts)
      requires Valid()
      ensures forall s :: c.Of(s) == |InStatus(entries, migration, s)|
      ensures c.Clean() <==>
              forall id :: id in entries && entries[id].migration == migration ==> !entries[id].status.Open()
      ensures IsOldest(entries, migration, now, c.oldestOpenAge)
    {
      var age := OldestOpenAge(now);
      NoneOpen(entries, migration);
      hide IsOldest;
      c := Counts(|InStatus(entries, migration, Pending)|, |InStatus(entries, migration, Retrying)|,
                  |InStatus(entries, migration, Quarantined)|, |InStatus(entries, migration, Resolved)|,
                  |InStatus(entries, migration, Discarded)|, age);
    }

    method OldestOpenAge(now: int) returns (age: int)
      ensures IsOldest(entries, migration, now, age)
    {
      age := 0;
      var rest := OfMigration(entries, migration);
      while rest != {}
        invariant rest <= OfMigration(entries, migration) && age >= 0
        invariant forall id :: id in OfMigration(entries, migration) - rest && entries[id].status.Open() ==>
                    now - entries[id].firstSeen <= age
        invariant age > 0 ==>
                    exists id :: id in entries && entries[id].migration == migration && entries[id].status.Open() &&
                                 now - entries[id].firstSeen == age
        decreases |rest|
      {
        var id :| id in rest;
        if entries[id].status.Open() && now - entries[id].firstSeen > age { age := now - entries[id].firstSeen; }
        rest := rest - {id};
      }
    }
  }

  /** The greatest age of an open entry of the migration; zero when there is none older than now. */
  ghost predicate IsOldest(t: Entries, migration: nat, now: int, age: int) {
    && age >= 0
    && (forall id :: id in t && t[id].migration == migration && t[id].status.Open() ==> now - t[id].firstSeen <= age)
    && (age > 0 ==>
          exists id :: id in t && t[id].migration == migration && t[id].status.Open() && now - t[id].firstSeen == age)
  }

  lemma NoneOpen(t: Entries, m: nat)
    ensures |InStatus(t, m, Pending)| + |InStatus(t, m, Retrying)| + |InStatus(t, m, Quarantined)| == 0 <==>
            forall id :: id in t && t[id].migration == m ==> !t[id].status.Open()
  {
    forall id | id in t && t[id].migration == m && t[id].status.Open() ensures id in InStatus(t, m, t[id].status) {}
    forall s, id | s in {Pending, Retrying, Quarantined} && id in InStatus(t, m, s) ensures t[id].status.Open() {}
    if |InStatus(t, m, Pending)| + |InStatus(t, m, Retrying)| + |InStatus(t, m, Quarantined)| > 0 {
      var s :| s in {Pending, Retrying, Quarantined} && InStatus(t, m, s) != {};
      var id :| id in InStatus(t, m, s);
    }
  }

  /** The counts of a migration always sum to the entries it created. */
  lemma CountsSum(t: Entries, m: nat)
    ensures |InStatus(t, m, Pending)| + |InStatus(t, m, Retrying)| + |InStatus(t, m, Quarantined)| +
            |InStatus(t, m, Resolved)| + |InStatus(t, m, Discarded)| == |OfMigration(t, m)|
  {
    Partition(InStatus(t, m, Pending), InStatus(t, m, Retrying), InStatus(t, m, Quarantined),
              InStatus(t, m, Resolved), InStatus(t, m, Discarded), OfMigration(t, m));
  }

  lemma Partition(p: set<nat>, r: set<nat>, q: set<nat>, s: set<nat>, d: set<nat>, all: set<nat>)
    requires p !! r && p !! q && p !! s && p !! d && r !! q && r !! s && r !! d && q !! s && q !! d && s !! d
    requires forall id :: id in all <==> id in p || id in r || id in q || id in s || id in d
    ensures |p| + |r| + |q| + |s| + |d| == |all|
  {
    assert all == p + r + q + s + d;
    Disjoint(p, r);
    Disjoint(p + r, q);
    Disjoint(p + r + q, s);
    Disjoint(p + r + q + s, d);
  }

  lemma Disjoint(a: set<nat>, b: set<nat>)
    requires a !! b
    ensures |a + b| == |a| + |b|
  {
  }
}
