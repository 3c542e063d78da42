// Every interleaving of repair workers (cmd/repair-worker/main.go), operators and appliers over one dead-letter
// store (internal/store/store.go): who holds what, how often an entry is tried, what becomes of it.

/** Any number of repair workers, operators and appliers sharing one dead-letter table. */
module DeadLetterRuns {
  import opened Wrappers
  import opened DeadLetters

  /** hands: what each worker has claimed and not yet finished. claims: how often an entry was claimed since it
      was created or last requeued; requeued: the entries whose current budget began with a requeue. */
  datatype World = World(table: Entries, hands: map<nat, seq<Entry>>, nextId: nat,
                         claims: map<nat, nat>, requeued: set<nat>)
  {
    function Hand(worker: nat): seq<Entry> { if worker in hands then hands[worker] else [] }
  }

  datatype Step =
    | Create(migration: nat, permanent: bool, now: int, retryAt: int)
    | ClaimSome(worker: nat, limit: nat, at: int, locked: set<nat>, picked: seq<Entry>)
    | Succeed(worker: nat)
    | Fail(worker: nat, fatal: bool, again: int)
    | Crash(worker: nat)
    | RequeueAll(ids: set<nat>, since: int)

  const START := World(map[], map[], 0, map[], {})

  /** A worker claims only when it has finished its previous batch; a crash drops the batch, not the claims. */
  ghost function Next(w: World, max: int, s: Step): World {
    match s
    case Create(m, permanent, now, retryAt) =>
      w.(table := Inserted(w.table, w.nextId, NewEntry(m, permanent, now, retryAt)),
         claims := w.claims[w.nextId := 0], nextId := w.nextId + 1)
    case ClaimSome(wk, limit, at, locked, picked) =>
      if w.Hand(wk) != [] || !Picked(w.table, at, locked, limit, picked) then w
      else
        w.(table := Claimed(w.table, Ids(picked), wk), hands := w.hands[wk := picked],
           claims := map id | id in w.claims :: if id in Ids(picked) then w.claims[id] + 1 else w.claims[id])
    case Succeed(wk) =>
      if w.Hand(wk) == [] then w
      else
        var e := w.Hand(wk)[0];
        w.(table := AfterResolve(w.table, e.id, EvaluateSuccess(e)), hands := w.hands[wk := w.Hand(wk)[1..]])
    case Fail(wk, fatal, again) =>
      if w.Hand(wk) == [] then w
      else
        var e := w.Hand(wk)[0];
        w.(table := AfterReschedule(w.table, e.id, Evaluate(e, fatal, max, again)),
           hands := w.hands[wk := w.Hand(wk)[1..]])
    case Crash(wk) => w.(hands := w.hands - {wk})
    case RequeueAll(ids, since) =>
      var hit := QuarantinedIn(w.table, ids);
      w.(table := AfterRequeue(w.table, ids, since),
         claims := map id | id in w.claims :: if id in hit then 0 else w.claims[id], requeued := w.requeued + hit)
  }

  ghost function After(w: World, max: int, steps: seq<Step>): World
    decreases |steps|
  {
    if steps == [] then w else After(Next(w, max, steps[0]), max, steps[1..])
  }

  // ------------------------------------------------------------ invariants

  /** Attempts used up by the entry's own creation: one, unless a requeue cleared them. */
  function Base(w: World, id: nat): nat { if id in w.requeued then 0 else 1 }

  ghost predicate Numbered(w: World) {
    (forall id :: id in w.table ==> w.table[id].id == id && id < w.nextId) && w.claims.Keys == w.table.Keys &&
    w.requeued <= w.table.Keys
  }

  /** What a worker holds is marked as its own, and nobody has touched it since the claim. */
  ghost predicate HandsHeld(w: World) {
    forall wk, i :: wk in w.hands && 0 <= i < |w.hands[wk]| ==>
      var e := w.hands[wk][i];
      e.id in w.table && w.table[e.id].status.Retrying? && w.table[e.id].claimedBy == Some(wk) &&
      w.table[e.id].attempts == e.attempts
  }

  ghost predicate HandsOnce(w: World) {
    forall wk, i, j :: wk in w.hands && 0 <= i < j < |w.hands[wk]| ==> w.hands[wk][i].id != w.hands[wk][j].id
  }

  /** Attempts record the claims made. */
  ghost predicate Booked(w: World, id: nat)
    requires id in w.table && id in w.claims
  {
    w.claims[id] == w.table[id].attempts - Base(w, id) + if w.table[id].status.Retrying? then 1 else 0
  }

  ghost predicate Ledger(w: World)
    requires w.claims.Keys == w.table.Keys
  {
    forall id :: id in w.table ==> Booked(w, id)
  }

  ghost predicate Inv(w: World) { Numbered(w) && HandsHeld(w) && HandsOnce(w) && Ledger(w) }

  /** Under a budget of two or more, open retries are still within it. */
  ghost predicate Within(w: World, max: int) {
    forall id :: id in w.table ==>
      w.table[id].attempts <= max &&
      (w.table[id].status.Pending? || w.table[id].status.Retrying? ==> w.table[id].attempts < max)
  }

  lemma NextKeeps(w: World, max: int, s: Step)
    requires Inv(w)
    ensures Inv(Next(w, max, s))
  {
    match s
    case ClaimSome(wk, limit, at, locked, picked) =>
      if w.Hand(wk) == [] && Picked(w.table, at, locked, limit, picked) { ClaimKeeps(w, max, s); }
    case Succeed(wk) => if w.Hand(wk) != [] { FinishKeeps(w, wk, EvaluateSuccess(w.Hand(wk)[0]), Next(w, max, s)); }
    case Fail(wk, fatal, again) =>
      if w.Hand(wk) != [] { FinishKeeps(w, wk, Evaluate(w.Hand(wk)[0], fatal, max, again), Next(w, max, s)); }
    case Crash(wk) => assert forall k :: k in w.hands - {wk} ==> k in w.hands;
    case Create(m, permanent, now, retryAt) =>
    case RequeueAll(ids, since) =>
  }

  lemma ClaimKeeps(w: World, max: int, s: Step)
    requires Inv(w) && s.ClaimSome? && w.Hand(s.worker) == [] && Picked(w.table, s.at, s.locked, s.limit, s.picked)
    ensures Inv(Next(w, max, s))
  {
    forall i | 0 <= i < |s.picked| ensures s.picked[i].id in Ids(s.picked) { assert s.picked[i] in s.picked; }
    forall id | id in Ids(s.picked) ensures id in w.table && w.table[id].status.Pending? {
      var e :| e in s.picked && e.id == id;
    }
    ClaimBooks(w, max, s);
    hide Ids, Ledger;
  }

  /** Claiming books one claim for each entry taken. */
  lemma ClaimBooks(w: World, max: int, s: Step)
    requires Inv(w) && s.ClaimSome? && w.Hand(s.worker) == [] && Picked(w.table, s.at, s.locked, s.limit, s.picked)
    requires forall id :: id in Ids(s.picked) ==> id in w.table && w.table[id].status.Pending?
    ensures Next(w, max, s).claims.Keys == Next(w, max, s).table.Keys && Ledger(Next(w, max, s))
  {
    hide Ids, HandsHeld, HandsOnce, Picked;
  }

  /** One entry finished: its row is released and decided, every other row and hand is as before. */
  lemma FinishKeeps(w: World, wk: nat, d: Decision, v: World)
    requires Inv(w) && w.Hand(wk) != [] && !d.status.Retrying? && d.attempts == w.Hand(wk)[0].attempts + 1
    requires v.nextId == w.nextId && v.claims == w.claims && v.requeued == w.requeued
    requires v.hands == w.hands[wk := w.Hand(wk)[1..]]
    requires var id := w.Hand(wk)[0].id;
             v.table.Keys == w.table.Keys && v.table[id].id == id && v.table[id].status == d.status &&
             v.table[id].attempts == d.attempts && forall k :: k in w.table && k != id ==> v.table[k] == w.table[k]
    ensures Inv(v)
  {
  }

  lemma {:induction false} RunKeeps(w: World, max: int, steps: seq<Step>)
    requires Inv(w)
    ensures Inv(After(w, max, steps))
    decreases |steps|
  {
    if steps != [] {
      NextKeeps(w, max, steps[0]);
      RunKeeps(Next(w, max, steps[0]), max, steps[1..]);
    }
  }

  lemma NextWithin(w: World, max: int, s: Step)
    requires Inv(w) && Within(w, max) && max >= 2
    ensures Within(Next(w, max, s), max)
  {
  }

  lemma {:induction false} RunWithin(w: World, max: int, steps: seq<Step>)
    requires Inv(w) && Within(w, max) && max >= 2
    ensures Within(After(w, max, steps), max)
    decreases |steps|
  {
    if steps != [] {
      NextKeeps(w, max, steps[0]);
      NextWithin(w, max, steps[0]);
      RunWithin(Next(w, max, steps[0]), max, steps[1..]);
    }
  }

  // ------------------------------------------------------------ results over every run

  /** No entry is ever held twice, by two workers or by one. */
  lemma OneHolder(max: int, steps: seq<Step>, a: nat, i: nat, b: nat, j: nat)
    requires var w := After(START, max, steps);
             i < |w.Hand(a)| && j < |w.Hand(b)| && w.Hand(a)[i].id == w.Hand(b)[j].id
    ensures a == b && i == j
  {
    RunKeeps(START, max, steps);
  }

  /** Attempts stay within the budget, and so do retries: one fewer before the first requeue. */
  lemma RetriesBounded(max: int, steps: seq<Step>, id: nat)
    requires max >= 2 && id in After(START, max, steps).table
    ensures var w := After(START, max, steps);
            w.table[id].attempts <= max && id in w.claims &&
            w.claims[id] <= if id in w.requeued then max else max - 1
  {
    RunKeeps(START, max, steps);
    RunWithin(START, max, steps);
    assert Booked(After(START, max, steps), id);
  }

  /** A budget of one is overrun: the attempt that created the entry already used it. */
  lemma BudgetOfOneOverruns() returns (steps: seq<Step>)
    ensures After(START, 1, steps).table.Keys == {0} && After(START, 1, steps).table[0].attempts == 2
  {
    var create, fail := Create(0, false, 0, 0), Fail(0, false, 0);
    var w1 := Next(START, 1, create);
    var e := NewEntry(0, false, 0, 0);
    assert w1.table == map[0 := e];
    var claim := ClaimSome(0, 1, 0, {}, [e]);
    var w2 := Next(w1, 1, claim);
    assert Picked(w1.table, 0, {}, 1, [e]);
    assert w2.Hand(0) == [e] && w2.table.Keys == {0};
    var w3 := Next(w2, 1, fail);
    assert w3.table.Keys == {0} && w3.table[0].attempts == 2;
    steps := [create, claim, fail];
    ThreeSteps(START, 1, create, claim, fail);
  }

  lemma ThreeSteps(w: World, max: int, a: Step, b: Step, c: Step)
    ensures After(w, max, [a, b, c]) == Next(Next(Next(w, max, a), max, b), max, c)
  {
    hide Next;
    assert [a, b, c][1..] == [b, c] && [b, c][1..] == [c] && [c][1..] == [];
    assert After(w, max, [a, b, c]) == After(Next(w, max, a), max, [b, c]);
    assert After(Next(w, max, a), max, [b, c]) == After(Next(Next(w, max, a), max, b), max, [c]);
  }

  /** For a positive budget: every run respects it, exactly when it is at least two. */
  lemma BudgetRespectedIff(max: int)
    requires max >= 1
    ensures (forall steps: seq<Step>, id :: id in After(START, max, steps).table ==>
               After(START, max, steps).table[id].attempts <= max) <==> max >= 2
  {
    if max >= 2 {
      forall steps: seq<Step>, id | id in After(START, max, steps).table
        ensures After(START, max, steps).table[id].attempts <= max
      {
        RetriesBounded(max, steps, id);
      }
    } else {
      var steps := BudgetOfOneOverruns();
      assert 0 in After(START, max, steps).table;
    }
  }

  // ------------------------------------------------------------ what becomes of an entry

  /** A failed event enters the table as a new row of its migration with one attempt spent: quarantined if the failure
      was permanent, otherwise claimable from its retry time on. */
  lemma CreatedAs(max: int, steps: seq<Step>, m: nat, permanent: bool, now: int, retryAt: int)
    ensures var w := After(START, max, steps);
            var v := Next(w, max, Create(m, permanent, now, retryAt));
            w.nextId !in w.table && v.table.Keys == w.table.Keys + {w.nextId} &&
            OnlyChanges(w.table, v.table - {w.nextId}, {}) &&
            var e := v.table[w.nextId];
            e.migration == m && e.attempts == 1 && e.firstSeen == now && e.claimedBy.None? &&
            (permanent ==> e.status == Quarantined && e.nextRetry.None?) &&
            forall at :: e.Claimable(at) <==> !permanent && retryAt <= at
  {
    RunKeeps(START, max, steps);
  }

  /** A claim takes due entries from nobody: each becomes the worker's, in its hand and in the table, and no other entry
      moves. */
  lemma ClaimTakes(max: int, steps: seq<Step>, wk: nat, limit: nat, at: int, locked: set<nat>, picked: seq<Entry>)
    requires var w := After(START, max, steps); w.Hand(wk) == [] && Picked(w.table, at, locked, limit, picked)
    ensures var w := After(START, max, steps);
            var v := Next(w, max, ClaimSome(wk, limit, at, locked, picked));
            v.Hand(wk) == picked && OnlyChanges(w.table, v.table, Ids(picked)) &&
            forall e :: e in picked ==>
              e.id in w.table && w.table[e.id] == e && e.status == Pending &&
              e.nextRetry.Some? && e.nextRetry.value <= at &&
              v.table[e.id] == e.(status := Retrying, claimedBy := Some(wk))
  {
    var w := After(START, max, steps);
    forall e | e in picked ensures e.id in Ids(picked) && e.id in w.table && w.table[e.id] == e && e.Claimable(at) {
      var i :| 0 <= i < |picked| && picked[i] == e;
    }
  }

  /** A failed retry spends an attempt and lets the entry go: a permanent error, or one that uses up the budget,
      quarantines it; after any other it is claimable from its retry time on, and not before. */
  lemma FailureDecides(max: int, steps: seq<Step>, wk: nat, fatal: bool, again: int)
    requires After(START, max, steps).Hand(wk) != []
    ensures var w := After(START, max, steps);
            var e, v := w.Hand(wk)[0], Next(w, max, Fail(wk, fatal, again));
            e.id in w.table && OnlyChanges(w.table, v.table, {e.id}) && v.Hand(wk) == w.Hand(wk)[1..] &&
            v.table[e.id].attempts == w.table[e.id].attempts + 1 && v.table[e.id].claimedBy.None? &&
            var over := fatal || (max > 0 && w.table[e.id].attempts + 1 >= max);
            v.table[e.id].status == (if over then Quarantined else Pending) &&
            forall at :: v.table[e.id].Claimable(at) <==> !over && again <= at
  {
    RunKeeps(START, max, steps);
  }

  /** A retry that succeeds resolves the entry. */
  lemma SuccessResolves(max: int, steps: seq<Step>, wk: nat)
    requires After(START, max, steps).Hand(wk) != []
    ensures var w := After(START, max, steps);
            var e, v := w.Hand(wk)[0], Next(w, max, Succeed(wk));
            e.id in w.table && OnlyChanges(w.table, v.table, {e.id}) && v.Hand(wk) == w.Hand(wk)[1..] &&
            v.table[e.id].status == Resolved && v.table[e.id].attempts == w.table[e.id].attempts + 1 &&
            v.table[e.id].claimedBy.None?
  {
    RunKeeps(START, max, steps);
  }

  /** So an entry that failed permanently stays quarantined, and claimable by nobody, until a requeue names it. */
  lemma PermanentWaits(max: int, before: seq<Step>, wk: nat, again: int, later: seq<Step>)
    requires After(START, max, before).Hand(wk) != []
    requires var id := After(START, max, before).Hand(wk)[0].id;
             forall s :: s in later && s.RequeueAll? ==> id !in s.ids
    ensures var w := After(START, max, before);
            var id, t := w.Hand(wk)[0].id, After(Next(w, max, Fail(wk, true, again)), max, later).table;
            id in t && t[id].status == Quarantined && forall at :: !t[id].Claimable(at)
  {
    var w := After(START, max, before);
    FailureDecides(max, before, wk, true, again);
    RunKeeps(START, max, before);
    NextKeeps(w, max, Fail(wk, true, again));
    hide Next, After, Inv;
    SettledForever(Next(w, max, Fail(wk, true, again)), max, later, w.Hand(wk)[0].id);
  }

  /** Entries that no step but an operator's may touch: the resolved, the discarded and, until requeued,
      the quarantined; and the claimed that nobody holds any more. */
  ghost predicate Settled(w: World, id: nat) {
    id in w.table &&
    (w.table[id].status.Resolved? || w.table[id].status.Discarded? || w.table[id].status.Quarantined? ||
     (w.table[id].status.Retrying? &&
      forall wk, i :: wk in w.hands && 0 <= i < |w.hands[wk]| ==> w.hands[wk][i].id != id))
  }

  lemma SettledStays(w: World, max: int, s: Step, id: nat)
    requires Inv(w) && Settled(w, id)
    requires s.RequeueAll? && id in s.ids ==> !w.table[id].status.Quarantined?
    ensures Settled(Next(w, max, s), id) && Next(w, max, s).table[id] == w.table[id]
    ensures Next(w, max, s).claims[id] == w.claims[id]
  {
    if s.ClaimSome? && Picked(w.table, s.at, s.locked, s.limit, s.picked) {
      assert id !in Ids(s.picked);
      assert forall i :: 0 <= i < |s.picked| ==> s.picked[i].id != id;
    }
    if (s.Succeed? || s.Fail?) && w.Hand(s.worker) != [] {
      var hand := w.hands[s.worker];
      assert hand[0].id != id;
      assert forall i :: 0 <= i < |hand[1..]| ==> hand[1..][i] == hand[i + 1];
    }
    hide HandsOnce, Ledger, Numbered;
  }

  /** So a resolved entry is final, a quarantined one waits for a requeue naming it, and an entry stranded by
      a crashed worker stays claimed for ever: no run retries, resolves or requeues it. */
  lemma {:induction false} SettledForever(w: World, max: int, steps: seq<Step>, id: nat)
    requires Inv(w) && Settled(w, id)
    requires w.table[id].status.Quarantined? ==> forall s :: s in steps && s.RequeueAll? ==> id !in s.ids
    ensures id in After(w, max, steps).table && After(w, max, steps).table[id] == w.table[id]
    decreases |steps|
  {
    if steps != [] {
      assert steps[0] in steps;
      NextKeeps(w, max, steps[0]);
      SettledStays(w, max, steps[0], id);
      SettledForever(Next(w, max, steps[0]), max, steps[1..], id);
    }
  }

  /** A crash strands exactly what the worker still held. */
  lemma CrashStrands(w: World, max: int, wk: nat, i: nat)
    requires Inv(w) && i < |w.Hand(wk)|
    ensures Settled(Next(w, max, Crash(wk)), w.Hand(wk)[i].id)
  {
  }

  /** No entry is ever lost or made twice: those of a migration only ever grow, by the ones created. */
  function CreatedBy(steps: seq<Step>, m: nat): nat {
    if steps == [] then 0
    else (if steps[0].Create? && steps[0].migration == m then 1 else 0) + CreatedBy(steps[1..], m)
  }

  lemma {:induction false} EntriesConserved(w: World, max: int, steps: seq<Step>, m: nat)
    requires Inv(w)
    ensures |OfMigration(After(w, max, steps).table, m)| == |OfMigration(w.table, m)| + CreatedBy(steps, m)
    decreases |steps|
  {
    if steps != [] {
      var v := Next(w, max, steps[0]);
      NextKeeps(w, max, steps[0]);
      NextCreates(w, max, steps[0], m);
      EntriesConserved(v, max, steps[1..], m);
    }
  }

  lemma NextCreates(w: World, max: int, s: Step, m: nat)
    requires Inv(w)
    ensures |OfMigration(Next(w, max, s).table, m)| ==
            |OfMigration(w.table, m)| + if s.Create? && s.migration == m then 1 else 0
  {
    var v := Next(w, max, s);
    NextMigrations(w, max, s);
    hide Next, Inv;
    OfMigrationGrows(w.table, v.table, m, if s.Create? then Some(w.nextId) else None);
  }

  lemma OfMigrationGrows(t: Entries, u: Entries, m: nat, added: Option<nat>)
    requires forall id :: id in u <==> id in t || added == Some(id)
    requires forall id :: id in t ==> added != Some(id) && u[id].migration == t[id].migration
    ensures |OfMigration(u, m)| ==
            |OfMigration(t, m)| + if added.Some? && u[added.value].migration == m then 1 else 0
  {
    var before, after := OfMigration(t, m), OfMigration(u, m);
    var arrivals := if added.Some? && u[added.value].migration == m then {added.value} else {};
    forall id ensures id in after <==> id in before || id in arrivals {}
    hide OfMigration;
    assert after == before + arrivals;
  }

  lemma NextMigrations(w: World, max: int, s: Step)
    requires Inv(w)
    ensures var t, u := w.table, Next(w, max, s).table;
            w.nextId !in t && u.Keys == t.Keys + (if s.Create? then {w.nextId} else {}) &&
            (s.Create? ==> w.nextId in u && u[w.nextId].migration == s.migration) &&
            forall id :: id in t ==> id in u && u[id].migration == t[id].migration
  {
  }

  /** Over every run the counts of a migration sum to the entries created for it. */
  lemma CountsSumToCreated(max: int, steps: seq<Step>, m: nat)
    ensures var t := After(START, max, steps).table;
            |InStatus(t, m, Pending)| + |InStatus(t, m, Retrying)| + |InStatus(t, m, Quarantined)| +
            |InStatus(t, m, Resolved)| + |InStatus(t, m, Discarded)| == CreatedBy(steps, m)
  {
    EntriesConserved(START, max, steps, m);
    CountsSum(After(START, max, steps).table, m);
    assert OfMigration(START.table, m) == {};
  }
}
