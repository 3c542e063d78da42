// The file strategy: parts stamped with the extract's start LSN (internal/snapshot/partition.go) are
// merged under the fence (MergeStaging) while the change stream is being delivered, in any order.

module BulkLoad {
  import opened Wrappers
  import opened FencedRows

  type Part = map<RowId, Image>

  /** MergeStaging of a part whose duplicate keys have been collapsed. */
  function MergePart(rows: Rows, part: Part, stamp: int): Rows {
    map id | id in rows.Keys + part.Keys :: if id in part then MergeRow(rows, id, part[id], stamp)[id] else rows[id]
  }

  datatype Step = Deliver(w: Write) | Merge(part: Part)

  function After(steps: seq<Step>, stamp: int): Rows {
    if steps == [] then map[]
    else
      var rows := After(steps[..|steps| - 1], stamp);
      Do(rows, steps[|steps| - 1], stamp)
  }

  function Do(rows: Rows, step: Step, stamp: int): Rows {
    match step case Deliver(w) => Exec(rows, w) case Merge(part) => MergePart(rows, part, stamp)
  }

  // ------------------------------------------------------------ the source

  /** The source table: what it held before the log began, and every change since, one per row and LSN. */
  datatype Source = Source(base: map<RowId, Image>, changes: set<Write>)

  function ImageIn(v: View): Option<Image> {
    match v case Live(_, image) => Some(image) case Tomb(_) => None
  }

  /** w is the row's last change at or before position p. */
  ghost predicate LastChange(src: Source, id: RowId, p: int, w: Write) {
    w in src.changes && w.id == id && w.view.lsn <= p &&
    forall u :: u in src.changes && u.id == id && u.view.lsn <= p ==> u.view.lsn <= w.view.lsn
  }

  /** The source holds this image (or no row) for id at position p. */
  ghost predicate Holds(src: Source, id: RowId, p: int, image: Option<Image>) {
    (exists w :: LastChange(src, id, p, w) && image == ImageIn(w.view)) ||
    ((forall u :: u in src.changes && u.id == id ==> u.view.lsn > p) &&
     image == if id in src.base then Some(src.base[id]) else None)
  }

  /** The source holds this for id once every change has happened. */
  ghost predicate HoldsFinally(src: Source, id: RowId, image: Option<Image>) {
    exists p :: (forall u :: u in src.changes && u.id == id ==> u.view.lsn <= p) && Holds(src, id, p, image)
  }

  // ------------------------------------------------------------ a load

  ghost predicate Quiet(src: Source, id: RowId, stamp: int) {
    forall u :: u in src.changes && u.id == id ==> u.view.lsn <= stamp
  }

  /** Every delivery is a change after `start` .. */
  ghost predicate Streamed(src: Source, start: int, steps: seq<Step>) {
    forall i :: 0 <= i < |steps| && steps[i].Deliver? ==> steps[i].w in src.changes && steps[i].w.view.lsn > start
  }

  /** .. and every such change is delivered at least once, in any order. */
  ghost predicate Complete(src: Source, start: int, steps: seq<Step>) {
    forall u :: u in src.changes && u.view.lsn > start ==> Deliver(u) in steps
  }

  /** What a read at or after the stamp found for a row. */
  ghost predicate ReadAfter(src: Source, id: RowId, stamp: int, image: Option<Image>) {
    exists p :: p >= stamp && Holds(src, id, p, image)
  }

  ghost predicate PartsRead(src: Source, stamp: int, steps: seq<Step>, id: RowId) {
    forall i :: 0 <= i < |steps| && steps[i].Merge? && id in steps[i].part ==>
      ReadAfter(src, id, stamp, Some(steps[i].part[id]))
  }

  ghost predicate Merged(steps: seq<Step>, id: RowId) {
    exists i :: 0 <= i < |steps| && steps[i].Merge? && id in steps[i].part
  }

  /** The stream, the parts read at or after the stamp, and the rows no part carries: as far as one row
      is concerned. */
  ghost predicate IsLoad(src: Source, start: int, stamp: int, steps: seq<Step>, id: RowId) {
    start <= stamp && OneWritePerLsn(src.changes) && Streamed(src, start, steps) && Complete(src, start, steps) &&
    PartsRead(src, stamp, steps, id) && (Merged(steps, id) || ReadAfter(src, id, stamp, None))
  }

  ghost predicate Buried(rows: Rows, id: RowId, stamp: int) {
    id in rows && rows[id].deleted && rows[id].lsn <= stamp
  }

  /** No merge of the row finds a tombstone at or below the stamp under it. */
  ghost predicate NoBuriedMerge(steps: seq<Step>, stamp: int, id: RowId) {
    forall i :: 0 <= i < |steps| && steps[i].Merge? && id in steps[i].part ==>
      !Buried(After(steps[..i], stamp), id, stamp)
  }

  /** What the target shows for a row. */
  function Shows(rows: Rows, id: RowId): Option<Image> {
    match Lookup(rows, id) case None => None case Some(v) => ImageIn(v)
  }

  // ------------------------------------------------------------ one row's history

  /** The newest change of a row, if it is above the stamp or no part carries the row, governs it. */
  ghost predicate Governed(rows: Rows, id: RowId, f: Write, delivered: bool) {
    (id in rows ==> rows[id].lsn <= f.view.lsn && (rows[id].lsn == f.view.lsn ==> Visible(rows[id]) == f.view)) &&
    (delivered ==> id in rows && rows[id].lsn == f.view.lsn)
  }

  lemma {:induction false} GovernedRun(src: Source, start: int, stamp: int, steps: seq<Step>, n: nat, f: Write)
    requires Streamed(src, start, steps) && OneWritePerLsn(src.changes) && n <= |steps|
    requires f in src.changes && forall u :: u in src.changes && u.id == f.id ==> u.view.lsn <= f.view.lsn
    requires f.view.lsn > stamp || !Merged(steps, f.id)
    ensures Governed(After(steps[..n], stamp), f.id, f, Deliver(f) in steps[..n])
  {
    if n > 0 {
      GovernedRun(src, start, stamp, steps, n - 1, f);
      assert steps[..n][..n - 1] == steps[..n - 1] && steps[..n] == steps[..n - 1] + [steps[n - 1]];
    }
  }

  /** A row with no change above the stamp that some part carries: after its merge it stays merged. */
  ghost predicate Settled(rows: Rows, id: RowId, image: Image, stamp: int, merged: bool) {
    (id in rows ==> rows[id].lsn <= stamp) && (merged ==> id in rows && rows[id] == Row(image, stamp, false))
  }

  lemma SettledStep(src: Source, stamp: int, step: Step, rows: Rows, id: RowId, image: Image, merged: bool)
    requires OneWritePerLsn(src.changes) && Quiet(src, id, stamp) && Holds(src, id, stamp, Some(image))
    requires step.Deliver? ==> step.w in src.changes
    requires step.Merge? && id in step.part ==>
               ReadAfter(src, id, stamp, Some(step.part[id])) && !Buried(rows, id, stamp)
    requires Settled(rows, id, image, stamp, merged)
    ensures Settled(Do(rows, step, stamp), id, image, stamp, merged || (step.Merge? && id in step.part))
  {
    match step
    case Deliver(w) => if w.id == id && w.view.lsn == stamp { LastIsHeld(src, id, stamp, w, Some(image)); }
    case Merge(part) =>
      if id in part {
        var p :| p >= stamp && Holds(src, id, p, Some(part[id]));
        QuietHolds(src, id, stamp, p, Some(image), Some(part[id]));
      }
  }

  lemma {:induction false} SettledRun(src: Source, start: int, stamp: int, steps: seq<Step>, n: nat, id: RowId,
                                      image: Image)
    requires Streamed(src, start, steps) && OneWritePerLsn(src.changes) && n <= |steps|
    requires PartsRead(src, stamp, steps, id) && NoBuriedMerge(steps, stamp, id)
    requires Quiet(src, id, stamp) && Holds(src, id, stamp, Some(image))
    ensures Settled(After(steps[..n], stamp), id, image, stamp, Merged(steps[..n], id))
  {
    hide Holds, Settled, Quiet, Buried, OneWritePerLsn;
    if n > 0 {
      SettledRun(src, start, stamp, steps, n - 1, id, image);
      assert steps[..n][..n - 1] == steps[..n - 1] && steps[..n][n - 1] == steps[n - 1];
      SettledStep(src, stamp, steps[n - 1], After(steps[..n - 1], stamp), id, image, Merged(steps[..n - 1], id));
    } else {
      NothingYet(id, image, stamp);
    }
  }

  lemma NothingYet(id: RowId, image: Image, stamp: int)
    ensures Settled(map[], id, image, stamp, false)
    ensures forall f: Write :: AtStamp(map[], f, image, stamp, false)
  {
  }

  /** After the stamp a quiet row no longer changes. */
  lemma QuietHolds(src: Source, id: RowId, p: int, q: int, a: Option<Image>, b: Option<Image>)
    requires OneWritePerLsn(src.changes) && Quiet(src, id, p) && q >= p
    requires Holds(src, id, p, a) && Holds(src, id, q, b)
    ensures a == b
  {
  }

  lemma LastIsHeld(src: Source, id: RowId, p: int, w: Write, image: Option<Image>)
    requires OneWritePerLsn(src.changes) && Quiet(src, id, p) && Holds(src, id, p, image)
    requires w in src.changes && w.id == id && w.view.lsn == p
    ensures ImageIn(w.view) == image
  {
  }

  // ------------------------------------------------------------ the theorem

  lemma {:induction false} NewestExists(ws: set<Write>, id: RowId) returns (f: Write)
    requires exists w :: w in ws && w.id == id
    ensures f in ws && f.id == id && forall u :: u in ws && u.id == id ==> u.view.lsn <= f.view.lsn
    decreases |ws|
  {
    f :| f in ws && f.id == id;
    var rest := ws - {f};
    if exists w :: w in rest && w.id == id {
      var g := NewestExists(rest, id);
      if g.view.lsn > f.view.lsn { f := g; }
    }
  }

  lemma {:induction false} Untouched(src: Source, start: int, stamp: int, steps: seq<Step>, n: nat, id: RowId)
    requires Streamed(src, start, steps) && n <= |steps| && !Merged(steps, id)
    requires forall u :: u in src.changes && u.id == id ==> u.view.lsn <= start
    ensures id !in After(steps[..n], stamp)
  {
    if n > 0 {
      Untouched(src, start, stamp, steps, n - 1, id);
      assert steps[..n][..n - 1] == steps[..n - 1] && steps[..n][n - 1] == steps[n - 1];
    }
  }

  /** With no tombstone buried under a merge, whatever the interleaving, a row ends as the source has it. */
  lemma LoadMatchesSource(src: Source, start: int, stamp: int, steps: seq<Step>, id: RowId)
    requires IsLoad(src, start, stamp, steps, id) && NoBuriedMerge(steps, stamp, id)
    ensures HoldsFinally(src, id, Shows(After(steps, stamp), id))
  {
    var n := |steps|;
    assert steps[..n] == steps;
    if exists w :: w in src.changes && w.id == id {
      var f := NewestExists(src.changes, id);
      assert LastChange(src, id, f.view.lsn, f);
      assert Holds(src, id, f.view.lsn, ImageIn(f.view));
      if f.view.lsn > stamp {
        GovernedRun(src, start, stamp, steps, n, f);
      } else if Merged(steps, id) {
        QuietMerged(src, start, stamp, steps, id);
      } else {
        if f.view.lsn > start { GovernedRun(src, start, stamp, steps, n, f); }
        else { Untouched(src, start, stamp, steps, n, id); }
      }
    } else if Merged(steps, id) {
      QuietMerged(src, start, stamp, steps, id);
    } else {
      Untouched(src, start, stamp, steps, n, id);
      var p :| p >= stamp && Holds(src, id, p, None);
    }
  }

  lemma QuietMerged(src: Source, start: int, stamp: int, steps: seq<Step>, id: RowId)
    requires IsLoad(src, start, stamp, steps, id) && NoBuriedMerge(steps, stamp, id)
    requires Quiet(src, id, stamp) && Merged(steps, id)
    ensures HoldsFinally(src, id, Shows(After(steps, stamp), id))
  {
    var i :| 0 <= i < |steps| && steps[i].Merge? && id in steps[i].part;
    var image := steps[i].part[id];
    var p :| p >= stamp && Holds(src, id, p, Some(image));
    SettledRun(src, start, stamp, steps, |steps|, id, image);
    assert steps[..|steps|] == steps;
  }

  // ------------------------------------------------------------ exactly when

  /** The row changed at or after the stamp. */
  ghost predicate Refreshed(src: Source, id: RowId, stamp: int) {
    exists u :: u in src.changes && u.id == id && u.view.lsn >= stamp
  }

  /** A row whose newest change f carries the stamp itself. */
  ghost predicate AtStamp(rows: Rows, f: Write, image: Image, stamp: int, delivered: bool) {
    (f.id in rows ==> rows[f.id].lsn <= stamp) && (delivered ==> f.id in rows && rows[f.id] == Row(image, stamp, false))
  }

  ghost predicate NewestAtStamp(src: Source, f: Write, image: Image, stamp: int) {
    f in src.changes && f.view == Live(stamp, image) && Quiet(src, f.id, stamp) && OneWritePerLsn(src.changes)
  }

  lemma AtStampStep(src: Source, stamp: int, step: Step, rows: Rows, f: Write, image: Image, delivered: bool)
    requires NewestAtStamp(src, f, image, stamp) && AtStamp(rows, f, image, stamp, delivered)
    requires step.Deliver? ==> step.w in src.changes
    requires step.Merge? && f.id in step.part ==> step.part[f.id] == image
    ensures AtStamp(Do(rows, step, stamp), f, image, stamp, delivered || step == Deliver(f))
  {
  }

  lemma {:induction false} AtStampRun(src: Source, start: int, stamp: int, steps: seq<Step>, n: nat, f: Write,
                                      image: Image)
    requires NewestAtStamp(src, f, image, stamp) && Streamed(src, start, steps) && n <= |steps|
    requires PartsRead(src, stamp, steps, f.id)
    ensures AtStamp(After(steps[..n], stamp), f, image, stamp, Deliver(f) in steps[..n])
  {
    hide AtStamp, Do;
    if n > 0 {
      AtStampRun(src, start, stamp, steps, n - 1, f, image);
      assert steps[..n][..n - 1] == steps[..n - 1] && steps[..n] == steps[..n - 1] + [steps[n - 1]];
      if steps[n - 1].Merge? && f.id in steps[n - 1].part { PartImage(src, stamp, steps[n - 1].part, f, image); }
      AtStampStep(src, stamp, steps[n - 1], After(steps[..n - 1], stamp), f, image, Deliver(f) in steps[..n - 1]);
    } else {
      NothingYet(f.id, image, stamp);
    }
  }

  lemma PartImage(src: Source, stamp: int, part: Part, f: Write, image: Image)
    requires NewestAtStamp(src, f, image, stamp) && f.id in part && ReadAfter(src, f.id, stamp, Some(part[f.id]))
    ensures part[f.id] == image
  {
  }

  /** A row that only merges have reached carries no tombstone. */
  lemma {:induction false} NeverDeleted(steps: seq<Step>, stamp: int, n: nat, id: RowId)
    requires n <= |steps| && forall i :: 0 <= i < |steps| && steps[i].Deliver? ==> steps[i].w.id != id
    ensures id in After(steps[..n], stamp) ==> !After(steps[..n], stamp)[id].deleted
  {
    if n > 0 {
      NeverDeleted(steps, stamp, n - 1, id);
      assert steps[..n][..n - 1] == steps[..n - 1] && steps[..n][n - 1] == steps[n - 1];
    }
  }

  /** A change at the stamp undoes whatever a merge buried before it. */
  lemma StampedMatches(src: Source, start: int, stamp: int, steps: seq<Step>, id: RowId, f: Write)
    requires IsLoad(src, start, stamp, steps, id) && Merged(steps, id) && Quiet(src, id, stamp)
    requires f in src.changes && f.id == id && f.view.lsn == stamp
    ensures HoldsFinally(src, id, Shows(After(steps, stamp), id))
  {
    var i :| 0 <= i < |steps| && steps[i].Merge? && id in steps[i].part;
    var image := steps[i].part[id];
    var p :| p >= stamp && Holds(src, id, p, Some(image));
    LastIsHeld(src, id, stamp, f, Some(image));
    assert NewestAtStamp(src, f, image, stamp);
    assert steps[..|steps|] == steps;
    if start < stamp {
      AtStampRun(src, start, stamp, steps, |steps|, f, image);
      assert Shows(After(steps, stamp), id) == Some(image);
    } else {
      forall k | 0 <= k < |steps| && steps[k].Merge? && id in steps[k].part
        ensures !Buried(After(steps[..k], stamp), id, stamp)
      {
        NeverDeleted(steps, stamp, k, id);
      }
      QuietMerged(src, start, stamp, steps, id);
    }
  }

  /** A tombstone that a merge has run over stays: the row is stamped, deleted, and out of reach. */
  ghost predicate Hidden(rows: Rows, id: RowId, stamp: int) { id in rows && rows[id].deleted && rows[id].lsn == stamp }

  lemma {:induction false} HiddenRun(src: Source, start: int, stamp: int, steps: seq<Step>, i: nat, n: nat, id: RowId)
    requires Streamed(src, start, steps) && !Refreshed(src, id, stamp) && i < n <= |steps|
    requires steps[i].Merge? && id in steps[i].part && Buried(After(steps[..i], stamp), id, stamp)
    ensures Hidden(After(steps[..n], stamp), id, stamp)
  {
    assert steps[..n][..n - 1] == steps[..n - 1] && steps[..n][n - 1] == steps[n - 1];
    if n > i + 1 { HiddenRun(src, start, stamp, steps, i, n - 1, id); }
  }

  /** Load and stream commute, exactly: a row ends as the source has it if and only if no merge of it ran
      over a tombstone at or below the stamp, or the row changed at or after the stamp. */
  lemma LoadMatchesSourceIff(src: Source, start: int, stamp: int, steps: seq<Step>, id: RowId)
    requires IsLoad(src, start, stamp, steps, id)
    ensures HoldsFinally(src, id, Shows(After(steps, stamp), id)) <==>
            NoBuriedMerge(steps, stamp, id) || Refreshed(src, id, stamp)
  {
    hide After, HoldsFinally, Holds, ReadAfter;
    if NoBuriedMerge(steps, stamp, id) {
      LoadMatchesSource(src, start, stamp, steps, id);
    } else if Refreshed(src, id, stamp) {
      RefreshedMatches(src, start, stamp, steps, id);
    } else {
      BuriedMisses(src, start, stamp, steps, id);
    }
  }

  lemma RefreshedMatches(src: Source, start: int, stamp: int, steps: seq<Step>, id: RowId)
    requires IsLoad(src, start, stamp, steps, id) && Merged(steps, id) && Refreshed(src, id, stamp)
    ensures HoldsFinally(src, id, Shows(After(steps, stamp), id))
  {
    var f := NewestExists(src.changes, id);
    assert LastChange(src, id, f.view.lsn, f);
    assert Holds(src, id, f.view.lsn, ImageIn(f.view));
    assert steps[..|steps|] == steps;
    if f.view.lsn > stamp {
      GovernedRun(src, start, stamp, steps, |steps|, f);
    } else {
      StampedMatches(src, start, stamp, steps, id, f);
    }
  }

  lemma BuriedMisses(src: Source, start: int, stamp: int, steps: seq<Step>, id: RowId)
    requires IsLoad(src, start, stamp, steps, id) && !NoBuriedMerge(steps, stamp, id) && !Refreshed(src, id, stamp)
    ensures !HoldsFinally(src, id, Shows(After(steps, stamp), id))
  {
    var i :| 0 <= i < |steps| && steps[i].Merge? && id in steps[i].part && Buried(After(steps[..i], stamp), id, stamp);
    HiddenRun(src, start, stamp, steps, i, |steps|, id);
    assert steps[..|steps|] == steps && Shows(After(steps, stamp), id) == None;
    var image := steps[i].part[id];
    var p :| p >= stamp && Holds(src, id, p, Some(image));
    if HoldsFinally(src, id, None) {
      var q :| (forall u :: u in src.changes && u.id == id ==> u.view.lsn <= q) && Holds(src, id, q, None);
      if p <= q { QuietHolds(src, id, p, q, Some(image), None); } else { QuietHolds(src, id, q, p, None, Some(image)); }
    }
  }

  // ------------------------------------------------------------ the precondition

  /** A merged row is visible exactly when no newer row and no tombstone was there before it. */
  lemma MergeShowsIff(rows: Rows, id: RowId, image: Image, stamp: int)
    ensures Lookup(MergeRow(rows, id, image, stamp), id) == Some(Live(stamp, image)) <==>
            id !in rows || (rows[id].lsn <= stamp && !rows[id].deleted) ||
            rows[id] == Row(image, stamp, false)
  {
  }

  /** It is needed: delete at 1, re-insert at 2, stamp 3. The merge meets the tombstone and leaves it
      standing, and the re-insert then falls below the fence: the source has the row, the target
      hides it. */
  lemma BuriedMergeHidesRow(id: RowId)
    ensures var tomb := Write(id, Tomb(1));
            var back := Write(id, Live(2, map[]));
            var src := Source(map[], {tomb, back});
            var steps := [Deliver(tomb), Merge(map[id := map[]]), Deliver(back)];
            IsLoad(src, 0, 3, steps, id) && Holds(src, id, 3, Some(map[])) && Shows(After(steps, 3), id) == None
  {
    var tomb := Write(id, Tomb(1));
    var back := Write(id, Live(2, map[]));
    var src := Source(map[], {tomb, back});
    var steps := [Deliver(tomb), Merge(map[id := map[]]), Deliver(back)];
    assert LastChange(src, id, 3, back);
    assert Holds(src, id, 3, Some(map[]));
    assert Merged(steps, id) by { assert steps[1].Merge? && id in steps[1].part; }
    BuriedRun(id);
  }

  lemma BuriedRun(id: RowId)
    ensures var tomb, back := Deliver(Write(id, Tomb(1))), Deliver(Write(id, Live(2, map[])));
            Shows(After([tomb, Merge(map[id := map[]]), back], 3), id) == None
  {
    var a, b, c := Deliver(Write(id, Tomb(1))), Merge(map[id := map[]]), Deliver(Write(id, Live(2, map[])));
    var steps := [a, b, c];
    assert steps[..2] == [a, b] && [a, b][..1] == [a];
    assert [a][..0] == [];
    assert After([a], 3) == Do(map[], a, 3);
    assert After([a], 3) == map[id := Row(map[], 1, true)];
    assert After([a, b], 3) == Do(After([a], 3), b, 3);
    assert After(steps, 3) == Do(After([a, b], 3), c, 3);
  }
}
