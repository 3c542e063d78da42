// MySQL has no WHERE on ON DUPLICATE KEY UPDATE, so internal/dialect/mysql.go renders the fence
// into every assignment. The assignments run left to right over the stored row, and the stored
// LSN they all test is itself reassigned midway. This module runs them that way and shows that
// each statement still does what the single guarded update of internal/dialect/postgres.go does.

module MySqlForm {
  import opened Bytes
  import opened FencedRows

  /** A stored or incoming MySQL row, with the wall-clock column that Row leaves out. */
  datatype MyRow = MyRow(image: Image, lsn: int, deleted: bool, updatedAt: int)
  type MyRows = map<RowId, MyRow>

  function Erase(r: MyRow): Row { Row(r.image, r.lsn, r.deleted) }

  function EraseAll(rows: MyRows): Rows { map id | id in rows :: Erase(rows[id]) }

  /** `col = IF(fence, new.col, col)` and its three metadata relatives. */
  datatype Assignment = SetColumn(name: Text) | SetLsn | SetDeleted(flag: bool) | SetUpdatedAt

  /** The fence reads the LSN as it stands when the assignment runs. */
  function Step(row: MyRow, new_row: MyRow, a: Assignment): MyRow {
    if row.lsn <= new_row.lsn then
      match a
      case SetColumn(c) => row.(image := row.image[c := if c in new_row.image then new_row.image[c] else Null])
      case SetLsn => row.(lsn := new_row.lsn)
      case SetDeleted(flag) => row.(deleted := flag)
      case SetUpdatedAt => row.(updatedAt := new_row.updatedAt)
    else row
  }

  function Run(row: MyRow, new_row: MyRow, list: seq<Assignment>): MyRow {
    if list == [] then row
    else Step(Run(row, new_row, list[..|list| - 1]), new_row, list[|list| - 1])
  }

  /** MySQL executing the assignment list of one conflicting tuple. */
  method OnDuplicateKeyUpdate(stored: MyRow, new_row: MyRow, list: seq<Assignment>) returns (row: MyRow)
    ensures row == Run(stored, new_row, list)
  {
    row := stored;
    for i := 0 to |list|
      invariant row == Run(stored, new_row, list[..i])
    {
      row := Step(row, new_row, list[i]);
      assert list[..i + 1][..i] == list[..i];
    }
    assert list[..|list|] == list;
  }

  // ------------------------------------------------------------ the three statements

  function ColumnAssignments(columns: seq<Text>): (list: seq<Assignment>)
    ensures |list| == |columns|
    ensures forall i :: 0 <= i < |columns| ==> list[i] == SetColumn(columns[i])
  {
    seq(|columns|, i requires 0 <= i < |columns| => SetColumn(columns[i]))
  }

  function UpsertList(columns: seq<Text>): seq<Assignment> {
    ColumnAssignments(columns) + [SetLsn, SetDeleted(false), SetUpdatedAt]
  }

  const DELETE_LIST: seq<Assignment> := [SetDeleted(true), SetLsn, SetUpdatedAt]

  function MergeList(columns: seq<Text>): seq<Assignment> {
    ColumnAssignments(columns) + [SetLsn, SetUpdatedAt]
  }

  function Insert(rows: MyRows, id: RowId, new_row: MyRow, list: seq<Assignment>): MyRows {
    rows[id := if id in rows then Run(rows[id], new_row, list) else new_row]
  }

  // ------------------------------------------------------------ agreement with Postgres

  /** The prefix of column assignments copies exactly those columns, or none when the fence is shut. */
  lemma {:induction false} RunColumns(row: MyRow, new_row: MyRow, columns: seq<Text>, n: nat)
    requires n <= |columns|
    ensures var r := Run(row, new_row, ColumnAssignments(columns)[..n]);
            r == row.(image := r.image) &&
            if row.lsn <= new_row.lsn then
              (forall c :: c in r.image <==> c in row.image || c in columns[..n]) &&
              forall c :: c in r.image ==>
                r.image[c] == if c in columns[..n] then (if c in new_row.image then new_row.image[c] else Null)
                              else row.image[c]
            else r == row
  {
    if n > 0 {
      RunColumns(row, new_row, columns, n - 1);
      var list := ColumnAssignments(columns);
      assert list[..n][..n - 1] == list[..n - 1];
      assert columns[..n] == columns[..n - 1] + [columns[n - 1]];
    }
  }

  lemma {:induction false} RunConcat(row: MyRow, new_row: MyRow, a: seq<Assignment>, b: seq<Assignment>)
    ensures Run(row, new_row, a + b) == Run(Run(row, new_row, a), new_row, b)
    decreases |b|
  {
    if b == [] {
      assert a + b == a;
    } else {
      assert (a + b)[..|a + b| - 1] == a + b[..|b| - 1];
      RunConcat(row, new_row, a, b[..|b| - 1]);
    }
  }

  /** The table's columns are the incoming image's columns, and the stored image has no others. */
  ghost predicate Fits(columns: seq<Text>, image: Image, rows: MyRows, id: RowId) {
    (forall c :: c in image <==> c in columns) && (id in rows ==> rows[id].image.Keys <= image.Keys)
  }

  /** All of them copy the whole image, or nothing. */
  lemma RunAllColumns(row: MyRow, new_row: MyRow, columns: seq<Text>)
    requires forall c :: c in new_row.image <==> c in columns
    requires row.image.Keys <= new_row.image.Keys
    ensures Run(row, new_row, ColumnAssignments(columns)) ==
            if row.lsn <= new_row.lsn then row.(image := new_row.image) else row
  {
    var list := ColumnAssignments(columns);
    RunColumns(row, new_row, columns, |columns|);
    assert list[..|columns|] == list && columns[..|columns|] == columns;
    var r := Run(row, new_row, list);
    if row.lsn <= new_row.lsn {
      assert forall c :: c in row.image ==> c in new_row.image;
      assert r.image == new_row.image;
    }
  }

  lemma CopiesImage(columns: seq<Text>, row: MyRow, new_row: MyRow, rest: seq<Assignment>)
    requires forall c :: c in new_row.image <==> c in columns
    requires row.image.Keys <= new_row.image.Keys
    ensures Run(row, new_row, ColumnAssignments(columns) + rest) ==
            Run(if row.lsn <= new_row.lsn then row.(image := new_row.image) else row, new_row, rest)
  {
    RunConcat(row, new_row, ColumnAssignments(columns), rest);
    RunAllColumns(row, new_row, columns);
  }

  lemma RunThree(row: MyRow, new_row: MyRow, a: Assignment, b: Assignment, c: Assignment)
    ensures Run(row, new_row, [a, b, c]) == Step(Step(Step(row, new_row, a), new_row, b), new_row, c)
    ensures Run(row, new_row, [a, b]) == Step(Step(row, new_row, a), new_row, b)
  {
    assert Run(row, new_row, [a]) == Step(row, new_row, a);
    assert [a, b][..1] == [a];
    assert Run(row, new_row, [a, b]) == Step(Run(row, new_row, [a]), new_row, b);
    assert [a, b, c][..2] == [a, b];
  }

  lemma UpsertAgrees(rows: MyRows, id: RowId, columns: seq<Text>, image: Image, lsn: int, now: int)
    requires Fits(columns, image, rows, id)
    ensures EraseAll(Insert(rows, id, MyRow(image, lsn, false, now), UpsertList(columns))) ==
            FencedUpsert(EraseAll(rows), id, image, lsn)
  {
    var new_row := MyRow(image, lsn, false, now);
    if id in rows {
      CopiesImage(columns, rows[id], new_row, [SetLsn, SetDeleted(false), SetUpdatedAt]);
      var copied := if rows[id].lsn <= lsn then rows[id].(image := image) else rows[id];
      RunThree(copied, new_row, SetLsn, SetDeleted(false), SetUpdatedAt);
    }
  }

  lemma DeleteAgrees(rows: MyRows, id: RowId, lsn: int, now: int)
    ensures EraseAll(Insert(rows, id, MyRow(map[], lsn, true, now), DELETE_LIST)) ==
            FencedDelete(EraseAll(rows), id, lsn)
  {
    if id in rows {
      RunThree(rows[id], MyRow(map[], lsn, true, now), SetDeleted(true), SetLsn, SetUpdatedAt);
    }
  }

  lemma MergeAgrees(rows: MyRows, id: RowId, columns: seq<Text>, image: Image, stamp: int, now: int)
    requires Fits(columns, image, rows, id)
    ensures EraseAll(Insert(rows, id, MyRow(image, stamp, false, now), MergeList(columns))) ==
            MergeRow(EraseAll(rows), id, image, stamp)
  {
    var new_row := MyRow(image, stamp, false, now);
    if id in rows {
      CopiesImage(columns, rows[id], new_row, [SetLsn, SetUpdatedAt]);
      var copied := if rows[id].lsn <= stamp then rows[id].(image := image) else rows[id];
      RunThree(copied, new_row, SetLsn, SetUpdatedAt, SetUpdatedAt);
    }
  }
}

/** The stored stream position of each partition (applied_offset), in both engines' forms. */
module Offsets {
  import opened Bytes

  datatype Partition = Partition(topic: Text, number: int)
  datatype Mark = Mark(offset: int, lastLsn: int)
  type Marks = map<Partition, Mark>

  /** ON CONFLICT DO UPDATE SET offset, last_lsn WHERE stored.offset <= new.offset */
  function UpsertOffset(marks: Marks, p: Partition, m: Mark): Marks {
    if p !in marks || marks[p].offset <= m.offset then marks[p := m] else marks
  }

  /** MySQL's two conditional assignments: the second tests the offset the first has just written. */
  function UpsertOffsetMySql(marks: Marks, p: Partition, m: Mark): Marks {
    if p !in marks then marks[p := m]
    else
      var first := marks[p].(offset := if marks[p].offset <= m.offset then m.offset else marks[p].offset);
      var second := first.(lastLsn := if first.offset <= m.offset then m.lastLsn else first.lastLsn);
      marks[p := second]
  }

  lemma OffsetFormsAgree(marks: Marks, p: Partition, m: Mark)
    ensures UpsertOffsetMySql(marks, p, m) == UpsertOffset(marks, p, m)
    ensures p in marks ==> marks[p].offset <= UpsertOffset(marks, p, m)[p].offset
  {
  }
}
