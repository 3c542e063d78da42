// What the LSN-fenced statements do to rows (internal/dialect/postgres.go), and the algebra
// that makes them safe under replay and reordering.

module FencedRows {
  import opened Wrappers
  import opened Bytes

  datatype Value = Null | Datum(text: Text)

  /** The non-key columns of one row. */
  type Image = map<Text, Value>

  /** A row of a migrated table is addressed by its table and its canonical key. */
  datatype RowId = RowId(table: Text, key: Text)

  /** The stored row, with the platform's _mig_lsn and _mig_deleted columns. */
  datatype Row = Row(image: Image, lsn: int, deleted: bool)
  type Rows = map<RowId, Row>

  // ------------------------------------------------------------ statements

  /** INSERT .. ON CONFLICT DO UPDATE SET every column, lsn, deleted = FALSE WHERE stored.lsn <= new.lsn */
  function FencedUpsert(rows: Rows, id: RowId, image: Image, lsn: int): Rows {
    if id !in rows || rows[id].lsn <= lsn then rows[id := Row(image, lsn, false)] else rows
  }

  /** The tombstone write names only the key, the LSN and the flag: a stored image stays in place. */
  function FencedDelete(rows: Rows, id: RowId, lsn: int): Rows {
    if id !in rows then rows[id := Row(map[], lsn, true)]
    else if rows[id].lsn <= lsn then rows[id := rows[id].(lsn := lsn, deleted := true)]
    else rows
  }

  /** The merge of one staged row: its UPDATE branch assigns the columns and the LSN, never the flag. */
  function MergeRow(rows: Rows, id: RowId, image: Image, stamp: int): Rows {
    if id !in rows then rows[id := Row(image, stamp, false)]
    else if rows[id].lsn <= stamp then rows[id := rows[id].(image := image, lsn := stamp)]
    else rows
  }

  // ------------------------------------------------------------ what a reader of the target sees

  /** A tombstone hides whatever columns it still carries. */
  datatype View = Live(lsn: int, image: Image) | Tomb(lsn: int)

  function Visible(r: Row): View {
    if r.deleted then Tomb(r.lsn) else Live(r.lsn, r.image)
  }

  function Lookup(rows: Rows, id: RowId): Option<View> {
    if id in rows then Some(Visible(rows[id])) else None
  }

  ghost predicate SameView(a: Rows, b: Rows) {
    forall id :: Lookup(a, id) == Lookup(b, id)
  }

  /** A fenced write: an upsert of an image or a tombstone, each at an LSN. */
  datatype Write = Write(id: RowId, view: View)

  function Exec(rows: Rows, w: Write): Rows {
    match w.view
    case Live(lsn, image) => FencedUpsert(rows, w.id, image, lsn)
    case Tomb(lsn) => FencedDelete(rows, w.id, lsn)
  }

  function ExecAll(rows: Rows, ws: seq<Write>): Rows
    decreases |ws|
  {
    if ws == [] then rows else ExecAll(Exec(rows, ws[0]), ws[1..])
  }

  // ------------------------------------------------------------ the algebra of one row

  /** Of two writes to a row the later arrival wins unless its LSN is lower. */
  function Later(a: View, b: View): View {
    if a.lsn <= b.lsn then b else a
  }

  function Newer(stored: Option<View>, w: View): View {
    if stored.None? then w else Later(stored.value, w)
  }

  function FoldRow(stored: Option<View>, vs: seq<View>): Option<View>
    decreases |vs|
  {
    if vs == [] then stored else FoldRow(Some(Newer(stored, vs[0])), vs[1..])
  }

  function LaterAll(vs: seq<View>): View
    requires vs != []
  {
    if |vs| == 1 then vs[0] else Later(LaterAll(vs[..|vs| - 1]), vs[|vs| - 1])
  }

  /** The writes of a sequence that address one row, in order. */
  function OfRow(ws: seq<Write>, id: RowId): seq<View> {
    if ws == [] then []
    else (if ws[0].id == id then [ws[0].view] else []) + OfRow(ws[1..], id)
  }

  lemma ExecVisible(rows: Rows, w: Write, id: RowId)
    ensures Lookup(Exec(rows, w), id) ==
            if id == w.id then Some(Newer(Lookup(rows, id), w.view)) else Lookup(rows, id)
  {
  }

  lemma {:induction false} FoldRowConcat(v: Option<View>, a: seq<View>, b: seq<View>)
    ensures FoldRow(v, a + b) == FoldRow(FoldRow(v, a), b)
    decreases |a|
  {
    if a == [] {
      assert a + b == b;
    } else {
      assert (a + b)[1..] == a[1..] + b;
      FoldRowConcat(Some(Newer(v, a[0])), a[1..], b);
    }
  }

  /** Replaying any number of writes to a row amounts to one write, the latest of the newest. */
  lemma {:induction false} FoldRowLater(v: Option<View>, vs: seq<View>)
    requires vs != []
    ensures FoldRow(v, vs) == Some(Newer(v, LaterAll(vs)))
    decreases |vs|
  {
    var n := |vs| - 1;
    assert vs == vs[..n] + [vs[n]];
    FoldRowConcat(v, vs[..n], [vs[n]]);
    if n > 0 { FoldRowLater(v, vs[..n]); }
  }

  lemma {:induction false} LaterAllNewest(vs: seq<View>)
    requires vs != []
    ensures LaterAll(vs) in vs
    ensures forall v :: v in vs ==> v.lsn <= LaterAll(vs).lsn
    decreases |vs|
  {
    var n := |vs| - 1;
    assert vs == vs[..n] + [vs[n]];
    if n > 0 { LaterAllNewest(vs[..n]); }
  }

  /** Statements on a table act row by row. */
  lemma {:induction false} ExecAllRow(rows: Rows, ws: seq<Write>, id: RowId)
    ensures Lookup(ExecAll(rows, ws), id) == FoldRow(Lookup(rows, id), OfRow(ws, id))
    decreases |ws|
  {
    if ws != [] {
      ExecVisible(rows, ws[0], id);
      assert ([ws[0].view] + OfRow(ws[1..], id))[1..] == OfRow(ws[1..], id);
      assert ws[0].id != id ==> OfRow(ws, id) == OfRow(ws[1..], id);
      ExecAllRow(Exec(rows, ws[0]), ws[1..], id);
    }
  }

  lemma {:induction false} ExecAllConcat(rows: Rows, a: seq<Write>, b: seq<Write>)
    ensures ExecAll(rows, a + b) == ExecAll(ExecAll(rows, a), b)
    decreases |a|
  {
    if a == [] {
      assert a + b == b;
    } else {
      assert (a + b)[1..] == a[1..] + b;
      ExecAllConcat(Exec(rows, a[0]), a[1..], b);
    }
  }

  lemma {:induction false} OfRowMember(ws: seq<Write>, id: RowId, v: View)
    ensures v in OfRow(ws, id) <==> Write(id, v) in ws
  {
    if ws != [] { OfRowMember(ws[1..], id, v); }
  }

  // ------------------------------------------------------------ convergence

  /** At most one distinct write per row and LSN. */
  ghost predicate OneWritePerLsn(ws: set<Write>) {
    forall a, b :: a in ws && b in ws && a.id == b.id && a.view.lsn == b.view.lsn ==> a == b
  }

  ghost function Elements(ws: seq<Write>): set<Write> { set w | w in ws }

  /** The view is the highest-LSN write that the set holds for the row. */
  ghost predicate IsNewest(v: View, ws: set<Write>, id: RowId) {
    Write(id, v) in ws && forall w :: w in ws && w.id == id ==> w.view.lsn <= v.lsn
  }

  /** Any delivery of a set of writes leaves a row at its newest write, unless the target already
      held something newer; a row no write names is left alone. */
  lemma DeliveredNewest(rows: Rows, ws: seq<Write>, id: RowId)
    ensures (forall w :: w in ws ==> w.id != id) ==> Lookup(ExecAll(rows, ws), id) == Lookup(rows, id)
    ensures (exists w :: w in ws && w.id == id) ==>
              exists v :: IsNewest(v, Elements(ws), id) &&
                          Lookup(ExecAll(rows, ws), id) == Some(Newer(Lookup(rows, id), v))
  {
    var vs := OfRow(ws, id);
    ExecAllRow(rows, ws, id);
    if vs == [] {
      forall w | w in ws ensures w.id != id { OfRowMember(ws, w.id, w.view); assert w == Write(w.id, w.view); }
    } else {
      var v := LaterAll(vs);
      FoldRowLater(Lookup(rows, id), vs);
      LaterAllNewest(vs);
      OfRowMember(ws, id, v);
      forall w | w in ws && w.id == id ensures w.view.lsn <= v.lsn {
        OfRowMember(ws, id, w.view);
        assert w == Write(id, w.view);
      }
      assert IsNewest(v, Elements(ws), id);
    }
  }

  /** Each row has one newest write, or the target already holds something newer. */
  ghost predicate OneNewest(rows: Rows, ws: set<Write>) {
    forall id, u, v :: IsNewest(u, ws, id) && IsNewest(v, ws, id) && u != v ==>
      Lookup(rows, id).Some? && Lookup(rows, id).value.lsn > u.lsn
  }

  lemma SameDelivery(rows: Rows, a: seq<Write>, b: seq<Write>)
    requires Elements(a) == Elements(b) && OneNewest(rows, Elements(a))
    ensures SameView(ExecAll(rows, a), ExecAll(rows, b))
  {
    hide ExecAll, Lookup;
    forall id ensures Lookup(ExecAll(rows, a), id) == Lookup(ExecAll(rows, b), id) {
      DeliveredNewest(rows, a, id);
      DeliveredNewest(rows, b, id);
      if exists w :: w in a && w.id == id {
        var w :| w in a && w.id == id;
        assert w in Elements(a) && w in Elements(b) && w in b;
        var v :| IsNewest(v, Elements(a), id) && Lookup(ExecAll(rows, a), id) == Some(Newer(Lookup(rows, id), v));
        var u :| IsNewest(u, Elements(b), id) && Lookup(ExecAll(rows, b), id) == Some(Newer(Lookup(rows, id), u));
        assert v.lsn == u.lsn;
      } else {
        forall w | w in b ensures w.id != id { assert w in Elements(b) && w in Elements(a); }
      }
    }
  }

  /** Redelivering a newest write last makes the row show it. */
  lemma NewestLast(rows: Rows, a: seq<Write>, v: View, id: RowId)
    requires IsNewest(v, Elements(a), id)
    requires Lookup(rows, id).Some? ==> Lookup(rows, id).value.lsn <= v.lsn
    ensures Lookup(ExecAll(rows, a + [Write(id, v)]), id) == Some(v)
    ensures Elements(a + [Write(id, v)]) == Elements(a)
  {
    var w := Write(id, v);
    assert w in a;
    DeliveredNewest(rows, a, id);
    ExecAllConcat(rows, a, [w]);
    assert ExecAll(ExecAll(rows, a), [w]) == Exec(ExecAll(rows, a), w) by { assert [w][1..] == []; }
    ExecVisible(ExecAll(rows, a), w, id);
  }

  /** Convergence, exactly: permuting and repeating deliveries never changes what the target shows if and
      only if every row that is not already newer has a single newest write. */
  lemma ConvergesIff(rows: Rows, a: seq<Write>)
    ensures (forall b :: Elements(b) == Elements(a) ==> SameView(ExecAll(rows, a), ExecAll(rows, b))) <==>
            OneNewest(rows, Elements(a))
  {
    hide ExecAll, Lookup;
    if OneNewest(rows, Elements(a)) {
      forall b | Elements(b) == Elements(a) ensures SameView(ExecAll(rows, a), ExecAll(rows, b)) {
        SameDelivery(rows, a, b);
      }
    } else {
      var id, u, v :| IsNewest(u, Elements(a), id) && IsNewest(v, Elements(a), id) && u != v &&
                      !(Lookup(rows, id).Some? && Lookup(rows, id).value.lsn > u.lsn);
      NewestLast(rows, a, u, id);
      NewestLast(rows, a, v, id);
      assert !SameView(ExecAll(rows, a), ExecAll(rows, a + [Write(id, u)])) ||
             !SameView(ExecAll(rows, a), ExecAll(rows, a + [Write(id, v)]));
    }
  }

  /** In particular when the source writes a row at most once per LSN. */
  lemma Converges(rows: Rows, a: seq<Write>, b: seq<Write>)
    requires Elements(a) == Elements(b) && OneWritePerLsn(Elements(a))
    ensures SameView(ExecAll(rows, a), ExecAll(rows, b))
  {
    forall id, u, v | IsNewest(u, Elements(a), id) && IsNewest(v, Elements(a), id) ensures u == v {
      assert u.lsn == v.lsn;
      assert Write(id, u) == Write(id, v);
    }
    SameDelivery(rows, a, b);
  }

  /** Without the hypothesis arrival order shows: two writes of one row at one LSN. */
  lemma EqualLsnDoesNotConverge(id: RowId)
    ensures var u := Write(id, Live(1, map[]));
            var d := Write(id, Tomb(1));
            Elements([u, d]) == Elements([d, u]) &&
            !SameView(ExecAll(map[], [u, d]), ExecAll(map[], [d, u]))
  {
    var u := Write(id, Live(1, map[]));
    var d := Write(id, Tomb(1));
    assert [u, d][1..] == [d] && [d, u][1..] == [u];
    assert ExecAll(map[], [u, d]) == ExecAll(Exec(map[], u), [d]) == Exec(Exec(map[], u), d);
    assert ExecAll(map[], [d, u]) == ExecAll(Exec(map[], d), [u]) == Exec(Exec(map[], d), u);
    assert Lookup(Exec(Exec(map[], u), d), id) == Some(d.view);
    assert Lookup(Exec(Exec(map[], d), u), id) == Some(u.view);
    assert u in [u, d] && d in [u, d] && u in [d, u] && d in [d, u];
  }

  /** No delivery of older writes brings a deleted row back, and no delivery lowers a row's LSN. */
  lemma TombstoneHolds(rows: Rows, ws: seq<Write>, id: RowId)
    requires id in rows
    ensures id in ExecAll(rows, ws) && rows[id].lsn <= ExecAll(rows, ws)[id].lsn
    ensures rows[id].deleted && (forall w :: w in ws && w.id == id ==> w.view.lsn < rows[id].lsn) ==>
              Lookup(ExecAll(rows, ws), id) == Some(Tomb(rows[id].lsn))
  {
    DeliveredNewest(rows, ws, id);
    if exists w :: w in ws && w.id == id {
      var v :| IsNewest(v, Elements(ws), id) && Lookup(ExecAll(rows, ws), id) == Some(Newer(Lookup(rows, id), v));
    }
  }
}
