// Hierarchical reconciliation (internal/recon/reconcile.go): descend by range digest, bisect what
// disagrees, and compare rows at the leaves.

module Ranges {
  import opened Wrappers
  import opened Bytes
  import opened Bisection

  function Tag(k: Key): int { match k case Int(_) => 0 case Str(_) => 1 case Time(_) => 2 }

  /** The order of a key column; a column holds keys of one kind. */
  predicate KeyLess(a: Key, b: Key) {
    match (a, b)
    case (Int(x), Int(y)) => x < y
    case (Str(x), Str(y)) => Less(x, y)
    case (Time(x), Time(y)) => x < y
    case _ => Tag(a) < Tag(b)
  }

  lemma KeyLessTransitive(a: Key, b: Key, c: Key)
    requires KeyLess(a, b) && KeyLess(b, c)
    ensures KeyLess(a, c)
  {
    if a.Str? && b.Str? && c.Str? { LessTransitive(a.s, b.s, c.s); }
  }

  lemma KeyLessTotal(a: Key, b: Key)
    ensures KeyLess(a, b) || a == b || KeyLess(b, a)
    ensures !KeyLess(a, a)
  {
    if a.Str? { LessIrreflexive(a.s); }
    if a.Str? && b.Str? { LessTotal(a.s, b.s); }
  }

  /** (low, high], unbounded where a bound is missing. */
  datatype Range = Range(low: Option<Key>, high: Option<Key>)

  predicate InRange(r: Range, k: Key) {
    (r.low.Some? ==> KeyLess(r.low.value, k)) && (r.high.Some? ==> !KeyLess(r.high.value, k))
  }

  /** Bounds of one kind; integers within 64 bits. */
  predicate RangeOk(r: Range) {
    (r.low.Some? && r.high.Some? ==> Tag(r.low.value) == Tag(r.high.value)) &&
    (r.low.Some? && r.low.value.Int? ==> MIN64 <= r.low.value.n <= MAX64) &&
    (r.high.Some? && r.high.value.Int? ==> MIN64 <= r.high.value.n <= MAX64)
  }

  function Lower(r: Range, mid: Key): Range { Range(r.low, Some(mid)) }

  function Upper(r: Range, mid: Key): Range { Range(Some(mid), r.high) }

  lemma {:induction false} Extends(l: Text)
    ensures Less(l, l + [255])
  {
    if l != [] {
      assert (l + [255])[1..] == l[1..] + [255];
      Extends(l[1..]);
    }
  }

  /** A split point lies within its range and splits it into two ranges that can be split again. */
  lemma SplitWithin(r: Range)
    requires RangeOk(r) && Bisect(r.low, r.high).Some?
    ensures var mid := Bisect(r.low, r.high).value;
            RangeOk(Lower(r, mid)) && RangeOk(Upper(r, mid)) &&
            (r.low.Some? ==> !KeyLess(mid, r.low.value)) && (r.high.Some? ==> !KeyLess(r.high.value, mid))
  {
    hide Midpoint;
    var mid := Bisect(r.low, r.high).value;
    if r.low.Some? && r.low.value.Str? {
      if r.high.None? { Extends(r.low.value.s); LessAsymmetric(r.low.value.s, mid.s); }
      else { LessAsymmetric(r.low.value.s, mid.s); LessAsymmetric(mid.s, r.high.value.s); }
    } else if r.low.None? && r.high.Some? && r.high.value.Str? {
      LessAsymmetric(mid.s, r.high.value.s);
    }
  }

  lemma LessAsymmetric(a: Text, b: Text)
    requires Less(a, b)
    ensures !Less(b, a)
  {
  }

  /** The halves tile the range: every key of it is in exactly one of them, and they hold no other. */
  lemma Tiles(r: Range, k: Key)
    requires RangeOk(r) && Bisect(r.low, r.high).Some?
    ensures var mid := Bisect(r.low, r.high).value;
            (InRange(r, k) <==> InRange(Lower(r, mid), k) || InRange(Upper(r, mid), k)) &&
            !(InRange(Lower(r, mid), k) && InRange(Upper(r, mid), k))
  {
    hide Bisect;
    var mid := Bisect(r.low, r.high).value;
    SplitWithin(r);
    if r.low.Some? { AtMost(r.low.value, mid, k); }
    if r.high.Some? { AtMost(mid, r.high.value, k); }
  }

  /** With a <= b, what is above b is above a, and what is at most a is at most b. */
  lemma AtMost(a: Key, b: Key, k: Key)
    requires !KeyLess(b, a)
    ensures KeyLess(b, k) ==> KeyLess(a, k)
  {
    KeyLessTotal(a, b);
    if KeyLess(a, b) && KeyLess(b, k) { KeyLessTransitive(a, b, k); }
  }
}

/** Additive range digests. */
module Digests {
  import opened Bytes
  import opened Bisection
  import opened Ranges

  /** A table as the reconciler sees it: each row's key and the hash of its comparable columns. */
  type Table = map<Key, Text>

  datatype Digest = Digest(rows: int, sumLow: int, sumHi: int)

  function Add(a: Digest, b: Digest): Digest {
    Digest(a.rows + b.rows, a.sumLow + b.sumLow, a.sumHi + b.sumHi)
  }

  const ZERO := Digest(0, 0, 0)

  /** The two projections of a row hash that a range digest sums. */
  datatype Hashing = Hashing(low: Text -> int, high: Text -> int)

  function One(h: Hashing, row: Text): Digest { Digest(1, h.low(row), h.high(row)) }

  function Within(t: Table, r: Range): Table { map k | k in t && InRange(r, k) :: t[k] }

  ghost function Pick(t: Table): (k: Key)
    requires t != map[]
    ensures k in t
  {
    var k :| k in t;
    k
  }

  ghost function Total(h: Hashing, t: Table): Digest {
    if t == map[] then ZERO
    else
      var k := Pick(t);
      Add(One(h, t[k]), Total(h, t - {k}))
  }

  /** The order of the scan does not matter. */
  lemma {:induction false} TotalRemove(h: Hashing, t: Table, k: Key)
    requires k in t
    ensures Total(h, t) == Add(One(h, t[k]), Total(h, t - {k}))
    decreases |t|
  {
    var c := Pick(t);
    if c != k {
      TotalRemove(h, t - {c}, k);
      TotalRemove(h, t - {k}, c);
      assert t - {c} - {k} == t - {k} - {c};
    }
  }

  ghost predicate Parts(t: Table, a: Table, b: Table) {
    a.Keys !! b.Keys && t.Keys == a.Keys + b.Keys &&
    (forall k :: k in a ==> t[k] == a[k]) && forall k :: k in b ==> t[k] == b[k]
  }

  lemma PartsRemove(t: Table, a: Table, b: Table, k: Key)
    requires Parts(t, a, b) && k in a
    ensures Parts(t - {k}, a - {k}, b) && k in t && t[k] == a[k]
  {
  }

  lemma PartsEmpty(h: Hashing, t: Table, b: Table)
    requires Parts(t, map[], b)
    ensures t == b && Total(h, map[]) == ZERO
  {
  }

  /** Digests add over disjoint parts. */
  lemma {:induction false} TotalUnion(h: Hashing, t: Table, a: Table, b: Table)
    requires Parts(t, a, b)
    ensures Total(h, t) == Add(Total(h, a), Total(h, b))
    decreases |a|
  {
    hide Total, Parts, One;
    if a == map[] {
      PartsEmpty(h, t, b);
    } else {
      var k := Pick(a);
      PartsRemove(t, a, b, k);
      TotalRemove(h, a, k);
      TotalRemove(h, t, k);
      TotalUnion(h, t - {k}, a - {k}, b);
    }
  }

  lemma {:induction false} TotalRows(h: Hashing, t: Table)
    ensures Total(h, t).rows == |t|
    decreases |t|
  {
    if t != map[] {
      var k := Pick(t);
      assert (t - {k}).Keys == t.Keys - {k};
      assert |t.Keys| == |t| && |(t - {k}).Keys| == |t - {k}|;
      TotalRows(h, t - {k});
    }
  }

  ghost function DigestOf(h: Hashing, t: Table, r: Range): Digest { Total(h, Within(t, r)) }

  // ------------------------------------------------------------ what a digest is of

  /** A range without rows. */
  lemma EmptyDigest(h: Hashing, t: Table, r: Range)
    requires forall k :: k in t ==> !InRange(r, k)
    ensures DigestOf(h, t, r) == Digest(0, 0, 0)
  {
  }

  /** One more row in the range adds one to the count and the row's two projections to the sums; a row outside
      adds nothing. */
  lemma RowAdds(h: Hashing, t: Table, r: Range, k: Key, row: Text)
    requires k !in t
    ensures var before, after := DigestOf(h, t, r), DigestOf(h, t[k := row], r);
            if InRange(r, k)
            then after == Digest(before.rows + 1, before.sumLow + h.low(row), before.sumHi + h.high(row))
            else after == before
  {
    hide InRange;
    var a, b := Within(t, r), Within(t[k := row], r);
    if InRange(r, k) {
      TotalRemove(h, b, k);
      assert b - {k} == a;
    } else {
      assert b == a;
    }
  }

  /** Replacing a row of the range moves the sums by the difference of its projections. */
  lemma RowReplaced(h: Hashing, t: Table, r: Range, k: Key, row: Text)
    requires k in t && InRange(r, k)
    ensures var before, after := DigestOf(h, t, r), DigestOf(h, t[k := row], r);
            after == Digest(before.rows, before.sumLow + h.low(row) - h.low(t[k]),
                            before.sumHi + h.high(row) - h.high(t[k]))
  {
    RowAdds(h, t - {k}, r, k, t[k]);
    RowAdds(h, t - {k}, r, k, row);
    assert (t - {k})[k := t[k]] == t && (t - {k})[k := row] == t[k := row];
  }

  /** RangeDigestQuery: one pass over the rows of the range, in whatever order the engine likes. */
  method RangeDigest(h: Hashing, t: Table, r: Range) returns (d: Digest)
    ensures d == DigestOf(h, t, r)
  {
    d := ZERO;
    var rest := Within(t, r);
    while rest != map[]
      invariant Add(d, Total(h, rest)) == DigestOf(h, t, r)
      decreases |rest|
    {
      var k :| k in rest;
      TotalRemove(h, rest, k);
      d := Add(d, One(h, rest[k]));
      rest := rest - {k};
    }
  }

  /** The digest of a range is the sum of its halves' digests. */
  lemma SplitDigest(h: Hashing, t: Table, r: Range)
    requires RangeOk(r) && Bisect(r.low, r.high).Some?
    ensures var mid := Bisect(r.low, r.high).value;
            DigestOf(h, t, r) == Add(DigestOf(h, t, Lower(r, mid)), DigestOf(h, t, Upper(r, mid)))
  {
    hide Bisect, InRange;
    var mid := Bisect(r.low, r.high).value;
    var a, b := Within(t, Lower(r, mid)), Within(t, Upper(r, mid));
    forall k ensures k in Within(t, r) <==> k in a || k in b
             ensures !(k in a && k in b) { Tiles(r, k); }
    TotalUnion(h, Within(t, r), a, b);
  }
}
