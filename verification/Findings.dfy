// The findings of a reconciliation run and the order they are returned in (internal/recon/reconcile.go).

module Findings {
  import opened Bytes
  import opened Bisection
  import opened Ranges

  /** A discrepancy: a row, by key, or a range the descent could not resolve with both row counts. */
  datatype Finding =
    | MissingInTarget(key: Key)
    | MissingInSource(key: Key)
    | ValueMismatch(key: Key)
    | RangeUnresolved(range: Range, sourceRows: int, targetRows: int)

  /** The key hash a finding carries; an unresolved range has none. */
  function HashOf(keyHash: Key -> Text, f: Finding): Text { if f.RangeUnresolved? then [] else keyHash(f.key) }

  /** One step of the stable sort: f goes after everything that does not hash above it. */
  function Place(keyHash: Key -> Text, s: seq<Finding>, f: Finding): (r: seq<Finding>)
    ensures |r| == |s| + 1
  {
    if s == [] || Less(HashOf(keyHash, f), HashOf(keyHash, s[0])) then [f] + s
    else [s[0]] + Place(keyHash, s[1..], f)
  }

  /** sort.SliceStable by key hash. */
  function ByHash(keyHash: Key -> Text, fs: seq<Finding>): (r: seq<Finding>)
    ensures |r| == |fs|
  {
    if fs == [] then [] else Place(keyHash, ByHash(keyHash, fs[..|fs| - 1]), fs[|fs| - 1])
  }

  method SortByHash(keyHash: Key -> Text, fs: seq<Finding>) returns (res: seq<Finding>)
    ensures res == ByHash(keyHash, fs)
  {
    res := [];
    for i := 0 to |fs|
      invariant res == ByHash(keyHash, fs[..i])
    {
      var prefix := fs[..i + 1];
      assert prefix[..i] == fs[..i] && prefix[i] == fs[i];
      res := Place(keyHash, res, fs[i]);
    }
    assert fs[..|fs|] == fs;
  }

  ghost predicate HashOrder(keyHash: Key -> Text, s: seq<Finding>) {
    forall i, j :: 0 <= i < j < |s| ==> !Less(HashOf(keyHash, s[j]), HashOf(keyHash, s[i]))
  }

  /** The findings with one hash, in order. */
  function WithHash(keyHash: Key -> Text, s: seq<Finding>, h: Text): seq<Finding> {
    if s == [] then []
    else (if HashOf(keyHash, s[0]) == h then [s[0]] else []) + WithHash(keyHash, s[1..], h)
  }

  lemma {:induction false} PlaceAdds(keyHash: Key -> Text, s: seq<Finding>, f: Finding)
    ensures multiset(Place(keyHash, s, f)) == multiset(s) + multiset{f}
  {
    if s != [] {
      PlaceAdds(keyHash, s[1..], f);
      assert s == [s[0]] + s[1..];
    }
  }

  lemma NotLessTransitive(a: Text, b: Text, c: Text)
    requires !Less(b, a) && !Less(c, b)
    ensures !Less(c, a)
  {
    LessTotal(a, b);
    LessTotal(b, c);
    LessIrreflexive(a);
    if Less(c, a) {
      if Less(a, b) { LessTransitive(c, a, b); }
    }
  }

  lemma LessNotLess(a: Text, b: Text)
    requires Less(a, b)
    ensures !Less(b, a) && a != b
  {
    LessIrreflexive(a);
    if Less(b, a) { LessTransitive(a, b, a); }
  }

  lemma {:induction false} PlaceOrdered(keyHash: Key -> Text, s: seq<Finding>, f: Finding)
    requires HashOrder(keyHash, s)
    ensures HashOrder(keyHash, Place(keyHash, s, f))
  {
    hide Less, HashOf;
    if s != [] {
      var h := HashOf(keyHash, f);
      if Less(h, HashOf(keyHash, s[0])) {
        LessNotLess(h, HashOf(keyHash, s[0]));
        forall k | 0 <= k < |s| ensures !Less(HashOf(keyHash, s[k]), h) {
          if k > 0 { NotLessTransitive(h, HashOf(keyHash, s[0]), HashOf(keyHash, s[k])); }
        }
      } else {
        PlaceOrdered(keyHash, s[1..], f);
        PlaceAdds(keyHash, s[1..], f);
        var r := Place(keyHash, s[1..], f);
        forall k | 0 <= k < |r| ensures !Less(HashOf(keyHash, r[k]), HashOf(keyHash, s[0])) {
          assert r[k] in multiset(r);
          if r[k] != f { var j :| 1 <= j < |s| && s[j] == r[k]; }
        }
      }
    }
  }

  lemma {:induction false} NoneAbove(keyHash: Key -> Text, s: seq<Finding>, h: Text)
    requires HashOrder(keyHash, s) && s != [] && Less(h, HashOf(keyHash, s[0]))
    ensures WithHash(keyHash, s, h) == []
  {
    LessNotLess(h, HashOf(keyHash, s[0]));
    if |s| > 1 {
      NotLessTransitive(h, HashOf(keyHash, s[0]), HashOf(keyHash, s[1]));
      AboveStays(h, HashOf(keyHash, s[0]), HashOf(keyHash, s[1]));
      NoneAbove(keyHash, s[1..], h);
    }
  }

  lemma AboveStays(h: Text, a: Text, b: Text)
    requires Less(h, a) && !Less(b, a)
    ensures Less(h, b)
  {
    LessTotal(a, b);
    if Less(a, b) { LessTransitive(h, a, b); }
  }

  lemma {:induction false} PlaceStable(keyHash: Key -> Text, s: seq<Finding>, f: Finding, h: Text)
    requires HashOrder(keyHash, s)
    ensures WithHash(keyHash, Place(keyHash, s, f), h) ==
            WithHash(keyHash, s, h) + if HashOf(keyHash, f) == h then [f] else []
  {
    hide Less, HashOf;
    if s == [] {
      assert [f][1..] == [];
    } else if Less(HashOf(keyHash, f), HashOf(keyHash, s[0])) {
      assert ([f] + s)[1..] == s;
      if HashOf(keyHash, f) == h { NoneAbove(keyHash, s, h); }
    } else {
      var more := Place(keyHash, s[1..], f);
      PlaceStable(keyHash, s[1..], f, h);
      assert Place(keyHash, s, f) == [s[0]] + more && ([s[0]] + more)[1..] == more;
      var first := if HashOf(keyHash, s[0]) == h then [s[0]] else [];
      var last := if HashOf(keyHash, f) == h then [f] else [];
      assert first + (WithHash(keyHash, s[1..], h) + last) == WithHash(keyHash, s, h) + last;
    }
  }

  lemma {:induction false} WithHashSnoc(keyHash: Key -> Text, s: seq<Finding>, f: Finding, h: Text)
    ensures WithHash(keyHash, s + [f], h) == WithHash(keyHash, s, h) + if HashOf(keyHash, f) == h then [f] else []
  {
    hide HashOf;
    if s == [] {
      assert s + [f] == [f] && [f][1..] == [];
    } else {
      WithHashSnoc(keyHash, s[1..], f, h);
      assert (s + [f])[0] == s[0] && (s + [f])[1..] == s[1..] + [f];
      var first := if HashOf(keyHash, s[0]) == h then [s[0]] else [];
      var last := if HashOf(keyHash, f) == h then [f] else [];
      assert first + (WithHash(keyHash, s[1..], h) + last) == WithHash(keyHash, s, h) + last;
    }
  }

  /** The result is ordered by hash, holds the same findings, and keeps the order of those that share a hash. */
  lemma {:induction false} ByHashSorts(keyHash: Key -> Text, fs: seq<Finding>, h: Text)
    ensures HashOrder(keyHash, ByHash(keyHash, fs))
    ensures multiset(ByHash(keyHash, fs)) == multiset(fs)
    ensures WithHash(keyHash, ByHash(keyHash, fs), h) == WithHash(keyHash, fs, h)
    decreases |fs|
  {
    if fs != [] {
      var n := |fs| - 1;
      assert fs == fs[..n] + [fs[n]];
      ByHashSorts(keyHash, fs[..n], h);
      PlaceOrdered(keyHash, ByHash(keyHash, fs[..n]), fs[n]);
      PlaceAdds(keyHash, ByHash(keyHash, fs[..n]), fs[n]);
      PlaceStable(keyHash, ByHash(keyHash, fs[..n]), fs[n], h);
      WithHashSnoc(keyHash, fs[..n], fs[n], h);
    }
  }

  /** In terms of the keys: row findings come in the order of their key hashes, and an unresolved range, which has none,
      comes before them. */
  lemma KeyHashOrder(keyHash: Key -> Text, fs: seq<Finding>, i: nat, j: nat)
    requires i < j < |fs| && !ByHash(keyHash, fs)[i].RangeUnresolved?
    ensures var f, g := ByHash(keyHash, fs)[i], ByHash(keyHash, fs)[j];
            if g.RangeUnresolved? then keyHash(f.key) == [] else !Less(keyHash(g.key), keyHash(f.key))
  {
    ByHashSorts(keyHash, fs, []);
    hide ByHash;
  }

  /** No key is named by two of the findings. */
  ghost predicate KeyedOnce(fs: seq<Finding>) {
    forall i, j :: 0 <= i < j < |fs| && !fs[i].RangeUnresolved? && !fs[j].RangeUnresolved? ==> fs[i].key != fs[j].key
  }

  lemma {:induction false} PlaceOnce(keyHash: Key -> Text, s: seq<Finding>, f: Finding)
    requires KeyedOnce(s) && forall g :: g in s && !g.RangeUnresolved? && !f.RangeUnresolved? ==> g.key != f.key
    ensures KeyedOnce(Place(keyHash, s, f))
  {
    hide Less, HashOf;
    if s != [] && !Less(HashOf(keyHash, f), HashOf(keyHash, s[0])) {
      PlaceOnce(keyHash, s[1..], f);
      PlaceAdds(keyHash, s[1..], f);
      var r := Place(keyHash, s[1..], f);
      forall k | 0 <= k < |r| && !r[k].RangeUnresolved? && !s[0].RangeUnresolved? ensures r[k].key != s[0].key {
        assert r[k] in multiset(r);
        if r[k] != f { var j :| 1 <= j < |s| && s[j] == r[k]; }
      }
    }
  }

  lemma {:induction false} ByHashOnce(keyHash: Key -> Text, fs: seq<Finding>)
    requires KeyedOnce(fs)
    ensures KeyedOnce(ByHash(keyHash, fs))
    decreases |fs|
  {
    if fs != [] {
      var n := |fs| - 1;
      ByHashOnce(keyHash, fs[..n]);
      ByHashSorts(keyHash, fs[..n], []);
      forall g | g in ByHash(keyHash, fs[..n]) && !g.RangeUnresolved? && !fs[n].RangeUnresolved?
        ensures g.key != fs[n].key
      {
        assert g in multiset(fs[..n]);
      }
      PlaceOnce(keyHash, ByHash(keyHash, fs[..n]), fs[n]);
    }
  }
}
