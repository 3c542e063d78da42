// Shared vocabulary: options, Go byte strings and their order, and the ceiling logarithm
// that both bisections (of a failing batch and of a mismatching key range) are measured in.

module Wrappers {
  datatype Option<+T> = None | Some(value: T)
}

/** Go strings: byte sequences, compared bytewise. */
module Bytes {
  type byte = n: int | 0 <= n < 256
  type Text = seq<byte>

  /** The bytes of a string of ASCII characters. */
  function Ascii(s: string): (t: Text)
    requires forall i :: 0 <= i < |s| ==> s[i] as int < 128
    ensures |t| == |s|
  {
    seq<byte>(|s|, i requires 0 <= i < |s| => s[i] as int)
  }

  /** Go's `a < b` on strings. */
  predicate Less(a: Text, b: Text) {
    b != [] && (a == [] || a[0] < b[0] || (a[0] == b[0] && Less(a[1..], b[1..])))
  }

  lemma {:induction false} LessIrreflexive(a: Text)
    ensures !Less(a, a)
  {
    if a != [] { LessIrreflexive(a[1..]); }
  }

  lemma {:induction false} LessTransitive(a: Text, b: Text, c: Text)
    requires Less(a, b) && Less(b, c)
    ensures Less(a, c)
  {
    if a != [] && a[0] == b[0] == c[0] { LessTransitive(a[1..], b[1..], c[1..]); }
  }

  lemma {:induction false} LessTotal(a: Text, b: Text)
    ensures Less(a, b) || a == b || Less(b, a)
  {
    if a != [] && b != [] && a[0] == b[0] {
      LessTotal(a[1..], b[1..]);
      assert a == [a[0]] + a[1..] && b == [b[0]] + b[1..];
    }
  }

  /** Strictly ascending, hence free of duplicates. */
  ghost predicate Ascending(s: seq<Text>) {
    forall i, j :: 0 <= i < j < |s| ==> Less(s[i], s[j])
  }

  /** The strictly ascending list of a set, the result of collecting a map's keys and sorting them. */
  ghost predicate SortedListing(s: seq<Text>, names: set<Text>) {
    Ascending(s) && forall x :: x in s <==> x in names
  }

  /** One insertion step of the sort: x goes before the first greater element. */
  function Insert(s: seq<Text>, x: Text): seq<Text> {
    if s == [] || Less(x, s[0]) then [x] + s else [s[0]] + Insert(s[1..], x)
  }

  lemma {:induction false} InsertAscending(s: seq<Text>, x: Text)
    requires Ascending(s) && x !in s
    ensures Ascending(Insert(s, x))
    ensures forall y :: y in Insert(s, x) <==> y in s || y == x
  {
    if s != [] {
      LessTotal(s[0], x);
      if Less(x, s[0]) {
        forall k | 0 <= k < |s| ensures Less(x, s[k]) {
          if k > 0 { LessTransitive(x, s[0], s[k]); }
        }
      } else {
        InsertAscending(s[1..], x);
        var r := Insert(s[1..], x);
        forall k | 0 <= k < |r| ensures Less(s[0], r[k]) {
          if r[k] != x { assert r[k] in s[1..]; }
        }
        assert s == [s[0]] + s[1..];
      }
    }
  }

  method Sort(names: set<Text>) returns (r: seq<Text>)
    ensures SortedListing(r, names)
  {
    r := [];
    var rest := names;
    while rest != {}
      invariant rest <= names && Ascending(r)
      invariant forall x :: x in r <==> x in names - rest
      decreases |rest|
    {
      var x :| x in rest;
      InsertAscending(r, x);
      r := Insert(r, x);
      rest := rest - {x};
    }
  }

  /** The sorted listing itself. */
  ghost function Sorted(names: set<Text>): (s: seq<Text>)
    ensures SortedListing(s, names)
  {
    SortedExists(names);
    var s :| SortedListing(s, names);
    s
  }

  lemma SortedExists(names: set<Text>)
    ensures exists s :: SortedListing(s, names)
  {
    if names == {} {
      assert SortedListing([], names);
    } else {
      var x :| x in names;
      SortedExists(names - {x});
      var s :| SortedListing(s, names - {x});
      InsertAscending(s, x);
      assert SortedListing(Insert(s, x), names);
    }
  }

  /** A set has one sorted listing, so the iteration order of the map it came from is invisible. */
  lemma {:induction false} SortedListingUnique(a: seq<Text>, b: seq<Text>, names: set<Text>)
    requires SortedListing(a, names) && SortedListing(b, names)
    ensures a == b
    decreases |a|
  {
    assert b != [] ==> b[0] in a;
    assert a != [] ==> a[0] in b;
    if a != [] {
      var i :| 0 <= i < |b| && b[i] == a[0];
      var j :| 0 <= j < |a| && a[j] == b[0];
      if i > 0 && j > 0 {
        LessTransitive(a[0], a[j], b[i]);
        LessIrreflexive(a[0]);
      }
      assert a[0] == b[0];
      LessIrreflexive(a[0]);
      var rest := names - {a[0]};
      Tail(a, names);
      Tail(b, names);
      SortedListingUnique(a[1..], b[1..], rest);
    }
  }

  lemma Tail(a: seq<Text>, names: set<Text>)
    requires SortedListing(a, names) && a != []
    ensures SortedListing(a[1..], names - {a[0]})
  {
    LessIrreflexive(a[0]);
    forall x ensures x in a[1..] <==> x in names - {a[0]} {
      if x in a[1..] { var i :| 1 <= i < |a| && a[i] == x; }
      if x in names && x != a[0] { var i :| 0 <= i < |a| && a[i] == x; assert a[1..][i - 1] == x; }
    }
  }
}

/** The number of halvings that take n down to one element. */
module CeilLog {
  function CLog2(n: int): (r: nat)
    ensures n >= 2 ==> r >= 1
  {
    if n <= 1 then 0 else 1 + CLog2((n + 1) / 2)
  }

  lemma {:induction false} CLog2Monotone(a: int, b: int)
    requires a <= b
    ensures CLog2(a) <= CLog2(b)
    decreases b
  {
    if b >= 2 && a >= 2 { CLog2Monotone((a + 1) / 2, (b + 1) / 2); }
  }

  /** Two halves, each costing 1 + 2 * hits * levels, fit under their parent. */
  lemma SplitCost(p1: nat, p2: nat, p: nat, c1: int, c2: int, levels: nat)
    requires p1 + p2 <= p && p >= 1 && levels >= 1
    requires c1 <= 1 + 2 * p1 * (levels - 1) && c2 <= 1 + 2 * p2 * (levels - 1)
    ensures 1 + c1 + c2 <= 1 + 2 * p * levels
  {
    var m := levels - 1;
    assert 2 * p1 * m + 2 * p2 * m == 2 * (p1 + p2) * m;
    assert (p1 + p2) * m <= p * m;
    assert 2 * p * levels == 2 * p * m + 2 * p;
  }
}
