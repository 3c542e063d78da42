// What a reconciliation run proves: soundness, no duplicates, completeness, no false "clean", and cost.

module Exactness {
  import opened Wrappers
  import opened Bytes
  import opened CeilLog
  import opened Bisection
  import opened Ranges
  import opened Digests
  import opened Findings
  import opened Reconciling

  /** The descent looks into a range: its digests disagree. */
  ghost predicate Disagrees(su: Setup, r: Range) { su.Src(r) != su.Tgt(r) }

  /** Equal row sets have equal digests; in particular two empty ranges agree. */
  lemma EmptyAgrees(su: Setup, r: Range)
    requires su.Src(r).rows == 0 && su.Tgt(r).rows == 0
    ensures !Disagrees(su, r)
  {
    TotalRows(su.hash, Within(su.source, r));
    TotalRows(su.hash, Within(su.target, r));
    assert Within(su.source, r) == map[] && Within(su.target, r) == map[];
  }

  lemma DescentCases(su: Setup, r: Range, depth: nat, cap: nat)
    requires ListsOnce(su) && cap >= 1
    ensures !Disagrees(su, r) ==> Descent(su, r, depth, cap) == Report([], 1, 0, depth)
    ensures Disagrees(su, r) && AtLeaf(su, r, depth) ==> Descent(su, r, depth, cap) == Compare(su, r, depth, cap)
    ensures Disagrees(su, r) && !AtLeaf(su, r, depth) ==>
              var mid := Bisect(r.low, r.high).value;
              var left := Descent(su, Lower(r, mid), depth + 1, cap);
              |left.findings| <= cap &&
              var right := Descent(su, Upper(r, mid), depth + 1, cap - |left.findings|);
              Descent(su, r, depth, cap) ==
              Report(left.findings + right.findings, 1 + left.visited + right.visited, left.rowReads + right.rowReads,
                     Deeper(depth, Deeper(left.deepest, right.deepest)))
  {
    hide Compare, Bisect, DigestOf;
    if su.Src(r).rows == 0 && su.Tgt(r).rows == 0 { EmptyAgrees(su, r); }
    if !AtLeaf(su, r, depth) { AtMostCap(su, Lower(r, Bisect(r.low, r.high).value), depth + 1, cap); }
  }

  // ------------------------------------------------------------ leaves

  lemma {:induction false} SourceDiffsAre(keys: seq<Key>, src: Table, tgt: Table, f: Finding)
    requires forall k :: k in keys ==> k in src
    ensures f in SourceDiffs(keys, src, tgt) <==>
            (f.MissingInTarget? && f.key in keys && f.key !in tgt) ||
            (f.ValueMismatch? && f.key in keys && f.key in tgt && src[f.key] != tgt[f.key])
  {
    if keys != [] {
      var n := |keys| - 1;
      assert keys == keys[..n] + [keys[n]];
      SourceDiffsAre(keys[..n], src, tgt, f);
    }
  }

  lemma {:induction false} TargetDiffsAre(keys: seq<Key>, src: Table, f: Finding)
    ensures f in TargetDiffs(keys, src) <==> f.MissingInSource? && f.key in keys && f.key !in src
  {
    if keys != [] {
      var n := |keys| - 1;
      assert keys == keys[..n] + [keys[n]];
      TargetDiffsAre(keys[..n], src, f);
    }
  }

  /** The discrepancy, if any, that a key is. */
  ghost predicate IsDiff(su: Setup, f: Finding) {
    match f
    case MissingInTarget(k) => k in su.source && k !in su.target
    case MissingInSource(k) => k !in su.source && k in su.target
    case ValueMismatch(k) => k in su.source && k in su.target && su.source[k] != su.target[k]
    case RangeUnresolved(_, _, _) => false
  }

  /** A leaf lists exactly the differences of its range. */
  lemma LeafDiffsAre(su: Setup, r: Range, f: Finding)
    requires ListsOnce(su)
    ensures f in LeafDiffs(su, r) <==> IsDiff(su, f) && InRange(r, f.key)
  {
    hide InRange, SourceDiffs, TargetDiffs;
    var src, tgt := Within(su.source, r), Within(su.target, r);
    assert IsListing(su.list(src.Keys), src.Keys) && IsListing(su.list(tgt.Keys), tgt.Keys);
    SourceDiffsAre(su.list(src.Keys), src, tgt, f);
    TargetDiffsAre(su.list(tgt.Keys), src, f);
  }

  // ------------------------------------------------------------ soundness

  /** A row finding is a real difference of the range; a range finding is a part of it whose digests
      disagree, with both row counts. */
  ghost predicate Sound(su: Setup, r: Range, f: Finding) {
    if f.RangeUnresolved? then
      (forall k :: InRange(f.range, k) ==> InRange(r, k)) && Disagrees(su, f.range) &&
      f.sourceRows == |Within(su.source, f.range)| && f.targetRows == |Within(su.target, f.range)|
    else IsDiff(su, f) && InRange(r, f.key)
  }

  lemma SoundWidens(su: Setup, inner: Range, outer: Range, f: Finding)
    requires Sound(su, inner, f) && forall k :: InRange(inner, k) ==> InRange(outer, k)
    ensures Sound(su, outer, f)
  {
  }

  lemma CompareSound(su: Setup, r: Range, depth: nat, cap: nat, f: Finding)
    requires ListsOnce(su) && cap >= 1 && Disagrees(su, r) && f in Compare(su, r, depth, cap).findings
    ensures Sound(su, r, f)
  {
    hide LeafDiffs, InRange;
    TotalRows(su.hash, Within(su.source, r));
    TotalRows(su.hash, Within(su.target, r));
    LeafDiffsAre(su, r, f);
  }

  lemma {:induction false} FindingsSound(su: Setup, r: Range, depth: nat, cap: nat, f: Finding)
    requires ListsOnce(su) && RangeOk(r) && f in Descent(su, r, depth, cap).findings
    ensures Sound(su, r, f)
    decreases su.Depth() - depth
  {
    hide Descent, Compare, Bisect, InRange, DigestOf, Sound;
    CapZero(su, r, depth);
    if cap > 0 {
      DescentCases(su, r, depth, cap);
      if Disagrees(su, r) && AtLeaf(su, r, depth) {
        CompareSound(su, r, depth, cap, f);
      } else if Disagrees(su, r) {
        var mid := Bisect(r.low, r.high).value;
        var left := Descent(su, Lower(r, mid), depth + 1, cap);
        SplitWithin(r);
        forall k ensures InRange(Lower(r, mid), k) || InRange(Upper(r, mid), k) ==> InRange(r, k) { Tiles(r, k); }
        if f in left.findings {
          FindingsSound(su, Lower(r, mid), depth + 1, cap, f);
          SoundWidens(su, Lower(r, mid), r, f);
        } else {
          FindingsSound(su, Upper(r, mid), depth + 1, cap - |left.findings|, f);
          SoundWidens(su, Upper(r, mid), r, f);
        }
      }
    }
  }

  lemma CapZero(su: Setup, r: Range, depth: nat)
    requires ListsOnce(su)
    ensures Descent(su, r, depth, 0) == Report([], 0, 0, 0)
  {
  }

  // ------------------------------------------------------------ no key twice

  lemma {:induction false} SourceDiffsOnce(keys: seq<Key>, src: Table, tgt: Table)
    requires (forall k :: k in keys ==> k in src) && forall i, j :: 0 <= i < j < |keys| ==> keys[i] != keys[j]
    ensures KeyedOnce(SourceDiffs(keys, src, tgt))
  {
    if keys != [] {
      var n := |keys| - 1;
      SourceDiffsOnce(keys[..n], src, tgt);
      var before := SourceDiffs(keys[..n], src, tgt);
      forall i | 0 <= i < |before| && !before[i].RangeUnresolved? ensures before[i].key != keys[n] {
        SourceDiffsAre(keys[..n], src, tgt, before[i]);
        assert before[i] in before;
      }
    }
  }

  lemma {:induction false} TargetDiffsOnce(keys: seq<Key>, src: Table)
    requires forall i, j :: 0 <= i < j < |keys| ==> keys[i] != keys[j]
    ensures KeyedOnce(TargetDiffs(keys, src))
  {
    if keys != [] {
      var n := |keys| - 1;
      TargetDiffsOnce(keys[..n], src);
      var before := TargetDiffs(keys[..n], src);
      forall i | 0 <= i < |before| && !before[i].RangeUnresolved? ensures before[i].key != keys[n] {
        TargetDiffsAre(keys[..n], src, before[i]);
        assert before[i] in before;
      }
    }
  }

  lemma JoinOnce(a: seq<Finding>, b: seq<Finding>)
    requires KeyedOnce(a) && KeyedOnce(b)
    requires forall f, g :: f in a && g in b && !f.RangeUnresolved? && !g.RangeUnresolved? ==> f.key != g.key
    ensures KeyedOnce(a + b)
  {
  }

  lemma CompareOnce(su: Setup, r: Range, depth: nat, cap: nat)
    requires ListsOnce(su) && cap >= 1
    ensures KeyedOnce(Compare(su, r, depth, cap).findings)
  {
    hide SourceDiffs, TargetDiffs, InRange;
    var src, tgt := Within(su.source, r), Within(su.target, r);
    assert IsListing(su.list(src.Keys), src.Keys) && IsListing(su.list(tgt.Keys), tgt.Keys);
    var a, b := SourceDiffs(su.list(src.Keys), src, tgt), TargetDiffs(su.list(tgt.Keys), src);
    SourceDiffsOnce(su.list(src.Keys), src, tgt);
    TargetDiffsOnce(su.list(tgt.Keys), src);
    forall f, g | f in a && g in b && !f.RangeUnresolved? && !g.RangeUnresolved? ensures f.key != g.key {
      SourceDiffsAre(su.list(src.Keys), src, tgt, f);
      TargetDiffsAre(su.list(tgt.Keys), src, g);
    }
    JoinOnce(a, b);
  }

  /** No key is reported twice. */
  lemma {:induction false} KeysReportedOnce(su: Setup, r: Range, depth: nat, cap: nat)
    requires ListsOnce(su) && RangeOk(r)
    ensures KeyedOnce(Descent(su, r, depth, cap).findings)
    decreases su.Depth() - depth
  {
    hide Descent, Compare, Bisect, InRange, DigestOf, KeyedOnce;
    CapZero(su, r, depth);
    NoneOnce();
    if cap > 0 {
      DescentCases(su, r, depth, cap);
      if Disagrees(su, r) && AtLeaf(su, r, depth) {
        CompareOnce(su, r, depth, cap);
      } else if Disagrees(su, r) {
        var mid := Bisect(r.low, r.high).value;
        var left := Descent(su, Lower(r, mid), depth + 1, cap);
        var right := Descent(su, Upper(r, mid), depth + 1, cap - |left.findings|);
        SplitWithin(r);
        KeysReportedOnce(su, Lower(r, mid), depth + 1, cap);
        KeysReportedOnce(su, Upper(r, mid), depth + 1, cap - |left.findings|);
        forall f, g | f in left.findings && g in right.findings && !f.RangeUnresolved? && !g.RangeUnresolved?
          ensures f.key != g.key
        {
          FindingsSound(su, Lower(r, mid), depth + 1, cap, f);
          FindingsSound(su, Upper(r, mid), depth + 1, cap - |left.findings|, g);
          Tiles(r, f.key);
        }
        JoinOnce(left.findings, right.findings);
      }
    }
  }

  lemma NoneOnce()
    ensures KeyedOnce([])
  {
  }

  // ------------------------------------------------------------ completeness

  /** Digests separate: equal digests of a range mean equal rows. */
  ghost predicate Separating(su: Setup) {
    forall r :: su.Src(r) == su.Tgt(r) ==> Within(su.source, r) == Within(su.target, r)
  }

  /** The key is reported, with its kind, or lies in a range reported as unresolved. */
  ghost predicate Reported(fs: seq<Finding>, f: Finding)
    requires !f.RangeUnresolved?
  {
    f in fs || exists g :: g in fs && g.RangeUnresolved? && InRange(g.range, f.key)
  }

  lemma CompareComplete(su: Setup, r: Range, depth: nat, cap: nat, f: Finding)
    requires ListsOnce(su) && cap >= 1 && |Compare(su, r, depth, cap).findings| < cap
    requires IsDiff(su, f) && InRange(r, f.key)
    ensures Reported(Compare(su, r, depth, cap).findings, f)
  {
    hide LeafDiffs, InRange;
    LeafDiffsAre(su, r, f);
    if !su.hasRows || depth >= su.Depth() {
      assert RangeUnresolved(r, su.Src(r).rows, su.Tgt(r).rows) in Compare(su, r, depth, cap).findings;
    }
  }

  lemma SeparatedDiff(su: Setup, r: Range, f: Finding)
    requires Separating(su) && IsDiff(su, f) && InRange(r, f.key)
    ensures Disagrees(su, r)
  {
    var a, b := Within(su.source, r), Within(su.target, r);
    assert f.key in a <==> f.key in su.source;
    assert f.key in b <==> f.key in su.target;
  }

  lemma ReportedEither(a: seq<Finding>, b: seq<Finding>, f: Finding)
    requires !f.RangeUnresolved? && (Reported(a, f) || Reported(b, f))
    ensures Reported(a + b, f)
  {
  }

  /** Completeness: with digests that separate and findings to spare, every difference in the range is
      reported, by key and kind, or falls in a range reported as unresolved. */
  lemma {:induction false} DifferencesReported(su: Setup, r: Range, depth: nat, cap: nat, f: Finding)
    requires ListsOnce(su) && RangeOk(r) && Separating(su)
    requires |Descent(su, r, depth, cap).findings| < cap
    requires IsDiff(su, f) && InRange(r, f.key)
    ensures Reported(Descent(su, r, depth, cap).findings, f)
    decreases su.Depth() - depth
  {
    hide Descent, Compare, Bisect, InRange, DigestOf, Reported;
    DescentCases(su, r, depth, cap);
    SeparatedDiff(su, r, f);
    if AtLeaf(su, r, depth) {
      CompareComplete(su, r, depth, cap, f);
    } else {
      var mid := Bisect(r.low, r.high).value;
      var left := Descent(su, Lower(r, mid), depth + 1, cap);
      var right := Descent(su, Upper(r, mid), depth + 1, cap - |left.findings|);
      SplitWithin(r);
      Tiles(r, f.key);
      if InRange(Lower(r, mid), f.key) { DifferencesReported(su, Lower(r, mid), depth + 1, cap, f); }
      else { DifferencesReported(su, Upper(r, mid), depth + 1, cap - |left.findings|, f); }
      ReportedEither(left.findings, right.findings, f);
    }
  }

  /** Exactness of a run from the root, for the findings as Reconcile returns them. */
  lemma ReconcileIsExact(su: Setup, r: Range, f: Finding)
    requires ListsOnce(su) && RangeOk(r) && Separating(su)
    ensures var fs := ByHash(su.keyHash, Descent(su, r, 0, su.Max()).findings);
            |fs| <= su.Max() && KeyedOnce(fs) &&
            (f in fs ==> Sound(su, r, f)) &&
            (|fs| < su.Max() && IsDiff(su, f) && InRange(r, f.key) ==> Reported(fs, f))
  {
    var found := Descent(su, r, 0, su.Max()).findings;
    AtMostCap(su, r, 0, su.Max());
    KeysReportedOnce(su, r, 0, su.Max());
    ByHashOnce(su.keyHash, found);
    SameFindings(su, found);
    hide Descent, KeyedOnce, Sound, Reported, InRange, ByHash;
    if f in found { FindingsSound(su, r, 0, su.Max(), f); }
    if |found| < su.Max() && IsDiff(su, f) && InRange(r, f.key) {
      DifferencesReported(su, r, 0, su.Max(), f);
    }
  }

  lemma SameFindings(su: Setup, fs: seq<Finding>)
    ensures |ByHash(su.keyHash, fs)| == |fs| && forall g :: g in ByHash(su.keyHash, fs) <==> g in fs
  {
    var sorted := ByHash(su.keyHash, fs);
    ByHashSorts(su.keyHash, fs, []);
    forall g ensures g in sorted <==> g in fs { assert g in multiset(sorted) <==> g in multiset(fs); }
  }

  // ------------------------------------------------------------ never falsely clean

  lemma NoDiffsAgree(su: Setup, r: Range)
    requires ListsOnce(su) && LeafDiffs(su, r) == []
    ensures !Disagrees(su, r)
  {
    hide LeafDiffs;
    var a, b := Within(su.source, r), Within(su.target, r);
    forall k ensures k in a <==> k in b
             ensures k in a && k in b ==> a[k] == b[k]
    {
      LeafDiffsAre(su, r, MissingInTarget(k));
      LeafDiffsAre(su, r, MissingInSource(k));
      LeafDiffsAre(su, r, ValueMismatch(k));
    }
    assert a == b;
  }

  lemma CompareNonEmpty(su: Setup, r: Range, depth: nat, cap: nat)
    requires ListsOnce(su) && cap >= 1 && Disagrees(su, r)
    ensures Compare(su, r, depth, cap).findings != []
  {
    hide LeafDiffs, DigestOf;
    if LeafDiffs(su, r) == [] { NoDiffsAgree(su, r); }
  }

  lemma {:induction false} MismatchFound(su: Setup, r: Range, depth: nat, cap: nat)
    requires ListsOnce(su) && RangeOk(r) && cap >= 1 && Disagrees(su, r)
    ensures Descent(su, r, depth, cap).findings != []
    decreases su.Depth() - depth
  {
    hide Descent, Compare, Bisect, InRange, DigestOf;
    DescentCases(su, r, depth, cap);
    if AtLeaf(su, r, depth) {
      CompareNonEmpty(su, r, depth, cap);
    } else {
      var mid := Bisect(r.low, r.high).value;
      SplitWithin(r);
      SplitDigest(su.hash, su.source, r);
      SplitDigest(su.hash, su.target, r);
      if Disagrees(su, Lower(r, mid)) {
        MismatchFound(su, Lower(r, mid), depth + 1, cap);
      } else {
        DescentCases(su, Lower(r, mid), depth + 1, cap);
        MismatchFound(su, Upper(r, mid), depth + 1, cap);
      }
    }
  }

  /** A run is clean if and only if the root digests agree: a mismatch is never reported clean, with no
      assumption about collisions. And then it has cost one visit and read no row. */
  lemma CleanIff(su: Setup, r: Range)
    requires ListsOnce(su) && RangeOk(r)
    ensures Descent(su, r, 0, su.Max()).findings == [] <==> su.Src(r) == su.Tgt(r)
    ensures su.Src(r) == su.Tgt(r) ==> Descent(su, r, 0, su.Max()) == Report([], 1, 0, 0)
  {
    DescentCases(su, r, 0, su.Max());
    if Disagrees(su, r) { MismatchFound(su, r, 0, su.Max()); }
  }

  /** One row missing, or altered so that either projection of its hash changes, is never reported clean. */
  lemma OneDifferenceFound(su: Setup, r: Range, k: Key, row: Text)
    requires ListsOnce(su) && RangeOk(r) && InRange(r, k) && su.source == su.target[k := row]
    requires k in su.target ==>
               su.hash.low(row) != su.hash.low(su.target[k]) || su.hash.high(row) != su.hash.high(su.target[k])
    ensures Descent(su, r, 0, su.Max()).findings != []
  {
    if k in su.target { RowReplaced(su.hash, su.target, r, k, row); } else { RowAdds(su.hash, su.target, r, k, row); }
    CleanIff(su, r);
  }

  // ------------------------------------------------------------ rows or ranges

  /** At the depth limit, and without a row reader at every leaf, a disagreeing range is reported as such, with both
      row counts, and no row is read. */
  lemma UnresolvedLeaf(su: Setup, r: Range, depth: nat, cap: nat)
    requires ListsOnce(su) && cap >= 1 && Disagrees(su, r) && AtLeaf(su, r, depth)
    requires depth >= su.Depth() || !su.hasRows
    ensures Descent(su, r, depth, cap) ==
            Report([RangeUnresolved(r, |Within(su.source, r)|, |Within(su.target, r)|)], 1, 0, depth)
  {
    hide Bisect;
    TotalRows(su.hash, Within(su.source, r));
    TotalRows(su.hash, Within(su.target, r));
    DescentCases(su, r, depth, cap);
  }

  /** Elsewhere it is compared row by row: in one visit and two reads, its differences are listed, up to the cap. */
  lemma ComparedLeaf(su: Setup, r: Range, depth: nat, cap: nat)
    requires ListsOnce(su) && cap >= 1 && Disagrees(su, r) && AtLeaf(su, r, depth)
    requires depth < su.Depth() && su.hasRows
    ensures var d := Descent(su, r, depth, cap);
            d.visited == 1 && d.rowReads == 2 && d.findings != [] &&
            (forall f :: f in d.findings ==> IsDiff(su, f) && InRange(r, f.key)) &&
            (|d.findings| < cap ==> forall f :: IsDiff(su, f) && InRange(r, f.key) ==> f in d.findings)
  {
    hide LeafDiffs, Bisect, DigestOf, InRange;
    DescentCases(su, r, depth, cap);
    CompareNonEmpty(su, r, depth, cap);
    forall f ensures f in LeafDiffs(su, r) <==> IsDiff(su, f) && InRange(r, f.key) { LeafDiffsAre(su, r, f); }
  }

  /** A leaf is a range with few rows on both sides, one at the depth limit, or one that does not split: any other
      range that disagrees takes more than one visit. */
  lemma LeafIff(su: Setup, r: Range, depth: nat, cap: nat)
    requires ListsOnce(su) && cap >= 1 && Disagrees(su, r)
    ensures Descent(su, r, depth, cap).visited == 1 <==>
            (|Within(su.source, r)| <= su.Leaf() && |Within(su.target, r)| <= su.Leaf()) || depth >= su.Depth() ||
            Bisect(r.low, r.high).None?
  {
    hide Bisect, Compare, InRange;
    TotalRows(su.hash, Within(su.source, r));
    TotalRows(su.hash, Within(su.target, r));
    DescentCases(su, r, depth, cap);
    if AtLeaf(su, r, depth) {
      CompareVisits(su, r, depth, cap);
    } else {
      DescentCases(su, Lower(r, Bisect(r.low, r.high).value), depth + 1, cap);
      Visited(su, Lower(r, Bisect(r.low, r.high).value), depth + 1, cap);
    }
  }

  lemma Visited(su: Setup, r: Range, depth: nat, cap: nat)
    requires ListsOnce(su) && cap >= 1
    ensures Descent(su, r, depth, cap).visited >= 1
  {
    hide Bisect, DigestOf, Compare;
    DescentCases(su, r, depth, cap);
    if AtLeaf(su, r, depth) { CompareVisits(su, r, depth, cap); }
  }

  /** With a row reader a range stays unresolved only at the depth limit. */
  lemma {:induction false} UnresolvedOnlyDeep(su: Setup, r: Range, depth: nat, cap: nat, f: Finding)
    requires ListsOnce(su) && su.hasRows && depth <= su.Depth()
    requires f in Descent(su, r, depth, cap).findings && f.RangeUnresolved?
    ensures Descent(su, r, depth, cap).deepest == su.Depth()
    decreases su.Depth() - depth
  {
    hide Descent, Bisect, InRange, DigestOf, LeafDiffs;
    CapZero(su, r, depth);
    DescentCases(su, r, depth, cap);
    DepthLimited(su, r, depth, cap);
    if AtLeaf(su, r, depth) {
      if depth < su.Depth() { LeafDiffsAre(su, r, f); }
    } else {
      var mid := Bisect(r.low, r.high).value;
      var left := Descent(su, Lower(r, mid), depth + 1, cap);
      if f in left.findings { UnresolvedOnlyDeep(su, Lower(r, mid), depth + 1, cap, f); }
      else { UnresolvedOnlyDeep(su, Upper(r, mid), depth + 1, cap - |left.findings|, f); }
    }
  }

  /** Rows are read exactly when one is reported. */
  lemma {:induction false} RowsReadIff(su: Setup, r: Range, depth: nat, cap: nat)
    requires ListsOnce(su)
    ensures Descent(su, r, depth, cap).rowReads > 0 <==>
            exists f :: f in Descent(su, r, depth, cap).findings && !f.RangeUnresolved?
    decreases su.Depth() - depth
  {
    hide Descent, Bisect, InRange, DigestOf, LeafDiffs;
    CapZero(su, r, depth);
    if cap > 0 {
      DescentCases(su, r, depth, cap);
      if Disagrees(su, r) && AtLeaf(su, r, depth) {
        CompareNonEmpty(su, r, depth, cap);
        var d := Compare(su, r, depth, cap);
        LeafDiffsAre(su, r, d.findings[0]);
        assert d.findings[0] in d.findings;
      } else if Disagrees(su, r) {
        var mid := Bisect(r.low, r.high).value;
        RowsReadIff(su, Lower(r, mid), depth + 1, cap);
        RowsReadIff(su, Upper(r, mid), depth + 1, cap - |Descent(su, Lower(r, mid), depth + 1, cap).findings|);
      }
    }
  }

  // ------------------------------------------------------------ cost

  /** The keys of a range on which the two sides differ. */
  ghost function Differing(su: Setup, r: Range): set<Key> {
    set k | k in su.source.Keys + su.target.Keys && InRange(r, k) &&
            !(k in su.source && k in su.target && su.source[k] == su.target[k])
  }

  lemma NoDifferenceAgrees(su: Setup, r: Range)
    requires Differing(su, r) == {}
    ensures !Disagrees(su, r)
  {
    var a, b := Within(su.source, r), Within(su.target, r);
    forall k ensures k in a <==> k in b
             ensures k in a && k in b ==> a[k] == b[k]
    {
      assert k !in Differing(su, r);
    }
    assert a == b;
  }

  lemma DisagreementDiffers(su: Setup, r: Range)
    requires Disagrees(su, r)
    ensures |Differing(su, r)| >= 1
  {
    if Differing(su, r) == {} { NoDifferenceAgrees(su, r); }
  }

  lemma DifferingSplits(su: Setup, r: Range)
    requires RangeOk(r) && Bisect(r.low, r.high).Some?
    ensures var mid := Bisect(r.low, r.high).value;
            |Differing(su, r)| == |Differing(su, Lower(r, mid))| + |Differing(su, Upper(r, mid))|
  {
    hide Bisect, InRange;
    var mid := Bisect(r.low, r.high).value;
    var a, b := Differing(su, Lower(r, mid)), Differing(su, Upper(r, mid));
    forall k ensures k in Differing(su, r) <==> k in a || k in b
             ensures !(k in a && k in b) { Tiles(r, k); }
    assert Differing(su, r) == a + b && a !! b;
  }

  function IntRange(l: int, h: int): Range { Range(Some(Int(l)), Some(Int(h))) }

  function Levels(su: Setup, depth: nat, width: int): nat
    requires depth <= su.Depth()
  {
    if su.Depth() - depth <= CLog2(width) then su.Depth() - depth else CLog2(width)
  }

  /** The descent visits at most 1 + 2 d min(levels left, ceil(log2 width)) ranges to localise d
      differing keys in a range of integers. */
  lemma {:induction false} DescentCost(su: Setup, l: int, h: int, depth: nat, cap: nat)
    requires ListsOnce(su) && depth <= su.Depth() && MIN64 <= l <= MAX64 && MIN64 <= h <= MAX64
    ensures Descent(su, IntRange(l, h), depth, cap).visited <=
            1 + 2 * |Differing(su, IntRange(l, h))| * Levels(su, depth, h - l)
    decreases su.Depth() - depth
  {
    hide Descent, Compare, InRange, DigestOf, Differing, CLog2;
    var r := IntRange(l, h);
    var d := |Differing(su, r)|;
    CapZero(su, r, depth);
    if cap > 0 {
      DescentCases(su, r, depth, cap);
      if Disagrees(su, r) && AtLeaf(su, r, depth) {
        CompareVisits(su, r, depth, cap);
      } else if Disagrees(su, r) {
        IntBisectIff(l, h);
        var mid := (l + h) / 2;
        assert Lower(r, Int(mid)) == IntRange(l, mid) && Upper(r, Int(mid)) == IntRange(mid, h);
        var left := Descent(su, IntRange(l, mid), depth + 1, cap);
        DescentCost(su, l, mid, depth + 1, cap);
        DescentCost(su, mid, h, depth + 1, cap - |left.findings|);
        DisagreementDiffers(su, r);
        DifferingSplits(su, r);
        HalfLevels(su, depth, l, h);
        HalvesFit(|Differing(su, IntRange(l, mid))|, |Differing(su, IntRange(mid, h))|, d,
                  left.visited, Descent(su, IntRange(mid, h), depth + 1, cap - |left.findings|).visited,
                  Levels(su, depth + 1, mid - l), Levels(su, depth + 1, h - mid), Levels(su, depth, h - l));
      }
    }
  }

  lemma HalfLevels(su: Setup, depth: nat, l: int, h: int)
    requires depth < su.Depth() && l + 2 <= h
    ensures var mid := (l + h) / 2;
            Levels(su, depth, h - l) >= 1 &&
            Levels(su, depth + 1, mid - l) <= Levels(su, depth, h - l) - 1 &&
            Levels(su, depth + 1, h - mid) <= Levels(su, depth, h - l) - 1
  {
    var mid := (l + h) / 2;
    CLog2Monotone(mid - l, (h - l + 1) / 2);
    CLog2Monotone(h - mid, (h - l + 1) / 2);
  }

  lemma HalvesFit(d1: nat, d2: nat, d: nat, v1: nat, v2: nat, l1: nat, l2: nat, levels: nat)
    requires d1 + d2 == d && d >= 1 && levels >= 1 && l1 <= levels - 1 && l2 <= levels - 1
    requires v1 <= 1 + 2 * d1 * l1 && v2 <= 1 + 2 * d2 * l2
    ensures 1 + v1 + v2 <= 1 + 2 * d * levels
  {
    assert 2 * d1 * l1 <= 2 * d1 * (levels - 1);
    assert 2 * d2 * l2 <= 2 * d2 * (levels - 1);
    SplitCost(d1, d2, d, v1, v2, levels);
  }

  /** Nor does it look deeper than that below its root. */
  lemma {:induction false} DescentDepth(su: Setup, l: int, h: int, depth: nat, cap: nat)
    requires ListsOnce(su) && depth <= su.Depth() && MIN64 <= l <= MAX64 && MIN64 <= h <= MAX64
    ensures Descent(su, IntRange(l, h), depth, cap).deepest <= depth + Levels(su, depth, h - l)
    decreases su.Depth() - depth
  {
    hide Descent, Compare, InRange, DigestOf, CLog2;
    var r := IntRange(l, h);
    CapZero(su, r, depth);
    if cap > 0 {
      DescentCases(su, r, depth, cap);
      if Disagrees(su, r) && AtLeaf(su, r, depth) {
        CompareVisits(su, r, depth, cap);
      } else if Disagrees(su, r) {
        IntBisectIff(l, h);
        var mid := (l + h) / 2;
        assert Lower(r, Int(mid)) == IntRange(l, mid) && Upper(r, Int(mid)) == IntRange(mid, h);
        DescentDepth(su, l, mid, depth + 1, cap);
        DescentDepth(su, mid, h, depth + 1, cap - |Descent(su, IntRange(l, mid), depth + 1, cap).findings|);
        HalfLevels(su, depth, l, h);
      }
    }
  }

  /** And never below the depth limit, whatever the keys. */
  lemma {:induction false} DepthLimited(su: Setup, r: Range, depth: nat, cap: nat)
    requires ListsOnce(su) && depth <= su.Depth()
    ensures Descent(su, r, depth, cap).deepest <= su.Depth()
    decreases su.Depth() - depth
  {
    hide Descent, Compare, InRange, DigestOf, Bisect;
    CapZero(su, r, depth);
    if cap > 0 {
      DescentCases(su, r, depth, cap);
      if Disagrees(su, r) && AtLeaf(su, r, depth) {
        CompareVisits(su, r, depth, cap);
      } else if Disagrees(su, r) {
        var mid := Bisect(r.low, r.high).value;
        DepthLimited(su, Lower(r, mid), depth + 1, cap);
        DepthLimited(su, Upper(r, mid), depth + 1, cap - |Descent(su, Lower(r, mid), depth + 1, cap).findings|);
      }
    }
  }

  /** With a row reader, an integer range no wider than the depth limit can halve away, digests that separate and
      findings to spare, the findings of a run are exactly the differences of the range, by key and kind. */
  lemma ResolvesEveryRow(su: Setup, l: int, h: int, f: Finding)
    requires ListsOnce(su) && su.hasRows && Separating(su) && MIN64 <= l <= MAX64 && MIN64 <= h <= MAX64
    requires CLog2(h - l) < su.Depth()
    requires |Descent(su, IntRange(l, h), 0, su.Max()).findings| < su.Max()
    ensures f in ByHash(su.keyHash, Descent(su, IntRange(l, h), 0, su.Max()).findings) <==>
            IsDiff(su, f) && InRange(IntRange(l, h), f.key)
  {
    var r := IntRange(l, h);
    var found := Descent(su, r, 0, su.Max()).findings;
    SameFindings(su, found);
    DescentDepth(su, l, h, 0, su.Max());
    hide Descent, InRange, ByHash, CLog2;
    forall g | g in found ensures !g.RangeUnresolved? {
      if g.RangeUnresolved? { UnresolvedOnlyDeep(su, r, 0, su.Max(), g); }
    }
    if f in found { FindingsSound(su, r, 0, su.Max(), f); }
    if IsDiff(su, f) && InRange(r, f.key) { DifferencesReported(su, r, 0, su.Max(), f); }
  }
}
