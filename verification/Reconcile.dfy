/** The descent itself. */
module Reconciling {
  import opened Bisection
  import opened Ranges
  import opened Digests
  import opened Findings

  /** Both sides, as the digester and the row reader present them; the reconciler's options; and the
      order in which row keys are listed (the source sorts their canonical strings) and their hashes. */
  datatype Setup = Setup(source: Table, target: Table, hash: Hashing, list: set<Key> -> seq<Key>,
                         keyHash: Key -> Bytes.Text,
                         hasRows: bool, leafRows: int, maxDepth: int, maxFindings: int)
  {
    function Leaf(): int { if leafRows <= 0 then 5000 else leafRows }
    function Depth(): nat { if maxDepth <= 0 then 48 else maxDepth }
    function Max(): nat { if maxFindings <= 0 then 1000 else maxFindings }
    ghost function Src(r: Range): Digest { DigestOf(hash, source, r) }
    ghost function Tgt(r: Range): Digest { DigestOf(hash, target, r) }
  }

  /** Options that are set hold; the others have the documented defaults. */
  lemma Defaults(su: Setup)
    ensures su.leafRows > 0 ==> su.Leaf() == su.leafRows
    ensures su.leafRows <= 0 ==> su.Leaf() == 5000
    ensures su.maxDepth > 0 ==> su.Depth() == su.maxDepth
    ensures su.maxDepth <= 0 ==> su.Depth() == 48
    ensures su.maxFindings > 0 ==> su.Max() == su.maxFindings
    ensures su.maxFindings <= 0 ==> su.Max() == 1000
  {
  }

  // ------------------------------------------------------------ leaves

  function SourceDiffs(keys: seq<Key>, src: Table, tgt: Table): (fs: seq<Finding>)
    requires forall k :: k in keys ==> k in src
    ensures |fs| <= |keys|
  {
    if keys == [] then []
    else
      var k := keys[|keys| - 1];
      SourceDiffs(keys[..|keys| - 1], src, tgt) +
      if k !in tgt then [MissingInTarget(k)] else if src[k] != tgt[k] then [ValueMismatch(k)] else []
  }

  function TargetDiffs(keys: seq<Key>, src: Table): (fs: seq<Finding>)
    ensures |fs| <= |keys|
  {
    if keys == [] then []
    else
      var k := keys[|keys| - 1];
      TargetDiffs(keys[..|keys| - 1], src) + if k !in src then [MissingInSource(k)] else []
  }

  ghost predicate IsListing(keys: seq<Key>, s: set<Key>) {
    (forall k :: k in keys <==> k in s) && forall i, j :: 0 <= i < j < |keys| ==> keys[i] != keys[j]
  }

  ghost predicate ListsOnce(su: Setup) { forall s :: IsListing(su.list(s), s) }

  ghost function LeafDiffs(su: Setup, r: Range): seq<Finding>
    requires ListsOnce(su)
  {
    var src, tgt := Within(su.source, r), Within(su.target, r);
    assert IsListing(su.list(src.Keys), src.Keys);
    SourceDiffs(su.list(src.Keys), src, tgt) + TargetDiffs(su.list(tgt.Keys), src)
  }

  function Take(fs: seq<Finding>, n: nat): seq<Finding> { if |fs| <= n then fs else fs[..n] }

  function Deeper(a: nat, b: nat): nat { if b > a then b else a }

  /** Findings, ranges visited, row reads and the deepest range visited (zero when none is). */
  datatype Report = Report(findings: seq<Finding>, visited: nat, rowReads: nat, deepest: nat)

  /** compareRows, with room for cap more findings. */
  ghost function Compare(su: Setup, r: Range, depth: nat, cap: nat): Report
    requires ListsOnce(su) && cap >= 1
  {
    if !su.hasRows || depth >= su.Depth() then Report([RangeUnresolved(r, su.Src(r).rows, su.Tgt(r).rows)], 1, 0, depth)
    else Report(Take(LeafDiffs(su, r), cap), 1, 2, depth)
  }

  ghost predicate AtLeaf(su: Setup, r: Range, depth: nat) {
    (su.Src(r).rows <= su.Leaf() && su.Tgt(r).rows <= su.Leaf()) || depth >= su.Depth() || Bisect(r.low, r.high).None?
  }

  /** descend, with room for cap more findings. */
  ghost function Descent(su: Setup, r: Range, depth: nat, cap: nat): Report
    requires ListsOnce(su)
    decreases su.Depth() - depth
  {
    if cap == 0 then Report([], 0, 0, 0)
    else if su.Src(r) == su.Tgt(r) || (su.Src(r).rows == 0 && su.Tgt(r).rows == 0) then Report([], 1, 0, depth)
    else if AtLeaf(su, r, depth) then Compare(su, r, depth, cap)
    else
      var mid := Bisect(r.low, r.high).value;
      var left := Descent(su, Lower(r, mid), depth + 1, cap);
      var right := Descent(su, Upper(r, mid), depth + 1, if |left.findings| <= cap then cap - |left.findings| else 0);
      Report(left.findings + right.findings, 1 + left.visited + right.visited, left.rowReads + right.rowReads,
             Deeper(depth, Deeper(left.deepest, right.deepest)))
  }

  // ------------------------------------------------------------ the class

  class Reconciler {
    const su: Setup
    /** Whether query number n (digest or row read) returns an error. */
    const fails: nat -> bool
    var queries: nat
    var digestQueries: nat
    var rowReads: nat
    var rangesVisited: nat
    var maxDepth: nat

    constructor (su: Setup, fails: nat -> bool)
      ensures this.su == su && this.fails == fails
    {
      this.su, this.fails := su, fails;
      queries, digestQueries, rowReads, rangesVisited, maxDepth := 0, 0, 0, 0, 0;
    }

    method Query() returns (ok: bool)
      modifies this`queries
      ensures queries == old(queries) + 1 && ((forall n :: !fails(n)) ==> ok)
    {
      ok := !fails(queries);
      queries := queries + 1;
    }

    /** The loop over source rows; stops when the findings are full. */
    method SourceLoop(keys: seq<Key>, src: Table, tgt: Table, out: seq<Finding>) returns (res: seq<Finding>)
      requires (forall k :: k in keys ==> k in src) && |out| < su.Max()
      ensures res == out + Take(SourceDiffs(keys, src, tgt), su.Max() - |out|)
    {
      res := out;
      for i := 0 to |keys|
        invariant res == out + SourceDiffs(keys[..i], src, tgt) && |res| <= su.Max()
      {
        if |res| >= su.Max() {
          SourcePrefix(keys, src, tgt, i);
          return;
        }
        var prefix := keys[..i + 1];
        assert prefix[..i] == keys[..i] && prefix[i] == keys[i];
        var k := keys[i];
        assert k in keys;
        if k !in tgt { res := res + [MissingInTarget(k)]; }
        else if src[k] != tgt[k] { res := res + [ValueMismatch(k)]; }
      }
      assert keys[..|keys|] == keys;
    }

    method TargetLoop(keys: seq<Key>, src: Table, out: seq<Finding>) returns (res: seq<Finding>)
      requires |out| <= su.Max()
      ensures res == out + Take(TargetDiffs(keys, src), su.Max() - |out|)
    {
      res := out;
      for i := 0 to |keys|
        invariant res == out + TargetDiffs(keys[..i], src) && |res| <= su.Max()
      {
        if |res| >= su.Max() {
          TargetPrefix(keys, src, i);
          return;
        }
        var prefix := keys[..i + 1];
        assert prefix[..i] == keys[..i] && prefix[i] == keys[i];
        if keys[i] !in src { res := res + [MissingInSource(keys[i])]; }
      }
      assert keys[..|keys|] == keys;
    }

    method CompareRows(r: Range, src: Digest, tgt: Digest, depth: nat, out: seq<Finding>)
      returns (res: seq<Finding>, ok: bool)
      requires ListsOnce(su) && |out| < su.Max() && src == su.Src(r) && tgt == su.Tgt(r)
      modifies this`queries, this`rowReads
      ensures var full := Compare(su, r, depth, su.Max() - |out|);
              if ok then res == out + full.findings && rowReads == old(rowReads) + full.rowReads &&
                         queries == old(queries) + full.rowReads
              else res == out
      ensures (forall n :: !fails(n)) ==> ok
    {
      hide LeafDiffs, SourceDiffs, TargetDiffs;
      res, ok := out, true;
      if !su.hasRows || depth >= su.Depth() {
        return out + [RangeUnresolved(r, src.rows, tgt.rows)], true;
      }
      ok := Query();
      if !ok { return; }
      ok := Query();
      if !ok { return; }
      var srcRows, tgtRows := Within(su.source, r), Within(su.target, r);
      rowReads := rowReads + 2;
      assert IsListing(su.list(srcRows.Keys), srcRows.Keys);
      res := SourceLoop(su.list(srcRows.Keys), srcRows, tgtRows, out);
      var after := TargetLoop(su.list(tgtRows.Keys), srcRows, res);
      TakeBoth(su, r, su.Max() - |out|);
      res := after;
    }

    /** Count the visit and digest both sides. */
    method Visit(r: Range, depth: nat) returns (src: Digest, tgt: Digest, ok: bool)
      modifies this`queries, this`digestQueries, this`rangesVisited, this`maxDepth
      ensures ok ==> src == su.Src(r) && tgt == su.Tgt(r)
      ensures ok ==> digestQueries == old(digestQueries) + 2 && queries == old(queries) + 2
      ensures rangesVisited == old(rangesVisited) + 1 && maxDepth == Deeper(old(maxDepth), depth)
      ensures (forall n :: !fails(n)) ==> ok
    {
      src, tgt := Digest(0, 0, 0), Digest(0, 0, 0);
      rangesVisited := rangesVisited + 1;
      if depth > maxDepth { maxDepth := depth; }
      ok := Query();
      if !ok { return; }
      src := RangeDigest(su.hash, su.source, r);
      ok := Query();
      if !ok { return; }
      tgt := RangeDigest(su.hash, su.target, r);
      digestQueries := digestQueries + 2;
    }

    method Descend(r: Range, depth: nat, out: seq<Finding>) returns (res: seq<Finding>, ok: bool)
      requires ListsOnce(su) && depth <= su.Depth() && |out| <= su.Max()
      modifies this`queries, this`rowReads, this`digestQueries, this`rangesVisited, this`maxDepth
      ensures var full := Descent(su, r, depth, su.Max() - |out|);
              out <= res <= out + full.findings && |res| <= su.Max() &&
              (ok ==> res == out + full.findings &&
                      rangesVisited == old(rangesVisited) + full.visited &&
                      maxDepth == Deeper(old(maxDepth), full.deepest) &&
                      digestQueries == old(digestQueries) + 2 * full.visited &&
                      rowReads == old(rowReads) + full.rowReads &&
                      queries == old(queries) + 2 * full.visited + full.rowReads)
      ensures (forall n :: !fails(n)) ==> ok
      decreases su.Depth() - depth
    {
      hide Compare, Bisect, DigestOf;
      AtMostCap(su, r, depth, su.Max() - |out|);
      res, ok := out, true;
      if |out| >= su.Max() { return; }
      var src, tgt;
      src, tgt, ok := Visit(r, depth);
      if !ok { return; }
      if src == tgt { return; }
      if src.rows == 0 && tgt.rows == 0 { return; }
      var maxRows := if tgt.rows > src.rows then tgt.rows else src.rows;
      if maxRows <= su.Leaf() || depth >= su.Depth() {
        CompareVisits(su, r, depth, su.Max() - |out|);
        res, ok := CompareRows(r, src, tgt, depth, out);
        return;
      }
      var mid := Bisect(r.low, r.high);
      if mid.None? {
        CompareVisits(su, r, depth, su.Max() - |out|);
        res, ok := CompareRows(r, src, tgt, depth, out);
        return;
      }
      res, ok := Halves(r, mid.value, depth, out);
    }

    method Halves(r: Range, mid: Key, depth: nat, out: seq<Finding>) returns (res: seq<Finding>, ok: bool)
      requires ListsOnce(su) && depth < su.Depth() && |out| < su.Max()
      modifies this`queries, this`rowReads, this`digestQueries, this`rangesVisited, this`maxDepth
      ensures var left := Descent(su, Lower(r, mid), depth + 1, su.Max() - |out|);
              |left.findings| <= su.Max() - |out| &&
              var right := Descent(su, Upper(r, mid), depth + 1, su.Max() - |out| - |left.findings|);
              out <= res <= out + (left.findings + right.findings) && |res| <= su.Max() &&
              (ok ==> res == out + (left.findings + right.findings) &&
                      rangesVisited == old(rangesVisited) + left.visited + right.visited &&
                      maxDepth == Deeper(old(maxDepth), Deeper(left.deepest, right.deepest)) &&
                      digestQueries == old(digestQueries) + 2 * left.visited + 2 * right.visited &&
                      rowReads == old(rowReads) + left.rowReads + right.rowReads &&
                      queries == old(queries) + 2 * (left.visited + right.visited) + left.rowReads + right.rowReads)
      ensures (forall n :: !fails(n)) ==> ok
      decreases su.Depth() - depth, 0
    {
      hide Descent;
      AtMostCap(su, Lower(r, mid), depth + 1, su.Max() - |out|);
      ghost var left := Descent(su, Lower(r, mid), depth + 1, su.Max() - |out|);
      res, ok := Descend(Lower(r, mid), depth + 1, out);
      if !ok {
        ghost var right := Descent(su, Upper(r, mid), depth + 1, su.Max() - |out| - |left.findings|);
        assert out + left.findings <= out + (left.findings + right.findings);
        return;
      }
      ghost var right := Descent(su, Upper(r, mid), depth + 1, su.Max() - |res|);
      assert (out + left.findings) + right.findings == out + (left.findings + right.findings);
      res, ok := Descend(Upper(r, mid), depth + 1, res);
    }

    /** Reconcile starts the counters afresh and returns the findings by key hash; an aborted run returns a
        prefix of the full run's findings as they were found. */
    method Reconcile(r: Range) returns (findings: seq<Finding>, ok: bool)
      requires ListsOnce(su)
      modifies this
      ensures var full := Descent(su, r, 0, su.Max());
              |findings| <= su.Max() && (!ok ==> findings <= full.findings) &&
              (ok ==> findings == ByHash(su.keyHash, full.findings) && rangesVisited == full.visited &&
                      digestQueries == 2 * full.visited && rowReads == full.rowReads && maxDepth == full.deepest &&
                      queries == old(queries) + digestQueries + rowReads)
      ensures (forall n :: !fails(n)) ==> ok
    {
      hide Descent, ByHash;
      digestQueries, rowReads, rangesVisited, maxDepth := 0, 0, 0, 0;
      findings, ok := Descend(r, 0, []);
      assert [] + Descent(su, r, 0, su.Max()).findings == Descent(su, r, 0, su.Max()).findings;
      if ok { findings := SortByHash(su.keyHash, findings); }
    }
  }

  lemma {:induction false} SourcePrefix(keys: seq<Key>, src: Table, tgt: Table, i: nat)
    requires i <= |keys| && forall k :: k in keys ==> k in src
    ensures SourceDiffs(keys[..i], src, tgt) <= SourceDiffs(keys, src, tgt)
    decreases |keys|
  {
    if i < |keys| {
      var last := |keys| - 1;
      assert keys[..last][..i] == keys[..i];
      SourcePrefix(keys[..last], src, tgt, i);
    } else {
      assert keys[..i] == keys;
    }
  }

  lemma {:induction false} TargetPrefix(keys: seq<Key>, src: Table, i: nat)
    requires i <= |keys|
    ensures TargetDiffs(keys[..i], src) <= TargetDiffs(keys, src)
    decreases |keys|
  {
    if i < |keys| {
      var last := |keys| - 1;
      assert keys[..last][..i] == keys[..i];
      TargetPrefix(keys[..last], src, i);
    } else {
      assert keys[..i] == keys;
    }
  }

  lemma TakeBoth(su: Setup, r: Range, cap: nat)
    requires ListsOnce(su)
    ensures var src, tgt := Within(su.source, r), Within(su.target, r);
            IsListing(su.list(src.Keys), src.Keys) &&
            var a := SourceDiffs(su.list(src.Keys), src, tgt);
            var b := TargetDiffs(su.list(tgt.Keys), src);
            Take(LeafDiffs(su, r), cap) == Take(a, cap) + Take(b, cap - |Take(a, cap)|)
  {
    hide SourceDiffs, TargetDiffs, Take;
    var src, tgt := Within(su.source, r), Within(su.target, r);
    assert IsListing(su.list(src.Keys), src.Keys) && IsListing(su.list(tgt.Keys), tgt.Keys);
    TakeConcat(SourceDiffs(su.list(src.Keys), src, tgt), TargetDiffs(su.list(tgt.Keys), src), cap);
  }

  lemma TakeConcat(a: seq<Finding>, b: seq<Finding>, cap: nat)
    ensures |Take(a, cap)| <= cap && Take(a + b, cap) == Take(a, cap) + Take(b, cap - |Take(a, cap)|)
  {
  }

  lemma CompareVisits(su: Setup, r: Range, depth: nat, cap: nat)
    requires ListsOnce(su) && cap >= 1
    ensures Compare(su, r, depth, cap).visited == 1 && Compare(su, r, depth, cap).deepest == depth
    ensures |Compare(su, r, depth, cap).findings| <= cap
  {
  }

  /** The findings never exceed the cap. */
  lemma {:induction false} AtMostCap(su: Setup, r: Range, depth: nat, cap: nat)
    requires ListsOnce(su)
    ensures |Descent(su, r, depth, cap).findings| <= cap
    decreases su.Depth() - depth
  {
    hide Compare, Bisect, DigestOf;
    if cap > 0 && su.Src(r) != su.Tgt(r) && !(su.Src(r).rows == 0 && su.Tgt(r).rows == 0) {
      if AtLeaf(su, r, depth) {
        CompareVisits(su, r, depth, cap);
      } else {
        var mid := Bisect(r.low, r.high).value;
        AtMostCap(su, Lower(r, mid), depth + 1, cap);
        AtMostCap(su, Upper(r, mid), depth + 1, cap - |Descent(su, Lower(r, mid), depth + 1, cap).findings|);
      }
    }
  }
}
