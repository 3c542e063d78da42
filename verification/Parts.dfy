// Extracted parts and their manifest (internal/snapshot/manifest.go, internal/snapshot/partition.go).

module Manifests {
  import opened Wrappers
  import opened Bytes
  import opened Events

  const MANIFEST_VERSION := 1

  datatype PartState = Writing | Sealed | Loaded | Failed

  datatype Part = Part(index: int, rows: int, digest: Text, extractLsn: uint64, firstKey: Text, lastKey: Text,
                       state: PartState)
  {
    predicate Eligible() { state.Sealed? && digest != [] }
  }

  datatype Manifest = Manifest(version: int, source: Text, target: Text, columns: seq<Text>, delimiter: Text,
                               startLsn: uint64, endLsn: uint64, parts: seq<Part>, totalRows: int, complete: bool)

  datatype Invalid =
    | Version
    | TableNames
    | NoColumns
    | NoDelimiter
    | DuplicateIndex(index: int)
    | NoDigest(index: int)
    | NegativeRows(index: int)
    | StillWriting(index: int)
    | RowSum
    | EndBeforeStart

  function RowsOf(parts: seq<Part>): int {
    if parts == [] then 0 else RowsOf(parts[..|parts| - 1]) + parts[|parts| - 1].rows
  }

  function EligibleRows(parts: seq<Part>): int {
    if parts == [] then 0
    else EligibleRows(parts[..|parts| - 1]) + if parts[|parts| - 1].Eligible() then parts[|parts| - 1].rows else 0
  }

  ghost predicate DistinctIndexes(parts: seq<Part>) {
    forall i, j :: 0 <= i < j < |parts| ==> parts[i].index != parts[j].index
  }

  ghost predicate SealedSound(p: Part) { p.state.Sealed? ==> p.digest != [] && p.rows >= 0 }

  /** What Validate promises of a manifest it accepts. */
  ghost predicate Consistent(m: Manifest) {
    && m.version == MANIFEST_VERSION && m.source != [] && m.target != [] && m.columns != [] && m.delimiter != []
    && DistinctIndexes(m.parts)
    && (forall p :: p in m.parts ==> SealedSound(p))
    && (m.complete ==>
          (forall p :: p in m.parts ==> !p.state.Writing?) && RowsOf(m.parts) == m.totalRows && m.startLsn <= m.endLsn)
  }

  /** What each complaint asserts about the manifest. */
  ghost predicate Justified(m: Manifest, e: Invalid) {
    match e
    case Version => m.version != MANIFEST_VERSION
    case TableNames => m.source == [] || m.target == []
    case NoColumns => m.columns == []
    case NoDelimiter => m.delimiter == []
    case DuplicateIndex(x) =>
      exists i, j :: 0 <= i < j < |m.parts| && m.parts[i].index == x && m.parts[j].index == x
    case NoDigest(x) => exists p :: p in m.parts && p.index == x && p.state.Sealed? && p.digest == []
    case NegativeRows(x) => exists p :: p in m.parts && p.index == x && p.state.Sealed? && p.rows < 0
    case StillWriting(x) => m.complete && exists p :: p in m.parts && p.index == x && p.state.Writing?
    case RowSum => m.complete && RowsOf(m.parts) != m.totalRows
    case EndBeforeStart => m.complete && m.endLsn < m.startLsn
  }

  method Validate(m: Manifest) returns (e: Option<Invalid>)
    ensures e.None? <==> Consistent(m)
    ensures e.Some? ==> Justified(m, e.value)
  {
    if m.version != MANIFEST_VERSION { return Some(Version); }
    if m.source == [] || m.target == [] { return Some(TableNames); }
    if m.columns == [] { return Some(NoColumns); }
    if m.delimiter == [] { return Some(NoDelimiter); }
    var seen: set<int>, rows := {}, 0;
    for i := 0 to |m.parts|
      invariant forall x :: x in seen <==> exists k :: 0 <= k < i && m.parts[k].index == x
      invariant DistinctIndexes(m.parts[..i])
      invariant forall k :: 0 <= k < i ==> SealedSound(m.parts[k])
      invariant rows == RowsOf(m.parts[..i])
    {
      var p := m.parts[i];
      assert p in m.parts;
      if p.index in seen { return Some(DuplicateIndex(p.index)); }
      seen := seen + {p.index};
      if p.state.Sealed? {
        if p.digest == [] { return Some(NoDigest(p.index)); }
        if p.rows < 0 { return Some(NegativeRows(p.index)); }
      }
      var prefix := m.parts[..i + 1];
      assert prefix[..i] == m.parts[..i] && prefix[i] == p;
      rows := rows + p.rows;
    }
    assert m.parts[..|m.parts|] == m.parts;
    if m.complete {
      for i := 0 to |m.parts|
        invariant forall k :: 0 <= k < i ==> !m.parts[k].state.Writing?
      {
        if m.parts[i].state.Writing? {
          assert m.parts[i] in m.parts;
          return Some(StillWriting(m.parts[i].index));
        }
      }
      if rows != m.totalRows { return Some(RowSum); }
      if m.endLsn < m.startLsn { return Some(EndBeforeStart); }
    }
    return None;
  }

  method RowsInSealedParts(m: Manifest) returns (n: int)
    ensures n == EligibleRows(m.parts)
  {
    n := 0;
    for i := 0 to |m.parts|
      invariant n == EligibleRows(m.parts[..i])
    {
      var prefix := m.parts[..i + 1];
      assert prefix[..i] == m.parts[..i] && prefix[i] == m.parts[i];
      if m.parts[i].Eligible() { n := n + m.parts[i].rows; }
    }
    assert m.parts[..|m.parts|] == m.parts;
  }

  function InsertByIndex(s: seq<Part>, p: Part): seq<Part> {
    if s == [] || p.index < s[0].index then [p] + s else [s[0]] + InsertByIndex(s[1..], p)
  }

  ghost predicate InIndexOrder(s: seq<Part>) {
    forall i, j :: 0 <= i < j < |s| ==> s[i].index <= s[j].index
  }

  lemma {:induction false} InsertAdds(s: seq<Part>, p: Part)
    ensures multiset(InsertByIndex(s, p)) == multiset(s) + multiset{p}
  {
    if s != [] {
      InsertAdds(s[1..], p);
      assert s == [s[0]] + s[1..];
    }
  }

  lemma {:induction false} InsertKeepsOrder(s: seq<Part>, p: Part)
    requires InIndexOrder(s)
    ensures InIndexOrder(InsertByIndex(s, p))
  {
    if s != [] && p.index >= s[0].index {
      InsertKeepsOrder(s[1..], p);
      var r := InsertByIndex(s[1..], p);
      forall k | 0 <= k < |r| ensures s[0].index <= r[k].index {
        InsertAdds(s[1..], p);
        assert r[k] in multiset(r);
      }
    }
  }

  function EligibleIn(parts: seq<Part>): seq<Part> {
    if parts == [] then []
    else
      var n := |parts| - 1;
      EligibleIn(parts[..n]) + if parts[n].Eligible() then [parts[n]] else []
  }

  /** Each listed part that is sealed and has a digest, as often as it is listed, and no other. */
  lemma {:induction false} EligibleAre(parts: seq<Part>, p: Part)
    ensures multiset(EligibleIn(parts))[p] == if p.state == Sealed && p.digest != [] then multiset(parts)[p] else 0
  {
    if parts != [] {
      var n := |parts| - 1;
      assert parts == parts[..n] + [parts[n]];
      EligibleAre(parts[..n], p);
    }
  }

  /** The rows counted are theirs. */
  lemma {:induction false} EligibleRowsAre(parts: seq<Part>)
    ensures EligibleRows(parts) == RowsOf(EligibleIn(parts))
  {
    if parts != [] {
      var n := |parts| - 1;
      EligibleRowsAre(parts[..n]);
      var rest := EligibleIn(parts[..n]);
      assert (rest + [parts[n]])[..|rest|] == rest && rest + [] == rest;
    }
  }

  /** SealedParts: the loadable parts, in load order. */
  method SealedParts(m: Manifest) returns (out: seq<Part>)
    ensures multiset(out) == multiset(EligibleIn(m.parts)) && InIndexOrder(out)
    ensures forall p :: p in out <==> p in m.parts && p.state == Sealed && p.digest != []
  {
    out := [];
    for i := 0 to |m.parts|
      invariant multiset(out) == multiset(EligibleIn(m.parts[..i])) && InIndexOrder(out)
    {
      var prefix := m.parts[..i + 1];
      assert prefix[..i] == m.parts[..i] && prefix[i] == m.parts[i];
      if m.parts[i].Eligible() {
        InsertKeepsOrder(out, m.parts[i]);
        InsertAdds(out, m.parts[i]);
        out := InsertByIndex(out, m.parts[i]);
      }
    }
    assert m.parts[..|m.parts|] == m.parts;
    forall p ensures p in out <==> p in m.parts && p.state == Sealed && p.digest != [] {
      EligibleAre(m.parts, p);
      assert p in multiset(out) <==> p in multiset(EligibleIn(m.parts));
    }
  }

  /** In an accepted, complete manifest whose parts are all still sealed, the rows a loader will count
      are the rows the extractor declared. */
  lemma CompleteRows(m: Manifest)
    requires Consistent(m) && m.complete && forall p :: p in m.parts ==> p.state.Sealed?
    ensures EligibleRows(m.parts) == m.totalRows
    ensures EligibleIn(m.parts) == m.parts
  {
    AllEligible(m.parts);
  }

  lemma {:induction false} AllEligible(parts: seq<Part>)
    requires forall p :: p in parts ==> p.Eligible()
    ensures EligibleRows(parts) == RowsOf(parts)
    ensures EligibleIn(parts) == parts
  {
    if parts != [] {
      assert parts == parts[..|parts| - 1] + [parts[|parts| - 1]];
      AllEligible(parts[..|parts| - 1]);
    }
  }
}

module Parts {
  import opened Wrappers
  import opened Events
  import opened Keys
  import opened Manifests

  type Record = seq<Bytes.Text>

  datatype Row = Row(key: Bytes.Text, record: Record)

  type Digest = t: Bytes.Text | t != [] witness [48]

  const DEFAULT_MAX_PART_ROWS := 20_000_000

  datatype TableSpec = TableSpec(source: Bytes.Text, target: Bytes.Text, columns: seq<Bytes.Text>,
                                 primaryKey: seq<Bytes.Text>)
  {
    predicate Accepted() {
      source != [] && target != [] && primaryKey != [] && columns != [] &&
      (forall c :: c in columns ==> c != []) && (forall k :: k in primaryKey ==> k in columns) &&
      forall i, j :: 0 <= i < j < |columns| ==> columns[i] != columns[j]
    }
  }

  /** TableSpec.Validate: names, then columns, each once, then the primary key. */
  method ValidateSpec(spec: TableSpec) returns (ok: bool)
    ensures ok <==> spec.Accepted()
  {
    if spec.source == [] || spec.target == [] || spec.primaryKey == [] || spec.columns == [] { return false; }
    var seen: set<Bytes.Text> := {};
    for i := 0 to |spec.columns|
      invariant forall c :: c in seen <==> exists k :: 0 <= k < i && spec.columns[k] == c
      invariant forall k :: 0 <= k < i ==> spec.columns[k] != []
      invariant forall j, k :: 0 <= j < k < i ==> spec.columns[j] != spec.columns[k]
    {
      var c := spec.columns[i];
      if c == [] { assert c in spec.columns; return false; }
      if c in seen { return false; }
      seen := seen + {c};
    }
    for i := 0 to |spec.primaryKey|
      invariant forall k :: 0 <= k < i ==> spec.primaryKey[k] in spec.columns
    {
      if spec.primaryKey[i] !in seen { assert spec.primaryKey[i] in spec.primaryKey; return false; }
    }
    return true;
  }

  datatype Config = Config(spec: TableSpec, maxPartRows: int, delimiter: Bytes.Text, nullSentinel: Bytes.Text,
                           startLsn: uint64)
  {
    function WithDefaults(): Config {
      this.(maxPartRows := if maxPartRows <= 0 then DEFAULT_MAX_PART_ROWS else maxPartRows,
            delimiter := if delimiter == [] then [44] else delimiter,
            nullSentinel := if nullSentinel == [] then [92, 78] else nullSentinel)
    }

    predicate Usable() { spec.Accepted() && maxPartRows > 0 && delimiter != [] && nullSentinel != [] }
  }

  /** Settings that are given hold; the others have their defaults: 20 million rows, a comma and \N. */
  lemma ConfigDefaults(cfg: Config)
    ensures var c := cfg.WithDefaults();
            c.spec == cfg.spec && c.startLsn == cfg.startLsn &&
            (cfg.maxPartRows > 0 ==> c.maxPartRows == cfg.maxPartRows) &&
            (cfg.maxPartRows <= 0 ==> c.maxPartRows == 20_000_000) &&
            (cfg.delimiter != [] ==> c.delimiter == cfg.delimiter) &&
            (cfg.delimiter == [] ==> c.delimiter == Bytes.Ascii(",")) &&
            (cfg.nullSentinel != [] ==> c.nullSentinel == cfg.nullSentinel) &&
            (cfg.nullSentinel == [] ==> c.nullSentinel == Bytes.Ascii("\\N"))
  {
  }

  /** How one value is written to a .dat file: only text held as a string is escaped. */
  function Encode(sentinel: Bytes.Text, v: KeyValue): Bytes.Text {
    match v
    case Nil => sentinel
    case Text(t) => if t == sentinel then [92] + t else t
    case _ => CanonicalValue(v)
  }

  /** A value reads back as NULL exactly when it is one, or when it is no string and renders as the sentinel. */
  lemma EncodedNullIff(sentinel: Bytes.Text, v: KeyValue)
    ensures Encode(sentinel, v) == sentinel <==> v.Nil? || (!v.Text? && CanonicalValue(v) == sentinel)
  {
    if v.Text? { assert |[92] + v.text| == |v.text| + 1; }
  }

  /** Everything else is written as it renders, but for the one string that is escaped. */
  lemma WrittenAsRenderedIff(sentinel: Bytes.Text, v: KeyValue)
    requires !v.Nil?
    ensures Encode(sentinel, v) == CanonicalValue(v) <==> !(v.Text? && v.text == sentinel)
    ensures v.Text? && v.text == sentinel ==> Encode(sentinel, v) == ['\\' as int] + sentinel
  {
    if v.Text? { assert |[92] + v.text| == |v.text| + 1; }
  }

  /** So text that a driver returns as a byte slice becomes NULL when it equals the sentinel. */
  lemma BytesBecomeNull(sentinel: Bytes.Text)
    ensures Encode(sentinel, Raw(sentinel)) == Encode(sentinel, Nil)
    ensures Encode(sentinel, Text(sentinel)) != Encode(sentinel, Nil)
  {
    EncodedNullIff(sentinel, Text(sentinel));
  }

  /** The price of the escape: exactly one pair of strings is merged, the sentinel and the sentinel escaped. */
  lemma EncodeMergesIff(sentinel: Bytes.Text, t: Bytes.Text, u: Bytes.Text)
    ensures Encode(sentinel, Text(t)) == Encode(sentinel, Text(u)) <==>
            t == u || {t, u} == {sentinel, [92] + sentinel}
  {
  }

  function Records(rows: seq<Row>): (r: seq<Record>)
    ensures |r| == |rows| && forall i :: 0 <= i < |rows| ==> r[i] == rows[i].record
  {
    seq(|rows|, i requires 0 <= i < |rows| => rows[i].record)
  }

  function Flatten<T>(parts: seq<seq<T>>): seq<T> {
    if parts == [] then [] else Flatten(parts[..|parts| - 1]) + parts[|parts| - 1]
  }

  /** The first and last non-empty keys of a part's rows. */
  function FirstKey(rows: seq<Row>): Bytes.Text {
    if rows == [] then []
    else
      var earlier := FirstKey(rows[..|rows| - 1]);
      if earlier == [] then rows[|rows| - 1].key else earlier
  }

  function LastKey(rows: seq<Row>): Bytes.Text {
    if rows == [] then []
    else if rows[|rows| - 1].key != [] then rows[|rows| - 1].key else LastKey(rows[..|rows| - 1])
  }

  function Longer(segs: seq<seq<Row>>, row: Row): seq<seq<Row>>
    requires segs != []
  {
    segs[|segs| - 1 := segs[|segs| - 1] + [row]]
  }

  function Encoded(sentinel: Bytes.Text, values: seq<KeyValue>): (r: Record)
    ensures |r| == |values|
  {
    seq(|values|, i requires 0 <= i < |values| => Encode(sentinel, values[i]))
  }

  /** Adding a row at the end of the last part keeps everything else in place. */
  lemma AppendToLast(segs: seq<seq<Row>>, row: Row)
    requires segs != []
    ensures var n := |segs| - 1;
            Flatten(Longer(segs, row)) == Flatten(segs) + [row] &&
            Records(segs[n] + [row]) == Records(segs[n]) + [row.record] &&
            FirstKey(segs[n] + [row]) == (if FirstKey(segs[n]) == [] then row.key else FirstKey(segs[n])) &&
            LastKey(segs[n] + [row]) == if row.key != [] then row.key else LastKey(segs[n])
  {
    FlattenLonger(segs, row);
    AppendToPart(segs[|segs| - 1], row);
  }

  lemma FlattenLonger(segs: seq<seq<Row>>, row: Row)
    requires segs != []
    ensures Flatten(Longer(segs, row)) == Flatten(segs) + [row]
  {
  }

  lemma AppendToPart(seg: seq<Row>, row: Row)
    ensures Records(seg + [row]) == Records(seg) + [row.record]
    ensures FirstKey(seg + [row]) == if FirstKey(seg) == [] then row.key else FirstKey(seg)
    ensures LastKey(seg + [row]) == if row.key != [] then row.key else LastKey(seg)
  {
  }

  lemma EmptyLast(segs: seq<seq<Row>>)
    ensures Flatten(segs + [[]]) == Flatten(segs) && Flatten<Row>([]) == []
    ensures Cursor(segs + [[]]) == OpenPart(|segs|, 0, [], [])
  {
    assert (segs + [[]])[..|segs|] == segs;
  }

  /** The row counts of the parts add up to the rows they hold. */
  lemma {:induction false} RowsAddUp(parts: seq<Part>, segs: seq<seq<Row>>)
    requires |parts| == |segs| && forall i :: 0 <= i < |parts| ==> parts[i].rows == |segs[i]|
    ensures RowsOf(parts) == |Flatten(segs)|
  {
    if parts != [] {
      var n := |parts| - 1;
      RowsAddUp(parts[..n], segs[..n]);
    }
  }

  datatype OpenPart = OpenPart(index: nat, rows: nat, firstKey: Bytes.Text, lastKey: Bytes.Text)

  /** Where an operation's file work may fail. */
  datatype Fault = NoFault | FileFault | ManifestFault | CallbackFault | OpenFault

  /** NilPart: the nil dereference of a write that follows a failed roll. */
  datatype WriteError = WriterClosed | ColumnCount | NilPart | RollFailed

  // ------------------------------------------------------------ the writer's layout, on values

  ghost function SealedPart(cfg: Config, hash: seq<Record> -> Digest, i: nat, seg: seq<Row>): (p: Part)
    ensures p.Eligible() && p.index == i && p.rows == |seg|
  {
    Part(i, |seg|, hash(Records(seg)), cfg.startLsn, FirstKey(seg), LastKey(seg), Sealed)
  }

  function BlankPart(cfg: Config, i: nat): Part { Part(i, 0, [], cfg.startLsn, [], [], Writing) }

  ghost function Cursor(segs: seq<seq<Row>>): OpenPart
    requires segs != []
  {
    var n := |segs| - 1;
    OpenPart(n, |segs[n]|, FirstKey(segs[n]), LastKey(segs[n]))
  }

  /** Parts are numbered from zero, all but the last are sealed and not empty, each describes its file. */
  ghost predicate LaidOut(cfg: Config, hash: seq<Record> -> Digest, parts: seq<Part>, segs: seq<seq<Row>>,
                          files: map<nat, seq<Record>>)
  {
    && |segs| == |parts| >= 1
    && (forall i :: 0 <= i < |segs| - 1 ==> parts[i] == SealedPart(cfg, hash, i, segs[i]) && segs[i] != [])
    && (parts[|parts| - 1] == SealedPart(cfg, hash, |parts| - 1, segs[|parts| - 1]) ||
        parts[|parts| - 1] == BlankPart(cfg, |parts| - 1))
    && (forall i :: 0 <= i < |segs| ==> i in files && files[i] == Records(segs[i]) && |segs[i]| <= cfg.maxPartRows)
    && (forall i :: i in files ==> i < |segs|)
  }

  lemma IndexIsPlace(cfg: Config, hash: seq<Record> -> Digest, parts: seq<Part>, segs: seq<seq<Row>>,
                     files: map<nat, seq<Record>>)
    requires LaidOut(cfg, hash, parts, segs, files)
    ensures |segs| == |parts| >= 1 && forall i :: 0 <= i < |parts| ==> parts[i].index == i
    ensures forall i :: 0 <= i < |parts| ==> i in files && files[i] == Records(segs[i])
    ensures forall i :: 0 <= i < |parts| - 1 ==> parts[i].state.Sealed?
    ensures forall i :: 0 <= i < |segs| - 1 ==> segs[i] != []
  {
  }

  lemma SealLayout(cfg: Config, hash: seq<Record> -> Digest, parts: seq<Part>, segs: seq<seq<Row>>,
                   files: map<nat, seq<Record>>)
    requires LaidOut(cfg, hash, parts, segs, files)
    ensures var n := |segs| - 1;
            LaidOut(cfg, hash, parts[n := SealedPart(cfg, hash, n, segs[n])], segs, files)
  {
  }

  lemma OpenLayout(cfg: Config, hash: seq<Record> -> Digest, parts: seq<Part>, segs: seq<seq<Row>>,
                   files: map<nat, seq<Record>>)
    requires LaidOut(cfg, hash, parts, segs, files) && cfg.maxPartRows > 0
    requires var n := |segs| - 1; segs[n] != [] && parts[n] == SealedPart(cfg, hash, n, segs[n])
    ensures LaidOut(cfg, hash, parts + [BlankPart(cfg, |parts|)], segs + [[]], files[|parts| := []])
  {
  }

  lemma GrowLayout(cfg: Config, hash: seq<Record> -> Digest, parts: seq<Part>, segs: seq<seq<Row>>,
                   files: map<nat, seq<Record>>, row: Row)
    requires LaidOut(cfg, hash, parts, segs, files)
    requires var n := |segs| - 1; parts[n] == BlankPart(cfg, n) && |segs[n]| < cfg.maxPartRows
    ensures var n := |segs| - 1;
            n in files &&
            LaidOut(cfg, hash, parts, Longer(segs, row), files[n := files[n] + [row.record]])
  {
  }

  lemma DropLayout(cfg: Config, hash: seq<Record> -> Digest, parts: seq<Part>, segs: seq<seq<Row>>,
                   files: map<nat, seq<Record>>)
    requires LaidOut(cfg, hash, parts, segs, files) && |segs| > 1
    ensures var n := |segs| - 1;
            LaidOut(cfg, hash, parts[..n], segs[..n], files - {n}) && segs[n - 1] != []
  {
  }

  /** The loader was told of sealed parts only, in order, and only after the saved manifest listed them. */
  ghost predicate Announced(announced: seq<Part>, parts: seq<Part>, saved: Option<Manifest>) {
    && |announced| <= |parts| && announced == parts[..|announced|]
    && (forall p :: p in announced ==> p.Eligible())
    && saved.Some? && announced <= saved.value.parts
  }

  /** One more sealed part, announced or not. */
  lemma AnnounceNext(announced: seq<Part>, parts: seq<Part>, saved: Option<Manifest>, p: Part)
    requires Announced(announced, parts, saved) && |announced| < |parts|
    ensures Announced(announced, parts[|parts| - 1 := p], saved)
    ensures forall m: Manifest :: |announced| == |parts| - 1 && p.Eligible() && m.parts == parts[|parts| - 1 := p] ==>
              m.parts == announced + [p] && Announced(announced + [p], m.parts, Some(m))
  {
  }

  /** With an open part the last file is still growing; without one its rows have been put away. */
  ghost predicate CursorFits(cfg: Config, cur: Option<OpenPart>, parts: seq<Part>, segs: seq<seq<Row>>,
                             announced: seq<Part>, nextIdx: nat)
    requires |segs| == |parts| >= 1
  {
    var n := |segs| - 1;
    match cur
    case Some(p) =>
      p == Cursor(segs) && |segs[n]| < cfg.maxPartRows && parts[n] == BlankPart(cfg, n) &&
      nextIdx == |parts| && |announced| == n
    case None => n > 0 ==> segs[n] != []
  }

  /** A published manifest is complete and consistent; its parts are all sealed, none over the row limit,
      none empty unless nothing was extracted; their digests are those of the files, and the files,
      in index order, hold exactly the rows written. */
  ghost predicate Faithful(cfg: Config, hash: seq<Record> -> Digest, m: Manifest, segs: seq<seq<Row>>,
                           files: map<nat, seq<Record>>, written: seq<Row>)
  {
    && Consistent(m) && m.complete && m.totalRows == EligibleRows(m.parts) == |written|
    && |m.parts| == |segs| && Flatten(segs) == written
    && (forall i :: 0 <= i < |m.parts| ==> m.parts[i] == SealedPart(cfg, hash, i, segs[i]))
    && (forall i :: 0 <= i < |segs| ==> i in files && files[i] == Records(segs[i]) && |segs[i]| <= cfg.maxPartRows)
    && (forall i :: i in files ==> i < |segs|)
    && (written != [] ==> forall i :: 0 <= i < |segs| ==> segs[i] != [])
  }

  /** The bounds of a part's keys are those of the first and of the last row that has one. */
  lemma {:induction false} FirstKeyIs(rows: seq<Row>)
    ensures if forall i :: 0 <= i < |rows| ==> rows[i].key == [] then FirstKey(rows) == []
            else exists i :: 0 <= i < |rows| && rows[i].key == FirstKey(rows) != [] &&
                             forall j :: 0 <= j < i ==> rows[j].key == []
  {
    if rows != [] {
      var n := |rows| - 1;
      var rest := rows[..n];
      FirstKeyIs(rest);
      assert forall i :: 0 <= i < n ==> rest[i] == rows[i];
      if FirstKey(rest) != [] {
        var i :| 0 <= i < n && rest[i].key == FirstKey(rest) && forall j :: 0 <= j < i ==> rest[j].key == [];
        assert rows[i].key == FirstKey(rows);
      } else if rows[n].key != [] {
        assert rows[n].key == FirstKey(rows);
      }
    }
  }

  lemma {:induction false} LastKeyIs(rows: seq<Row>)
    ensures if forall i :: 0 <= i < |rows| ==> rows[i].key == [] then LastKey(rows) == []
            else exists i :: 0 <= i < |rows| && rows[i].key == LastKey(rows) != [] &&
                             forall j :: i < j < |rows| ==> rows[j].key == []
  {
    if rows != [] {
      var n := |rows| - 1;
      var rest := rows[..n];
      LastKeyIs(rest);
      assert forall i :: 0 <= i < n ==> rest[i] == rows[i];
      if rows[n].key != [] {
        assert rows[n].key == LastKey(rows);
      } else if LastKey(rest) != [] {
        var i :| 0 <= i < n && rest[i].key == LastKey(rest) && forall j :: i < j < n ==> rest[j].key == [];
        assert rows[i].key == LastKey(rows);
      }
    }
  }

  /** Each entry of a published manifest describes its own file: its place, its rows, its digest, the extract's start
      and the bounds of its keys. */
  lemma PublishedPart(cfg: Config, hash: seq<Record> -> Digest, m: Manifest, segs: seq<seq<Row>>,
                      files: map<nat, seq<Record>>, written: seq<Row>, i: nat)
    requires Faithful(cfg, hash, m, segs, files, written) && i < |m.parts|
    ensures var p := m.parts[i];
            p.index == i && p.state == Sealed && p.extractLsn == cfg.startLsn &&
            i in files && p.rows == |files[i]| == |segs[i]| && p.digest == hash(files[i]) &&
            (forall j :: 0 <= j < |files[i]| ==> files[i][j] == segs[i][j].record) &&
            p.firstKey == FirstKey(segs[i]) && p.lastKey == LastKey(segs[i])
  {
  }

  class PartWriter {
    const cfg: Config
    const hash: seq<Record> -> Digest
    var cur: Option<OpenPart>
    var parts: seq<Part>
    var rows: int
    var nextIdx: nat
    var closed: bool
    /** The part files and the manifest file on disk. */
    var files: map<nat, seq<Record>>
    var saved: Option<Manifest>
    /** The rows accepted so far, as a whole and part by part, and the parts announced to the loader. */
    ghost var written: seq<Row>
    ghost var segs: seq<seq<Row>>
    ghost var announced: seq<Part>

    /** The last part's file could not be finished: it stays unsealed for good. */
    ghost predicate Broken()
      reads this
    {
      cur.None? && parts != [] && parts[|parts| - 1].state.Writing?
    }

    /** What holds even while a part is being sealed. */
    ghost predicate Sound()
      reads this
    {
      cfg.Usable() && LaidOut(cfg, hash, parts, segs, files) && Announced(announced, parts, saved) &&
      Flatten(segs) == written && rows == |written| && (saved.Some? && saved.value.complete ==> closed)
    }

    ghost predicate Valid()
      reads this
    {
      Sound() && (closed ==> cur.None?) && CursorFits(cfg, cur, parts, segs, announced, nextIdx)
    }

    function BuildManifest(complete: bool): Manifest
      reads this
    {
      Manifest(MANIFEST_VERSION, cfg.spec.source, cfg.spec.target, cfg.spec.columns, cfg.delimiter, cfg.startLsn, 0,
               parts, rows, complete)
    }

    constructor Prepare(cfg: Config, hash: seq<Record> -> Digest)
      requires cfg.WithDefaults().Usable()
      ensures this.cfg == cfg.WithDefaults() && this.hash == hash
      ensures Valid() && !closed && cur.Some? && written == [] && announced == []
    {
      this.cfg := cfg.WithDefaults();
      this.hash := hash;
      closed, rows, nextIdx := false, 0, 1;
      var blank := BlankPart(cfg.WithDefaults(), 0);
      cur, parts, files := Some(OpenPart(0, 0, [], [])), [blank], map[0 := []];
      saved := Some(Manifest(MANIFEST_VERSION, cfg.spec.source, cfg.spec.target, cfg.spec.columns,
                             cfg.WithDefaults().delimiter, cfg.startLsn, 0, [blank], 0, false));
      written, segs, announced := [], [[]], [];
      new;
    }

    /** Finalise the open part and tell the loader. */
    method Seal(fault: Fault) returns (ok: bool)
      requires Sound() && !closed
      requires cur.Some? ==>
                 cur.value == Cursor(segs) && parts[|segs| - 1] == BlankPart(cfg, |segs| - 1) &&
                 |announced| == |segs| - 1
      requires |segs| > 1 ==> segs[|segs| - 1] != []
      modifies this`cur, this`parts, this`saved, this`announced
      ensures Valid() && cur.None?
      ensures ok <==> old(cur).None? || fault in {NoFault, OpenFault}
      ensures old(cur).None? ==> parts == old(parts) && saved == old(saved) && announced == old(announced)
      ensures old(cur).Some? ==>
                var n := |segs| - 1;
                parts == (if fault.FileFault? then old(parts)
                          else old(parts)[n := SealedPart(cfg, hash, n, segs[n])]) &&
                announced == if fault in {FileFault, ManifestFault} then old(announced) else parts
    {
      hide LaidOut, Announced, SealedPart, Records, FirstKey, LastKey, Flatten;
      if cur.None? { return true; }
      IndexIsPlace(cfg, hash, parts, segs, files);
      SealLayout(cfg, hash, parts, segs, files);
      var p := cur.value;
      cur := None;
      if fault.FileFault? { return false; }
      var sealed := Part(p.index, p.rows, hash(files[p.index]), cfg.startLsn, p.firstKey, p.lastKey, Sealed);
      SealedAs(sealed, |segs| - 1);
      AnnounceNext(announced, parts, saved, sealed);
      var i := 0;
      while i < |parts| && parts[i].index != p.index
        invariant i <= |segs| - 1
      {
        i := i + 1;
      }
      parts := parts[i := sealed];
      if fault.ManifestFault? { return false; }
      saved := Some(BuildManifest(false));
      announced := announced + [sealed];
      ok := !fault.CallbackFault?;
    }

    lemma SealedAs(sealed: Part, n: nat)
      requires n < |segs| && n in files && files[n] == Records(segs[n])
      requires sealed == Part(n, |segs[n]|, hash(files[n]), cfg.startLsn, FirstKey(segs[n]), LastKey(segs[n]), Sealed)
      ensures sealed == SealedPart(cfg, hash, n, segs[n]) && sealed.Eligible()
    {
    }

    /** Seal the open part and open the next one. */
    method Roll(fault: Fault) returns (ok: bool)
      requires Sound() && !closed && segs[|segs| - 1] != []
      requires cur == Some(Cursor(segs)) && parts[|segs| - 1] == BlankPart(cfg, |segs| - 1) &&
               nextIdx == |parts| && |announced| == |segs| - 1
      modifies this`cur, this`parts, this`saved, this`announced, this`nextIdx, this`files, this`segs
      ensures Valid()
      ensures ok <==> fault.NoFault?
      ensures ok ==> cur.Some? && segs == old(segs) + [[]]
      ensures ok ==>
                var p := parts[|parts| - 1];
                p.state == Writing && p.rows == 0 && p.digest == [] && p.index == |parts| - 1 == |old(parts)|
      ensures !ok ==> cur.None? && segs == old(segs)
      ensures Broken() <==> fault.FileFault?
      ensures |parts| >= |old(parts)| && forall i :: 0 <= i < |old(parts)| - 1 ==> parts[i] == old(parts)[i]
      ensures forall i :: 0 <= i < |old(segs)| ==> i in old(files) && i in files && files[i] == old(files)[i]
    {
      hide LaidOut, Announced, SealedPart, Records, FirstKey, LastKey, Flatten;
      IndexIsPlace(cfg, hash, parts, segs, files);
      ok := Seal(fault);
      if !ok { return; }
      nextIdx := nextIdx + 1;
      if fault.OpenFault? { return false; }
      OpenNext();
    }

    method OpenNext()
      requires Valid() && cur.None? && !closed && nextIdx == |parts| + 1 && segs[|segs| - 1] != []
      requires parts[|parts| - 1] == SealedPart(cfg, hash, |parts| - 1, segs[|segs| - 1]) && |announced| == |parts|
      modifies this`cur, this`files, this`parts, this`segs
      ensures Valid() && cur.Some?
      ensures segs == old(segs) + [[]] && parts == old(parts) + [BlankPart(cfg, |old(parts)|)]
      ensures files == old(files)[|old(parts)| := []]
    {
      hide LaidOut, Announced, SealedPart, Records, FirstKey, LastKey, Flatten;
      IndexIsPlace(cfg, hash, parts, segs, files);
      var idx := nextIdx - 1;
      OpenLayout(cfg, hash, parts, segs, files);
      EmptyLast(segs);
      StaysAnnounced(announced, parts, saved);
      files := files[idx := []];
      cur := Some(OpenPart(idx, 0, [], []));
      parts := parts + [BlankPart(cfg, idx)];
      segs := segs + [[]];
    }

    /** Append one row; full is the byte threshold's verdict. */
    method WriteRow(key: Bytes.Text, values: seq<KeyValue>, full: bool, fault: Fault) returns (err: Option<WriteError>)
      requires Valid()
      modifies this
      ensures Valid() && closed == old(closed)
      ensures err == Some(WriterClosed) <==> old(closed)
      ensures err == Some(ColumnCount) <==> !old(closed) && |values| != |cfg.spec.columns|
      ensures err == Some(NilPart) <==> !old(closed) && |values| == |cfg.spec.columns| && old(cur).None?
      ensures err.Some? && !err.value.RollFailed? ==>
                written == old(written) && segs == old(segs) && parts == old(parts) && files == old(files) &&
                cur == old(cur) && announced == old(announced) && saved == old(saved)
      ensures err.None? || err.value.RollFailed? ==>
                var longer := Longer(old(segs), Row(key, Encoded(cfg.nullSentinel, values)));
                var rolls := full || |longer[|longer| - 1]| == cfg.maxPartRows;
                written == old(written) + [Row(key, Encoded(cfg.nullSentinel, values))] &&
                segs == (if rolls && fault.NoFault? then longer + [[]] else longer) &&
                (err == Some(RollFailed) <==> rolls && !fault.NoFault?) &&
                (Broken() <==> rolls && fault.FileFault?)
      ensures forall i :: 0 <= i < |old(parts)| && old(parts)[i].state.Sealed? ==>
                i < |parts| && parts[i] == old(parts)[i] && i in files && i in old(files) && files[i] == old(files)[i]
    {
      hide LaidOut, Announced, SealedPart, Records, FirstKey, LastKey, Flatten;
      IndexIsPlace(cfg, hash, parts, segs, files);
      if closed { return Some(WriterClosed); }
      if |values| != |cfg.spec.columns| { return Some(ColumnCount); }
      var record := EncodeRow(values);
      if cur.None? { return Some(NilPart); }
      Append(key, record);
      if full || cur.value.rows >= cfg.maxPartRows {
        var ok := Roll(fault);
        if !ok { return Some(RollFailed); }
      }
      return None;
    }

    method Append(key: Bytes.Text, record: Record)
      requires Valid() && cur.Some?
      modifies this`cur, this`rows, this`files, this`written, this`segs
      ensures Sound() && !closed && parts[|segs| - 1] == BlankPart(cfg, |segs| - 1)
      ensures segs == Longer(old(segs), Row(key, record)) && written == old(written) + [Row(key, record)]
      ensures cur == Some(Cursor(segs)) && |segs[|segs| - 1]| <= cfg.maxPartRows
      ensures forall i :: 0 <= i < |segs| - 1 ==> i in files && i in old(files) && files[i] == old(files)[i]
    {
      hide LaidOut, Announced, SealedPart, Records, FirstKey, LastKey, Flatten;
      IndexIsPlace(cfg, hash, parts, segs, files);
      ghost var row := Row(key, record);
      AppendToLast(segs, row);
      GrowLayout(cfg, hash, parts, segs, files, row);
      var p := cur.value;
      files := files[p.index := files[p.index] + [record]];
      segs := Longer(segs, row);
      written := written + [row];
      rows := rows + 1;
      cur := Some(OpenPart(p.index, p.rows + 1, if key != [] && p.firstKey == [] then key else p.firstKey,
                           if key != [] then key else p.lastKey));
    }

    method EncodeRow(values: seq<KeyValue>) returns (record: Record)
      ensures record == Encoded(cfg.nullSentinel, values)
    {
      record := [];
      for k := 0 to |values|
        invariant |record| == k && forall i :: 0 <= i < k ==> record[i] == Encode(cfg.nullSentinel, values[i])
      {
        record := record + [Encode(cfg.nullSentinel, values[k])];
      }
    }

    /** Seal or drop the last part and publish the complete manifest. */
    method Close(endLsn: uint64, fault: Fault, stored: bool) returns (m: Option<Manifest>)
      requires Valid()
      modifies this
      ensures Valid() && written == old(written)
      ensures var drops := old(cur).Some? && |old(segs)| > 1 && old(segs)[|old(segs)| - 1] == [];
              m.Some? <==>
              !old(closed) && !old(Broken()) && (old(cur).None? || drops || fault in {NoFault, OpenFault}) &&
              cfg.startLsn <= endLsn && stored
      ensures m.Some? ==>
                closed && Faithful(cfg, hash, m.value, segs, files, written) && m.value.startLsn == cfg.startLsn &&
                m.value.endLsn == endLsn && m.value.parts == parts && saved == m
      ensures m.Some? ==>
                m.value.source == cfg.spec.source && m.value.target == cfg.spec.target &&
                m.value.columns == cfg.spec.columns && m.value.delimiter == cfg.delimiter
    {
      hide LaidOut, Announced, SealedPart, Records, FirstKey, LastKey, Flatten, Faithful;
      if closed { return None; }
      IndexIsPlace(cfg, hash, parts, segs, files);
      if cur.Some? && cur.value.rows == 0 && |parts| > 1 {
        DropLast();
      } else {
        var ok := Seal(fault);
        if !ok { return None; }
      }
      m := Publish(endLsn, stored);
    }

    method Publish(endLsn: uint64, stored: bool) returns (m: Option<Manifest>)
      requires Valid() && cur.None?
      modifies this`closed, this`saved
      ensures Valid() && closed
      ensures m.Some? <==> !Broken() && cfg.startLsn <= endLsn && stored
      ensures m.Some? ==>
                Faithful(cfg, hash, m.value, segs, files, written) && m.value.startLsn == cfg.startLsn &&
                m.value.endLsn == endLsn && m.value.parts == parts && saved == m
      ensures m.Some? ==>
                m.value.source == cfg.spec.source && m.value.target == cfg.spec.target &&
                m.value.columns == cfg.spec.columns && m.value.delimiter == cfg.delimiter
    {
      hide LaidOut, Announced, SealedPart, Records, FirstKey, LastKey, Flatten, Consistent, Faithful;
      closed := true;
      var built := BuildManifest(true).(endLsn := endLsn);
      ValidManifest(endLsn);
      var e := Validate(built);
      if e.Some? || !stored { return None; }
      StaysAnnounced(announced, parts, saved);
      saved := Some(built);
      return saved;
    }

    method DropLast()
      requires Valid() && cur.Some? && cur.value.rows == 0 && |parts| > 1
      modifies this`cur, this`files, this`parts, this`segs
      ensures Valid() && cur.None? && !Broken()
      ensures files == old(files) - {|old(parts)| - 1}
      ensures parts == old(parts)[..|old(parts)| - 1] && segs == old(segs)[..|old(segs)| - 1]
    {
      hide LaidOut, Announced, SealedPart, Records, FirstKey, LastKey, Flatten;
      ghost var n := |segs| - 1;
      IndexIsPlace(cfg, hash, parts, segs, files);
      DropLayout(cfg, hash, parts, segs, files);
      StaysAnnounced(announced, parts, saved);
      assert segs == segs[..n] + [[]];
      EmptyLast(segs[..n]);
      var idx := cur.value.index;
      files := files - {idx};
      cur := None;
      var i := 0;
      while i < |parts| && parts[i].index != idx
        invariant i <= idx
      {
        i := i + 1;
      }
      assert parts[..i] + parts[i + 1..] == parts[..n];
      parts := parts[..i] + parts[i + 1..];
      segs := segs[..n];
    }

    /** The manifest Close builds is accepted unless a part stayed unsealed or the window is reversed. */
    lemma ValidManifest(endLsn: uint64)
      requires Valid() && cur.None?
      ensures var m := BuildManifest(true).(endLsn := endLsn);
              (Consistent(m) <==> !Broken() && cfg.startLsn <= endLsn) &&
              (Consistent(m) ==> Faithful(cfg, hash, m, segs, files, written))
    {
      hide LaidOut, Announced, SealedPart, Records, FirstKey, LastKey, Flatten, Consistent, Faithful;
      var m := BuildManifest(true).(endLsn := endLsn);
      IndexIsPlace(cfg, hash, parts, segs, files);
      if Broken() || endLsn < cfg.startLsn {
        Refused(m);
      } else {
        AllSealed(cfg, hash, parts, segs, files);
        Accepted(m);
        EmptyLast([]);
        assert |segs| == 1 && segs[0] == [] ==> segs == [] + [[]];
        IsFaithful(cfg, hash, m, segs, files, written);
      }
    }
  }

  lemma Refused(m: Manifest)
    requires m.complete && m.parts != [] && (m.parts[|m.parts| - 1].state.Writing? || m.endLsn < m.startLsn)
    ensures !Consistent(m)
  {
  }

  lemma Accepted(m: Manifest)
    requires m.version == MANIFEST_VERSION && m.source != [] && m.target != [] && m.columns != [] && m.delimiter != []
    requires DistinctIndexes(m.parts) && RowsOf(m.parts) == m.totalRows && m.startLsn <= m.endLsn
    requires forall i :: 0 <= i < |m.parts| ==> m.parts[i].Eligible() && m.parts[i].rows >= 0
    ensures Consistent(m)
  {
  }

  lemma IsFaithful(cfg: Config, hash: seq<Record> -> Digest, m: Manifest, segs: seq<seq<Row>>,
                   files: map<nat, seq<Record>>, written: seq<Row>)
    requires Consistent(m) && m.complete && m.totalRows == EligibleRows(m.parts) == |written|
    requires LaidOut(cfg, hash, m.parts, segs, files) && Flatten(segs) == written
    requires forall i :: 0 <= i < |m.parts| ==> m.parts[i] == SealedPart(cfg, hash, i, segs[i])
    requires written != [] ==> forall i :: 0 <= i < |segs| ==> segs[i] != []
    ensures Faithful(cfg, hash, m, segs, files, written)
  {
  }

  lemma AllSealed(cfg: Config, hash: seq<Record> -> Digest, parts: seq<Part>, segs: seq<seq<Row>>,
                  files: map<nat, seq<Record>>)
    requires LaidOut(cfg, hash, parts, segs, files) && !parts[|parts| - 1].state.Writing?
    ensures forall i :: 0 <= i < |parts| ==> parts[i] == SealedPart(cfg, hash, i, segs[i]) && parts[i].Eligible()
    ensures EligibleRows(parts) == RowsOf(parts) == |Flatten(segs)|
    ensures DistinctIndexes(parts)
  {
    assert forall i :: 0 <= i < |parts| ==> parts[i] == SealedPart(cfg, hash, i, segs[i]);
    hide SealedPart, Flatten, LaidOut, RowsOf, EligibleRows, Records;
    RowsAddUp(parts, segs);
    AllEligible(parts);
  }

  /** What was announced stays a prefix when a part is added, when one after it is dropped, and when another
      manifest listing the parts is saved. */
  lemma StaysAnnounced(announced: seq<Part>, parts: seq<Part>, saved: Option<Manifest>)
    requires Announced(announced, parts, saved)
    ensures forall p :: Announced(announced, parts + [p], saved)
    ensures |announced| < |parts| ==> Announced(announced, parts[..|parts| - 1], saved)
    ensures forall m: Manifest :: m.parts == parts ==> Announced(announced, parts, Some(m))
  {
    forall p ensures Announced(announced, parts + [p], saved) {
      assert (parts + [p])[..|announced|] == parts[..|announced|];
    }
  }

  /** NewPartWriter: a refused specification or a failed first file gives no writer. */
  method NewPartWriter(cfg: Config, dir: Bytes.Text, hash: seq<Record> -> Digest, fault: Fault)
    returns (w: PartWriter?)
    ensures w != null <==> dir != [] && cfg.spec.Accepted() && fault.NoFault?
    ensures w != null ==> fresh(w) && w.Valid() && !w.closed && w.cur.Some? && w.written == [] &&
                          w.cfg == cfg.WithDefaults()
  {
    if dir == [] { return null; }
    var ok := ValidateSpec(cfg.spec);
    if !ok || !fault.NoFault? { return null; }
    w := new PartWriter.Prepare(cfg, hash);
  }
}
