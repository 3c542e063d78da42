// The watermark protocol (docs/adr/0003-watermark-snapshot.md): one ordered log carries row changes and
// the low and high watermarks of chunk reads; the consumer applies changes in order, offers each to the
// window, and applies what survives a window when its high watermark arrives.

module Protocol {
  import opened Wrappers
  import opened Bytes
  import opened FencedRows
  import opened Windows

  type Table = map<Text, Image>

  /** A row change (None deletes) or a watermark, at its position in the source's log. */
  datatype Entry = Change(key: Text, image: Option<Image>) | Low(chunk: Text) | High(chunk: Text)

  /** The source: its table before the log, the log, and which keys each chunk's read covers. */
  datatype Source = Source(base: Table, log: seq<Entry>, covers: (Text, Text) -> bool)

  function Put(t: Table, key: Text, image: Option<Image>): Table {
    if image.Some? then t[key := image.value] else t - {key}
  }

  /** The source table once the first n log entries have happened. */
  function At(src: Source, n: nat): Table
    requires n <= |src.log|
  {
    if n == 0 then src.base
    else
      var t := At(src, n - 1);
      match src.log[n - 1]
      case Change(key, image) => Put(t, key, image)
      case _ => t
  }

  /** Each watermark of a chunk is written once. */
  ghost predicate UniqueMarks(src: Source) {
    forall i, j :: 0 <= i < j < |src.log| && src.log[i] == src.log[j] ==> src.log[i].Change?
  }

  ghost predicate Changed(src: Source, key: Text, i: nat, j: nat) {
    exists m :: i <= m < j && m < |src.log| && src.log[m].Change? && src.log[m].key == key
  }

  lemma {:induction false} Unchanged(src: Source, key: Text, i: nat, j: nat)
    requires i <= j <= |src.log| && !Changed(src, key, i, j)
    ensures key in At(src, i) <==> key in At(src, j)
    ensures key in At(src, i) ==> At(src, i)[key] == At(src, j)[key]
    decreases j
  {
    if i < j { Unchanged(src, key, i, j - 1); }
  }

  /** The source's row is what its last change left, if it has changed. */
  lemma LastChangeDecides(src: Source, key: Text, m: nat, n: nat)
    requires m < n <= |src.log| && src.log[m].Change? && src.log[m].key == key && !Changed(src, key, m + 1, n)
    ensures match src.log[m].image
            case Some(image) => key in At(src, n) && At(src, n)[key] == image
            case None => key !in At(src, n)
  {
    Unchanged(src, key, m + 1, n);
  }

  // ------------------------------------------------------------ the consumer

  /** The consumer has processed pos entries; `read` records the log position at which the rows now in
      the window were read, `done` the chunks whose window has closed. */
  datatype State = State(pos: nat, win: Win, target: Table, read: nat, done: set<Text>)

  datatype Action = Offer(chunk: Text, read: nat, keys: seq<Text>) | Consume | Abort

  /** The read of a chunk falls between its two watermarks. */
  ghost predicate ReadWithin(src: Source, chunk: Text, read: nat) {
    read <= |src.log| && (exists l :: 0 <= l < read && src.log[l] == Low(chunk)) &&
    forall h :: 0 <= h < |src.log| && src.log[h] == High(chunk) ==> read <= h
  }

  function RowsAt(t: Table, keys: seq<Text>): seq<Image>
    requires forall k :: k in keys ==> k in t
  {
    seq(|keys|, i requires 0 <= i < |keys| => assert keys[i] in keys; t[keys[i]])
  }

  /** The keys read are the chunk's rows at the read position, each once, in some order. */
  ghost predicate IsRead(src: Source, chunk: Text, read: nat, keys: seq<Text>)
    requires read <= |src.log|
  {
    Distinct(keys) && forall k :: k in keys <==> k in At(src, read) && src.covers(chunk, k)
  }

  ghost predicate Enabled(src: Source, s: State, a: Action) {
    match a
    case Offer(chunk, read, keys) => ReadWithin(src, chunk, read) && IsRead(src, chunk, read, keys)
    case Consume => s.pos < |src.log|
    case Abort => true
  }

  /** Applying emitted snapshot rows. */
  function Emit(t: Table, rows: seq<EmittedRow>): Table {
    if rows == [] then t else Emit(t, rows[..|rows| - 1])[rows[|rows| - 1].key := rows[|rows| - 1].values]
  }

  ghost function After(src: Source, s: State, a: Action): State
    requires Enabled(src, s, a)
  {
    match a
    case Offer(chunk, read, keys) =>
      var (win, e) := Buffered(s.win, chunk, keys, RowsAt(At(src, read), keys));
      s.(win := win, read := if e.Accepted? then read else s.read)
    case Consume =>
      (match src.log[s.pos]
       case Change(key, image) =>
         s.(pos := s.pos + 1, win := EventSeen(s.win, key), target := Put(s.target, key, image))
       case Low(chunk) => s.(pos := s.pos + 1, win := LowSeen(s.win, chunk))
       case High(chunk) =>
         if Closes(s.win, chunk) then
           s.(pos := s.pos + 1, win := HighSeen(s.win, chunk), done := s.done + {chunk},
              target := Emit(s.target, Survivors(s.win.order, s.win.buffered)))
         else s.(pos := s.pos + 1, win := HighSeen(s.win, chunk)))
    case Abort => s.(win := Aborted(s.win))
  }

  // ------------------------------------------------------------ the invariant

  /** Nothing on the target differs from the source at the consumer's position. */
  ghost predicate Agrees(target: Table, source: Table) {
    forall k :: k in target ==> k in source && target[k] == source[k]
  }

  /** Every source row of a finished chunk is on the target. */
  ghost predicate Complete(src: Source, target: Table, source: Table, done: set<Text>) {
    forall c, k :: c in done && src.covers(c, k) && k in source ==> k in target
  }

  /** The window's rows, before its low watermark, are the read; none has been evicted. */
  ghost predicate Fresh(src: Source, s: State) {
    ReadWithin(src, s.win.chunk, s.read) && Ordered(s.win) &&
    forall k :: k in s.win.buffered <==> k in At(src, s.read) && src.covers(s.win.chunk, k)
  }

  /** In an open window the rows left are those no change since the low watermark at l has touched, and
      whatever such a change left on the source is on the target. */
  ghost predicate Screened(src: Source, s: State, l: nat) {
    l < s.pos <= |src.log| && src.log[l] == Low(s.win.chunk) && l < s.read &&
    ReadWithin(src, s.win.chunk, s.read) && Ordered(s.win) &&
    (forall h :: 0 <= h < |src.log| && src.log[h] == High(s.win.chunk) ==> s.pos <= h) &&
    (forall k :: k in s.win.buffered <==>
       k in At(src, s.read) && src.covers(s.win.chunk, k) && !Changed(src, k, l + 1, s.pos)) &&
    forall k :: Changed(src, k, l + 1, s.pos) && k in At(src, s.pos) ==> k in s.target
  }

  ghost predicate Imaged(src: Source, s: State) {
    s.read <= |src.log| &&
    forall k :: k in s.win.buffered ==> k in At(src, s.read) && s.win.buffered[k] == At(src, s.read)[k]
  }

  ghost predicate WindowOk(src: Source, s: State) {
    (!s.win.state.WindowIdle? ==> Imaged(src, s)) &&
    (s.win.state.WindowBuffered? ==> Fresh(src, s)) &&
    (s.win.state.WindowOpen? ==> exists l :: Screened(src, s, l))
  }

  ghost predicate Inv(src: Source, s: State) {
    s.pos <= |src.log| && Agrees(s.target, At(src, s.pos)) &&
    Complete(src, s.target, At(src, s.pos), s.done) && WindowOk(src, s)
  }

  // ------------------------------------------------------------ steps keep it

  lemma {:induction false} PairingImages(keys: seq<Text>, t: Table)
    requires forall k :: k in keys ==> k in t
    ensures forall k :: k in Pairing(keys, RowsAt(t, keys)) ==> k in t && Pairing(keys, RowsAt(t, keys))[k] == t[k]
  {
    if keys != [] {
      var n := |keys| - 1;
      PairingImages(keys[..n], t);
      assert RowsAt(t, keys)[..n] == RowsAt(t, keys[..n]);
    }
  }

  lemma {:induction false} DistinctIsFresh(keys: seq<Text>)
    requires Distinct(keys)
    ensures FreshPrefix(keys) == |keys|
  {
    if keys != [] { DistinctIsFresh(keys[..|keys| - 1]); }
  }

  lemma OfferKeeps(src: Source, s: State, chunk: Text, read: nat, keys: seq<Text>)
    requires Inv(src, s) && Enabled(src, s, Offer(chunk, read, keys))
    ensures Inv(src, After(src, s, Offer(chunk, read, keys)))
  {
    DistinctIsFresh(keys);
    assert keys[..|keys|] == keys;
    var rows := RowsAt(At(src, read), keys);
    assert rows[..|keys|] == rows;
    PairingImages(keys, At(src, read));
  }

  lemma ChangeKeeps(src: Source, s: State)
    requires Inv(src, s) && s.pos < |src.log| && src.log[s.pos].Change?
    ensures Inv(src, After(src, s, Consume))
  {
    var t := After(src, s, Consume);
    var key := src.log[s.pos].key;
    if s.win.state.WindowOpen? {
      var l :| Screened(src, s, l);
      ChangeScreened(src, s, l);
    }
  }

  lemma ChangeScreened(src: Source, s: State, l: nat)
    requires s.pos < |src.log| && src.log[s.pos].Change? && s.win.state.WindowOpen? && Screened(src, s, l)
    ensures Screened(src, After(src, s, Consume), l)
  {
    var t := After(src, s, Consume);
    var from := l + 1;
    forall k ensures Changed(src, k, from, t.pos) <==> Changed(src, k, from, s.pos) || src.log[s.pos].key == k {
    }
    forall h | 0 <= h < |src.log| && src.log[h] == High(s.win.chunk) ensures t.pos <= h { }
  }

  lemma LowKeeps(src: Source, s: State)
    requires UniqueMarks(src) && Inv(src, s) && s.pos < |src.log| && src.log[s.pos].Low?
    ensures Inv(src, After(src, s, Consume))
  {
    var t := After(src, s, Consume);
    if s.win.state.WindowOpen? {
      var l :| Screened(src, s, l);
      MarkScreened(src, s, l);
    } else if s.win.state.WindowBuffered? && src.log[s.pos].chunk == s.win.chunk {
      var l :| 0 <= l < s.read && src.log[l] == Low(s.win.chunk);
      assert l == s.pos;
      forall h | 0 <= h < |src.log| && src.log[h] == High(s.win.chunk) ensures t.pos <= h { }
      assert Screened(src, t, l);
    }
  }

  /** A watermark that does not concern the window moves the position and nothing else. */
  lemma MarkScreened(src: Source, s: State, l: nat)
    requires s.pos < |src.log| && !src.log[s.pos].Change? && s.win.state.WindowOpen? && Screened(src, s, l)
    requires src.log[s.pos] != High(s.win.chunk)
    ensures Screened(src, s.(pos := s.pos + 1), l)
  {
  }

  lemma {:induction false} EmitMaps(t: Table, rows: seq<EmittedRow>, k: Text)
    ensures k in Emit(t, rows) <==> k in t || exists r :: r in rows && r.key == k
    ensures k in Emit(t, rows) ==>
              (k in t && Emit(t, rows)[k] == t[k]) ||
              exists r :: r in rows && r.key == k && r.values == Emit(t, rows)[k]
  {
    if rows != [] {
      var n := |rows| - 1;
      EmitMaps(t, rows[..n], k);
      assert rows == rows[..n] + [rows[n]];
    }
  }

  /** Closing a window: each emitted row is the source's row at the high watermark, and with the changes
      already applied they complete the chunk. */
  lemma CloseKeeps(src: Source, s: State)
    requires UniqueMarks(src) && Inv(src, s) && s.pos < |src.log| && src.log[s.pos].High?
    requires Closes(s.win, src.log[s.pos].chunk)
    ensures Inv(src, After(src, s, Consume))
    ensures var t := After(src, s, Consume);
            forall k :: src.covers(s.win.chunk, k) ==> (k in t.target <==> k in At(src, t.pos))
  {
    var t := After(src, s, Consume);
    var l :| Screened(src, s, l);
    assert At(src, t.pos) == At(src, s.pos);
    SurvivorsAre(s.win.order, s.win.buffered);
    forall k ensures k in t.target <==> k in s.target || k in s.win.buffered
             ensures k in t.target ==> k in At(src, s.pos) && t.target[k] == At(src, s.pos)[k]
             ensures src.covers(s.win.chunk, k) && k in At(src, s.pos) ==> k in t.target
    {
      CloseKey(src, s, l, k);
    }
  }

  lemma CloseKey(src: Source, s: State, l: nat, k: Text)
    requires Inv(src, s) && s.pos < |src.log| && src.log[s.pos] == High(s.win.chunk) && s.win.state.WindowOpen?
    requires Screened(src, s, l)
    ensures var target := Emit(s.target, Survivors(s.win.order, s.win.buffered));
            (k in target <==> k in s.target || k in s.win.buffered) &&
            (k in target ==> k in At(src, s.pos) && target[k] == At(src, s.pos)[k]) &&
            (src.covers(s.win.chunk, k) && k in At(src, s.pos) ==> k in target)
  {
    var rows := Survivors(s.win.order, s.win.buffered);
    SurvivorsAre(s.win.order, s.win.buffered);
    EmitMaps(s.target, rows, k);
    if k in s.win.buffered { assert EmittedRow(k, s.win.buffered[k]) in rows; }
    if !Changed(src, k, l + 1, s.pos) {
      assert l + 1 <= s.read <= s.pos;
      forall i, j | l + 1 <= i <= j <= s.pos ensures !Changed(src, k, i, j) { }
      Unchanged(src, k, s.read, s.pos);
    }
  }

  /** Every action keeps the invariant. */
  lemma StepKeeps(src: Source, s: State, a: Action)
    requires UniqueMarks(src) && Inv(src, s) && Enabled(src, s, a)
    ensures Inv(src, After(src, s, a))
  {
    match a
    case Offer(chunk, read, keys) => OfferKeeps(src, s, chunk, read, keys);
    case Abort =>
    case Consume =>
      match src.log[s.pos]
      case Change(_, _) => ChangeKeeps(src, s);
      case Low(_) => LowKeeps(src, s);
      case High(chunk) =>
        if Closes(s.win, chunk) { CloseKeeps(src, s); }
        else if s.win.state.WindowOpen? {
          var l :| Screened(src, s, l);
          MarkScreened(src, s, l);
        }
  }

  // ------------------------------------------------------------ every run

  const START := State(0, NEW, map[], 0, {})

  ghost predicate IsRun(src: Source, states: seq<State>, actions: seq<Action>) {
    |states| == |actions| + 1 && states[0] == START &&
    forall i :: 0 <= i < |actions| ==>
      Enabled(src, states[i], actions[i]) && states[i + 1] == After(src, states[i], actions[i])
  }

  lemma {:induction false} RunKeeps(src: Source, states: seq<State>, actions: seq<Action>, n: nat)
    requires UniqueMarks(src) && IsRun(src, states, actions) && n < |states|
    ensures Inv(src, states[n])
  {
    if n > 0 {
      RunKeeps(src, states, actions, n - 1);
      StepKeeps(src, states[n - 1], actions[n - 1]);
    }
  }

  /** The protocol is correct: at every point of every run the target holds nothing the source does not
      hold at that log position, and exactly the source's rows for every key of a finished chunk,
      deletes included. */
  lemma ChunksMatchSource(src: Source, states: seq<State>, actions: seq<Action>, n: nat, k: Text)
    requires UniqueMarks(src) && IsRun(src, states, actions) && n < |states|
    ensures var s := states[n];
            s.pos <= |src.log| &&
            (k in s.target ==> k in At(src, s.pos) && s.target[k] == At(src, s.pos)[k]) &&
            ((exists c :: c in s.done && src.covers(c, k)) ==> (k in s.target <==> k in At(src, s.pos)))
  {
    RunKeeps(src, states, actions, n);
  }

  /** When the finished chunks cover every key, the target is the source. */
  lemma FinishedMatchesSource(src: Source, states: seq<State>, actions: seq<Action>, n: nat)
    requires UniqueMarks(src) && IsRun(src, states, actions) && n < |states|
    requires states[n].pos <= |src.log|
    requires forall k :: k in At(src, states[n].pos) ==> exists c :: c in states[n].done && src.covers(c, k)
    ensures states[n].target == At(src, states[n].pos)
  {
    RunKeeps(src, states, actions, n);
  }

  /** A key changed inside an open window is already as the source has it, before the window closes. */
  lemma ChangedKeysMatch(src: Source, s: State, l: nat, k: Text)
    requires Inv(src, s) && Screened(src, s, l) && Changed(src, k, l + 1, s.pos)
    ensures k in s.target <==> k in At(src, s.pos)
    ensures k in s.target ==> s.target[k] == At(src, s.pos)[k]
    ensures k !in s.win.buffered
  {
  }

  /** Watermarks of other chunks, replayed or not, change nothing in the window. */
  lemma ForeignMarksInert(w: Win, chunk: Text)
    requires chunk != w.chunk
    ensures LowSeen(w, chunk) == w && HighSeen(w, chunk) == w
  {
  }

  ghost function ConsumeTo(src: Source, s: State, n: nat): State
    requires s.pos <= n <= |src.log|
    decreases n - s.pos
  {
    if s.pos == n then s else ConsumeTo(src, After(src, s, Consume), n)
  }

  /** A chunk buffered before the consumer reaches its low watermark, and not aborted, is finished once
      its high watermark has been consumed. */
  lemma {:induction false} ChunkFinishes(src: Source, s: State, l: nat, h: nat)
    requires UniqueMarks(src) && l < h < |src.log|
    requires src.log[l] == Low(s.win.chunk) && src.log[h] == High(s.win.chunk)
    requires (s.win.state.WindowBuffered? && s.pos <= l) || (s.win.state.WindowOpen? && l < s.pos <= h)
    ensures s.win.chunk in ConsumeTo(src, s, h + 1).done
    decreases h - s.pos
  {
    var t := After(src, s, Consume);
    if s.pos == h {
      assert ConsumeTo(src, s, h + 1) == ConsumeTo(src, t, h + 1) == t;
    } else {
      assert src.log[s.pos] != High(s.win.chunk);
      assert s.win.state.WindowBuffered? && s.pos < l ==> src.log[s.pos] != Low(s.win.chunk);
      ChunkFinishes(src, t, l, h);
    }
  }

  lemma {:induction false} DistinctIff(keys: seq<Text>)
    ensures Distinct(keys) <==> forall i, j :: 0 <= i < j < |keys| ==> keys[i] != keys[j]
  {
    if keys != [] {
      var last := |keys| - 1;
      DistinctIff(keys[..last]);
      assert keys[last] in keys[..last] <==> exists i :: 0 <= i < last && keys[i] == keys[last];
    }
  }

  /** A read offered to an idle window is taken, if its chunk is named. */
  lemma OfferTaken(src: Source, s: State, chunk: Text, read: nat, keys: seq<Text>)
    requires Enabled(src, s, Offer(chunk, read, keys)) && s.win.state.WindowIdle?
    ensures var t := After(src, s, Offer(chunk, read, keys));
            if chunk == [] then t == s
            else t.win.state.WindowBuffered? && t.win.chunk == chunk && t.read == read && t.win.order == keys &&
                 t.pos == s.pos && t.target == s.target && t.done == s.done
  {
    DistinctIff(keys);
    AcceptedIff(s.win, chunk, keys, RowsAt(At(src, read), keys));
    hide Buffered;
  }

  /** Aborting leaves an idle, empty window, and nothing else changes. */
  lemma AbortResets(src: Source, s: State)
    ensures var t := After(src, s, Abort);
            t.win.state.WindowIdle? && t.win.buffered == map[] && t.win.order == [] && t.win.stats == s.win.stats &&
            t.pos == s.pos && t.target == s.target && t.done == s.done
  {
  }

  /** So a chunk offered to an idle window before the consumer reaches its low watermark is finished by its high
      watermark. */
  lemma OfferedFinishes(src: Source, s: State, chunk: Text, read: nat, keys: seq<Text>, l: nat, h: nat)
    requires UniqueMarks(src) && Enabled(src, s, Offer(chunk, read, keys)) && s.win.state.WindowIdle? && chunk != []
    requires s.pos <= l < h < |src.log| && src.log[l] == Low(chunk) && src.log[h] == High(chunk)
    ensures chunk in ConsumeTo(src, After(src, s, Offer(chunk, read, keys)), h + 1).done
  {
    OfferTaken(src, s, chunk, read, keys);
    ChunkFinishes(src, After(src, s, Offer(chunk, read, keys)), l, h);
  }
}
