// Watermark-based chunk deduplication (internal/snapshot/window.go): the state machine, and the
// protocol it serves.

module Windows {
  import opened Bytes
  import opened FencedRows

  datatype WindowState = WindowIdle | WindowBuffered | WindowOpen

  datatype WindowStats = WindowStats(chunksCompleted: nat, rowsBuffered: nat, rowsEmitted: nat, rowsEvicted: nat)

  /** A surviving snapshot row: its canonical key and its values. */
  datatype EmittedRow = EmittedRow(key: Text, values: Image)

  /** The state of a window. */
  datatype Win = Win(state: WindowState, chunk: Text, buffered: map<Text, Image>, order: seq<Text>, stats: WindowStats)

  const NEW := Win(WindowIdle, [], map[], [], WindowStats(0, 0, 0, 0))

  predicate Distinct(keys: seq<Text>) {
    keys == [] || (keys[|keys| - 1] !in keys[..|keys| - 1] && Distinct(keys[..|keys| - 1]))
  }

  /** The length of the longest duplicate-free prefix. */
  function FreshPrefix(keys: seq<Text>): (n: nat)
    ensures n <= |keys|
  {
    if keys == [] then 0
    else
      var last := |keys| - 1;
      var n := FreshPrefix(keys[..last]);
      if n < last || keys[last] in keys[..last] then n else n + 1
  }

  lemma {:induction false} FreshIsDistinct(keys: seq<Text>)
    ensures Distinct(keys[..FreshPrefix(keys)])
    ensures FreshPrefix(keys) < |keys| ==> keys[FreshPrefix(keys)] in keys[..FreshPrefix(keys)]
    decreases |keys|
  {
    if keys != [] {
      var last := |keys| - 1;
      var n := FreshPrefix(keys[..last]);
      FreshIsDistinct(keys[..last]);
      assert keys[..last][..n] == keys[..n];
      if n == last && keys[last] !in keys[..last] { assert keys[..n + 1] == keys && keys[..last][..n] == keys[..last]; }
    }
  }

  function Pairing(keys: seq<Text>, rows: seq<Image>): (m: map<Text, Image>)
    requires |keys| == |rows|
    ensures forall k :: k in m <==> k in keys
    ensures |m| <= |keys|
  {
    if keys == [] then map[]
    else
      var n := |keys| - 1;
      assert keys == keys[..n] + [keys[n]];
      Pairing(keys[..n], rows[..n])[keys[n] := rows[n]]
  }

  datatype BufferError = NoChunkId | CountMismatch | Busy | DuplicateKey | Accepted

  /** Buffer. A duplicate key is an error that leaves the keys before it in an idle window. */
  function Buffered(w: Win, chunk: Text, keys: seq<Text>, rows: seq<Image>): (Win, BufferError) {
    if chunk == [] then (w, NoChunkId)
    else if |keys| != |rows| then (w, CountMismatch)
    else if !w.state.WindowIdle? then (w, Busy)
    else
      var n := FreshPrefix(keys);
      var filled := w.(chunk := chunk, buffered := Pairing(keys[..n], rows[..n]), order := keys[..n]);
      if n < |keys| then (filled, DuplicateKey)
      else
        (filled.(state := WindowBuffered, stats := w.stats.(rowsBuffered := w.stats.rowsBuffered + |rows|)), Accepted)
  }

  function LowSeen(w: Win, chunk: Text): Win {
    if w.state.WindowBuffered? && chunk == w.chunk then w.(state := WindowOpen) else w
  }

  function Evicts(w: Win, key: Text): bool { w.state.WindowOpen? && key in w.buffered }

  function EventSeen(w: Win, key: Text): Win {
    if Evicts(w, key) then w.(buffered := w.buffered - {key}, stats := w.stats.(rowsEvicted := w.stats.rowsEvicted + 1))
    else w
  }

  function Closes(w: Win, chunk: Text): bool { w.state.WindowOpen? && chunk == w.chunk }

  /** The rows still buffered, in read order. */
  function Survivors(order: seq<Text>, buffered: map<Text, Image>): (out: seq<EmittedRow>)
    ensures |out| <= |order|
  {
    if order == [] then []
    else
      var k := order[|order| - 1];
      Survivors(order[..|order| - 1], buffered) + if k in buffered then [EmittedRow(k, buffered[k])] else []
  }

  function HighSeen(w: Win, chunk: Text): Win {
    if Closes(w, chunk) then
      Win(WindowIdle, [], map[], [],
          w.stats.(chunksCompleted := w.stats.chunksCompleted + 1,
                   rowsEmitted := w.stats.rowsEmitted + |Survivors(w.order, w.buffered)|))
    else w
  }

  function Aborted(w: Win): Win { Win(WindowIdle, [], map[], [], w.stats) }

  // ------------------------------------------------------------ accounting

  /** What an in-flight window still holds; an idle one may hold the residue of a rejected chunk. */
  function Pending(w: Win): nat { if w.state.WindowIdle? then 0 else |w.buffered| }

  ghost predicate Ordered(w: Win) {
    Distinct(w.order) && forall k :: k in w.buffered ==> k in w.order
  }

  /** Every row accepted was emitted, evicted, dropped by an abort, or is still pending. */
  ghost predicate Accounted(w: Win, dropped: nat) {
    (!w.state.WindowIdle? ==> Ordered(w)) &&
    w.stats.rowsBuffered == w.stats.rowsEmitted + w.stats.rowsEvicted + Pending(w) + dropped
  }

  lemma {:induction false} PairingSize(keys: seq<Text>, rows: seq<Image>)
    requires |keys| == |rows| && Distinct(keys)
    ensures |Pairing(keys, rows)| == |keys|
  {
    if keys != [] { PairingSize(keys[..|keys| - 1], rows[..|keys| - 1]); }
  }

  lemma {:induction false} SurvivorsAre(order: seq<Text>, buffered: map<Text, Image>)
    ensures forall r :: r in Survivors(order, buffered) <==>
                        r.key in order && r.key in buffered && buffered[r.key] == r.values
  {
    if order != [] {
      var n := |order| - 1;
      SurvivorsAre(order[..n], buffered);
      assert order == order[..n] + [order[n]];
    }
  }

  /** Survivors keep their read order. */
  lemma {:induction false} SurvivorsInOrder(order: seq<Text>, buffered: map<Text, Image>, i: nat, j: nat)
    returns (a: nat, b: nat)
    requires i < j < |Survivors(order, buffered)|
    ensures a < b < |order| && order[a] == Survivors(order, buffered)[i].key &&
              order[b] == Survivors(order, buffered)[j].key
  {
    var n := |order| - 1;
    var rest := Survivors(order[..n], buffered);
    if j < |rest| {
      a, b := SurvivorsInOrder(order[..n], buffered, i, j);
    } else {
      SurvivorsAre(order[..n], buffered);
      assert rest[i] in rest;
      a :| 0 <= a < n && order[..n][a] == rest[i].key;
      b := n;
    }
  }

  /** The keys of the order that are still buffered. */
  function Alive(order: seq<Text>, buffered: map<Text, Image>): set<Text> {
    set k | k in order && k in buffered
  }

  lemma {:induction false} SurvivorsCount(order: seq<Text>, buffered: map<Text, Image>)
    requires Distinct(order)
    ensures |Survivors(order, buffered)| == |Alive(order, buffered)|
  {
    if order != [] {
      var n := |order| - 1;
      SurvivorsCount(order[..n], buffered);
      assert order == order[..n] + [order[n]];
      var rest := Alive(order[..n], buffered);
      if order[n] in buffered { assert Alive(order, buffered) == rest + {order[n]}; }
      else { assert Alive(order, buffered) == rest; }
    }
  }

  lemma BufferConserves(w: Win, dropped: nat, chunk: Text, keys: seq<Text>, rows: seq<Image>)
    requires Accounted(w, dropped)
    ensures Accounted(Buffered(w, chunk, keys, rows).0, dropped)
  {
    if Buffered(w, chunk, keys, rows).1.Accepted? {
      FreshIsDistinct(keys);
      assert keys[..|keys|] == keys && rows[..|keys|] == rows;
      PairingSize(keys, rows);
    }
  }

  // ------------------------------------------------------------ what Buffer does

  /** The longest duplicate-free prefix is everything exactly when no key repeats. */
  lemma {:induction false} FreshIff(keys: seq<Text>)
    ensures FreshPrefix(keys) == |keys| <==> forall i, j :: 0 <= i < j < |keys| ==> keys[i] != keys[j]
  {
    if keys != [] {
      var last := |keys| - 1;
      FreshIff(keys[..last]);
      assert keys[last] in keys[..last] <==> exists i :: 0 <= i < last && keys[i] == keys[last];
    }
  }

  lemma {:induction false} PairingAt(keys: seq<Text>, rows: seq<Image>, i: nat)
    requires |keys| == |rows| && i < |keys| && forall j, k :: 0 <= j < k < |keys| ==> keys[j] != keys[k]
    ensures keys[i] in Pairing(keys, rows) && Pairing(keys, rows)[keys[i]] == rows[i]
  {
    var n := |keys| - 1;
    assert keys[i] in keys;
    if i < n { PairingAt(keys[..n], rows[..n], i); }
  }

  /** A chunk is accepted exactly when it is named, its keys and rows are as many, the window is idle and no key
      repeats; an accepted chunk waits for its low watermark with each key's row, in read order. */
  lemma AcceptedIff(w: Win, chunk: Text, keys: seq<Text>, rows: seq<Image>)
    ensures var (v, e) := Buffered(w, chunk, keys, rows);
            (e.Accepted? <==>
               chunk != [] && |keys| == |rows| && w.state.WindowIdle? &&
               forall i, j :: 0 <= i < j < |keys| ==> keys[i] != keys[j]) &&
            (e.Accepted? ==>
               v.state.WindowBuffered? && v.chunk == chunk && v.order == keys &&
               (forall k :: k in v.buffered <==> k in keys) &&
               (forall i :: 0 <= i < |keys| ==> keys[i] in v.buffered && v.buffered[keys[i]] == rows[i]) &&
               v.stats == w.stats.(rowsBuffered := w.stats.rowsBuffered + |rows|))
  {
    hide FreshPrefix, Pairing;
    if chunk != [] && |keys| == |rows| && w.state.WindowIdle? {
      FreshIff(keys);
      assert keys[..|keys|] == keys && rows[..|rows|] == rows;
      if FreshPrefix(keys) == |keys| {
        forall i | 0 <= i < |keys| ensures keys[i] in Pairing(keys, rows) && Pairing(keys, rows)[keys[i]] == rows[i] {
          PairingAt(keys, rows, i);
        }
      }
    }
  }

  /** A refused chunk leaves the window as it was, but for a duplicate key, whose chunk leaves its rows up to there in
      a window that stays idle. */
  lemma RefusedKeeps(w: Win, chunk: Text, keys: seq<Text>, rows: seq<Image>)
    ensures var (v, e) := Buffered(w, chunk, keys, rows);
            (e == NoChunkId <==> chunk == []) &&
            (e == CountMismatch <==> chunk != [] && |keys| != |rows|) &&
            (e == Busy <==> chunk != [] && |keys| == |rows| && !w.state.WindowIdle?) &&
            (!e.Accepted? && !e.DuplicateKey? ==> v == w) &&
            (e.DuplicateKey? ==> v.state.WindowIdle? && v.stats == w.stats && v.chunk == chunk && v.order < keys &&
                                 keys[|v.order|] in v.order && Distinct(v.order) &&
                                 forall k :: k in v.buffered <==> k in v.order)
  {
    hide Pairing;
    if chunk != [] && |keys| == |rows| && w.state.WindowIdle? { FreshIsDistinct(keys); }
  }

  lemma EventConserves(w: Win, dropped: nat, key: Text)
    requires Accounted(w, dropped)
    ensures Accounted(EventSeen(w, key), dropped)
  {
  }

  lemma HighConserves(w: Win, dropped: nat, chunk: Text)
    requires Accounted(w, dropped)
    ensures Accounted(HighSeen(w, chunk), dropped)
  {
    if Closes(w, chunk) {
      SurvivorsCount(w.order, w.buffered);
      assert Alive(w.order, w.buffered) == w.buffered.Keys;
      assert |w.buffered.Keys| == |w.buffered|;
    }
  }

  /** A window closes for its own high watermark only; then it is idle and empty, one more chunk is complete, and the
      survivors are counted as emitted. */
  lemma ClosedIff(w: Win, chunk: Text)
    ensures var v := HighSeen(w, chunk);
            (Closes(w, chunk) <==> w.state.WindowOpen? && chunk == w.chunk) &&
            if Closes(w, chunk) then
              v.state.WindowIdle? && v.buffered == map[] && v.order == [] &&
              v.stats == w.stats.(chunksCompleted := v.stats.chunksCompleted, rowsEmitted := v.stats.rowsEmitted) &&
              v.stats.chunksCompleted - w.stats.chunksCompleted == 1 &&
              v.stats.rowsEmitted - w.stats.rowsEmitted == |Survivors(w.order, w.buffered)|
            else v == w
  {
    hide Survivors;
  }

  // ------------------------------------------------------------ the class

  class Window {
    var state: WindowState
    var chunkID: Text
    var buffered: map<Text, Image>
    var order: seq<Text>
    var stats: WindowStats
    ghost var dropped: nat

    ghost function View(): Win reads this { Win(state, chunkID, buffered, order, stats) }

    ghost predicate Valid() reads this { Accounted(View(), dropped) }

    constructor ()
      ensures Valid() && View() == NEW && dropped == 0
    {
      hide Distinct;
      state, chunkID, buffered, order := WindowIdle, [], map[], [];
      stats := WindowStats(0, 0, 0, 0);
      dropped := 0;
    }

    method Buffer(id: Text, keys: seq<Text>, rows: seq<Image>) returns (err: BufferError)
      requires Valid()
      modifies this
      ensures Valid() && (View(), err) == Buffered(old(View()), id, keys, rows) && dropped == old(dropped)
    {
      hide Accounted, FreshPrefix, Pairing;
      BufferConserves(View(), dropped, id, keys, rows);
      if |id| == 0 { return NoChunkId; }
      if |keys| != |rows| { return CountMismatch; }
      if !state.WindowIdle? { return Busy; }
      chunkID := id;
      var m, n := Fill(keys, rows);
      buffered, order := m, keys[..n];
      if n < |keys| { return DuplicateKey; }
      state := WindowBuffered;
      stats := stats.(rowsBuffered := stats.rowsBuffered + |rows|);
      return Accepted;
    }

    /** The loop of Buffer, up to the first duplicate. */
    method Fill(keys: seq<Text>, rows: seq<Image>) returns (m: map<Text, Image>, n: nat)
      requires |keys| == |rows|
      ensures n == FreshPrefix(keys) && m == Pairing(keys[..n], rows[..n])
    {
      m, n := map[], 0;
      while n < |keys| && keys[n] !in m
        invariant n <= |keys| && n == FreshPrefix(keys[..n]) && m == Pairing(keys[..n], rows[..n])
      {
        assert keys[..n + 1][..n] == keys[..n] && rows[..n + 1][..n] == rows[..n];
        m := m[keys[n] := rows[n]];
        n := n + 1;
      }
      if n < |keys| { FreshStops(keys, n); } else { assert keys[..n] == keys; }
    }

    method OnLowWatermark(id: Text) returns (took: bool)
      requires Valid()
      modifies this
      ensures Valid() && View() == LowSeen(old(View()), id) && dropped == old(dropped)
      ensures took <==> old(state).WindowBuffered? && id == old(chunkID)
    {
      if !state.WindowBuffered? || id != chunkID { return false; }
      state := WindowOpen;
      return true;
    }

    method OnEvent(key: Text) returns (evicted: bool)
      requires Valid()
      modifies this
      ensures Valid() && View() == EventSeen(old(View()), key) && dropped == old(dropped)
      ensures evicted <==> Evicts(old(View()), key)
    {
      EventConserves(View(), dropped, key);
      if !state.WindowOpen? || key !in buffered { return false; }
      buffered := buffered - {key};
      stats := stats.(rowsEvicted := stats.rowsEvicted + 1);
      return true;
    }

    /** The loop of OnHighWatermark. */
    method Emit() returns (out: seq<EmittedRow>)
      ensures out == Survivors(order, buffered)
    {
      out := [];
      for i := 0 to |order|
        invariant out == Survivors(order[..i], buffered)
      {
        var prefix := order[..i + 1];
        assert prefix[..i] == order[..i] && prefix[i] == order[i];
        if order[i] in buffered { out := out + [EmittedRow(order[i], buffered[order[i]])]; }
      }
      assert order[..|order|] == order;
    }

    method OnHighWatermark(id: Text) returns (out: seq<EmittedRow>, closed: bool)
      requires Valid()
      modifies this
      ensures Valid() && View() == HighSeen(old(View()), id) && dropped == old(dropped)
      ensures closed <==> Closes(old(View()), id)
      ensures out == if closed then Survivors(old(order), old(buffered)) else []
    {
      hide Accounted, Survivors;
      HighConserves(View(), dropped, id);
      if !state.WindowOpen? || id != chunkID { return [], false; }
      out := Emit();
      state, chunkID, buffered, order := WindowIdle, [], map[], [];
      stats := stats.(chunksCompleted := stats.chunksCompleted + 1, rowsEmitted := stats.rowsEmitted + |out|);
      closed := true;
    }

    method Abort()
      requires Valid()
      modifies this
      ensures Valid() && View() == Aborted(old(View())) && dropped == old(dropped) + Pending(old(View()))
    {
      dropped := dropped + Pending(View());
      state, chunkID, buffered, order := WindowIdle, [], map[], [];
    }
  }

  lemma {:induction false} FreshStops(keys: seq<Text>, n: nat)
    requires n < |keys| && n == FreshPrefix(keys[..n]) && keys[n] in keys[..n]
    ensures FreshPrefix(keys) == n
    decreases |keys|
  {
    var last := |keys| - 1;
    if n < last {
      assert keys[..last][..n] == keys[..n];
      FreshStops(keys[..last], n);
    }
  }
}
