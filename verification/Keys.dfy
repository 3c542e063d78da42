// Canonical row keys (internal/model/key.go) and the key Coalesce files its slots under.

/** strconv.Itoa and its reading back. */
module Decimal {
  import opened Bytes

  function Itoa(n: nat): (s: Text)
    ensures s != []
  {
    if n < 10 then [48 + n] else Itoa(n / 10) + [48 + n % 10]
  }

  predicate IsDigit(c: byte) { 48 <= c <= 57 }

  /** Reads digits onto acc; returns the number and the unread rest. */
  function ReadNumber(s: Text, acc: nat): (r: (nat, Text))
    ensures |r.1| <= |s|
  {
    if s != [] && IsDigit(s[0]) then ReadNumber(s[1..], acc * 10 + (s[0] - 48)) else (acc, s)
  }

  lemma {:induction false} ReadItoa(n: nat, rest: Text)
    ensures ReadNumber(Itoa(n) + rest, 0) == ReadNumber(rest, n)
  {
    if n < 10 {
      assert ([48 + n] + rest)[1..] == rest;
    } else {
      var d: byte := 48 + n % 10;
      ReadItoa(n / 10, [d] + rest);
      assert Itoa(n) + rest == Itoa(n / 10) + ([d] + rest);
      assert ([d] + rest)[1..] == rest;
    }
  }
}

module Keys {
  import opened Wrappers
  import opened Bytes
  import opened Decimal

  const COLON: byte := 58
  const EQUALS: byte := 61
  const SEMICOLON: byte := 59

  /** The driver values a key column takes. Raw is text that arrives as a byte slice. Whole floats render as
      integers; a fractional float, an instant or a value of any other type is Formatted, carrying the text the
      standard library gives it. */
  datatype KeyValue =
    | Nil
    | Text(text: Bytes.Text)
    | Raw(text: Bytes.Text)
    | Bool(b: bool)
    | Integer(n: int)
    | Formatted(text: Bytes.Text)

  function CanonicalValue(v: KeyValue): Bytes.Text {
    match v
    case Nil => [0, 78, 85, 76, 76]
    case Text(t) => t
    case Raw(t) => t
    case Bool(b) => if b then [116, 114, 117, 101] else [102, 97, 108, 115, 101]
    case Integer(n) => if n < 0 then [45] + Itoa(-n) else Itoa(n)
    case Formatted(t) => t
  }

  /** The renderings that are words. */
  lemma Spelled()
    ensures CanonicalValue(Bool(true)) == Ascii("true") && CanonicalValue(Bool(false)) == Ascii("false")
    ensures CanonicalValue(Nil) == [0] + Ascii("NULL")
  {
  }

  /** Values of one kind render apart, and a string renders as the byte slice of the same bytes. */
  lemma RenderedApart(a: KeyValue, b: KeyValue)
    requires CanonicalValue(a) == CanonicalValue(b)
    ensures a.Integer? && b.Integer? ==> a.n == b.n
    ensures a.Bool? && b.Bool? ==> a.b == b.b
    ensures (a.Text? || a.Raw?) && (b.Text? || b.Raw?) ==> a.text == b.text
  {
    if a.Integer? && b.Integer? { IntegerText(a.n); IntegerText(b.n); }
  }

  /** An integer renders as its decimal digits, after a minus sign if it is negative. */
  lemma IntegerText(n: int)
    ensures var s := CanonicalValue(Integer(n));
            s != [] && (s[0] == 45 <==> n < 0) &&
            ReadNumber(if n < 0 then s[1..] else s, 0) == (if n < 0 then -n else n, [])
  {
    var m: nat := if n < 0 then -n else n;
    ReadItoa(m, []);
    assert Itoa(m) + [] == Itoa(m);
    ItoaDigits(m);
    assert Itoa(m)[0] in Itoa(m);
    assert n < 0 ==> ([45] + Itoa(m))[1..] == Itoa(m);
  }

  lemma {:induction false} ItoaDigits(n: nat)
    ensures forall c :: c in Itoa(n) ==> IsDigit(c)
  {
    if n >= 10 { ItoaDigits(n / 10); }
  }

  /** The columns of a key are told apart: distinct integers, texts or booleans never make Equal keys. */
  lemma DistinctKeys(name: Bytes.Text, a: KeyValue, b: KeyValue)
    requires a != b
    requires (a.Integer? && b.Integer?) || (a.Text? && b.Text?) || (a.Raw? && b.Raw?) || (a.Bool? && b.Bool?)
    ensures CanonicalOf(RowKeyOf(map[name := a])) != CanonicalOf(RowKeyOf(map[name := b]))
  {
    hide CanonicalOf, RowKeyOf, CanonicalValue;
    var x, y := map[name := a], map[name := b];
    RowKeysEqualIff(x, y);
    assert name in x && name in y && x[name] == a && y[name] == b;
    if CanonicalValue(a) == CanonicalValue(b) { RenderedApart(a, b); }
  }

  datatype Column = Column(name: Bytes.Text, value: KeyValue)

  function Prefixed(t: Bytes.Text): Bytes.Text { Itoa(|t|) + [COLON] + t }

  function ColumnText(c: Column): Bytes.Text {
    Prefixed(c.name) + [EQUALS] + Prefixed(CanonicalValue(c.value)) + [SEMICOLON]
  }

  /** Canonical: every column, length-prefixed, in order. */
  function CanonicalOf(cols: seq<Column>): Bytes.Text {
    if cols == [] then [] else CanonicalOf(cols[..|cols| - 1]) + ColumnText(cols[|cols| - 1])
  }

  method Canonical(cols: seq<Column>) returns (b: Bytes.Text)
    ensures b == CanonicalOf(cols)
  {
    b := [];
    for i := 0 to |cols|
      invariant b == CanonicalOf(cols[..i])
    {
      var prefix := cols[..i + 1];
      assert prefix[..i] == cols[..i] && prefix[i] == cols[i];
      var v := CanonicalValue(cols[i].value);
      b := b + (Itoa(|cols[i].name|) + [COLON] + cols[i].name + [EQUALS] + (Itoa(|v|) + [COLON] + v) + [SEMICOLON]);
    }
    assert cols[..|cols|] == cols;
  }

  // ------------------------------------------------------------ reading a canonical form back

  /** What a canonical key determines: names and rendered values. */
  function Rendered(cols: seq<Column>): (r: seq<(Bytes.Text, Bytes.Text)>)
    ensures |r| == |cols|
    ensures forall i :: 0 <= i < |cols| ==> r[i] == (cols[i].name, CanonicalValue(cols[i].value))
  {
    seq(|cols|, i requires 0 <= i < |cols| => (cols[i].name, CanonicalValue(cols[i].value)))
  }

  /** One length-prefixed text followed by a given terminator. */
  function ReadText(s: Bytes.Text, end: byte): (r: Option<(Bytes.Text, Bytes.Text)>)
    ensures r.Some? ==> |r.value.1| < |s|
  {
    var (n, rest) := ReadNumber(s, 0);
    if rest != [] && rest[0] == COLON && n + 1 < |rest| && rest[n + 1] == end
    then Some((rest[1..n + 1], rest[n + 2..])) else None
  }

  function Read(s: Bytes.Text): Option<seq<(Bytes.Text, Bytes.Text)>>
    decreases |s|
  {
    if s == [] then Some([])
    else
      var name := ReadText(s, EQUALS);
      if name.None? then None
      else
        var value := ReadText(name.value.1, SEMICOLON);
        if value.None? then None
        else
          var rest := Read(value.value.1);
          if rest.None? then None else Some([(name.value.0, value.value.0)] + rest.value)
  }

  lemma ReadPrefixed(t: Bytes.Text, end: byte, rest: Bytes.Text)
    ensures ReadText(Prefixed(t) + [end] + rest, end) == Some((t, rest))
  {
    var tail := [COLON] + t + [end] + rest;
    assert Prefixed(t) + [end] + rest == Itoa(|t|) + tail;
    ReadItoa(|t|, tail);
    assert ReadNumber(tail, |t|) == (|t|, tail);
    assert tail[1..|t| + 1] == t && tail[|t| + 1] == end && tail[|t| + 2..] == rest;
  }

  lemma ReadColumn(c: Column, rest: Bytes.Text)
    ensures Read(ColumnText(c) + rest) ==
            var more := Read(rest);
            if more.None? then None else Some([(c.name, CanonicalValue(c.value))] + more.value)
  {
    hide CanonicalValue, Prefixed, ReadText;
    var value := Prefixed(CanonicalValue(c.value)) + [SEMICOLON] + rest;
    assert ColumnText(c) + rest == Prefixed(c.name) + [EQUALS] + value;
    ReadPrefixed(c.name, EQUALS, value);
    ReadPrefixed(CanonicalValue(c.value), SEMICOLON, rest);
    assert Prefixed(c.name) + [EQUALS] + value != [];
  }

  lemma {:induction false} ReadFrom(cols: seq<Column>, rest: Bytes.Text)
    requires Read(rest).Some?
    ensures Read(CanonicalOf(cols) + rest) == Some(Rendered(cols) + Read(rest).value)
    decreases |cols|
  {
    hide ColumnText, Read;
    if cols == [] {
      assert CanonicalOf(cols) + rest == rest;
      assert Rendered(cols) + Read(rest).value == Read(rest).value;
    } else {
      var n := |cols| - 1;
      var last := cols[n];
      assert CanonicalOf(cols) + rest == CanonicalOf(cols[..n]) + (ColumnText(last) + rest);
      ReadColumn(last, rest);
      ReadFrom(cols[..n], ColumnText(last) + rest);
      assert Rendered(cols) == Rendered(cols[..n]) + [(last.name, CanonicalValue(last.value))];
      assert Rendered(cols[..n]) + ([(last.name, CanonicalValue(last.value))] + Read(rest).value) ==
             Rendered(cols) + Read(rest).value;
    }
  }

  /** A canonical key can be read back: nothing about names and rendered values is lost. */
  lemma CanonicalRoundTrip(cols: seq<Column>)
    ensures Read(CanonicalOf(cols)) == Some(Rendered(cols))
  {
    ReadFrom(cols, []);
    assert CanonicalOf(cols) + [] == CanonicalOf(cols);
    assert Rendered(cols) + [] == Rendered(cols);
  }

  lemma ColumnTextOfRendered(a: Column, b: Column)
    requires a.name == b.name && CanonicalValue(a.value) == CanonicalValue(b.value)
    ensures ColumnText(a) == ColumnText(b)
  {
  }

  lemma {:induction false} CanonicalOfRendered(a: seq<Column>, b: seq<Column>)
    requires Rendered(a) == Rendered(b)
    ensures CanonicalOf(a) == CanonicalOf(b)
    decreases |a|
  {
    hide CanonicalValue, ColumnText;
    var r, t := Rendered(a), Rendered(b);
    assert |a| == |r| && |b| == |t|;
    if a != [] {
      var n := |a| - 1;
      assert r[n] == t[n];
      ColumnTextOfRendered(a[n], b[n]);
      assert Rendered(a[..n]) == r[..n] && Rendered(b[..n]) == t[..n];
      CanonicalOfRendered(a[..n], b[..n]);
    }
  }

  /** Equal canonical strings, exactly when names and rendered values agree in order. */
  lemma CanonicalIff(a: seq<Column>, b: seq<Column>)
    ensures CanonicalOf(a) == CanonicalOf(b) <==> Rendered(a) == Rendered(b)
  {
    CanonicalRoundTrip(a);
    CanonicalRoundTrip(b);
    if Rendered(a) == Rendered(b) { CanonicalOfRendered(a, b); }
  }

  // ------------------------------------------------------------ building keys

  function ColumnsIn(names: seq<Bytes.Text>, values: map<Bytes.Text, KeyValue>): (cols: seq<Column>)
    requires forall n :: n in names ==> n in values
    ensures |cols| == |names|
    ensures forall i :: 0 <= i < |names| ==> cols[i] == (assert names[i] in names; Column(names[i], values[names[i]]))
  {
    seq(|names|, i requires 0 <= i < |names| => assert names[i] in names; Column(names[i], values[names[i]]))
  }

  ghost function RowKeyOf(values: map<Bytes.Text, KeyValue>): seq<Column> {
    ColumnsIn(Sorted(values.Keys), values)
  }

  /** NewRowKey: collect the map's columns and sort them by name. */
  method NewRowKey(values: map<Bytes.Text, KeyValue>) returns (cols: seq<Column>)
    ensures cols == RowKeyOf(values)
    ensures forall i, j :: 0 <= i < j < |cols| ==> Less(cols[i].name, cols[j].name)
    ensures forall c :: c in cols <==> c.name in values && values[c.name] == c.value
  {
    var names := Sort(values.Keys);
    SortedListingUnique(names, Sorted(values.Keys), values.Keys);
    cols := [];
    for i := 0 to |names|
      invariant cols == ColumnsIn(names, values)[..i]
    {
      assert names[i] in names;
      cols := cols + [Column(names[i], values[names[i]])];
    }
    forall c ensures c in cols <==> c.name in values && values[c.name] == c.value {
      if c.name in values && values[c.name] == c.value {
        assert c.name in names;
        var i :| 0 <= i < |names| && names[i] == c.name;
        assert cols[i] == c;
      }
      if c in cols { var i :| 0 <= i < |cols| && cols[i] == c; assert names[i] in names; }
    }
  }

  method NewRowKeyOrdered(names: seq<Bytes.Text>, values: map<Bytes.Text, KeyValue>) returns (cols: seq<Column>)
    ensures cols == RowKeyOf(map n | n in names && n in values :: values[n])
  {
    var subset: map<Bytes.Text, KeyValue> := map[];
    for i := 0 to |names|
      invariant subset == map n | n in names[..i] && n in values :: values[n]
    {
      assert names[..i + 1] == names[..i] + [names[i]];
      if names[i] in values { subset := subset[names[i] := values[names[i]]]; }
    }
    assert names[..|names|] == names;
    cols := NewRowKey(subset);
  }

  /** Two keys, however their columns were collected, have one canonical string exactly when they name
      the same columns with the same rendered values. */
  lemma RowKeysEqualIff(a: map<Bytes.Text, KeyValue>, b: map<Bytes.Text, KeyValue>)
    ensures CanonicalOf(RowKeyOf(a)) == CanonicalOf(RowKeyOf(b)) <==>
            a.Keys == b.Keys && forall n :: n in a && n in b ==> CanonicalValue(a[n]) == CanonicalValue(b[n])
  {
    hide CanonicalValue, CanonicalOf;
    var ka, kb := RowKeyOf(a), RowKeyOf(b);
    var na, nb := Sorted(a.Keys), Sorted(b.Keys);
    CanonicalIff(ka, kb);
    if Rendered(ka) == Rendered(kb) {
      forall i | 0 <= i < |na| ensures na[i] == nb[i] && CanonicalValue(a[na[i]]) == CanonicalValue(b[na[i]]) {
        assert na[i] in na && nb[i] in nb;
        assert Rendered(ka)[i] == Rendered(kb)[i];
      }
      assert na == nb;
      forall n | n in a && n in b ensures CanonicalValue(a[n]) == CanonicalValue(b[n]) {
        assert n in na;
        var i :| 0 <= i < |na| && na[i] == n;
      }
      forall n ensures n in a <==> n in b { assert n in na <==> n in a; assert n in nb <==> n in b; }
    }
    if a.Keys == b.Keys && forall n :: n in a && n in b ==> CanonicalValue(a[n]) == CanonicalValue(b[n]) {
      assert na == nb;
      forall i | 0 <= i < |ka| ensures Rendered(ka)[i] == Rendered(kb)[i] { assert na[i] in na; }
      assert Rendered(ka) == Rendered(kb);
    }
  }

  // ------------------------------------------------------------ the coalescing key

  /** Coalesce keys its slots by table, a NUL and the canonical key. */
  function SlotKey(table: Bytes.Text, key: Bytes.Text): Bytes.Text { table + [0] + key }

  /** For table names without NULs the slot key identifies table and row. */
  lemma SlotKeyIdentifies(t1: Bytes.Text, k1: Bytes.Text, t2: Bytes.Text, k2: Bytes.Text)
    requires 0 !in t1 && 0 !in t2
    ensures SlotKey(t1, k1) == SlotKey(t2, k2) <==> t1 == t2 && k1 == k2
  {
    NotLonger(t1, k1, t2, k2);
    NotLonger(t2, k2, t1, k1);
    var s1, s2 := SlotKey(t1, k1), SlotKey(t2, k2);
    assert s1[..|t1|] == t1 && s2[..|t2|] == t2;
    assert s1[|t1| + 1..] == k1 && s2[|t2| + 1..] == k2;
  }

  lemma NotLonger(t1: Bytes.Text, k1: Bytes.Text, t2: Bytes.Text, k2: Bytes.Text)
    requires 0 !in t2
    ensures SlotKey(t1, k1) == SlotKey(t2, k2) ==> |t2| <= |t1|
  {
    assert SlotKey(t1, k1)[|t1|] == 0;
    assert |t1| < |t2| ==> SlotKey(t2, k2)[|t1|] == t2[|t1|];
  }

  /** With NULs in table names two rows can share a slot. */
  lemma SlotKeyCollides()
    ensures SlotKey([97, 0, 98], [99]) == SlotKey([97], [98, 0, 99])
  {
  }
}
