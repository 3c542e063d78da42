// Splitting a key range (internal/recon/bisect.go).

/** Big-endian base-256 values of byte strings, and their order. */
module Base256 {
  import opened Bytes

  function Pow(n: nat): (p: nat)
    ensures p >= 1
  {
    if n == 0 then 1 else 256 * Pow(n - 1)
  }

  /** The first n bytes of s, zero-padded on the right, read as a number. */
  function Value(s: Text, n: nat): nat {
    if n == 0 then 0 else Value(s, n - 1) * 256 + if n - 1 < |s| then s[n - 1] else 0
  }

  /** FillBytes: the n-byte big-endian representation. */
  function Digits(v: nat, n: nat): (d: Text)
    ensures |d| == n
  {
    if n == 0 then [] else Digits(v / 256, n - 1) + [v % 256]
  }

  /** TrimRight(s, "\x00"). */
  function Trim(s: Text): (t: Text)
    ensures t <= s && (t == [] || t[|t| - 1] != 0)
  {
    if s != [] && s[|s| - 1] == 0 then Trim(s[..|s| - 1]) else s
  }

  function Pad(s: Text, n: nat): (p: Text)
    requires |s| <= n
    ensures |p| == n
    decreases n - |s|
  {
    if |s| == n then s else Pad(s + [0], n)
  }

  lemma {:induction false} ValueBound(s: Text, n: nat)
    ensures Value(s, n) < Pow(n)
  {
    if n > 0 { ValueBound(s, n - 1); }
  }

  /** Reading the leading byte first. */
  lemma {:induction false} ValueHead(s: Text, n: nat)
    requires s != [] && n >= 1
    ensures Value(s, n) == s[0] * Pow(n - 1) + Value(s[1..], n - 1)
  {
    if n == 1 {
      assert Value(s, 0) == 0;
    } else {
      ValueHead(s, n - 1);
      var d := if n - 1 < |s| then s[n - 1] else 0;
      assert d == if n - 2 < |s[1..]| then s[1..][n - 2] else 0;
      Regroup(s[0], Pow(n - 2), Value(s[1..], n - 2), d);
    }
  }

  lemma Regroup(a: nat, p: nat, v: nat, d: nat)
    ensures (a * p + v) * 256 + d == a * (256 * p) + (v * 256 + d)
  {
  }

  lemma {:induction false} ValueEmpty(n: nat)
    ensures Value([], n) == 0
  {
    if n > 0 { ValueEmpty(n - 1); }
  }

  lemma Carry(a: nat, b: nat, p: nat, u: nat, v: nat)
    requires a < b && u < p
    ensures a * p + u < b * p + v
  {
    assert (a + 1) * p <= b * p;
    assert (a + 1) * p == a * p + p;
  }

  /** The encoding preserves order. */
  lemma {:induction false} LessValue(a: Text, b: Text, n: nat)
    requires Less(a, b) && |a| <= n && |b| <= n
    ensures Value(a, n) <= Value(b, n)
  {
    if a == [] {
      ValueEmpty(n);
    } else {
      ValueHead(a, n);
      ValueHead(b, n);
      if a[0] < b[0] {
        ValueBound(a[1..], n - 1);
        Carry(a[0], b[0], Pow(n - 1), Value(a[1..], n - 1), Value(b[1..], n - 1));
      } else {
        LessValue(a[1..], b[1..], n - 1);
      }
    }
  }

  lemma ValueLess(a: Text, b: Text, n: nat)
    requires |a| <= n && |b| <= n && Value(a, n) < Value(b, n)
    ensures Less(a, b)
  {
    LessTotal(a, b);
    if Less(b, a) { LessValue(b, a, n); }
  }

  // ------------------------------------------------------------ padding and trimming

  lemma {:induction false} ValuePrefix(a: Text, b: Text, n: nat)
    requires forall i :: 0 <= i < n ==> (if i < |a| then a[i] else 0) == (if i < |b| then b[i] else 0)
    ensures Value(a, n) == Value(b, n)
  {
    if n > 0 { ValuePrefix(a, b, n - 1); }
  }

  lemma {:induction false} PadFacts(s: Text, n: nat)
    requires |s| <= n
    ensures Trim(Pad(s, n)) == Trim(s)
    ensures forall i :: 0 <= i < n ==> Pad(s, n)[i] == if i < |s| then s[i] else 0
    decreases n - |s|
  {
    if |s| < n {
      PadFacts(s + [0], n);
      assert (s + [0])[..|s|] == s;
    }
  }

  lemma {:induction false} DigitsValue(s: Text, n: nat)
    requires |s| == n
    ensures Digits(Value(s, n), n) == s
  {
    if n > 0 {
      ValuePrefix(s, s[..n - 1], n - 1);
      DigitsValue(s[..n - 1], n - 1);
      assert s == s[..n - 1] + [s[n - 1]];
    }
  }

  lemma {:induction false} ValueDigits(v: nat, n: nat)
    requires v < Pow(n)
    ensures Value(Digits(v, n), n) == v
  {
    if n > 0 {
      ValueDigits(v / 256, n - 1);
      var d := Digits(v, n);
      ValuePrefix(d, Digits(v / 256, n - 1), n - 1);
    }
  }

  lemma TrimValue(s: Text, n: nat)
    ensures Value(Trim(s), n) == Value(s, n)
  {
  }

  /** Two strings have one value exactly when they differ by trailing NULs only. */
  lemma SameValueIff(a: Text, b: Text, n: nat)
    requires |a| <= n && |b| <= n
    ensures Value(a, n) == Value(b, n) <==> Trim(a) == Trim(b)
  {
    if Trim(a) == Trim(b) {
      TrimValue(a, n);
      TrimValue(b, n);
    }
    PadFacts(a, n);
    PadFacts(b, n);
    ValuePrefix(a, Pad(a, n), n);
    ValuePrefix(b, Pad(b, n), n);
    DigitsValue(Pad(a, n), n);
    DigitsValue(Pad(b, n), n);
  }

  /** Each byte of padding multiplies the value, and hence the gap between two values, by 256. */
  lemma {:induction false} PaddedValue(s: Text, m: nat, k: nat)
    requires |s| <= m
    ensures Value(s, m + k) == Value(s, m) * Pow(k)
  {
    if k > 0 {
      PaddedValue(s, m, k - 1);
      assert Value(s, m + k) == Value(s, m + k - 1) * 256;
      Regroup(Value(s, m), Pow(k - 1), 0, 0);
    }
  }
}

module Bisection {
  import opened Wrappers
  import opened Bytes
  import opened Base256

  /** A bound or key value as a driver returns it: an integer, text, or an instant in nanoseconds. */
  datatype Key = Int(n: int) | Str(s: Text) | Time(t: int)

  const MIN64 := -0x8000_0000_0000_0000
  const MAX64 := 0x7fff_ffff_ffff_ffff

  function Clamp(n: int): int {
    if n > MAX64 then MAX64 else if n < MIN64 then MIN64 else n
  }

  const STEP := 0x10_0000

  function IntBisect(low: Option<Key>, high: Option<Key>): Option<Key> {
    var lok := low.Some? && low.value.Int?;
    var hok := high.Some? && high.value.Int?;
    if !lok && !hok then Some(Int(0))
    else if !lok then Some(Int(Clamp(high.value.n - STEP)))
    else if !hok then Some(Int(Clamp(low.value.n + STEP)))
    else
      var mid := (low.value.n + high.value.n) / 2;
      if mid <= low.value.n || mid >= high.value.n then None else Some(Int(Clamp(mid)))
  }

  const EXTRA := 8

  function Width(lo: Text, hi: Text): nat {
    (if |hi| > |lo| then |hi| else |lo|) + EXTRA
  }

  function Midpoint(lo: Text, hi: Text): Text {
    var n := Width(lo, hi);
    Trim(Digits((Value(lo, n) + Value(hi, n)) / 2, n))
  }

  /** midpointString: accumulate both numbers byte by byte, halve, render, trim. */
  method MidpointString(lo: Text, hi: Text) returns (mid: Text)
    ensures mid == Midpoint(lo, hi)
  {
    var n := |lo|;
    if |hi| > n { n := |hi|; }
    n := n + EXTRA;
    var l: nat, h: nat := 0, 0;
    for i := 0 to n
      invariant l == Value(lo, i) && h == Value(hi, i)
    {
      var lb: nat := if i < |lo| then lo[i] else 0;
      var hb: nat := if i < |hi| then hi[i] else 0;
      l, h := l * 256 + lb, h * 256 + hb;
    }
    mid := Trim(Digits((l + h) / 2, n));
  }

  predicate NotGreater(a: Text, b: Text) { !Less(b, a) }

  function StringBisect(low: Option<Key>, high: Option<Key>): Option<Key> {
    var lok := low.Some? && low.value.Str?;
    var hok := high.Some? && high.value.Str?;
    if !lok && !hok then None
    else if !hok then Some(Str(low.value.s + [255]))
    else
      var l := if lok then low.value.s else [];
      var h := high.value.s;
      if !Less(l, h) then None
      else
        var mid := Midpoint(l, h);
        if NotGreater(mid, l) || NotGreater(h, mid) then None else Some(Str(mid))
  }

  const DAY := 86_400_000_000_000

  /** Subtracting instants saturates at the range of a duration. */
  function TimeBisect(low: Option<Key>, high: Option<Key>): Option<Key> {
    var lok := low.Some? && low.value.Time?;
    var hok := high.Some? && high.value.Time?;
    if !lok && !hok then None
    else if !lok then Some(Time(high.value.t - DAY))
    else if !hok then Some(Time(low.value.t + DAY))
    else if low.value.t >= high.value.t then None
    else
      var mid := low.value.t + Clamp(high.value.t - low.value.t) / 2;
      if mid <= low.value.t || mid >= high.value.t then None else Some(Time(mid))
  }

  /** Reconciler.bisect: the bisector is chosen from whichever bound is present. */
  function Bisect(low: Option<Key>, high: Option<Key>): Option<Key> {
    if low.None? && high.None? then IntBisect(None, None)
    else
      match (if low.Some? then low.value else high.value)
      case Int(_) => IntBisect(low, high)
      case Time(_) => TimeBisect(low, high)
      case Str(_) => StringBisect(low, high)
  }

  // ------------------------------------------------------------ progress

  /** Between 64-bit bounds the midpoint is strict, and exists exactly when there is room for one. */
  lemma IntBisectIff(l: int, h: int)
    requires MIN64 <= l <= MAX64 && MIN64 <= h <= MAX64
    ensures var mid := IntBisect(Some(Int(l)), Some(Int(h)));
            (mid.Some? <==> l + 2 <= h) &&
            (mid.Some? ==> mid.value.Int? && l < mid.value.n < h && mid.value.n == (l + h) / 2)
  {
  }

  lemma TimeBisectIff(l: int, h: int)
    ensures var mid := TimeBisect(Some(Time(l)), Some(Time(h)));
            (mid.Some? <==> l + 2 <= h) && (mid.Some? ==> mid.value.Time? && l < mid.value.t < h) &&
            (mid.Some? && h - l <= MAX64 ==> mid.value.t == (l + h) / 2) &&
            (mid.Some? && h - l > MAX64 ==> mid.value.t == l + 0x3fff_ffff_ffff_ffff)
  {
  }

  /** A range open at one end is cut at a fixed distance from its bound, or, below a string, at the middle of what lies
      above the empty string; one open at both ends is cut at zero. */
  lemma OpenEnds(n: int, s: Text, t: int)
    requires MIN64 <= n <= MAX64
    ensures Bisect(Some(Int(n)), None) == Some(Int(if n > MAX64 - 1_048_576 then MAX64 else n + 1_048_576))
    ensures Bisect(None, Some(Int(n))) == Some(Int(if n < MIN64 + 1_048_576 then MIN64 else n - 1_048_576))
    ensures Bisect(Some(Time(t)), None) == Some(Time(t + 24 * 3600 * 1_000_000_000))
    ensures Bisect(None, Some(Time(t))) == Some(Time(t - 24 * 3600 * 1_000_000_000))
    ensures Bisect(Some(Str(s)), None) == Some(Str(s + [255]))
    ensures Bisect(None, Some(Str(s))) == Bisect(Some(Str([])), Some(Str(s)))
    ensures Bisect(None, None) == Some(Int(0))
  {
  }

  /** Eight bytes of padding leave room for a value strictly between any two different values. */
  lemma RoomBetween(lo: Text, hi: Text)
    requires Value(lo, Width(lo, hi)) < Value(hi, Width(lo, hi))
    ensures var n := Width(lo, hi);
            Value(lo, n) < (Value(lo, n) + Value(hi, n)) / 2 < Value(hi, n)
  {
    var m := Width(lo, hi) - EXTRA;
    PaddedValue(lo, m, EXTRA);
    PaddedValue(hi, m, EXTRA);
    assert Pow(8) == 256 * Pow(7);
    Gap(Value(lo, m), Value(hi, m), Pow(EXTRA));
  }

  lemma Gap(a: nat, b: nat, p: nat)
    requires p >= 2 && a * p < b * p
    ensures a * p + 2 <= b * p
  {
    assert b <= a ==> b * p <= a * p;
    if a < b { Carry(a, b, p, p - 1, 0); }
  }

  /** Padded to one width, the midpoint's number is half the sum of the bounds'. */
  lemma MidpointValue(lo: Text, hi: Text)
    requires Value(lo, Width(lo, hi)) <= Value(hi, Width(lo, hi))
    ensures var n := Width(lo, hi);
            |Midpoint(lo, hi)| <= n && Value(Midpoint(lo, hi), n) == (Value(lo, n) + Value(hi, n)) / 2
  {
    var n := Width(lo, hi);
    var v := (Value(lo, n) + Value(hi, n)) / 2;
    ValueBound(hi, n);
    ValueDigits(v, n);
    TrimValue(Digits(v, n), n);
  }

  lemma MidpointBetween(lo: Text, hi: Text)
    requires Less(lo, hi) && Trim(lo) != Trim(hi)
    ensures Less(lo, Midpoint(lo, hi)) && Less(Midpoint(lo, hi), hi)
  {
    hide Less, Value, Trim, Digits, Pow, Midpoint;
    var n := Width(lo, hi);
    LessValue(lo, hi, n);
    SameValueIff(lo, hi, n);
    RoomBetween(lo, hi);
    MidpointValue(lo, hi);
    ValueLess(lo, Midpoint(lo, hi), n);
    ValueLess(Midpoint(lo, hi), hi, n);
  }

  lemma {:induction false} PrefixNotGreater(a: Text, b: Text)
    requires a <= b
    ensures !Less(b, a)
  {
    if a != [] { PrefixNotGreater(a[1..], b[1..]); }
  }

  /** When only trailing NULs separate the bounds, the midpoint falls back on the lower one. */
  lemma MidpointStuck(lo: Text, hi: Text)
    requires Trim(lo) == Trim(hi)
    ensures !Less(lo, Midpoint(lo, hi))
  {
    hide Less, Value, Pow, Pad, Trim, Digits;
    var n := Width(lo, hi);
    SameValueIff(lo, hi, n);
    TrimOfDigits(lo, n);
    assert Midpoint(lo, hi) == Trim(lo);
    PrefixNotGreater(Trim(lo), lo);
  }

  lemma TrimOfDigits(s: Text, n: nat)
    requires |s| <= n
    ensures Trim(Digits(Value(s, n), n)) == Trim(s)
  {
    PadFacts(s, n);
    ValuePrefix(s, Pad(s, n), n);
    DigitsValue(Pad(s, n), n);
  }

  lemma MidpointTrimmed(lo: Text, hi: Text)
    ensures Midpoint(lo, hi) == [] || Midpoint(lo, hi)[|Midpoint(lo, hi)| - 1] != 0
  {
  }

  /** String bisection makes progress, exactly: between two strings there is a midpoint, strictly inside
      and without trailing NULs, if and only if they differ by more than trailing NULs. */
  lemma StringBisectIff(lo: Text, hi: Text)
    ensures var mid := StringBisect(Some(Str(lo)), Some(Str(hi)));
            (mid.Some? <==> Less(lo, hi) && Trim(lo) != Trim(hi)) &&
            (mid.Some? ==> mid.value.Str? && Less(lo, mid.value.s) && Less(mid.value.s, hi) &&
                           (mid.value.s == [] || mid.value.s[|mid.value.s| - 1] != 0))
  {
    hide Less, Midpoint;
    MidpointTrimmed(lo, hi);
    if Less(lo, hi) {
      if Trim(lo) == Trim(hi) { MidpointStuck(lo, hi); } else { MidpointBetween(lo, hi); }
    }
  }

  lemma {:induction false} TrimFixed(s: Text)
    requires s == [] || s[|s| - 1] != 0
    ensures Trim(s) == s
  {
  }

  /** In particular strings without trailing NULs always split, and the midpoint is again such a string. */
  lemma CleanStringsSplit(lo: Text, hi: Text)
    requires Less(lo, hi) && (lo == [] || lo[|lo| - 1] != 0) && (hi == [] || hi[|hi| - 1] != 0)
    ensures StringBisect(Some(Str(lo)), Some(Str(hi))).Some?
  {
    TrimFixed(lo);
    TrimFixed(hi);
    LessIrreflexive(lo);
    StringBisectIff(lo, hi);
  }
}
