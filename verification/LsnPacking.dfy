// Folding a connector's sequence number into one integer (internal/cdc/decode.go).

/** strconv.ParseUint and the strings helpers the decoder uses. */
module Parsing {
  import opened Wrappers
  import opened Bytes
  import opened Decimal

  /** A digit's value in base 36; a byte that is no digit gets one no base allows. */
  function DigitOf(c: byte): nat {
    if 48 <= c <= 57 then c - 48
    else if 97 <= c <= 122 then c - 87
    else if 65 <= c <= 90 then c - 55
    else 255
  }

  /** The sixteen hexadecimal digits, in either case, have their values, and no other byte has. */
  lemma HexDigitsAre(c: byte, d: nat)
    requires d < 16
    ensures DigitOf(c) == d <==> c == Ascii("0123456789abcdef")[d] || c == Ascii("0123456789ABCDEF")[d]
  {
  }

  function Number(s: Text, base: nat): Option<nat> {
    if s == [] then Some(0)
    else
      var more := Number(s[..|s| - 1], base);
      var d := DigitOf(s[|s| - 1]);
      if more.None? || d >= base then None else Some(more.value * base + d)
  }

  /** ParseUint for an explicit base; limit is two to the bit size. */
  function ParseUint(s: Text, base: nat, limit: nat): (r: Option<nat>)
    ensures r.Some? ==> r.value < limit && s != []
  {
    if s == [] then None
    else
      var n := Number(s, base);
      if n.Some? && n.value < limit then n else None
  }

  function IndexOf(s: Text, c: byte): (r: Option<nat>)
    ensures r.None? ==> c !in s
    ensures r.Some? ==> r.value < |s| && s[r.value] == c && c !in s[..r.value]
  {
    if s == [] then None
    else if s[0] == c then Some(0)
    else
      var r := IndexOf(s[1..], c);
      if r.None? then None else Some(r.value + 1)
  }

  function LastIndexOf(s: Text, c: byte): (r: Option<nat>)
    ensures r.None? ==> c !in s
    ensures r.Some? ==> r.value < |s| && s[r.value] == c && c !in s[r.value + 1..]
  {
    if s == [] then None
    else if s[|s| - 1] == c then Some(|s| - 1)
    else LastIndexOf(s[..|s| - 1], c)
  }

  predicate IsSpace(c: byte) { 9 <= c <= 13 || c == 32 }

  /** The UTF-8 encodings of the white space beyond ASCII, in two and in three bytes. */
  predicate IsSpace2(a: byte, b: byte) { a == 0xC2 && (b == 0x85 || b == 0xA0) }

  predicate IsSpace3(a: byte, b: byte, c: byte) {
    if a == 0xE2 then
      (b == 0x80 && (0x80 <= c <= 0x8A || c == 0xA8 || c == 0xA9 || c == 0xAF)) || (b == 0x81 && c == 0x9F)
    else (a == 0xE1 && b == 0x9A && c == 0x80) || (a == 0xE3 && b == 0x80 && c == 0x80)
  }

  /** The length of the space at the start of s, zero if there is none; likewise at its end. */
  function LeadingSpace(s: Text): (n: nat)
    ensures n <= |s|
  {
    if |s| >= 1 && IsSpace(s[0]) then 1
    else if |s| >= 2 && IsSpace2(s[0], s[1]) then 2
    else if |s| >= 3 && IsSpace3(s[0], s[1], s[2]) then 3
    else 0
  }

  function TrailingSpace(s: Text): (k: nat)
    ensures k <= |s|
  {
    var n := |s|;
    if n >= 1 && IsSpace(s[n - 1]) then 1
    else if n >= 2 && IsSpace2(s[n - 2], s[n - 1]) then 2
    else if n >= 3 && IsSpace3(s[n - 3], s[n - 2], s[n - 1]) then 3
    else 0
  }

  function TrimSpace(s: Text): Text {
    if LeadingSpace(s) > 0 then TrimSpace(s[LeadingSpace(s)..])
    else if TrailingSpace(s) > 0 then TrimSpace(s[..|s| - TrailingSpace(s)])
    else s
  }

  /** One white-space character, as strings.TrimSpace knows them. */
  predicate IsBlank(s: Text) {
    (|s| == 1 && s[0] in {9, 10, 11, 12, 13, 32}) ||
    (|s| == 2 && s[0] == 0xC2 && s[1] in {0x85, 0xA0}) ||
    (|s| == 3 && s[0] == 0xE1 && s[1] == 0x9A && s[2] == 0x80) ||
    (|s| == 3 && s[0] == 0xE2 && s[1] == 0x80 && (0x80 <= s[2] <= 0x8A || s[2] in {0xA8, 0xA9, 0xAF})) ||
    (|s| == 3 && s[0] == 0xE2 && s[1] == 0x81 && s[2] == 0x9F) ||
    (|s| == 3 && s[0] == 0xE3 && s[1] == 0x80 && s[2] == 0x80)
  }

  lemma TrimBefore(space: Text, t: Text)
    requires IsBlank(space)
    ensures TrimSpace(space + t) == TrimSpace(t)
  {
    assert LeadingSpace(space + t) == |space|;
    assert (space + t)[|space|..] == t;
  }

  /** A blank at the end does not change what a non-empty text starts with, and is the blank found at its end. */
  lemma BlankEnd(t: Text, space: Text)
    requires IsBlank(space) && t != []
    ensures LeadingSpace(t + space) == LeadingSpace(t)
    ensures TrailingSpace(t + space) == |space|
  {
    var s := t + space;
    assert |t| >= 2 ==> s[1] == t[1];
    assert |t| >= 3 ==> s[2] == t[2];
    assert |t| == 1 ==> s[1] == space[0];
    assert |t| == 2 ==> s[2] == space[0];
    assert forall i :: 0 <= i < |space| ==> s[|t| + i] == space[i];
  }

  lemma {:induction false} TrimAfter(t: Text, space: Text)
    requires IsBlank(space)
    ensures TrimSpace(t + space) == TrimSpace(t)
    decreases |t|
  {
    var s := t + space;
    if t == [] {
      assert s == space + [];
      TrimBefore(space, []);
    } else {
      BlankEnd(t, space);
      hide LeadingSpace, TrailingSpace, IsBlank;
      if LeadingSpace(t) > 0 {
        assert s[LeadingSpace(t)..] == t[LeadingSpace(t)..] + space;
        TrimAfter(t[LeadingSpace(t)..], space);
      } else {
        assert |space| > 0 ==> s[..|s| - |space|] == t;
        assert |space| == 0 ==> s == t;
      }
    }
  }

  /** Blanks, one after the other. */
  predicate AllBlank(s: Text)
    decreases |s|
  {
    s == [] || BlankThen(s, 1) || BlankThen(s, 2) || BlankThen(s, 3)
  }

  predicate BlankThen(s: Text, n: nat)
    requires n > 0
    decreases |s|, 0
  {
    n <= |s| && IsBlank(s[..n]) && AllBlank(s[n..])
  }

  lemma {:induction false} BlankJoin(a: Text, b: Text)
    requires AllBlank(a) && AllBlank(b)
    ensures AllBlank(a + b)
    decreases |a|
  {
    hide IsBlank;
    if a == [] {
      assert a + b == b;
    } else {
      var n := if BlankThen(a, 1) then 1 else if BlankThen(a, 2) then 2 else 3;
      BlankJoin(a[n..], b);
      assert (a + b)[..n] == a[..n] && (a + b)[n..] == a[n..] + b;
      assert BlankThen(a + b, n);
    }
  }

  lemma OneBlank(s: Text)
    requires IsBlank(s)
    ensures AllBlank(s)
  {
    assert s[..|s|] == s && s[|s|..] == [];
    assert BlankThen(s, |s|);
  }

  lemma SpaceIsBlank(s: Text)
    ensures LeadingSpace(s) > 0 ==> IsBlank(s[..LeadingSpace(s)])
    ensures TrailingSpace(s) > 0 ==> IsBlank(s[|s| - TrailingSpace(s)..])
  {
  }

  /** t is what is left of s without blanks at its ends. */
  predicate Between(s: Text, i: nat, j: nat, t: Text) {
    i <= j <= |s| && s[i..j] == t && AllBlank(s[..i]) && AllBlank(s[j..])
  }

  lemma BlankBefore(s: Text, l: nat, i: nat, j: nat, t: Text)
    requires l <= |s| && IsBlank(s[..l]) && Between(s[l..], i, j, t)
    ensures Between(s, l + i, l + j, t)
  {
    OneBlank(s[..l]);
    BlankJoin(s[..l], s[l..][..i]);
    hide AllBlank, IsBlank;
    var r := s[l..];
    assert forall k :: 0 <= k < |r| ==> r[k] == s[l + k];
    assert s[..l] + r[..i] == s[..l + i];
    assert r[i..j] == s[l + i..l + j];
    assert r[j..] == s[l + j..];
  }

  lemma BlankAfter(s: Text, n: nat, i: nat, j: nat, t: Text)
    requires n <= |s| && IsBlank(s[n..]) && Between(s[..n], i, j, t)
    ensures Between(s, i, j, t)
  {
    OneBlank(s[n..]);
    BlankJoin(s[..n][j..], s[n..]);
    hide AllBlank, IsBlank;
    var r := s[..n];
    assert r[j..] + s[n..] == s[j..];
    assert r[..i] == s[..i];
    assert r[i..j] == s[i..j];
  }

  lemma TrimStep(s: Text)
    ensures var l, n := LeadingSpace(s), |s| - TrailingSpace(s);
            if l > 0 then TrimSpace(s) == TrimSpace(s[l..]) && l <= |s|
            else if n < |s| then TrimSpace(s) == TrimSpace(s[..n]) && 0 <= n
            else TrimSpace(s) == s
  {
  }

  lemma Untouched(s: Text)
    ensures Between(s, 0, |s|, s)
  {
    assert s[0..|s|] == s && s[..0] == [] && s[|s|..] == [];
  }

  /** Trimming removes blanks, and nothing else, from both ends, and leaves none there. */
  lemma {:induction false} TrimRemovesBlanks(s: Text) returns (i: nat, j: nat)
    ensures Between(s, i, j, TrimSpace(s))
    ensures LeadingSpace(TrimSpace(s)) == 0 && TrailingSpace(TrimSpace(s)) == 0
    decreases |s|
  {
    hide *;
    SpaceIsBlank(s);
    TrimStep(s);
    var l, n := LeadingSpace(s), |s| - TrailingSpace(s);
    i, j := 0, |s|;
    if l > 0 {
      i, j := TrimRemovesBlanks(s[l..]);
      BlankBefore(s, l, i, j, TrimSpace(s));
      i, j := l + i, l + j;
    } else if n < |s| {
      i, j := TrimRemovesBlanks(s[..n]);
      BlankAfter(s, n, i, j, TrimSpace(s));
    } else {
      Untouched(s);
    }
  }

  /** What parses holds digits of the base only. */
  lemma {:induction false} DigitsOnly(s: Text, base: nat)
    requires Number(s, base).Some?
    ensures forall c :: c in s ==> DigitOf(c) < base
  {
    if s != [] {
      DigitsOnly(s[..|s| - 1], base);
      assert s == s[..|s| - 1] + [s[|s| - 1]];
    }
  }

  lemma {:induction false} IndexOfFirst(a: Text, c: byte, b: Text)
    requires c !in a
    ensures IndexOf(a + [c] + b, c) == Some(|a|)
  {
    if a != [] {
      assert (a + [c] + b)[0] == a[0] && (a + [c] + b)[1..] == a[1..] + [c] + b;
      IndexOfFirst(a[1..], c, b);
    }
  }

  lemma {:induction false} LastIndexOfLast(a: Text, c: byte, b: Text)
    requires c !in b
    ensures LastIndexOf(a + [c] + b, c) == Some(|a|)
    decreases |b|
  {
    var s := a + [c] + b;
    if b != [] {
      assert s[|s| - 1] == b[|b| - 1] && s[..|s| - 1] == a + [c] + b[..|b| - 1];
      LastIndexOfLast(a, c, b[..|b| - 1]);
    }
  }

  lemma {:induction false} LeadingZeros(z: nat, s: Text, base: nat)
    requires base > 0
    ensures Number(Zeros(z) + s, base) == Number(s, base)
    decreases z + |s|
  {
    var t := Zeros(z) + s;
    if s != [] {
      assert t[..|t| - 1] == Zeros(z) + s[..|s| - 1];
      LeadingZeros(z, s[..|s| - 1], base);
    } else if z > 0 {
      assert t == Zeros(z);
      assert t[..|t| - 1] == Zeros(z - 1) + [];
      LeadingZeros(z - 1, [], base);
    }
  }

  function Zeros(z: nat): (s: Text)
    ensures |s| == z && forall c :: c in s ==> c == 48
  {
    seq(z, _ => 48)
  }

  /** %X: the upper-case hexadecimal digits of n. */
  function Hex(n: nat): (s: Text)
    ensures s != []
  {
    var d: byte := n % 16;
    var c: byte := if d < 10 then 48 + d else 55 + d;
    if n < 16 then [c] else Hex(n / 16) + [c]
  }

  lemma NumberAppend(s: Text, c: byte, base: nat)
    requires Number(s, base).Some? && DigitOf(c) < base
    ensures Number(s + [c], base) == Some(Number(s, base).value * base + DigitOf(c))
  {
  }

  lemma {:induction false} NumberOfHex(n: nat)
    ensures Number(Hex(n), 16) == Some(n)
  {
    hide Number;
    var d: byte := n % 16;
    var c: byte := if d < 10 then 48 + d else 55 + d;
    var high := if n < 16 then [] else Hex(n / 16);
    if n >= 16 { NumberOfHex(n / 16); } else { NumberOfNothing(16); }
    assert Hex(n) == high + [c];
    NumberAppend(high, c, 16);
  }

  lemma {:induction false} NumberOfItoa(n: nat)
    ensures Number(Itoa(n), 10) == Some(n)
  {
    hide Number;
    var c: byte := 48 + n % 10;
    var high := if n < 10 then [] else Itoa(n / 10);
    if n >= 10 { NumberOfItoa(n / 10); } else { NumberOfNothing(10); }
    assert Itoa(n) == high + [c];
    NumberAppend(high, c, 10);
  }

  lemma NumberOfNothing(base: nat)
    ensures Number([], base) == Some(0)
  {
  }

  lemma NotTrimmed(s: Text)
    requires s != [] && !IsSpace(s[0]) && !IsSpace(s[|s| - 1]) && s[0] < 128 && s[|s| - 1] < 128
    ensures TrimSpace(s) == s
  {
    assert LeadingSpace(s) == 0 && TrailingSpace(s) == 0;
  }
}

/** JSON integers as they arrive: decoded into float64, which holds 53 bits. */
module Doubles {
  const TWO52 := 0x10_0000_0000_0000
  const TWO53 := 0x20_0000_0000_0000

  /** The spacing of doubles around n. */
  function Spacing(n: nat): (u: nat)
    ensures u >= 1
  {
    if n < TWO53 then 1 else 2 * Spacing(n / 2)
  }

  /** n / u to the nearest integer, ties to the even one. */
  function Rounded(n: nat, u: nat): nat
    requires u >= 1
  {
    var q, r := n / u, n % u;
    if 2 * r > u || (2 * r == u && q % 2 == 1) then q + 1 else q
  }

  function Nearest(n: nat, u: nat): nat
    requires u >= 1
  {
    Rounded(n, u) * u
  }

  function Double(n: nat): nat { Nearest(n, Spacing(n)) }

  lemma {:induction false} SpacingRange(n: nat)
    ensures n < TWO53 * Spacing(n)
    ensures n >= TWO53 ==> TWO52 * Spacing(n) <= n
  {
    if n >= TWO53 { SpacingRange(n / 2); }
  }

  lemma {:induction false} SpacingGrows(a: nat, b: nat)
    requires a <= b
    ensures Spacing(a) == Spacing(b) || 2 * Spacing(a) <= Spacing(b)
    decreases b
  {
    if a >= TWO53 { SpacingGrows(a / 2, b / 2); }
  }

  lemma Times(a: nat, b: nat, u: nat)
    requires a <= b
    ensures a * u <= b * u
  {
  }

  /** Rounding moves a number by at most half the spacing. */
  lemma NearestError(n: nat, u: nat)
    requires u >= 1
    ensures 2 * Nearest(n, u) <= 2 * n + u && 2 * n <= 2 * Nearest(n, u) + u
  {
    if Rounded(n, u) == n / u + 1 { assert Nearest(n, u) == n / u * u + u; }
  }

  /** Halfway between two multiples it goes to the even one. */
  lemma TiesToEven(n: nat, u: nat)
    requires u >= 1 && 2 * (n % u) == u
    ensures Rounded(n, u) % 2 == 0
  {
  }

  lemma RoundedMonotone(a: nat, b: nat, u: nat)
    requires u >= 1 && a <= b
    ensures a / u <= b / u && Rounded(a, u) <= Rounded(b, u)
  {
    if b / u < a / u { Times(b / u + 1, a / u, u); }
  }

  lemma NearestMonotone(a: nat, b: nat, u: nat)
    requires u >= 1 && a <= b
    ensures Nearest(a, u) <= Nearest(b, u)
  {
    RoundedMonotone(a, b, u);
    hide Rounded;
    Times(Rounded(a, u), Rounded(b, u), u);
  }

  /** JSON numbers never change places. */
  lemma DoubleMonotone(a: nat, b: nat)
    requires a <= b
    ensures Double(a) <= Double(b)
  {
    hide Nearest;
    SpacingGrows(a, b);
    if Spacing(a) == Spacing(b) {
      NearestMonotone(a, b, Spacing(a));
    } else {
      Bounds(a);
      Bounds(b);
    }
  }

  lemma QuotientBounds(n: nat, u: nat, low: nat, high: nat)
    requires u >= 1 && low * u <= n < high * u
    ensures low <= n / u < high
  {
    if n / u >= high { Times(high, n / u, u); }
    if n / u < low { Times(n / u + 1, low, u); }
  }

  lemma Bounds(n: nat)
    ensures Double(n) <= TWO53 * Spacing(n)
    ensures n >= TWO53 ==> TWO52 * Spacing(n) <= Double(n)
  {
    var u := Spacing(n);
    hide Spacing;
    SpacingRange(n);
    QuotientBounds(n, u, if n >= TWO53 then TWO52 else 0, TWO53);
    Times(Rounded(n, u), TWO53, u);
    if n >= TWO53 { Times(TWO52, Rounded(n, u), u); }
  }

  lemma ExactIff(n: nat, u: nat)
    requires u >= 1
    ensures Nearest(n, u) == n <==> n % u == 0
  {
    if Rounded(n, u) == n / u + 1 { assert Nearest(n, u) == n / u * u + u; }
  }

  /** Up to two to the 53rd they are exact, and beyond it exactly when they are multiples of the spacing. */
  lemma DoubleExactIff(n: nat)
    ensures Double(n) == n <==> n % Spacing(n) == 0
    ensures n <= TWO53 ==> Double(n) == n
  {
    ExactIff(n, Spacing(n));
  }

  /** Both round to one multiple of one spacing, or the lower up and the higher down to the power of two between
      two spacings. */
  predicate RoundTogether(a: nat, b: nat) {
    var s, t := Spacing(a), Spacing(b);
    if s == t then Rounded(a, s) == Rounded(b, t)
    else t == 2 * s && Rounded(a, s) == TWO53 && Rounded(b, t) == TWO52
  }

  lemma SameMultiple(j: nat, k: nat, u: nat)
    requires u >= 1
    ensures j * u == k * u <==> j == k
  {
    if j < k { Times(j + 1, k, u); }
    if k < j { Times(k + 1, j, u); }
  }

  /** Doubles are equal exactly then. */
  lemma DoubleMergeIff(a: nat, b: nat)
    requires a < b
    ensures Double(a) == Double(b) <==> RoundTogether(a, b)
  {
    var s, t := Spacing(a), Spacing(b);
    var j, k := Rounded(a, s), Rounded(b, t);
    SpacingGrows(a, b);
    Bounds(a);
    Bounds(b);
    assert b < TWO53 ==> s == t;
    assert Double(a) == j * s && Double(b) == k * t;
    hide Spacing, Rounded, Double;
    SameMultiple(j, k, s);
    SameMultiple(j, TWO53, s);
    SameMultiple(k, TWO52, t);
  }
}

module LsnPacking {
  import opened Wrappers
  import opened Bytes
  import opened Decimal
  import opened Parsing
  import opened Doubles
  import opened Events

  const TWO32 := 0x1_0000_0000
  const TWO64 := 0x1_0000_0000_0000_0000
  const SLASH: byte := 47
  const DOT: byte := 46

  type int64 = n: int | -0x8000_0000_0000_0000 <= n < 0x8000_0000_0000_0000

  /** A JSON integer far enough below two to the 64th that its double is below it too. */
  type JsonInt = n: int | -0x8000_0000_0000_0000 <= n < 0xFFFF_FFFF_FFFF_F000

  /** A JSON value that may carry a sequence number. */
  datatype Field = Missing | JsonNumber(n: JsonInt) | Digits(t: Text)

  lemma DoubleFits(n: nat)
    requires n < 0xFFFF_FFFF_FFFF_F000
    ensures Double(n) < TWO64
  {
    hide Nearest;
    SpacingRange(n);
    NearestError(n, Spacing(n));
  }

  /** hi<<32 | lo for a 32-bit lo. */
  function Pack(hi: nat, lo: nat): (v: uint64)
    requires hi < TWO32 && lo < TWO32
  {
    hi * TWO32 + lo
  }

  function FromPair(s: Text): Option<uint64> {
    match IndexOf(s, SLASH)
    case None => None
    case Some(i) =>
      var hi, lo := ParseUint(s[..i], 16, TWO32), ParseUint(s[i + 1..], 16, TWO32);
      if hi.Some? && lo.Some? then Some(Pack(hi.value, lo.value)) else None
  }

  function TrimHexPrefix(s: Text): Text { if [48, 120] <= s then s[2..] else s }

  function FromText(t: Text): Option<uint64> {
    var s := TrimSpace(t);
    if s == [] then None
    else if FromPair(s).Some? then FromPair(s)
    else if ParseUint(s, 10, TWO64).Some? then Some(ParseUint(s, 10, TWO64).value)
    else if ParseUint(TrimHexPrefix(s), 16, TWO64).Some? then Some(ParseUint(TrimHexPrefix(s), 16, TWO64).value)
    else None
  }

  function ToUint64(v: Field): Option<uint64> {
    match v
    case Missing => None
    case JsonNumber(n) => if n < 0 then None else (DoubleFits(n); Some(Double(n)))
    case Digits(t) => FromText(t)
  }

  function BinlogOrdinal(name: Text): (n: nat)
    ensures n < TWO32
  {
    if name == [] then 0
    else
      var i := LastIndexOf(name, DOT);
      if i.None? || i.value == |name| - 1 then 0
      else
        var n := ParseUint(name[i.value + 1..], 10, TWO32);
        if n.None? then 0 else n.value
  }

  datatype SourceFields = SourceFields(lsn: Field, scn: Field, commitLsn: Field, changeLsn: Field, seqNum: Field,
                                       pos: Field, file: Text, tsMs: int64)

  /** The first named sequence number that converts. */
  function Named(s: SourceFields): Option<uint64> {
    if ToUint64(s.lsn).Some? then ToUint64(s.lsn)
    else if ToUint64(s.scn).Some? then ToUint64(s.scn)
    else if ToUint64(s.commitLsn).Some? then ToUint64(s.commitLsn)
    else if ToUint64(s.changeLsn).Some? then ToUint64(s.changeLsn)
    else ToUint64(s.seqNum)
  }

  function ExtractLsn(s: SourceFields): uint64 {
    if Named(s).Some? then Named(s).value
    else
      var pos := ToUint64(s.pos);
      if pos.Some? then Pack(BinlogOrdinal(s.file), pos.value % TWO32)
      else if s.tsMs > 0 then s.tsMs
      else 0
  }

  // ------------------------------------------------------------ which field wins, and what it gives

  /** The first of the named sequence numbers that converts is the answer; failing all of them the binlog ordinal
      and the low 32 bits of the position; failing that the commit time. */
  lemma Precedence(s: SourceFields, i: nat)
    requires i < 5
    ensures var named := [s.lsn, s.scn, s.commitLsn, s.changeLsn, s.seqNum];
            (ToUint64(named[i]).Some? && (forall j :: 0 <= j < i ==> ToUint64(named[j]).None?) ==>
               ExtractLsn(s) == ToUint64(named[i]).value) &&
            ((forall j :: 0 <= j < 5 ==> ToUint64(named[j]).None?) ==>
               ExtractLsn(s) ==
               if ToUint64(s.pos).Some?
               then BinlogOrdinal(s.file) * 0x1_0000_0000 + ToUint64(s.pos).value % 0x1_0000_0000
               else if s.tsMs > 0 then s.tsMs else 0)
  {
    hide ToUint64, BinlogOrdinal;
    var named := [s.lsn, s.scn, s.commitLsn, s.changeLsn, s.seqNum];
    assert named[0] == s.lsn && named[1] == s.scn && named[2] == s.commitLsn && named[3] == s.changeLsn &&
           named[4] == s.seqNum;
  }

  /** What each kind of field gives: nothing for one that is missing, a negative number or blank text; a number up
      to two to the 53rd itself; decimal digits their number; prefixed hexadecimal digits theirs. */
  lemma FieldGives(n: JsonInt, v: uint64)
    ensures ToUint64(Missing).None? && ToUint64(Digits([])).None?
    ensures n < 0 ==> ToUint64(JsonNumber(n)).None?
    ensures 0 <= n <= 0x20_0000_0000_0000 ==> ToUint64(JsonNumber(n)) == Some(n)
    ensures ToUint64(Digits(Itoa(v))) == Some(v)
    ensures ToUint64(Digits([48, 120] + Hex(v))) == Some(v)
  {
    if 0 <= n <= TWO53 { DoubleExactIff(n); }
    DecimalText(v);
    PrefixedText(v);
    assert TrimSpace([]) == [];
  }

  lemma DecimalText(v: uint64)
    ensures FromText(Itoa(v)) == Some(v)
  {
    var t := Itoa(v);
    NumberOfItoa(v);
    DigitsOnly(t, 10);
    hide Parsing.Number, TrimSpace;
    assert t[0] in t && t[|t| - 1] in t;
    NotTrimmed(t);
    NotPair(t);
  }

  lemma NotPair(t: Text)
    requires SLASH !in t
    ensures FromPair(t).None?
  {
  }

  lemma PrefixedText(v: uint64)
    ensures FromText([48, 120] + Hex(v)) == Some(v)
  {
    var h := Hex(v);
    var t := [48, 120] + h;
    NumberOfHex(v);
    DigitsOnly(h, 16);
    assert h[|h| - 1] in h && t[|t| - 1] == h[|h| - 1];
    NotTrimmed(t);
    NotPair(t);
    assert t[1] == 120 && t[1] in t;
    if Parsing.Number(t, 10).Some? { DigitsOnly(t, 10); }
    assert t[2..] == h;
    hide Parsing.Number, TrimSpace;
  }

  /** White space around a text does not matter. */
  lemma SpaceIgnored(t: Text, space: Text)
    requires IsBlank(space)
    ensures FromText(space + t) == FromText(t) && FromText(t + space) == FromText(t)
  {
    TrimBefore(space, t);
    TrimAfter(t, space);
    hide TrimSpace;
  }

  // ------------------------------------------------------------ order

  /** Packing embeds pairs, ordered lexicographically, in the integers. */
  lemma PackOrder(hi1: nat, lo1: nat, hi2: nat, lo2: nat)
    requires hi1 < TWO32 && lo1 < TWO32 && hi2 < TWO32 && lo2 < TWO32
    ensures Pack(hi1, lo1) < Pack(hi2, lo2) <==> hi1 < hi2 || (hi1 == hi2 && lo1 < lo2)
    ensures Pack(hi1, lo1) == Pack(hi2, lo2) <==> hi1 == hi2 && lo1 == lo2
  {
  }

  /** A text holding a slash is a sequence number exactly when both sides are 32-bit hexadecimal. */
  lemma PairTextIff(t: Text)
    requires SLASH in TrimSpace(t)
    ensures FromText(t) == FromPair(TrimSpace(t))
  {
    var s := TrimSpace(t);
    assert [48, 120] <= s ==> s == [48, 120] + s[2..];
    assert SLASH in TrimHexPrefix(s);
    if Parsing.Number(s, 10).Some? { DigitsOnly(s, 10); }
    if Parsing.Number(TrimHexPrefix(s), 16).Some? { DigitsOnly(TrimHexPrefix(s), 16); }
  }

  /** hi/lo in any hexadecimal spelling means the packed pair. */
  lemma PairTextMeans(h: Text, l: Text)
    requires ParseUint(h, 16, TWO32).Some? && ParseUint(l, 16, TWO32).Some?
    ensures FromText(h + [SLASH] + l) == Some(Pack(ParseUint(h, 16, TWO32).value, ParseUint(l, 16, TWO32).value))
  {
    hide Parsing.Number, FromPair;
    var t := h + [SLASH] + l;
    DigitsOnly(h, 16);
    DigitsOnly(l, 16);
    assert h[0] in h && l[|l| - 1] in l;
    assert t[0] == h[0] && t[|t| - 1] == l[|l| - 1] && t[|h|] == SLASH;
    NotTrimmed(t);
    PairTextIff(t);
    PairParts(h, l);
  }

  lemma PairParts(h: Text, l: Text)
    requires ParseUint(h, 16, TWO32).Some? && ParseUint(l, 16, TWO32).Some?
    ensures FromPair(h + [SLASH] + l) == Some(Pack(ParseUint(h, 16, TWO32).value, ParseUint(l, 16, TWO32).value))
  {
    hide Parsing.Number;
    var t := h + [SLASH] + l;
    DigitsOnly(h, 16);
    IndexOfFirst(h, SLASH, l);
    assert t[..|h|] == h && t[|h| + 1..] == l;
  }

  /** So two Postgres-style positions compare as numbers the way they compare as pairs. */
  lemma PairTextOrder(h1: Text, l1: Text, h2: Text, l2: Text)
    requires ParseUint(h1, 16, TWO32).Some? && ParseUint(l1, 16, TWO32).Some?
    requires ParseUint(h2, 16, TWO32).Some? && ParseUint(l2, 16, TWO32).Some?
    ensures var a, b := FromText(h1 + [SLASH] + l1), FromText(h2 + [SLASH] + l2);
            a.Some? && b.Some? &&
            (a.value < b.value <==>
             var hi1, hi2 := ParseUint(h1, 16, TWO32).value, ParseUint(h2, 16, TWO32).value;
             hi1 < hi2 || (hi1 == hi2 && ParseUint(l1, 16, TWO32).value < ParseUint(l2, 16, TWO32).value))
  {
    hide ParseUint, FromText;
    PairTextMeans(h1, l1);
    PairTextMeans(h2, l2);
  }

  /** Every 64-bit sequence number survives being written as hi/lo in hexadecimal. */
  lemma PairTextRoundTrip(v: uint64)
    ensures FromText(Hex(v / TWO32) + [SLASH] + Hex(v % TWO32)) == Some(v)
  {
    hide FromText;
    NumberOfHex(v / TWO32);
    NumberOfHex(v % TWO32);
    PairTextMeans(Hex(v / TWO32), Hex(v % TWO32));
  }

  // ------------------------------------------------------------ bare hexadecimal text

  lemma {:induction false} DecimalBelowHex(s: Text)
    requires Parsing.Number(s, 10).Some?
    ensures Parsing.Number(s, 16).Some?
    ensures Parsing.Number(s, 10).value <= Parsing.Number(s, 16).value
    ensures Parsing.Number(s, 10).value == Parsing.Number(s, 16).value <==> Parsing.Number(s, 16).value < 10
  {
    if s != [] { DecimalBelowHex(s[..|s| - 1]); }
  }

  /** A hexadecimal text without prefix is read as hexadecimal, unless it happens to use decimal
      digits only; then it is read as decimal, which agrees only below ten. */
  lemma BareHexIff(t: Text)
    requires TrimSpace(t) == t && ParseUint(t, 16, TWO64).Some?
    ensures FromText(t) == Some(ParseUint(t, 16, TWO64).value) <==>
            Parsing.Number(t, 10).None? || ParseUint(t, 16, TWO64).value < 10
  {
    assert [48, 120] <= t ==> t[1] == 120 && t[1] in t;
    DigitsOnly(t, 16);
    assert SLASH !in t && TrimHexPrefix(t) == t;
    if Parsing.Number(t, 10).Some? { DecimalBelowHex(t); }
  }

  /** Hence bare hexadecimal texts do not keep their order: 9A, then 100. */
  lemma BareHexGoesBackwards()
    ensures var a, b := [57, 65], [49, 48, 48];
            ParseUint(a, 16, TWO64) == Some(154) && ParseUint(b, 16, TWO64) == Some(256) &&
            FromText(a) == Some(154) && FromText(b) == Some(100)
  {
    var a, b := [57, 65], [49, 48, 48];
    NotTrimmed(a);
    NotTrimmed(b);
    hide TrimSpace;
    assert a[..1] == [57] && b[..2] == [49, 48] && b[..2][..1] == [49];
    assert Parsing.Number([57], 10) == Some(9) && Parsing.Number([57], 16) == Some(9);
    assert Parsing.Number([49], 10) == Some(1) && Parsing.Number([49], 16) == Some(1);
    assert Parsing.Number([49, 48], 10) == Some(10) && Parsing.Number([49, 48], 16) == Some(16) by {
      assert [49, 48][..1] == [49];
    }
    assert Parsing.Number(a, 10).None? && Parsing.Number(a, 16) == Some(154);
    assert Parsing.Number(b, 10) == Some(100) && Parsing.Number(b, 16) == Some(256);
    BareHexIff(a);
    assert SLASH !in b;
  }

  // ------------------------------------------------------------ binlog positions

  /** A binlog file name: a stem, a dot and the ordinal, zero-padded. */
  function BinlogName(stem: Text, zeros: nat, n: nat): Text { stem + [DOT] + (Zeros(zeros) + Itoa(n)) }

  lemma BinlogOrdinalRoundTrip(stem: Text, zeros: nat, n: nat)
    requires n < TWO32
    ensures BinlogOrdinal(BinlogName(stem, zeros, n)) == n
  {
    var d := Zeros(zeros) + Itoa(n);
    NumberOfItoa(n);
    LeadingZeros(zeros, Itoa(n), 10);
    OrdinalOfDigits(stem, d);
  }

  /** The ordinal is the 32-bit decimal number after the last dot, and zero without one. */
  lemma OrdinalIs(name: Text)
    ensures var n := BinlogOrdinal(name);
            (forall i :: 0 <= i < |name| && name[i] == DOT && DOT !in name[i + 1..] ==>
               n == match ParseUint(name[i + 1..], 10, TWO32) case Some(v) => v case None => 0) &&
            (DOT !in name ==> n == 0)
  {
    hide ParseUint;
    var at := LastIndexOf(name, DOT);
    forall i | 0 <= i < |name| && name[i] == DOT && DOT !in name[i + 1..] ensures at == Some(i) {
    }
    NothingParsed();
  }

  lemma NothingParsed()
    ensures ParseUint([], 10, TWO32).None?
  {
  }

  lemma OrdinalOfDigits(stem: Text, d: Text)
    requires ParseUint(d, 10, TWO32).Some?
    ensures BinlogOrdinal(stem + [DOT] + d) == ParseUint(d, 10, TWO32).value
  {
    hide Parsing.Number;
    DigitsOnly(d, 10);
    var name := stem + [DOT] + d;
    LastIndexOfLast(stem, DOT, d);
    assert name[|stem| + 1..] == d;
  }

  /** A source that reports a binlog file and position and none of the named sequence numbers. */
  ghost predicate AtBinlog(s: SourceFields, file: nat, pos: nat) {
    Named(s).None? &&
    ToUint64(s.pos) == Some(pos) && BinlogOrdinal(s.file) == file
  }

  lemma BinlogLsn(s: SourceFields, file: nat, pos: nat)
    requires AtBinlog(s, file, pos)
    ensures file < TWO32 && ExtractLsn(s) == Pack(file, pos % TWO32)
  {
    hide ToUint64, BinlogOrdinal;
  }

  /** A log rotation never moves the sequence number backwards, whatever the positions. */
  lemma RotationMovesForward(a: SourceFields, b: SourceFields, fa: nat, pa: nat, fb: nat, pb: nat)
    requires AtBinlog(a, fa, pa) && AtBinlog(b, fb, pb) && fa < fb
    ensures ExtractLsn(a) < ExtractLsn(b)
  {
    hide ExtractLsn, AtBinlog;
    BinlogLsn(a, fa, pa);
    BinlogLsn(b, fb, pb);
  }

  /** Positions below 4 GiB: the sequence number orders events exactly as (file, position) does. */
  lemma BinlogOrder(a: SourceFields, b: SourceFields, fa: nat, pa: nat, fb: nat, pb: nat)
    requires AtBinlog(a, fa, pa) && AtBinlog(b, fb, pb) && pa < TWO32 && pb < TWO32
    ensures ExtractLsn(a) < ExtractLsn(b) <==> fa < fb || (fa == fb && pa < pb)
    ensures ExtractLsn(a) == ExtractLsn(b) <==> fa == fb && pa == pb
  {
    hide ExtractLsn, AtBinlog;
    BinlogLsn(a, fa, pa);
    BinlogLsn(b, fb, pb);
  }

  /** Within one file of any length, order survives exactly when it survives dropping the position's
      high bits. */
  lemma BinlogOrderIff(a: SourceFields, b: SourceFields, f: nat, pa: nat, pb: nat)
    requires AtBinlog(a, f, pa) && AtBinlog(b, f, pb)
    ensures ExtractLsn(a) < ExtractLsn(b) <==> pa % TWO32 < pb % TWO32
  {
    hide ExtractLsn, AtBinlog;
    BinlogLsn(a, f, pa);
    BinlogLsn(b, f, pb);
  }

  /** A file longer than 4 GiB therefore moves the number backwards within itself. */
  lemma LongFileGoesBackwards(file: Text)
    ensures var a := SourceFields(Missing, Missing, Missing, Missing, Missing, JsonNumber(TWO32 - 1), file, 0);
            ExtractLsn(a.(pos := JsonNumber(TWO32))) < ExtractLsn(a)
  {
  }

  // ------------------------------------------------------------ numeric sequence numbers

  /** Numbers keep their order, strictly up to two to the 53rd and beyond it when they are further apart than
      the spacing of doubles; they never change places. */
  lemma NumericOrder(a: nat, b: nat)
    requires a < b < 0xFFFF_FFFF_FFFF_F000
    ensures var x, y := ToUint64(JsonNumber(a)), ToUint64(JsonNumber(b));
            x.Some? && y.Some? && x.value <= y.value &&
            (b <= TWO53 || b - a > Spacing(b) ==> x.value < y.value)
  {
    hide Nearest, Spacing;
    DoubleMonotone(a, b);
    SpacingGrows(a, b);
    NearestError(a, Spacing(a));
    NearestError(b, Spacing(b));
    if b <= TWO53 { DoubleExactIff(a); DoubleExactIff(b); }
  }

  /** And that is exactly when they merge. */
  lemma NumericMergeIff(a: nat, b: nat)
    requires a < b < 0xFFFF_FFFF_FFFF_F000
    ensures ToUint64(JsonNumber(a)) == ToUint64(JsonNumber(b)) <==> RoundTogether(a, b)
  {
    hide Double, RoundTogether;
    DoubleMergeIff(a, b);
  }

  /** The first two that merge. */
  lemma NumericCollision()
    ensures ToUint64(JsonNumber(TWO53)) == ToUint64(JsonNumber(TWO53 + 1)) == Some(TWO53)
  {
    assert Spacing(TWO53) == 2 && Spacing(TWO53 + 1) == 2;
  }

  // ------------------------------------------------------------ the signed cast

  /** The statements bind int64(lsn). Order survives unless the pair straddles two to the 63rd. */
  lemma SignedOrderIff(a: uint64, b: uint64)
    requires a < b
    ensures SignedLsn(a) < SignedLsn(b) <==> b < 0x8000_0000_0000_0000 || a >= 0x8000_0000_0000_0000
  {
  }

  /** End to end: binlog ordinals below two to the 31st reach the fence in (file, position) order. */
  lemma FencedBinlogOrder(a: SourceFields, b: SourceFields, fa: nat, pa: nat, fb: nat, pb: nat)
    requires AtBinlog(a, fa, pa) && AtBinlog(b, fb, pb)
    requires pa < TWO32 && pb < TWO32 && fa < 0x8000_0000 && fb < 0x8000_0000
    ensures SignedLsn(ExtractLsn(a)) < SignedLsn(ExtractLsn(b)) <==> fa < fb || (fa == fb && pa < pb)
    ensures SignedLsn(ExtractLsn(a)) == SignedLsn(ExtractLsn(b)) <==> fa == fb && pa == pb
  {
    hide ExtractLsn, AtBinlog;
    BinlogLsn(a, fa, pa);
    BinlogLsn(b, fb, pb);
    BinlogOrder(a, b, fa, pa, fb, pb);
  }

  /** The same for hi/lo texts whose high part is below two to the 31st. */
  lemma FencedPairOrder(h1: Text, l1: Text, h2: Text, l2: Text)
    requires ParseUint(h1, 16, 0x8000_0000).Some? && ParseUint(l1, 16, TWO32).Some?
    requires ParseUint(h2, 16, 0x8000_0000).Some? && ParseUint(l2, 16, TWO32).Some?
    ensures var a, b := FromText(h1 + [SLASH] + l1), FromText(h2 + [SLASH] + l2);
            a.Some? && b.Some? &&
            (SignedLsn(a.value) < SignedLsn(b.value) <==>
             var hi1, hi2 := ParseUint(h1, 16, TWO32), ParseUint(h2, 16, TWO32);
             hi1.Some? && hi2.Some? &&
             (hi1.value < hi2.value ||
              (hi1.value == hi2.value && ParseUint(l1, 16, TWO32).value < ParseUint(l2, 16, TWO32).value)))
  {
    hide FromText;
    PairTextMeans(h1, l1);
    PairTextMeans(h2, l2);
  }
}
