/** How a SMART attribute's bytes become one 64-bit integer. */
module RawValue {
  import opened Bytes

  const RAW8 := 1
  const RAW16 := 2
  const RAW48 := 3
  const HEX48 := 4
  const RAW56 := 5
  const HEX56 := 6
  const RAW64 := 7
  const HEX64 := 8
  const RAW16_OPT_RAW16 := 9
  const RAW16_OPT_AVG16 := 10
  const RAW24_OPT_RAW8 := 11
  const RAW24_DIV_RAW24 := 12
  const RAW24_DIV_RAW32 := 13
  const SEC2HOUR := 14
  const MIN2HOUR := 15
  const HALFMIN2HOUR := 16
  const MSEC24HOUR32 := 17
  const TEMP_MIN_MAX := 18
  const TEMP10X := 19

  datatype AtaDeviceAttr = AtaDeviceAttr(name: string, typ: int, byteOrder: string, restriction: int)

  type VendorBytes = v: seq<byte> | |v| == 6 witness [0, 0, 0, 0, 0, 0]

  datatype Source = Source(vendorBytes: VendorBytes, reserved: byte, current: byte, worst: byte)

  // The byte one character of an order string names; an unknown character names a zero byte.
  function Select(c: char, s: Source): byte {
    if '0' <= c <= '5' then s.vendorBytes[c as int - '0' as int]
    else if c == 'r' then s.reserved
    else if c == 'v' then s.current
    else if c == 'w' then s.worst
    else 0
  }

  function Selected(order: string, s: Source): seq<byte> {
    seq(|order|, i requires 0 <= i < |order| => Select(order[i], s))
  }

  // Base-256 value of a digit string, most significant digit first.
  function Positional(bs: seq<byte>): nat {
    if bs == [] then 0 else Positional(bs[..|bs| - 1]) * 0x100 + bs[|bs| - 1]
  }

  function Pow256(n: nat): (p: nat)
    ensures p >= 1
  {
    if n == 0 then 1 else 0x100 * Pow256(n - 1)
  }

  function Packed(order: string, s: Source): uint64 {
    Positional(Selected(order, s)) % TWO_64
  }

  // The fold over an order string. The shift drops the bits above 63, and the low byte it
  // vacates makes the "or" an addition.
  method PackBytes(order: string, s: Source) returns (rawValue: uint64)
    ensures rawValue == Packed(order, s)
  {
    rawValue := 0;
    for i := 0 to |order|
      invariant rawValue == Packed(order[..i], s)
    {
      var b := Select(order[i], s);
      assert Selected(order[..i + 1], s)[..i] == Selected(order[..i], s);
      ShiftKeepsLow64(Positional(Selected(order[..i], s)), b);
      rawValue := rawValue * 0x100 % TWO_64 + b;
    }
    assert order[..|order|] == order;
  }

  lemma ShiftKeepsLow64(x: nat, b: byte)
    ensures (x % TWO_64) * 0x100 % TWO_64 + b == (x * 0x100 + b) % TWO_64
  {
    var q, r := x / TWO_64, x % TWO_64;
    assert x * 0x100 == r * 0x100 + (q * 0x100) * TWO_64;
    ModShift(r * 0x100, q * 0x100);
    AddLowByte(x, b);
  }

  lemma AddLowByte(x: nat, b: byte)
    ensures (x * 0x100 + b) % TWO_64 == x * 0x100 % TWO_64 + b
  {
    var q, r := x / 0x100_0000_0000_0000, x % 0x100_0000_0000_0000;
    ModShift(r * 0x100, q);
    ModShift(r * 0x100 + b, q);
  }

  // The order string each type is read with. The record's own byteOrder is never used: every
  // branch replaces it.
  function EffectiveOrder(typ: int): string {
    if typ == RAW64 || typ == HEX64 then "543210wv"
    else if typ in {RAW56, HEX56, RAW24_DIV_RAW32, MSEC24HOUR32} then "r543210"
    else "543210"
  }

  // Little-endian value of six bytes.
  function LE6(v: VendorBytes): (n: uint64)
    ensures n < 0x1_0000_0000_0000
  {
    LE2(v[0], v[1]) + LE2(v[2], v[3]) * 0x1_0000 + LE2(v[4], v[5]) * 0x1_0000_0000
  }

  // What the packed integer is, per type, in closed form.
  function RawValueOf(typ: int, s: Source): uint64 {
    if typ == RAW64 || typ == HEX64 then
      LE6(s.vendorBytes) * 0x1_0000 + s.worst * 0x100 + s.current
    else if typ in {RAW56, HEX56, RAW24_DIV_RAW32, MSEC24HOUR32} then
      LE6(s.vendorBytes) + s.reserved * 0x1_0000_0000_0000
    else LE6(s.vendorBytes)
  }

  // By type number and byte: raw56, hex56, raw24/raw32 and msec24hour32 append the reserved byte
  // above the six vendor bytes, raw64 and hex64 put the worst and current values below them.
  lemma RawValueByType(typ: int, s: Source, v: seq<int>, r: int, w: int, c: int)
    requires s.vendorBytes == v && s.reserved == r && s.worst == w && s.current == c
    ensures var raw := RawValueOf(typ, s);
            var six := 0x100_0000_0000 * v[5] + 0x1_0000_0000 * v[4] + 0x100_0000 * v[3] + 0x1_0000 * v[2]
                       + 0x100 * v[1] + v[0];
            if typ in {5, 6, 13, 17} then raw == 0x1_0000_0000_0000 * r + six
            else if typ in {7, 8} then raw == 0x1_0000 * six + 0x100 * w + c
            else raw == six
  {
  }

  method ComputeAttributeRawValue(mapping: AtaDeviceAttr, s: Source) returns (rawValue: uint64)
    ensures rawValue == RawValueOf(mapping.typ, s)
  {
    hide Packed, RawValueOf;
    // mapping.byteOrder is read first and replaced in every branch.
    var byteOrder := mapping.byteOrder;
    byteOrder := EffectiveOrder(mapping.typ);
    rawValue := PackBytes(byteOrder, s);
    EffectiveOrderPacks(mapping.typ, s);
  }

  lemma EffectiveOrderPacks(typ: int, s: Source)
    ensures Packed(EffectiveOrder(typ), s) == RawValueOf(typ, s)
  {
    hide Packed, Positional, Selected, LE6;
    if typ == RAW64 || typ == HEX64 {
      Packs64(s);
    } else if typ in {RAW56, HEX56, RAW24_DIV_RAW32, MSEC24HOUR32} {
      Packs56(s);
    } else {
      Packs48(s);
    }
  }

  function Reversed(v: VendorBytes): seq<byte> {
    [v[5], v[4], v[3], v[2], v[1], v[0]]
  }

  lemma SmallIsExact(order: string, s: Source, digits: seq<byte>)
    requires Selected(order, s) == digits && Positional(digits) < TWO_64
    ensures Packed(order, s) == Positional(digits)
  {
  }

  lemma Packs48(s: Source)
    ensures Packed("543210", s) == LE6(s.vendorBytes)
  {
    hide Positional, LE6, Packed;
    var six := Reversed(s.vendorBytes);
    SixDigits(six);
    assert [six[5], six[4], six[3], six[2], six[1], six[0]] == s.vendorBytes;
    SmallIsExact("543210", s, six);
  }

  lemma Packs56(s: Source)
    ensures Packed("r543210", s) == LE6(s.vendorBytes) + s.reserved * 0x1_0000_0000_0000
  {
    hide Positional, LE6, Packed, Pow256;
    var six := Reversed(s.vendorBytes);
    SixDigits(six);
    assert [six[5], six[4], six[3], six[2], six[1], six[0]] == s.vendorBytes;
    PositionalSplits([s.reserved], six);
    Pow256Values();
    OneDigit(s.reserved);
    SmallIsExact("r543210", s, [s.reserved] + six);
  }

  lemma Packs64(s: Source)
    ensures Packed("543210wv", s) == LE6(s.vendorBytes) * 0x1_0000 + s.worst * 0x100 + s.current
  {
    hide Positional, LE6, Packed;
    var six := Reversed(s.vendorBytes);
    SixDigits(six);
    assert [six[5], six[4], six[3], six[2], six[1], six[0]] == s.vendorBytes;
    AppendDigit(six, s.worst);
    AppendDigit(six + [s.worst], s.current);
    SmallIsExact("543210wv", s, six + [s.worst] + [s.current]);
  }

  lemma OneDigit(b: byte)
    ensures Positional([b]) == b
  {
    assert [b][..0] == [];
  }

  lemma AppendDigit(bs: seq<byte>, b: byte)
    ensures Positional(bs + [b]) == Positional(bs) * 0x100 + b
  {
    assert (bs + [b])[..|bs|] == bs;
  }

  lemma SixDigits(d: seq<byte>)
    requires |d| == 6
    ensures Positional(d) == LE6([d[5], d[4], d[3], d[2], d[1], d[0]])
  {
    OneDigit(d[0]);
    hide Positional;
    AppendDigit([d[0]], d[1]);
    AppendDigit([d[0], d[1]], d[2]);
    AppendDigit([d[0], d[1], d[2]], d[3]);
    AppendDigit([d[0], d[1], d[2], d[3]], d[4]);
    AppendDigit([d[0], d[1], d[2], d[3], d[4]], d[5]);
    assert [d[0]] + [d[1]] == [d[0], d[1]];
    assert [d[0], d[1]] + [d[2]] == [d[0], d[1], d[2]];
    assert [d[0], d[1], d[2]] + [d[3]] == [d[0], d[1], d[2], d[3]];
    assert [d[0], d[1], d[2], d[3]] + [d[4]] == [d[0], d[1], d[2], d[3], d[4]];
    assert [d[0], d[1], d[2], d[3], d[4]] + [d[5]] == d;
  }

  lemma Pow256Values()
    ensures Pow256(6) == 0x1_0000_0000_0000 && Pow256(8) == TWO_64
  {
    assert Pow256(2) == 0x1_0000;
    assert Pow256(4) == 0x1_0000_0000;
  }

  // ---- the fold for an arbitrary order string ----

  lemma {:induction false} PositionalBound(bs: seq<byte>)
    ensures Positional(bs) < Pow256(|bs|)
  {
    if bs != [] {
      PositionalBound(bs[..|bs| - 1]);
    }
  }

  lemma {:induction false} PositionalSplits(a: seq<byte>, b: seq<byte>)
    ensures Positional(a + b) == Positional(a) * Pow256(|b|) + Positional(b)
  {
    if b == [] {
      assert a + b == a;
    } else {
      var b' := b[..|b| - 1];
      PositionalSplits(a, b');
      assert (a + b)[..|a + b| - 1] == a + b';
      assert Positional(a) * Pow256(|b'|) * 0x100 == Positional(a) * Pow256(|b|);
    }
  }

  // Digit strings of one length have different values unless they are equal.
  lemma {:induction false} PositionalInjective(a: seq<byte>, b: seq<byte>)
    requires |a| == |b| && Positional(a) == Positional(b)
    ensures a == b
  {
    if a != [] {
      PositionalInjective(a[..|a| - 1], b[..|b| - 1]);
      assert a == a[..|a| - 1] + [a[|a| - 1]];
      assert b == b[..|b| - 1] + [b[|b| - 1]];
    }
  }

  lemma Pow256Monotone(m: nat, n: nat)
    requires m <= n
    ensures Pow256(m) <= Pow256(n)
  {
    if m < n {
      Pow256Monotone(m, n - 1);
    }
  }

  // Up to eight selectors the packed value is the exact positional value, and two drives that
  // pack to the same value under one order agree on every selected byte.
  lemma PackingIsExact(order: string, s: Source, t: Source)
    requires |order| <= 8
    ensures Packed(order, s) == Positional(Selected(order, s))
    ensures Packed(order, s) == Packed(order, t) <==>
              forall i :: 0 <= i < |order| ==> Select(order[i], s) == Select(order[i], t)
  {
    hide Positional, Pow256;
    Pow256Values();
    Pow256Monotone(|order|, 8);
    PositionalBound(Selected(order, s));
    PositionalBound(Selected(order, t));
    if Positional(Selected(order, s)) == Positional(Selected(order, t)) {
      PositionalInjective(Selected(order, s), Selected(order, t));
      forall i | 0 <= i < |order|
        ensures Select(order[i], s) == Select(order[i], t)
      {
        assert Selected(order, s)[i] == Selected(order, t)[i];
      }
    }
    if forall i :: 0 <= i < |order| ==> Select(order[i], s) == Select(order[i], t) {
      assert Selected(order, s) == Selected(order, t);
    }
  }

  // Beyond eight selectors only the last eight matter.
  lemma OnlyLastEightMatter(prefix: string, order: string, s: Source)
    requires |order| == 8
    ensures Packed(prefix + order, s) == Positional(Selected(order, s))
  {
    hide Positional, Pow256;
    var a, b := Selected(prefix, s), Selected(order, s);
    assert Selected(prefix + order, s) == a + b;
    PositionalSplits(a, b);
    Pow256Values();
    PositionalBound(b);
    assert Positional(a + b) == Positional(a) * TWO_64 + Positional(b);
  }
}
