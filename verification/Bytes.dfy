// Machine integers of the source as bounded mathematical integers, with its
// reinterpreting conversions written out.
module Bytes {
  const TWO_64: int := 0x1_0000_0000_0000_0000
  const TWO_63: int := 0x8000_0000_0000_0000

  type byte = x: int | 0 <= x < 0x100
  type uint16 = x: int | 0 <= x < 0x1_0000
  type uint32 = x: int | 0 <= x < 0x1_0000_0000
  type uint64 = x: int | 0 <= x < 0x1_0000_0000_0000_0000
  type int8 = x: int | -0x80 <= x < 0x80
  type int64 = x: int | -0x8000_0000_0000_0000 <= x < 0x8000_0000_0000_0000

  // int8(b): the same eight bits read as two's complement.
  function Int8(b: byte): (t: int8)
    ensures (t - b) % 0x100 == 0
  {
    if b < 0x80 then b else b - 0x100
  }

  // uint8(t): the inverse reinterpretation.
  function Uint8(t: int8): (b: byte)
    ensures Int8(b) == t
  {
    if t < 0 then t + 0x100 else t
  }

  // uint64(x) and int64(x): keep the low 64 bits.
  function Uint64(x: int): (r: uint64)
    ensures (r - x) % TWO_64 == 0
  {
    x % TWO_64
  }

  function Int64(x: int): (r: int64)
    ensures -TWO_63 <= x < TWO_63 ==> r == x
    ensures (r - x) % TWO_64 == 0
  {
    var u := x % TWO_64;
    if u < TWO_63 then u else u - TWO_64
  }

  // Little-endian values of two and three bytes.
  function LE2(lo: byte, hi: byte): uint16 {
    0x100 * hi + lo
  }

  function LE3(lo: byte, mid: byte, hi: byte): (n: nat)
    ensures n < 0x100_0000
  {
    0x100 * LE2(mid, hi) + lo
  }

  lemma LE2Injective(a: byte, b: byte, x: byte, y: byte)
    requires LE2(a, b) == LE2(x, y)
    ensures a == x && b == y
  {
  }

  lemma LE3Injective(a: byte, b: byte, c: byte, x: byte, y: byte, z: byte)
    requires LE3(a, b, c) == LE3(x, y, z)
    ensures a == x && b == y && c == z
  {
    assert LE3(a, b, c) % 0x100 == a && LE3(x, y, z) % 0x100 == x;
    LE2Injective(b, c, y, z);
  }

  // Bit n of a word, for the source's single-bit masks (p is the bit's weight).
  predicate HasBit(x: nat, p: nat)
    requires p > 0
  {
    x / p % 2 == 1
  }

  function Min(x: int, y: int): int {
    if x <= y then x else y
  }

  function Max(x: int, y: int): int {
    if x <= y then y else x
  }

  // Keeping the low 64 bits early or late makes no difference to a product.
  lemma Int64OfProduct(x: int, y: int)
    ensures Int64(Int64(x) * y) == Int64(x * y)
  {
    var k := if x % TWO_64 < TWO_63 then x / TWO_64 else x / TWO_64 + 1;
    assert Int64(x) == x - k * TWO_64;
    assert Int64(x) * y == x * y - (k * y) * TWO_64 by {
      assert (x - k * TWO_64) * y == x * y - k * TWO_64 * y;
    }
    ModShift(x * y, -(k * y));
  }

  lemma Int64OfSum(x: int, y: int)
    ensures Int64(Int64(x) + Int64(y)) == Int64(x + y)
  {
    var k := if x % TWO_64 < TWO_63 then x / TWO_64 else x / TWO_64 + 1;
    var l := if y % TWO_64 < TWO_63 then y / TWO_64 else y / TWO_64 + 1;
    ModShift(x + y, -(k + l));
  }

  lemma ModShift(x: int, k: int)
    ensures (x + k * TWO_64) % TWO_64 == x % TWO_64
  {
    var q, r := x / TWO_64, x % TWO_64;
    assert x + k * TWO_64 == (q + k) * TWO_64 + r;
  }
}
