/** IDENTIFY DEVICE capacity, and the page checksum. */
module Identify {
  import opened Bytes

  // ---- checksum ----

  function Sum(data: seq<byte>): nat {
    if data == [] then 0 else Sum(data[..|data| - 1]) + data[|data| - 1]
  }

  predicate ChecksumHolds(data: seq<byte>) {
    Sum(data) % 0x100 == 0
  }

  // The running sum of the source is a byte and wraps at every step.
  method Checksum(data: seq<byte>) returns (ok: bool)
    ensures ok == ChecksumHolds(data)
  {
    var sum: byte := 0;
    for i := 0 to |data|
      invariant sum == Sum(data[..i]) % 0x100
    {
      assert data[..i + 1][..i] == data[..i];
      sum := (sum + data[i]) % 0x100;
    }
    assert data[..|data|] == data;
    ok := sum == 0;
  }

  lemma {:induction false} SumAppends(a: seq<byte>, b: seq<byte>)
    ensures Sum(a + b) == Sum(a) + Sum(b)
  {
    if b == [] {
      assert a + b == a;
    } else {
      assert (a + b)[..|a + b| - 1] == a + b[..|b| - 1];
      SumAppends(a, b[..|b| - 1]);
    }
  }

  lemma SumOne(b: byte)
    ensures Sum([b]) == b
  {
    assert [b][..0] == [];
  }

  // A page is completed by exactly one last byte: the two's complement of its sum.
  lemma TwosComplementCompletes(data: seq<byte>, last: byte)
    ensures ChecksumHolds(data + [last]) <==> last == (0x100 - Sum(data) % 0x100) % 0x100
  {
    SumAppends(data, [last]);
    SumOne(last);
    Complement(Sum(data), last);
    hide Sum;
  }

  lemma Complement(n: nat, b: byte)
    ensures (n + b) % 0x100 == 0 <==> b == (0x100 - n % 0x100) % 0x100
  {
    assert (n + b) % 0x100 == (n % 0x100 + b) % 0x100;
  }

  // Changing any one byte of an accepted block is noticed.
  lemma OneByteChangeRejected(data: seq<byte>, i: nat, b: byte)
    requires ChecksumHolds(data) && i < |data| && b != data[i]
    ensures !ChecksumHolds(data[i := b])
  {
    SumAt(data, i);
    SumAt(data[i := b], i);
    assert data[i := b][..i] == data[..i] && data[i := b][i + 1..] == data[i + 1..];
  }

  lemma SumAt(data: seq<byte>, i: nat)
    requires i < |data|
    ensures Sum(data) == Sum(data[..i]) + data[i] + Sum(data[i + 1..])
  {
    hide Sum;
    assert data == data[..i] + ([data[i]] + data[i + 1..]);
    SumAppends(data[..i], [data[i]] + data[i + 1..]);
    SumAppends([data[i]], data[i + 1..]);
    SumOne(data[i]);
  }

  // The order of the bytes is not noticed.
  lemma {:induction false} PermutationKeepsSum(a: seq<byte>, b: seq<byte>)
    requires multiset(a) == multiset(b)
    ensures Sum(a) == Sum(b)
  {
    if a == [] {
      assert |multiset(b)| == 0;
    } else {
      var x := a[|a| - 1];
      assert a == a[..|a| - 1] + [x];
      assert x in multiset(b);
      var i :| 0 <= i < |b| && b[i] == x;
      assert b == b[..i] + [x] + b[i + 1..];
      assert multiset(a[..|a| - 1]) == multiset(a) - multiset{x};
      assert multiset(b[..i] + b[i + 1..]) == multiset(b) - multiset{x};
      PermutationKeepsSum(a[..|a| - 1], b[..i] + b[i + 1..]);
      SumAt(b, i);
      SumAppends(b[..i], b[i + 1..]);
    }
  }

  // ---- capacity ----

  datatype IdentifyFields = IdentifyFields(
    capabilities0: uint16, commandsSupported2: uint16, capacityLba28: uint32, capacityLba48: uint64,
    sectorFlags: uint16, logicalSectorWords: uint32, logicalSectorOffset: uint16)
  {
    predicate LbaSupported() { HasBit(capabilities0, 0x200) }

    // The 48-bit count, if the 48-bit Address feature set is there to back it.
    function Lba48(): uint64 {
      if HasBit(commandsSupported2, 0x400) then capacityLba48 else 0
    }

    predicate CapacityKnown() { LbaSupported() && (capacityLba28 != 0 || Lba48() != 0) }
  }

  // The two capability bits the sizes hang on, with the words taken apart around them.
  lemma CapabilityBits(id: IdentifyFields, high: nat, bit: nat, low: nat)
    requires bit <= 1
    ensures id.capabilities0 == high * 0x400 + bit * 0x200 + low && low < 0x200 ==> (id.LbaSupported() <==> bit == 1)
    ensures id.commandsSupported2 == high * 0x800 + bit * 0x400 + low && low < 0x400 ==>
              id.Lba48() == bit * id.capacityLba48
    ensures id.capabilities0 == high * 0x400 + bit * 0x200 + low && low < 0x200 ==>
              (id.CapacityKnown() <==> bit == 1 && id.capacityLba28 + id.Lba48() > 0)
  {
    if id.capabilities0 == high * 0x400 + bit * 0x200 + low && low < 0x200 {
      BitOf(high, bit, low, 0x200);
    }
    if id.commandsSupported2 == high * 0x800 + bit * 0x400 + low && low < 0x400 {
      BitOf(high, bit, low, 0x400);
    }
  }

  lemma BitOf(high: nat, bit: nat, low: nat, p: nat)
    requires p in {0x200, 0x400} && bit <= 1 && low < p
    ensures HasBit(high * (2 * p) + bit * p + low, p) <==> bit == 1
  {
  }

  function Pow2(n: nat): nat {
    if n == 0 then 1 else 2 * Pow2(n - 1)
  }

  // The word pair of the logical sector size is kept as one 32-bit number here.
  method Capacity(id: IdentifyFields)
    returns (sectors: uint64, capacity: uint64, logicalSize: uint64, physicalSize: uint64, offset: uint64)
    ensures sectors == 0 <==> !id.CapacityKnown()
    ensures !id.CapacityKnown() ==> capacity == logicalSize == physicalSize == offset == 0
    ensures id.CapacityKnown() ==>
              && sectors == (if id.Lba48() != 0 && logicalSize > 512 then id.Lba48()
                             else Max(id.capacityLba28, id.Lba48()))
              && logicalSize == (if HasBit(id.sectorFlags, 0x1000) then 2 * id.logicalSectorWords else 512)
              && physicalSize
                 == logicalSize * (if HasBit(id.sectorFlags, 0x2000) then Pow2(id.sectorFlags % 0x10) else 1)
              && offset == id.logicalSectorOffset % 0x4000 * logicalSize
    ensures capacity == sectors * logicalSize <==> sectors * logicalSize < TWO_64
    ensures sectors < 0x1_0000_0000_0000 && logicalSize <= 0x1_0000 ==> capacity == sectors * logicalSize
  {
    hide Mul64, Pow2;
    sectors, capacity, logicalSize, physicalSize, offset := 0, 0, 0, 0, 0;
    var lba28: uint64, lba48: uint64 := 0, 0;
    if !HasBit(id.capabilities0, 0x200) {
      return;
    }
    lba28 := id.capacityLba28;
    if HasBit(id.commandsSupported2, 0x400) {
      lba48 := id.capacityLba48;
    }
    if lba28 == 0 && lba48 == 0 {
      return;
    }
    logicalSize, physicalSize := 512, 512;
    if HasBit(id.sectorFlags, 0x1000) {
      logicalSize := id.logicalSectorWords * 2;
      physicalSize := logicalSize;
    }
    if HasBit(id.sectorFlags, 0x2000) {
      Pow2Bound(id.sectorFlags % 0x10);
      ProductBound(physicalSize, 0x2_0000_0000, Pow2(id.sectorFlags % 0x10), 0x1_0000);
      physicalSize := Mul64(physicalSize, Pow2(id.sectorFlags % 0x10));
    }
    ProductBound(id.logicalSectorOffset % 0x4000, 0x4000, logicalSize, 0x2_0000_0000);
    offset := Mul64(id.logicalSectorOffset % 0x4000, logicalSize);
    if lba48 >= lba28 || (lba48 != 0 && logicalSize > 512) {
      sectors := lba48;
    } else {
      sectors := lba28;
    }
    capacity := Mul64(sectors, logicalSize);
    if sectors < 0x1_0000_0000_0000 && logicalSize <= 0x1_0000 {
      ProductBound(sectors, 0xffff_ffff_ffff, logicalSize, 0x1_0000);
    }
  }

  // A product of two uint64 values keeps its low 64 bits.
  function Mul64(x: nat, y: nat): (p: uint64)
    ensures p == x * y <==> x * y < TWO_64
  {
    x * y % TWO_64
  }

  lemma ProductBound(x: nat, xMax: nat, y: nat, yMax: nat)
    requires x <= xMax && y <= yMax
    ensures x * y <= xMax * yMax
  {
    assert x * y <= xMax * y;
    assert xMax * y <= xMax * yMax;
  }

  lemma {:induction false} Pow2Bound(n: nat)
    ensures n <= 16 ==> 1 <= Pow2(n) <= Pow2(16)
    ensures Pow2(16) == 0x1_0000
  {
    assert Pow2(4) == 16;
    assert Pow2(8) == 0x100;
    assert Pow2(12) == 0x1000;
    if n < 16 {
      Pow2Monotone(n, 16);
    }
  }

  lemma Pow2Monotone(m: nat, n: nat)
    requires m <= n
    ensures 1 <= Pow2(m) <= Pow2(n)
  {
    if m < n {
      Pow2Monotone(m, n - 1);
    }
  }
}
