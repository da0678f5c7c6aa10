/** The ATA PASS-THROUGH(16) command block (section 12.2 of SAT-3): what a 16-byte CDB says. */
module PassThrough {
  import opened Wrappers
  import opened Bytes

  const ATA_PASSTHRU_16 := 0x85
  const PROTOCOL_NON_DATA := 3
  const PROTOCOL_PIO_IN := 4

  datatype Command = Command(
    multipleCount: nat, protocol: nat, extend: bool,
    offLine: nat, ckCond: bool, tType: bool, fromDevice: bool, byteBlock: bool, tLength: nat,
    features: uint16, count: uint16, lba: nat, device: byte, command: byte, control: byte)

  // The layout's decoder. The LBA is spread over bytes 7..12, its low three bytes at the even
  // positions 8, 10 and 12; the odd ones are the high order bytes of a 48-bit command.
  function Decode(cdb: seq<byte>): Option<Command> {
    if |cdb| != 16 || cdb[0] != ATA_PASSTHRU_16 then None
    else Some(Command(
      cdb[1] / 0x20, cdb[1] / 2 % 0x10, cdb[1] % 2 == 1,
      cdb[2] / 0x40, HasBit(cdb[2], 0x20), HasBit(cdb[2], 0x10), HasBit(cdb[2], 0x08), HasBit(cdb[2], 0x04), cdb[2] % 4,
      LE2(cdb[4], cdb[3]), LE2(cdb[6], cdb[5]),
      LE3(cdb[7], cdb[9], cdb[11]) * 0x100_0000 + Lba28(cdb),
      cdb[13], cdb[14], cdb[15]))
  }

  // The LBA registers of a 28-bit command: bits 23..0, low byte first.
  function Lba28(cdb: seq<byte>): nat
    requires |cdb| == 16
  {
    LE3(cdb[8], cdb[10], cdb[12])
  }

  // A 28-bit non-data command with CK_COND set and every register zero but the named ones.
  function NonData(command: byte, feature: byte, count: byte): Command {
    Command(0, PROTOCOL_NON_DATA, false, 0, true, false, false, false, 0, feature, count, 0, 0, command, 0)
  }

  // A 28-bit PIO data-in command whose length is counted in 512-byte blocks by the count register.
  function PioIn(command: byte, feature: byte, count: byte, lba: nat): Command {
    Command(0, PROTOCOL_PIO_IN, false, 0, false, false, true, true, 2, feature, count, lba, 0, command, 0)
  }

  // The bytes the source writes for a non-data command.
  method AtaNonDataCdb(cmd: byte) returns (cdb: array<byte>)
    ensures fresh(cdb) && cdb[..] == NonDataBytes(cmd, 0, 0)
  {
    cdb := new byte[16](_ => 0);
    cdb[0] := ATA_PASSTHRU_16;
    cdb[1] := 0x06;
    cdb[2] := 0x20;
    cdb[14] := cmd;
  }

  function NonDataBytes(cmd: byte, feature: byte, count: byte): (cdb: seq<byte>)
    ensures |cdb| == 16
  {
    [ATA_PASSTHRU_16, 0x06, 0x20, 0, feature, 0, count, 0, 0, 0, 0, 0, 0, 0, cmd, 0]
  }

  // The same with bytes written to the odd LBA positions 7, 9 and 11.
  function HighLbaBytes(cmd: byte, feature: byte, count: byte, b7: byte, b9: byte, b11: byte): (cdb: seq<byte>)
    ensures |cdb| == 16
  {
    [ATA_PASSTHRU_16, 0x06, 0x20, 0, feature, 0, count, b7, 0, b9, 0, b11, 0, 0, cmd, 0]
  }

  // The opening every data-in command of the source shares.
  method AtaPioInCdb(cmd: byte) returns (cdb: array<byte>)
    ensures fresh(cdb) && cdb[..] == PioInBytes(cmd, 0, 0, 0, 0, 0)
  {
    cdb := new byte[16](_ => 0);
    cdb[0] := ATA_PASSTHRU_16;
    cdb[1] := 0x08;
    cdb[2] := 0x0e;
    cdb[14] := cmd;
  }

  function PioInBytes(cmd: byte, feature: byte, count: byte, low: byte, mid: byte, high: byte): (cdb: seq<byte>)
    ensures |cdb| == 16
  {
    [ATA_PASSTHRU_16, 0x08, 0x0e, 0, feature, 0, count, 0, low, 0, mid, 0, high, 0, cmd, 0]
  }

  lemma NonDataDecodes(cmd: byte, feature: byte, count: byte)
    ensures Decode(NonDataBytes(cmd, feature, count)) == Some(NonData(cmd, feature, count))
  {
  }

  lemma HighLbaDecodes(cmd: byte, feature: byte, count: byte, b7: byte, b9: byte, b11: byte)
    ensures Decode(HighLbaBytes(cmd, feature, count, b7, b9, b11))
            == Some(NonData(cmd, feature, count).(lba := LE3(b7, b9, b11) * 0x100_0000))
  {
  }

  lemma PioInDecodes(cmd: byte, feature: byte, count: byte, low: byte, mid: byte, high: byte)
    ensures Decode(PioInBytes(cmd, feature, count, low, mid, high))
            == Some(PioIn(cmd, feature, count, LE3(low, mid, high)))
  {
  }

  // The layout loses nothing: two blocks that decode alike are the same block.
  lemma DecodeIsInjective(a: seq<byte>, b: seq<byte>)
    requires Decode(a).Some? && Decode(a) == Decode(b)
    ensures a == b
  {
    SameControl(a, b);
    SameRegisters(a, b);
    SameLba(a, b);
    SameEnds(a, b);
    hide Decode;
    assert forall i :: 0 <= i < 16 ==> a[i] == b[i];
  }

  // So what a command says fixes its sixteen bytes.
  lemma NonDataExactly(cdb: seq<byte>, cmd: byte, feature: byte, count: byte)
    ensures Decode(cdb) == Some(NonData(cmd, feature, count)) <==>
              cdb == [0x85, 0x06, 0x20, 0x00, feature, 0x00, count, 0, 0, 0, 0, 0, 0, 0x00, cmd, 0x00]
  {
    NonDataDecodes(cmd, feature, count);
    if Decode(cdb) == Some(NonData(cmd, feature, count)) {
      DecodeIsInjective(cdb, NonDataBytes(cmd, feature, count));
    }
    hide Decode;
  }

  lemma HighLbaExactly(cdb: seq<byte>, cmd: byte, feature: byte, count: byte, b7: byte, b9: byte, b11: byte)
    ensures Decode(cdb) == Some(NonData(cmd, feature, count).(lba := LE3(b7, b9, b11) * 0x100_0000)) <==>
              cdb == [0x85, 0x06, 0x20, 0x00, feature, 0x00, count, b7, 0, b9, 0, b11, 0, 0x00, cmd, 0x00]
  {
    HighLbaDecodes(cmd, feature, count, b7, b9, b11);
    if Decode(cdb) == Some(NonData(cmd, feature, count).(lba := LE3(b7, b9, b11) * 0x100_0000)) {
      DecodeIsInjective(cdb, HighLbaBytes(cmd, feature, count, b7, b9, b11));
    }
    hide Decode;
  }

  lemma PioInExactly(cdb: seq<byte>, cmd: byte, feature: byte, count: byte, low: byte, mid: byte, high: byte)
    ensures Decode(cdb) == Some(PioIn(cmd, feature, count, LE3(low, mid, high))) <==>
              cdb == [0x85, 0x08, 0x0e, 0x00, feature, 0x00, count, 0, low, 0, mid, 0, high, 0x00, cmd, 0x00]
  {
    PioInDecodes(cmd, feature, count, low, mid, high);
    if Decode(cdb) == Some(PioIn(cmd, feature, count, LE3(low, mid, high))) {
      DecodeIsInjective(cdb, PioInBytes(cmd, feature, count, low, mid, high));
    }
    hide Decode;
  }

  lemma SameEnds(a: seq<byte>, b: seq<byte>)
    requires Decode(a).Some? && Decode(a) == Decode(b)
    ensures |a| == |b| == 16 && a[0] == b[0] && a[13] == b[13] && a[14] == b[14] && a[15] == b[15]
  {
  }

  lemma SameControl(a: seq<byte>, b: seq<byte>)
    requires Decode(a).Some? && Decode(a) == Decode(b)
    ensures a[1] == b[1] && a[2] == b[2]
  {
    hide LE2, LE3, HasBit, Lba28;
    ProtocolByte(a[1], b[1]);
    ControlByte(a[2], b[2]);
  }

  lemma SameRegisters(a: seq<byte>, b: seq<byte>)
    requires Decode(a).Some? && Decode(a) == Decode(b)
    ensures a[3] == b[3] && a[4] == b[4] && a[5] == b[5] && a[6] == b[6]
  {
    hide LE2, LE3, HasBit, Lba28;
    LE2Injective(a[4], a[3], b[4], b[3]);
    LE2Injective(a[6], a[5], b[6], b[5]);
  }

  lemma SameLba(a: seq<byte>, b: seq<byte>)
    requires Decode(a).Some? && Decode(a) == Decode(b)
    ensures a[7] == b[7] && a[9] == b[9] && a[11] == b[11] && a[8] == b[8] && a[10] == b[10] && a[12] == b[12]
  {
    SplitLba(a);
    SplitLba(b);
    hide Decode, LE3;
    LE3Injective(a[7], a[9], a[11], b[7], b[9], b[11]);
    LE3Injective(a[8], a[10], a[12], b[8], b[10], b[12]);
  }

  lemma SplitLba(cdb: seq<byte>)
    requires Decode(cdb).Some?
    ensures Decode(cdb).value.lba / 0x100_0000 == LE3(cdb[7], cdb[9], cdb[11])
    ensures Decode(cdb).value.lba % 0x100_0000 == Lba28(cdb)
  {
    hide LE3;
  }

  lemma ProtocolByte(x: byte, y: byte)
    requires x / 0x20 == y / 0x20 && x / 2 % 0x10 == y / 2 % 0x10
    requires (x % 2 == 1) == (y % 2 == 1)
    ensures x == y
  {
    assert x / 2 == 0x10 * (x / 0x20) + x / 2 % 0x10 && y / 2 == 0x10 * (y / 0x20) + y / 2 % 0x10;
    assert x == 2 * (x / 2) + x % 2 && y == 2 * (y / 2) + y % 2;
  }

  lemma ControlByte(x: byte, y: byte)
    requires x / 0x40 == y / 0x40 && x % 4 == y % 4
    requires HasBit(x, 0x20) == HasBit(y, 0x20) && HasBit(x, 0x10) == HasBit(y, 0x10)
    requires HasBit(x, 0x08) == HasBit(y, 0x08) && HasBit(x, 0x04) == HasBit(y, 0x04)
    ensures x == y
  {
    NextBit(x, y, 0x20);
    NextBit(x, y, 0x10);
    NextBit(x, y, 0x08);
    NextBit(x, y, 0x04);
    hide HasBit;
    assert x == 4 * (x / 4) + x % 4 && y == 4 * (y / 4) + y % 4;
  }

  // Numbers that agree above a bit and at it agree from it up.
  lemma NextBit(x: byte, y: byte, p: nat)
    requires p in {0x20, 0x10, 0x08, 0x04}
    requires HasBit(x, p) == HasBit(y, p)
    ensures x / (2 * p) == y / (2 * p) ==> x / p == y / p
  {
    assert x / (2 * p) == x / p / 2 && y / (2 * p) == y / p / 2;
    assert x / p == 2 * (x / p / 2) + x / p % 2 && y / p == 2 * (y / p / 2) + y / p % 2;
  }
}
