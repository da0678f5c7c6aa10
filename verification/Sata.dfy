/** The commands of an open SATA device: each builds one command block, hands it to the kernel and
    judges the answer. */
module Sata {
  import opened Wrappers
  import opened Bytes
  import opened AtaSense
  import opened AtaSenseTheorems
  import opened Scsi
  import opened PassThrough
  import opened SpinDownTimer
  import opened RawValue
  import opened SmartTables
  import opened SmartPages
  import opened DriveDb
  import opened Identify
  import GA = GenericAttributes

  const CHECK_POWER_MODE: byte := 0xe5
  const STANDBY_IMMEDIATE: byte := 0xe0
  const IDLE_IMMEDIATE: byte := 0xe1
  const SET_STANDBY: byte := 0xe2
  const SET_IDLE: byte := 0xe3
  const SLEEP: byte := 0xe6
  const SET_FEATURES: byte := 0xef
  const ATA_SMART: byte := 0xb0
  const IDENTIFY_DEVICE: byte := 0xec

  const FEATURE_EN_APM: byte := 0x05
  const FEATURE_DIS_APM: byte := 0x85
  const FEATURE_EPC: byte := 0x4a
  const FEATURE_UNLOAD: byte := 0x44
  const SMART_READ_DATA: byte := 0xd0
  const SMART_READ_THRESHOLDS: byte := 0xd1

  const UNLOAD_LBA := 0x55_4e4c

  datatype CommandError = BadArgument | TransportFailed(e: ScsiError) | SenseFailed(s: SenseError)

  // The verdict on a register-reporting command.
  function Outcome(a: IoAnswer): Result<(), CommandError> {
    match SenseOf(a)
    case Failure(e) => Failure(TransportFailed(e))
    case Success(s) =>
      match AtaSenseStatus(s)
      case Failure(e) => Failure(SenseFailed(e))
      case Success(_) => Success(())
  }

  function ModeOutcome(a: IoAnswer): Result<byte, CommandError> {
    match SenseOf(a)
    case Failure(e) => Failure(TransportFailed(e))
    case Success(s) =>
      match AtaPowerModeFromSense(s)
      case Failure(e) => Failure(SenseFailed(e))
      case Success(m) => Success(m)
  }

  // The sense a command is judged by, in terms of the answer's own fields: the written prefix
  // under CHECK CONDITION, the whole buffer otherwise, none after an error.
  ghost predicate JudgedBy(a: IoAnswer, s: seq<byte>) {
    && !a.failed
    && if a.status == 0x02 && 0 < a.sbLenWr <= |a.sense| then s == a.sense[..a.sbLenWr]
       else a.info % 2 == 0 && s == a.sense
  }

  // A command succeeds exactly when the sense it is judged by carries the pass-through signature
  // and registers, and reports a mode exactly when the sector count among them is one of the
  // seven.
  lemma SuccessIsReported(a: IoAnswer)
    ensures Outcome(a).Success? <==> exists s, r: Report :: JudgedBy(a, s) && Carries(s, r)
    ensures forall m :: ModeOutcome(a) == Success(m) <==>
                          && m in {0x00, 0x01, 0x80, 0x81, 0x82, 0x83, 0xff}
                          && exists s, r: Report :: JudgedBy(a, s) && Carries(s, r) && r.sectorCount == m
    ensures Outcome(a).Success? ==> exists s :: JudgedBy(a, s) && HasSignature(s)
  {
    JudgedIsSense(a);
    if SenseOf(a).Success? {
      var s := SenseOf(a).value;
      ReadersAreExact(s);
      SuccessNeedsSignature(s);
      if AtaSenseStatus(s).Success? {
        assert AtaSenseStatus(s) == Success(AtaSenseStatus(s).value);
      }
      forall r: Report | Carries(s, r)
        ensures AtaSenseStatus(s) == Success(Registers(r.status, r.error))
      {
      }
    }
  }

  lemma JudgedIsSense(a: IoAnswer)
    ensures forall s :: JudgedBy(a, s) <==> SenseOf(a) == Success(s)
  {
  }

  // A report in the written sense bytes comes back, in either format, if it is one of the modes.
  lemma ReportedModeComesBack(a: IoAnswer, r: Report)
    requires !a.failed && a.status == 0x02 && 0 < a.sbLenWr <= |a.sense| && Carries(a.sense[..a.sbLenWr], r)
    ensures Outcome(a) == Success(())
    ensures if r.sectorCount in {0x00, 0x01, 0x80, 0x81, 0x82, 0x83, 0xff} then ModeOutcome(a) == Success(r.sectorCount)
            else ModeOutcome(a) == Failure(SenseFailed(UnknownPowerMode))
  {
    ReadersAreExact(a.sense[..a.sbLenWr]);
    ModeOfReport(a.sense[..a.sbLenWr], r);
    assert AtaSenseStatus(a.sense[..a.sbLenWr]) == Success(Registers(r.status, r.error));
  }

  // Built from any report, a fixed or a descriptor buffer filling the written bytes does so.
  lemma BuiltReportComesBack(a: IoAnswer, r: Report, filler: seq<byte>, code: byte)
    requires !a.failed && a.status == 0x02 && 0 < a.sbLenWr <= |a.sense|
    requires |filler| >= 14 && code in {0x70, 0x71, 0xf0, 0xf1} && a.sense[..a.sbLenWr] == FixedSense(filler, code, r)
    requires r.sectorCount in {0x00, 0x01, 0x80, 0x81, 0x82, 0x83, 0xff}
    ensures ModeOutcome(a) == Success(r.sectorCount)
  {
    FixedCarriesReport(filler, code, r);
    ReportedModeComesBack(a, r);
  }

  lemma BuiltDescriptorComesBack(a: IoAnswer, r: Report, header: seq<byte>, xs: seq<Descriptor>, k: nat)
    requires !a.failed && a.status == 0x02 && 0 < a.sbLenWr <= |a.sense|
    requires |header| == 7 && header[0] in {0x72, 0x73, 0xf2, 0xf3}
    requires header[1] == 0x01 && header[2] == 0x00 && header[3] == 0x1d
    requires AllWellFormed(xs) && |SerialiseAll(xs)| < 0x100 && a.sense[..a.sbLenWr] == DescriptorSense(header, xs, [])
    requires k < |xs| && NoneQualifies(xs[..k]) && Qualifies(xs[k])
    requires xs[k].body[1] == r.error && xs[k].body[3] == r.sectorCount && xs[k].body[11] == r.status
    requires r.sectorCount in {0x00, 0x01, 0x80, 0x81, 0x82, 0x83, 0xff}
    ensures ModeOutcome(a) == Success(r.sectorCount)
  {
    DescriptorCarrier(header, xs, k, [], r);
    ReportedModeComesBack(a, r);
  }

  // A drive that answers GOOD and leaves the sense buffer alone is not believed.
  lemma SilentAnswerFails(a: IoAnswer)
    requires !a.failed && a.status != 0x02 && a.sense != []
    requires forall i :: 0 <= i < |a.sense| ==> a.sense[i] == 0
    ensures Outcome(a).Failure? && ModeOutcome(a).Failure?
  {
    ZeroBufferRejected(a.sense);
  }

  // Between two logs, exactly one command went out: to fd, without data, meaning c.
  ghost predicate SentOnly(before: seq<Event>, after: seq<Event>, fd: int, c: Command) {
    && |after| == |before| + 1 && before <= after
    && after[|before|].SgIo?
    && after[|before|].fd == fd
    && after[|before|].dir == NoData
    && Decode(after[|before|].cdb) == Some(c)
  }

  // The same for a command that reads n bytes.
  ghost predicate SentRead(before: seq<Event>, after: seq<Event>, fd: int, c: Command, n: nat) {
    && |after| == |before| + 1 && before <= after
    && after[|before|].SgIo?
    && after[|before|].fd == fd
    && after[|before|].dir == FromDevice
    && Decode(after[|before|].cdb) == Some(c)
    && |after[|before|].answer.data| == n
  }

  ghost function LastAnswer(log: seq<Event>): IoAnswer
    requires log != [] && log[|log| - 1].SgIo?
  {
    log[|log| - 1].answer
  }

  function PowerConditionForMode(m: byte): Option<byte> {
    if m == STANDBY_Y then Some(0x01)
    else if m == IDLE_A then Some(0x81)
    else if m == IDLE_B then Some(0x82)
    else if m == IDLE_C then Some(0x83)
    else None
  }

  // r is what one run over the table gives: nothing if a temperature cannot be parsed, else the
  // record of some visiting order.
  ghost predicate Gathered(r: Option<GA.Record>, attrs: map<byte, SmartAttr>, hours: GA.HoursOf) {
    if exists k :: k in attrs && GA.Unparseable(attrs[k]) then r == None
    else exists order :: GA.IsOrder(attrs, order) && r.Some? && r == GA.Aggregate(attrs, order, hours)
  }

  class SataDevice {
    const kernel: Kernel
    const fd: int
    var attributeMapping: AttrTable?
    var firmwareBug: int

    constructor (kernel: Kernel, fd: int)
      ensures this.kernel == kernel && this.fd == fd && attributeMapping == null && firmwareBug == 0
    {
      this.kernel, this.fd, attributeMapping, firmwareBug := kernel, fd, null, 0;
    }

    // Every register-reporting command ends this way.
    method SendAndCheck(cdb: array<byte>) returns (r: Result<(), CommandError>)
      modifies kernel`log
      ensures |kernel.log| == |old(kernel.log)| + 1 && old(kernel.log) <= kernel.log
      ensures var e := kernel.log[|old(kernel.log)|]; e.SgIo? && e == SgIo(fd, cdb[..], NoData, e.answer)
      ensures r == Outcome(LastAnswer(kernel.log))
    {
      var none := new byte[0];
      var sense, answer := ScsiSendCdbSense(kernel, fd, cdb, none);
      if sense.Failure? {
        return Failure(TransportFailed(sense.error));
      }
      var status := AtaSenseStatus(sense.value);
      if status.Failure? {
        return Failure(SenseFailed(status.error));
      }
      return Success(());
    }

    method AtaSendNonData(cmd: byte) returns (r: Result<(), CommandError>)
      modifies kernel`log
      ensures SentOnly(old(kernel.log), kernel.log, fd, NonData(cmd, 0, 0)) && r == Outcome(LastAnswer(kernel.log))
    {
      var cdb := AtaNonDataCdb(cmd);
      NonDataDecodes(cmd, 0, 0);
      r := SendAndCheck(cdb);
    }

    method CheckPowerMode() returns (r: Result<byte, CommandError>)
      modifies kernel`log
      ensures SentOnly(old(kernel.log), kernel.log, fd, NonData(0xe5, 0, 0))
      ensures r == ModeOutcome(LastAnswer(kernel.log))
    {
      var cdb := AtaNonDataCdb(CHECK_POWER_MODE);
      NonDataDecodes(CHECK_POWER_MODE, 0, 0);
      var none := new byte[0];
      var sense, answer := ScsiSendCdbSense(kernel, fd, cdb, none);
      if sense.Failure? {
        return Failure(TransportFailed(sense.error));
      }
      var mode := AtaPowerModeFromSense(sense.value);
      if mode.Failure? {
        return Failure(SenseFailed(mode.error));
      }
      return Success(mode.value);
    }

    // Idle, Standby and the four EPC conditions can be asked for; any other mode is refused
    // before anything is sent.
    method SetPowerMode(mode: byte) returns (r: Result<(), CommandError>)
      modifies kernel`log
      ensures mode == 0x80 ==> SentOnly(old(kernel.log), kernel.log, fd, NonData(0xe1, 0, 0))
      ensures mode == 0x00 ==> SentOnly(old(kernel.log), kernel.log, fd, NonData(0xe0, 0, 0))
      ensures mode in {0x01, 0x81, 0x82, 0x83} ==>
                SentOnly(old(kernel.log), kernel.log, fd, NonData(0xef, 0x4a, mode))
      ensures if mode in {0x00, 0x01, 0x80, 0x81, 0x82, 0x83}
              then kernel.log != old(kernel.log) && r == Outcome(LastAnswer(kernel.log))
              else kernel.log == old(kernel.log) && r == Failure(BadArgument)
    {
      if mode == AtaSense.IDLE {
        r := Idle();
        return;
      }
      if mode == AtaSense.STANDBY {
        r := Standby();
        return;
      }
      var cond := PowerConditionForMode(mode);
      if cond.None? {
        return Failure(BadArgument);
      }
      r := SetPowerCondition(cond.value);
    }

    method SetPowerCondition(cond: byte) returns (r: Result<(), CommandError>)
      modifies kernel`log
      ensures SentOnly(old(kernel.log), kernel.log, fd, NonData(0xef, 0x4a, cond))
      ensures r == Outcome(LastAnswer(kernel.log))
    {
      var cdb := AtaNonDataCdb(SET_FEATURES);
      cdb[4] := FEATURE_EPC;
      cdb[6] := cond;
      NonDataDecodes(SET_FEATURES, FEATURE_EPC, cond);
      assert cdb[..] == NonDataBytes(SET_FEATURES, FEATURE_EPC, cond);
      r := SendAndCheck(cdb);
    }

    // Sends nothing for a duration the timer cannot express; otherwise one STANDBY command whose
    // count decodes to that duration.
    method SetStandbyTimer(timeout: int64) returns (r: Result<(), CommandError>)
      modifies kernel`log
      ensures match EncodeAtaSpinDownTimeout(timeout)
              case Failure(_) => kernel.log == old(kernel.log) && r == Failure(BadArgument)
              case Success(count) =>
                && DecodeAtaSpinDownTimeout(count) == timeout
                && SentOnly(old(kernel.log), kernel.log, fd, NonData(0xe2, 0, count))
                && r == Outcome(LastAnswer(kernel.log))
    {
      hide DecodeAtaSpinDownTimeout;
      var count := EncodeAtaSpinDownTimeout(timeout);
      if count.Failure? {
        return Failure(BadArgument);
      }
      DecodeInvertsEncode(timeout);
      hide EncodeAtaSpinDownTimeout;
      r := SetSpinDownTimer(count.value);
    }

    method SetStandbyTimerRaw(raw: byte) returns (r: Result<(), CommandError>)
      modifies kernel`log
      ensures SentOnly(old(kernel.log), kernel.log, fd, NonData(0xe2, 0, raw))
      ensures r == Outcome(LastAnswer(kernel.log))
    {
      r := SetSpinDownTimer(raw);
    }

    method SetSpinDownTimer(count: byte) returns (r: Result<(), CommandError>)
      modifies kernel`log
      ensures SentOnly(old(kernel.log), kernel.log, fd, NonData(0xe2, 0, count))
      ensures r == Outcome(LastAnswer(kernel.log))
    {
      var cdb := AtaNonDataCdb(SET_STANDBY);
      cdb[6] := count;
      NonDataDecodes(SET_STANDBY, 0, count);
      assert cdb[..] == NonDataBytes(SET_STANDBY, 0, count);
      r := SendAndCheck(cdb);
    }

    method SetIdleTimer(timeout: int64) returns (r: Result<(), CommandError>)
      modifies kernel`log
      ensures match EncodeAtaSpinDownTimeout(timeout)
              case Failure(_) => kernel.log == old(kernel.log) && r == Failure(BadArgument)
              case Success(count) =>
                && DecodeAtaSpinDownTimeout(count) == timeout
                && SentOnly(old(kernel.log), kernel.log, fd, NonData(0xe3, 0, count))
                && r == Outcome(LastAnswer(kernel.log))
    {
      hide DecodeAtaSpinDownTimeout;
      var count := EncodeAtaSpinDownTimeout(timeout);
      if count.Failure? {
        return Failure(BadArgument);
      }
      DecodeInvertsEncode(timeout);
      hide EncodeAtaSpinDownTimeout;
      r := SetIdleTimerRaw(count.value);
    }

    method SetIdleTimerRaw(count: byte) returns (r: Result<(), CommandError>)
      modifies kernel`log
      ensures SentOnly(old(kernel.log), kernel.log, fd, NonData(0xe3, 0, count))
      ensures r == Outcome(LastAnswer(kernel.log))
    {
      var cdb := AtaNonDataCdb(SET_IDLE);
      cdb[6] := count;
      NonDataDecodes(SET_IDLE, 0, count);
      assert cdb[..] == NonDataBytes(SET_IDLE, 0, count);
      r := SendAndCheck(cdb);
    }

    method SetAPMLevel(level: byte) returns (r: Result<(), CommandError>)
      modifies kernel`log
      ensures if 1 <= level <= 254
              then SentOnly(old(kernel.log), kernel.log, fd, NonData(0xef, 0x05, level))
                   && r == Outcome(LastAnswer(kernel.log))
              else kernel.log == old(kernel.log) && r == Failure(BadArgument)
    {
      if level < 1 || level > 254 {
        return Failure(BadArgument);
      }
      var cdb := AtaNonDataCdb(SET_FEATURES);
      cdb[4] := FEATURE_EN_APM;
      cdb[6] := level;
      NonDataDecodes(SET_FEATURES, FEATURE_EN_APM, level);
      assert cdb[..] == NonDataBytes(SET_FEATURES, FEATURE_EN_APM, level);
      r := SendAndCheck(cdb);
    }

    method DisableAPM() returns (r: Result<(), CommandError>)
      modifies kernel`log
      ensures SentOnly(old(kernel.log), kernel.log, fd, NonData(0xef, 0x85, 0))
      ensures r == Outcome(LastAnswer(kernel.log))
    {
      var cdb := AtaNonDataCdb(SET_FEATURES);
      cdb[4] := FEATURE_DIS_APM;
      NonDataDecodes(SET_FEATURES, FEATURE_DIS_APM, 0);
      assert cdb[..] == NonDataBytes(SET_FEATURES, FEATURE_DIS_APM, 0);
      r := SendAndCheck(cdb);
    }

    // The signature bytes go to positions 7, 9 and 11: the high order LBA bytes.
    method IdleUnload() returns (r: Result<(), CommandError>)
      modifies kernel`log
      ensures SentOnly(old(kernel.log), kernel.log, fd,
                       NonData(0xe1, 0x44, 0).(lba := 0x55_4e4c * 0x100_0000))
      ensures r == Outcome(LastAnswer(kernel.log))
    {
      var cdb := UnloadCdb();
      HighLbaDecodes(IDLE_IMMEDIATE, FEATURE_UNLOAD, 0, 0x4c, 0x4e, 0x55);
      UnloadSignature();
      hide Decode, HighLbaBytes, LE3;
      r := SendAndCheck(cdb);
    }

    static method UnloadCdb() returns (cdb: array<byte>)
      ensures fresh(cdb) && cdb[..] == HighLbaBytes(IDLE_IMMEDIATE, FEATURE_UNLOAD, 0, 0x4c, 0x4e, 0x55)
    {
      cdb := AtaNonDataCdb(IDLE_IMMEDIATE);
      cdb[4] := FEATURE_UNLOAD;
      cdb[7] := 0x4c;
      cdb[9] := 0x4e;
      cdb[11] := 0x55;
    }

    method Sleep() returns (r: Result<(), CommandError>)
      modifies kernel`log
      ensures SentOnly(old(kernel.log), kernel.log, fd, NonData(0xe6, 0, 0)) && r == Outcome(LastAnswer(kernel.log))
    {
      r := AtaSendNonData(SLEEP);
    }

    method Standby() returns (r: Result<(), CommandError>)
      modifies kernel`log
      ensures SentOnly(old(kernel.log), kernel.log, fd, NonData(0xe0, 0, 0))
      ensures r == Outcome(LastAnswer(kernel.log))
    {
      r := AtaSendNonData(STANDBY_IMMEDIATE);
    }

    method Idle() returns (r: Result<(), CommandError>)
      modifies kernel`log
      ensures SentOnly(old(kernel.log), kernel.log, fd, NonData(0xe1, 0, 0))
      ensures r == Outcome(LastAnswer(kernel.log))
    {
      r := AtaSendNonData(IDLE_IMMEDIATE);
    }

    // ---- reads ----

    // The block of a SMART read: signature C2h, 4Fh in the upper LBA registers.
    static method SmartReadCdb(feature: byte, lbaLow: byte) returns (cdb: array<byte>)
      ensures fresh(cdb) && cdb[..] == PioInBytes(ATA_SMART, feature, 0, lbaLow, 0x4f, 0xc2)
    {
      cdb := AtaPioInCdb(ATA_SMART);
      cdb[4] := feature;
      cdb[8] := lbaLow;
      cdb[10] := 0x4f;
      cdb[12] := 0xc2;
    }

    method ReadSMARTData() returns (r: Option<SmartPage>)
      modifies kernel`log
      ensures SentRead(old(kernel.log), kernel.log, fd, PioIn(0xb0, 0xd0, 0, 0xc2_4f00), 512)
      ensures r.Some? <==> Accepted(LastAnswer(kernel.log))
      ensures r.Some? ==>
                var data := LastAnswer(kernel.log).data;
                && r.value.version == PageVersion(data)
                && IsAttrTable(r.value.attrs, PageAttrs(data), Mapping())
    {
      var cdb := SmartReadCdb(SMART_READ_DATA, 0);
      PioInDecodes(ATA_SMART, SMART_READ_DATA, 0, 0, 0x4f, 0xc2);
      hide Decode, PioInBytes, PageAttrs, PageThresholds, IsAttrTable, IsThresholdTable, ChecksumHolds;
      var respBuf := new byte[512](_ => 0);
      var ok, answer := ScsiSendCdb(kernel, fd, cdb, respBuf);
      if !ok {
        return None;
      }
      var attrs := FillAttributes(PageAttrs(respBuf[..]), Mapping());
      r := Some(SmartPage(PageVersion(respBuf[..]), attrs));
    }

    // The page's table, aggregated in whatever order the map is visited.
    method ReadGenericAttributes(hours: GA.HoursOf) returns (r: Option<GA.Record>)
      modifies kernel`log
      ensures SentRead(old(kernel.log), kernel.log, fd, PioIn(0xb0, 0xd0, 0, 0xc2_4f00), 512)
      ensures !Accepted(LastAnswer(kernel.log)) ==> r == None
      ensures Accepted(LastAnswer(kernel.log)) ==>
                var data := LastAnswer(kernel.log).data;
                exists attrs :: IsAttrTable(attrs, PageAttrs(data), Mapping()) && Gathered(r, attrs, hours)
    {
      var page := ReadSMARTData();
      if page.None? {
        return None;
      }
      hide IsAttrTable, PageAttrs, Accepted;
      r := GA.AggregateAttributes(page.value.attrs, hours);
      assert Gathered(r, page.value.attrs, hours);
    }

    // The attribute mapping; a nil map has no entries.
    function Mapping(): map<int, AtaDeviceAttr>
      reads this, attributeMapping
    {
      if attributeMapping == null then map[] else attributeMapping.entries
    }

    // A page is returned only for an accepted read whose 512 bytes sum to zero.
    method ReadSMARTThresholds() returns (r: Option<ThresholdsPage>)
      modifies kernel`log
      ensures SentRead(old(kernel.log), kernel.log, fd, PioIn(0xb0, 0xd1, 0, 0xc2_4f01), 512)
      ensures r.Some? <==> Accepted(LastAnswer(kernel.log)) && ChecksumHolds(LastAnswer(kernel.log).data)
      ensures r.Some? ==>
                var data := LastAnswer(kernel.log).data;
                r.value.revision == PageVersion(data) && IsThresholdTable(r.value.thresholds, PageThresholds(data))
    {
      var cdb := SmartReadCdb(SMART_READ_THRESHOLDS, 1);
      PioInDecodes(ATA_SMART, SMART_READ_THRESHOLDS, 0, 1, 0x4f, 0xc2);
      hide Decode, PioInBytes, PageAttrs, PageThresholds, IsAttrTable, IsThresholdTable, ChecksumHolds;
      var respBuf := new byte[512](_ => 0);
      var ok, answer := ScsiSendCdb(kernel, fd, cdb, respBuf);
      if !ok {
        return None;
      }
      var sound := Checksum(respBuf[..]);
      if !sound {
        return None;
      }
      var thresholds := FillThresholds(PageThresholds(respBuf[..]));
      r := Some(ThresholdsPage(PageVersion(respBuf[..]), thresholds));
    }
  }

  lemma UnloadSignature()
    ensures LE3(0x4c, 0x4e, 0x55) == UNLOAD_LBA == 0x55_4e4c
  {
  }

  // The sixteen bytes of IdleUnload's block.
  lemma UnloadBlock(cdb: seq<byte>)
    ensures Decode(cdb) == Some(NonData(0xe1, 0x44, 0).(lba := 0x55_4e4c * 0x100_0000)) <==>
              cdb == [0x85, 0x06, 0x20, 0, 0x44, 0, 0, 0x4c, 0, 0x4e, 0, 0x55, 0, 0, 0xe1, 0]
  {
    UnloadSignature();
    HighLbaExactly(cdb, 0xe1, 0x44, 0, 0x4c, 0x4e, 0x55);
    hide Decode, LE3;
  }

  // ---- what two of the command blocks fail to say ----

  // IDLE IMMEDIATE asks for an unload only with the signature in LBA bits 23..0, which a block
  // has exactly when bytes 8, 10 and 12 carry it ...
  lemma UnloadSignatureBytes(cdb: seq<byte>)
    requires |cdb| == 16
    ensures Lba28(cdb) == UNLOAD_LBA <==> cdb[8] == 0x4c && cdb[10] == 0x4e && cdb[12] == 0x55
  {
    UnloadSignature();
    if LE3(cdb[8], cdb[10], cdb[12]) == LE3(0x4c, 0x4e, 0x55) {
      LE3Injective(cdb[8], cdb[10], cdb[12], 0x4c, 0x4e, 0x55);
    }
  }

  // ... while a block that says what IdleUnload's says has zeros there.
  lemma UnloadSignatureIsMisplaced(cdb: seq<byte>)
    requires |cdb| == 16
    ensures Decode(cdb).Some? && Decode(cdb).value.lba == UNLOAD_LBA * 0x100_0000 ==>
              Lba28(cdb) == 0 && Lba28(cdb) != UNLOAD_LBA
  {
    if Decode(cdb).Some? && Decode(cdb).value.lba == UNLOAD_LBA * 0x100_0000 {
      LowLba(cdb);
      NothingLow(Decode(cdb).value.lba, UNLOAD_LBA);
    }
  }

  lemma NothingLow(lba: nat, high: nat)
    requires lba == high * 0x100_0000
    ensures lba % 0x100_0000 == 0
  {
  }

  lemma LowLba(cdb: seq<byte>)
    requires Decode(cdb).Some?
    ensures |cdb| == 16 && Decode(cdb).value.lba % 0x100_0000 == Lba28(cdb)
    ensures Lba28(cdb) % 0x10 == cdb[8] % 0x10
  {
    SplitLba(cdb);
    LowNibble(cdb[8], cdb[10], cdb[12]);
  }

  lemma LowNibble(lo: byte, mid: byte, hi: byte)
    ensures LE3(lo, mid, hi) % 0x10 == lo % 0x10
  {
    assert LE3(lo, mid, hi) == 0x10 * (0x10 * LE2(mid, hi)) + lo;
  }

  // The EPC subcommand sits in LBA bits 3..0, the low nibble of byte 8. The block
  // SetPowerCondition sends leaves it 0, whatever the condition, so it never says GO TO POWER
  // CONDITION (1).
  lemma EpcSubcommandIsMissing(cdb: seq<byte>, sent: Command)
    requires Decode(cdb) == Some(sent)
    ensures sent.lba % 0x10 == 0x1 <==> cdb[8] % 0x10 == 0x1
    ensures forall cond: byte :: sent == NonData(0xef, 0x4a, cond) ==> cdb[8] % 0x10 == 0x0
  {
    LowLba(cdb);
    assert sent.lba % 0x100_0000 % 0x10 == sent.lba % 0x10;
  }
}
