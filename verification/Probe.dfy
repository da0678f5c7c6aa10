/** Opening a path: NVMe if the path looks like it, then SATA, then plain SCSI, over a kernel that
    may answer anything. */
module Probe {
  import opened Wrappers
  import opened Bytes
  import opened Scsi
  import opened PassThrough
  import opened DriveDb
  import opened AtaStrings
  import opened Sata

  const INQUIRY: byte := 0x12
  const INQUIRY_LEN: byte := 36

  const INQUIRY_CDB: seq<byte> := [0x12, 0, 0, 0, 36, 0]

  // "ATA" padded to eight characters.
  const SATA_IDENT: seq<byte> := [0x41, 0x54, 0x41, 0x20, 0x20, 0x20, 0x20, 0x20]

  datatype SataError = SataOpenFailed | SataInquiryFailed | NotDirectAccess | NotSat | IdentifyFailed | LookupFailed

  datatype ScsiOpenError = ScsiOpenFailed | ScsiInquiryFailed | ScsiNotDirectAccess

  datatype NvmeError = NvmeOpenFailed | NvmeIdentifyFailed

  datatype OpenResult =
    | IsNvme(fd: int)
    | IsSata(fd: int)
    | IsScsi(fd: int)
    | AllFailed(nvme: Option<NvmeError>, sata: SataError, scsi: ScsiOpenError)

  // What the lookup needs besides the drive.
  datatype Environment = Environment(matcher: Matcher, db: seq<DbRecord>, defaults: AttrTable)

  predicate Contains(path: string, sub: string) {
    sub <= path || (path != [] && Contains(path[1..], sub))
  }

  // It is the substring test.
  lemma {:induction false} ContainsMeaning(path: string, sub: string)
    ensures Contains(path, sub) <==> exists pre, post :: path == pre + sub + post
  {
    if sub <= path {
      assert path == [] + sub + path[|sub|..];
    } else if path != [] {
      ContainsMeaning(path[1..], sub);
      if Contains(path[1..], sub) {
        var pre, post :| path[1..] == pre + sub + post;
        assert path == ([path[0]] + pre) + sub + post;
      }
      forall pre, post | path == pre + sub + post
        ensures Contains(path, sub)
      {
        assert pre == [] ==> sub <= path;
        assert path[1..] == pre[1..] + sub + post;
      }
    }
  }

  // ---- what the events mean ----

  predicate IsInquiry(e: Event, fd: int) {
    e.SgIo? && e.fd == fd && e.cdb == INQUIRY_CDB && e.dir == FromDevice && e.answer.ValidFor(36)
  }

  predicate IsIdentify(e: Event, fd: int) {
    e.SgIo? && e.fd == fd && e.cdb == PioInBytes(IDENTIFY_DEVICE, 0, 0, 0, 0, 0)
    && e.dir == FromDevice
    && e.answer.ValidFor(512)
  }

  predicate IsPassThrough(e: Event) {
    e.SgIo? && |e.cdb| > 0 && e.cdb[0] == ATA_PASSTHRU_16
  }

  // An INQUIRY that went through and reported peripheral device type 0.
  predicate IsDirectInquiry(e: Event, fd: int) {
    IsInquiry(e, fd) && Accepted(e.answer) && e.answer.data[0] % 0x20 == 0
  }

  predicate SaysAta(data: seq<byte>) {
    |data| == 36 && data[8..16] == SATA_IDENT
  }

  function Model(data: seq<byte>): seq<byte>
    requires |data| == 512
  {
    TrimSpace(Swapped(data[54..94]))
  }

  function Firmware(data: seq<byte>): seq<byte>
    requires |data| == 512
  {
    TrimSpace(Swapped(data[46..54]))
  }

  // IDENTIFY data: firmware revision in words 23..26, model number in words 27..46.
  function IdentifyData(words0: seq<byte>, firmware: seq<byte>, model: seq<byte>, words47: seq<byte>): seq<byte> {
    words0 + firmware + model + words47
  }

  lemma TextsAt(words0: seq<byte>, firmware: seq<byte>, model: seq<byte>, words47: seq<byte>)
    requires |words0| == 46 && |firmware| == 8 && |model| == 40 && |words47| == 418
    ensures var data := IdentifyData(words0, firmware, model, words47);
            && |data| == 512
            && Firmware(data) == TrimSpace(Swapped(firmware)) && Model(data) == TrimSpace(Swapped(model))
  {
    hide TrimSpace, Swapped;
    var data := IdentifyData(words0, firmware, model, words47);
    assert data[46..54] == firmware && data[54..94] == model;
  }

  // The lookup sees the texts the drive stored there, without padding.
  lemma TextsOfIdentify(words0: seq<byte>, firmware: seq<byte>, model: seq<byte>, words47: seq<byte>)
    requires |words0| == 2 * 23 && |words47| == 512 - 2 * 47 && |firmware| <= 8 && |model| <= 40
    requires SpacePrefix(firmware) == SpaceSuffix(firmware) == SpacePrefix(model) == SpaceSuffix(model) == 0
    ensures var data := IdentifyData(words0, ToAtaString(firmware, 8 - |firmware|),
                                     ToAtaString(model, 40 - |model|), words47);
            |data| == 512 && Firmware(data) == firmware && Model(data) == model
  {
    hide IdentifyData, ToAtaString, TrimSpace, Swapped, SpacePrefix, SpaceSuffix, Model, Firmware;
    AtaStringRoundTrip(firmware, 8 - |firmware|);
    AtaStringRoundTrip(model, 40 - |model|);
    var f, m := ToAtaString(firmware, 8 - |firmware|), ToAtaString(model, 40 - |model|);
    TextsAt(words0, f, m, words47);
  }

  ghost predicate LookupFails(env: Environment, data: seq<byte>)
    requires |data| == 512
  {
    exists i: nat :: DecidedAt(env.matcher, env.db, Model(data), Firmware(data), i)
                     && IsBad(env.matcher, env.db[i], Model(data), Firmware(data))
  }

  // ---- the runs: every sequence of events one call may cause, with its result ----

  // An inquiry answered well enough to go on as a direct access device.
  ghost predicate SataPrelude(path: string, t: seq<Event>) {
    && |t| >= 2 && t[0].Opened? && t[0].path == path && IsDirectInquiry(t[1], t[0].fd)
  }

  // One or two IDENTIFY commands: drives that do not call themselves ATA are tried once first.
  ghost predicate SataProbed(path: string, t: seq<Event>, n: nat) {
    && SataPrelude(path, t) && n < |t|
    && (if SaysAta(t[1].answer.data) then n == 2
        else n == 3 && IsIdentify(t[2], t[0].fd) && Accepted(t[2].answer))
    && IsIdentify(t[n], t[0].fd)
  }

  ghost predicate SataIdentified(path: string, t: seq<Event>) {
    |t| in {3, 4} && SataProbed(path, t, |t| - 1) && Accepted(t[|t| - 1].answer)
  }

  ghost predicate SataRun(path: string, env: Environment, t: seq<Event>, r: Result<int, SataError>) {
    match r
    case Failure(SataOpenFailed) => t == [OpenRefused(path)]
    case Failure(SataInquiryFailed) =>
      |t| == 3 && t[0].Opened? && t[0].path == path && IsInquiry(t[1], t[0].fd) && !Accepted(t[1].answer)
      && t[2] == Closed(t[0].fd)
    case Failure(NotDirectAccess) =>
      |t| == 3 && t[0].Opened? && t[0].path == path && IsInquiry(t[1], t[0].fd) && Accepted(t[1].answer)
      && t[1].answer.data[0] % 0x20 != 0 && t[2] == Closed(t[0].fd)
    case Failure(NotSat) =>
      |t| == 4 && SataPrelude(path, t) && !SaysAta(t[1].answer.data)
      && IsIdentify(t[2], t[0].fd) && !Accepted(t[2].answer) && t[3] == Closed(t[0].fd)
    case Failure(IdentifyFailed) =>
      |t| in {4, 5} && SataProbed(path, t, |t| - 2) && !Accepted(t[|t| - 2].answer) && t[|t| - 1] == Closed(t[0].fd)
    case Failure(LookupFailed) =>
      |t| in {4, 5} && SataIdentified(path, t[..|t| - 1]) && LookupFails(env, t[|t| - 2].answer.data)
      && t[|t| - 1] == Closed(t[0].fd)
    case Success(fd) =>
      SataIdentified(path, t) && !LookupFails(env, t[|t| - 1].answer.data) && fd == t[0].fd
  }

  ghost predicate ScsiRun(path: string, t: seq<Event>, r: Result<int, ScsiOpenError>) {
    match r
    case Failure(ScsiOpenFailed) => t == [OpenRefused(path)]
    case Failure(ScsiInquiryFailed) =>
      |t| == 3 && t[0].Opened? && t[0].path == path && IsInquiry(t[1], t[0].fd) && !Accepted(t[1].answer)
      && t[2] == Closed(t[0].fd)
    case Failure(ScsiNotDirectAccess) =>
      |t| == 3 && t[0].Opened? && t[0].path == path && IsInquiry(t[1], t[0].fd) && Accepted(t[1].answer)
      && t[1].answer.data[0] % 0x20 != 0 && t[2] == Closed(t[0].fd)
    case Success(fd) =>
      |t| == 2 && t[0].Opened? && t[0].path == path && IsDirectInquiry(t[1], t[0].fd) && fd == t[0].fd
  }

  ghost predicate NvmeRun(path: string, t: seq<Event>, r: Result<int, NvmeError>) {
    match r
    case Failure(NvmeOpenFailed) => t == [OpenRefused(path)]
    case Failure(NvmeIdentifyFailed) =>
      |t| == 3 && t[0].Opened? && t[0].path == path && t[1] == NvmeIdentify(t[0].fd, false) && t[2] == Closed(t[0].fd)
    case Success(fd) =>
      t == [Opened(path, fd), NvmeIdentify(fd, true)]
  }

  // The cascade: a, b and c are the events of the NVMe, SATA and SCSI attempts. A later attempt
  // is made only when the earlier ones failed, and the NVMe one only for an NVMe-looking path.
  ghost predicate OpenRun(path: string, env: Environment, a: seq<Event>, b: seq<Event>, c: seq<Event>, r: OpenResult) {
    match r
    case IsNvme(fd) => Contains(path, "/nvme") && NvmeRun(path, a, Success(fd)) && b == [] && c == []
    case IsSata(fd) => NvmeGivenUp(path, a) && SataRun(path, env, b, Success(fd)) && c == []
    case IsScsi(fd) => NvmeGivenUp(path, a) && SataGivenUp(path, env, b) && ScsiRun(path, c, Success(fd))
    case AllFailed(nvme, sata, scsi) =>
      && (if Contains(path, "/nvme") then nvme.Some? && NvmeRun(path, a, Failure(nvme.value))
          else nvme == None && a == [])
      && SataRun(path, env, b, Failure(sata)) && ScsiRun(path, c, Failure(scsi))
  }

  ghost predicate NvmeGivenUp(path: string, a: seq<Event>) {
    if Contains(path, "/nvme") then exists e :: NvmeRun(path, a, Failure(e)) else a == []
  }

  ghost predicate SataGivenUp(path: string, env: Environment, b: seq<Event>) {
    exists e :: SataRun(path, env, b, Failure(e))
  }

  // ---- the code ----

  method ScsiInquiry(k: Kernel, fd: int) returns (data: seq<byte>, ok: bool, ghost e: Event)
    modifies k`log
    ensures k.log == old(k.log) + [e] && IsInquiry(e, fd)
    ensures ok == Accepted(e.answer) && data == e.answer.data && |data| == 36
  {
    var respBuf := new byte[36](_ => 0);
    var cdb := new byte[6](_ => 0);
    cdb[0] := INQUIRY;
    cdb[4] := INQUIRY_LEN;
    assert cdb[..] == INQUIRY_CDB;
    var accepted, answer := ScsiSendCdb(k, fd, cdb, respBuf);
    e := SgIo(fd, cdb[..], FromDevice, answer);
    return respBuf[..], accepted, e;
  }

  method SendIdentify(k: Kernel, fd: int) returns (data: seq<byte>, ok: bool, ghost e: Event)
    modifies k`log
    ensures k.log == old(k.log) + [e] && IsIdentify(e, fd)
    ensures ok == Accepted(e.answer) && data == e.answer.data && |data| == 512
  {
    var respBuf := new byte[512](_ => 0);
    var cdb := AtaPioInCdb(IDENTIFY_DEVICE);
    var accepted, answer := ScsiSendCdb(k, fd, cdb, respBuf);
    e := SgIo(fd, cdb[..], FromDevice, answer);
    return respBuf[..], accepted, e;
  }

  // OpenSata up to the IDENTIFY data the lookup works on.
  method IdentifySata(k: Kernel, path: string, env: Environment)
    returns (r: Result<(int, seq<byte>), SataError>, ghost t: seq<Event>)
    modifies k`log
    ensures k.log == old(k.log) + t
    ensures r.Failure? ==> SataRun(path, env, t, Failure(r.error))
    ensures r.Success? ==>
              && SataIdentified(path, t)
              && t[0].Opened? && t[|t| - 1].SgIo? && |t[|t| - 1].answer.data| == 512
              && r.value == (t[0].fd, t[|t| - 1].answer.data)
  {
    hide Accepted, PioInBytes, IsInquiry, IsIdentify;
    var fd, granted := k.Open(path);
    if !granted {
      return Failure(SataOpenFailed), [OpenRefused(path)];
    }
    ghost var o, close := Opened(path, fd), Closed(fd);
    var inq, ok, e1 := ScsiInquiry(k, fd);
    if !ok {
      k.Close(fd);
      return Failure(SataInquiryFailed), [o, e1, close];
    }
    if inq[0] % 0x20 != 0 {
      k.Close(fd);
      return Failure(NotDirectAccess), [o, e1, close];
    }
    var isLikelySat := inq[8..16] == SATA_IDENT;
    t := [o, e1];
    if !isLikelySat {
      var _, responds, e2 := SendIdentify(k, fd);
      if !responds {
        k.Close(fd);
        return Failure(NotSat), [o, e1, e2, close];
      }
      t := [o, e1, e2];
    }
    var id, identified, e3 := SendIdentify(k, fd);
    t := t + [e3];
    assert SataProbed(path, t, |t| - 1);
    if !identified {
      k.Close(fd);
      return Failure(IdentifyFailed), t + [close];
    }
    return Success((fd, id)), t;
  }

  method OpenSata(k: Kernel, path: string, env: Environment)
    returns (r: Result<SataDevice, SataError>, ghost t: seq<Event>)
    modifies k`log
    ensures k.log == old(k.log) + t
    ensures SataRun(path, env, t, if r.Success? then Success(r.value.fd) else Failure(r.error))
    ensures r.Success? ==> fresh(r.value) && r.value.kernel == k && r.value.attributeMapping != null
    ensures r.Success? ==>
              var data := t[|t| - 1].answer.data;
              Follows(env.matcher, env.db, env.defaults.entries, Model(data), Firmware(data),
                      r.value.attributeMapping.entries, r.value.firmwareBug)
  {
    hide *;
    var identified;
    identified, t := IdentifySata(k, path, env);
    if identified.Failure? {
      return Failure(identified.error), t;
    }
    var (fd, id) := identified.value;
    LookupEnds(path, env, t);
    var mapping := LookupMapping(env, id);
    if mapping.Failure? {
      k.Close(fd);
      return Failure(LookupFailed), t + [Closed(fd)];
    }
    var dev := new SataDevice(k, fd);
    dev.attributeMapping, dev.firmwareBug := mapping.value.0, mapping.value.1;
    return Success(dev), t;
  }

  method LookupMapping(env: Environment, id: seq<byte>) returns (r: Result<(AttrTable, int), DbError>)
    requires |id| == 512
    ensures r.Failure? <==> LookupFails(env, id)
    ensures r.Success? ==>
              Follows(env.matcher, env.db, env.defaults.entries, Model(id), Firmware(id), r.value.0.entries, r.value.1)
  {
    hide TrimSpace, Swapped, DecidedAt, IsBad, Follows;
    var model := FromAtaString(id[54..94]);
    var firmware := FromAtaString(id[46..54]);
    assert model == Model(id) && firmware == Firmware(id);
    r := FindAttributesMapping(env.matcher, env.db, env.defaults, model, firmware);
  }

  lemma LookupEnds(path: string, env: Environment, t: seq<Event>)
    requires SataIdentified(path, t)
    ensures LookupFails(env, t[|t| - 1].answer.data) ==>
              SataRun(path, env, t + [Closed(t[0].fd)], Failure(LookupFailed))
    ensures !LookupFails(env, t[|t| - 1].answer.data) ==> SataRun(path, env, t, Success(t[0].fd))
  {
    hide LookupFails, IsIdentify, IsDirectInquiry, Accepted;
    assert (t + [Closed(t[0].fd)])[..|t|] == t;
  }

  method OpenScsi(k: Kernel, path: string) returns (r: Result<int, ScsiOpenError>, ghost t: seq<Event>)
    modifies k`log
    ensures k.log == old(k.log) + t && ScsiRun(path, t, r)
  {
    var fd, granted := k.Open(path);
    if !granted {
      return Failure(ScsiOpenFailed), [OpenRefused(path)];
    }
    ghost var o, close := Opened(path, fd), Closed(fd);
    var inq, ok, e1 := ScsiInquiry(k, fd);
    if !ok {
      k.Close(fd);
      return Failure(ScsiInquiryFailed), [o, e1, close];
    }
    if inq[0] % 0x20 != 0 {
      k.Close(fd);
      return Failure(ScsiNotDirectAccess), [o, e1, close];
    }
    return Success(fd), [o, e1];
  }

  method Open(k: Kernel, path: string, env: Environment)
    returns (r: OpenResult, ghost a: seq<Event>, ghost b: seq<Event>, ghost c: seq<Event>)
    modifies k`log
    ensures k.log == old(k.log) + a + b + c
    ensures OpenRun(path, env, a, b, c, r)
  {
    hide SataRun, ScsiRun, Contains, LookupFails, Follows, Model, Firmware;
    a, b, c := [], [], [];
    var nvmeErr: Option<NvmeError> := None;
    if Contains(path, "/nvme") {
      var fd, granted := k.Open(path);
      if granted {
        var identified := k.IdentifyNvme(fd);
        if identified {
          return IsNvme(fd), [Opened(path, fd), NvmeIdentify(fd, true)], b, c;
        }
        k.Close(fd);
        a, nvmeErr := [Opened(path, fd), NvmeIdentify(fd, false), Closed(fd)], Some(NvmeIdentifyFailed);
      } else {
        a, nvmeErr := [OpenRefused(path)], Some(NvmeOpenFailed);
      }
      assert NvmeRun(path, a, Failure(nvmeErr.value));
    }
    hide NvmeRun;
    var sata;
    sata, b := OpenSata(k, path, env);
    if sata.Success? {
      return IsSata(sata.value.fd), a, b, c;
    }
    assert SataRun(path, env, b, Failure(sata.error));
    var scsi;
    scsi, c := OpenScsi(k, path);
    if scsi.Success? {
      return IsScsi(scsi.value), a, b, c;
    }
    r := AllFailed(nvmeErr, sata.error, scsi.error);
  }
}
