/** The SG_IO path: the kernel as an arbitrary partner, and how its answer is classified. */
module Scsi {
  import opened Wrappers
  import opened Bytes

  const CHECK_CONDITION := 0x02
  const SENSE_BUF_SIZE := 96

  datatype Direction = NoData | FromDevice

  datatype ScsiError = IoctlFailed | SgIoError

  // What one SG_IO call leaves behind: the ioctl's own outcome, the header fields the source
  // reads, and the two buffers.
  datatype IoAnswer = IoAnswer(
    failed: bool, status: byte, sbLenWr: nat, info: uint32, sense: seq<byte>, data: seq<byte>)
  {
    // The sg driver writes no more sense bytes than the buffer it was given holds.
    predicate ValidFor(respLen: nat) {
      sbLenWr <= 96 && |sense| == 96 && |data| == respLen
    }
  }

  // Everything the process asks of the operating system, with the answer it got.
  datatype Event =
    | Opened(path: string, fd: int)
    | OpenRefused(path: string)
    | Closed(fd: int)
    | SgIo(fd: int, cdb: seq<byte>, dir: Direction, answer: IoAnswer)
    | NvmeIdentify(fd: int, ok: bool)

  // The sense bytes a call returns, or its error. CHECK CONDITION with sense is no error here:
  // the caller decides.
  function SenseOf(a: IoAnswer): Result<seq<byte>, ScsiError> {
    if a.failed then Failure(IoctlFailed)
    else if a.status == CHECK_CONDITION && 0 < a.sbLenWr <= |a.sense| then Success(a.sense[..a.sbLenWr])
    else if a.info % 2 != 0 then Failure(SgIoError)
    else Success(a.sense)
  }

  // The operating system. Its answers are unconstrained: every method body picks them freely.
  class Kernel {
    ghost var log: seq<Event>

    constructor ()
      ensures log == []
    {
      log := [];
    }

    method Open(path: string) returns (fd: int, ok: bool)
      modifies this`log
      ensures log == old(log) + [if ok then Opened(path, fd) else OpenRefused(path)]
    {
      fd, ok := *, *;
      log := log + [if ok then Opened(path, fd) else OpenRefused(path)];
    }

    // The source ignores what close returns.
    method Close(fd: int)
      modifies this`log
      ensures log == old(log) + [Closed(fd)]
    {
      log := log + [Closed(fd)];
    }

    method IdentifyNvme(fd: int) returns (ok: bool)
      modifies this`log
      ensures log == old(log) + [NvmeIdentify(fd, ok)]
    {
      ok := *;
      log := log + [NvmeIdentify(fd, ok)];
    }

    method Submit(fd: int, cdb: seq<byte>, dir: Direction, senseBuf: array<byte>, respBuf: array<byte>)
      returns (failed: bool, status: byte, sbLenWr: nat, info: uint32)
      requires senseBuf.Length == SENSE_BUF_SIZE && senseBuf != respBuf
      modifies this`log, senseBuf, respBuf
      ensures sbLenWr <= SENSE_BUF_SIZE
      ensures log == old(log) + [SgIo(fd, cdb, dir, IoAnswer(failed, status, sbLenWr, info, senseBuf[..], respBuf[..]))]
    {
      Scribble(senseBuf);
      Scribble(respBuf);
      failed, status, sbLenWr, info := *, *, *, *;
      if sbLenWr > SENSE_BUF_SIZE {
        sbLenWr := SENSE_BUF_SIZE;
      }
      log := log + [SgIo(fd, cdb, dir, IoAnswer(failed, status, sbLenWr, info, senseBuf[..], respBuf[..]))];
    }
  }

  method Scribble(buf: array<byte>)
    modifies buf
  {
    for i := 0 to buf.Length {
      buf[i] := *;
    }
  }

  // An empty response buffer means a command without data.
  method ScsiSendCdbSense(k: Kernel, fd: int, cdb: array<byte>, respBuf: array<byte>)
    returns (r: Result<seq<byte>, ScsiError>, ghost answer: IoAnswer)
    requires cdb != respBuf
    modifies k`log, respBuf
    ensures k.log == old(k.log) + [SgIo(fd, cdb[..], if respBuf.Length > 0 then FromDevice else NoData, answer)]
    ensures answer.ValidFor(respBuf.Length) && answer.data == respBuf[..]
    ensures r == SenseOf(answer)
  {
    var senseBuf := new byte[SENSE_BUF_SIZE](_ => 0);
    var dir := if respBuf.Length > 0 then FromDevice else NoData;
    var failed, status, sbLenWr, info := k.Submit(fd, cdb[..], dir, senseBuf, respBuf);
    answer := IoAnswer(failed, status, sbLenWr, info, senseBuf[..], respBuf[..]);
    if failed {
      return Failure(IoctlFailed), answer;
    }
    if status == CHECK_CONDITION && sbLenWr > 0 {
      return Success(senseBuf[..sbLenWr]), answer;
    }
    if info % 2 != 0 {
      return Failure(SgIoError), answer;
    }
    r := Success(senseBuf[..]);
  }

  // scsiSendCdb drops the sense bytes, so a command the device refused with sense data passes.
  predicate Accepted(a: IoAnswer) {
    SenseOf(a).Success?
  }

  lemma AcceptedExactly(a: IoAnswer)
    requires a.sbLenWr <= |a.sense|
    ensures Accepted(a) <==> !a.failed && (a.info % 2 == 0 || (a.status == 0x02 && a.sbLenWr > 0))
  {
  }

  // A status other than CHECK CONDITION is not looked at: BUSY passes like GOOD.
  lemma OtherStatusIgnored(a: IoAnswer, status: byte)
    requires a.status != 0x02 && status != 0x02
    ensures SenseOf(a) == SenseOf(a.(status := status))
  {
  }

  method ScsiSendCdb(k: Kernel, fd: int, cdb: array<byte>, respBuf: array<byte>)
    returns (ok: bool, ghost answer: IoAnswer)
    requires cdb != respBuf
    modifies k`log, respBuf
    ensures k.log == old(k.log) + [SgIo(fd, cdb[..], if respBuf.Length > 0 then FromDevice else NoData, answer)]
    ensures answer.ValidFor(respBuf.Length) && answer.data == respBuf[..]
    ensures ok == Accepted(answer)
  {
    var r;
    r, answer := ScsiSendCdbSense(k, fd, cdb, respBuf);
    ok := r.Success?;
  }
}
