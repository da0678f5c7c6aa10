/** Safety of opening a path, over every run and every answer of the kernel. */
module ProbeTheorems {
  import opened Wrappers
  import opened Scsi
  import opened PassThrough
  import opened Probe
  import opened Sata

  // Descriptors opened by these events and not closed since.
  function OpenAfter(t: seq<Event>): set<int> {
    if t == [] then {}
    else
      var before := OpenAfter(t[..|t| - 1]);
      match t[|t| - 1]
      case Opened(_, fd) => before + {fd}
      case Closed(fd) => before - {fd}
      case _ => before
  }

  predicate ToDescriptor(e: Event) {
    e.SgIo? || e.NvmeIdentify?
  }

  // Some earlier INQUIRY on the descriptor, still the same open, reported device type 0.
  ghost predicate Vetted(t: seq<Event>, i: nat, fd: int) {
    i <= |t| && exists j :: 0 <= j < i && IsDirectInquiry(t[j], fd)
                            && forall m :: j < m < i ==> !t[m].Opened? && !t[m].Closed?
  }

  // What must hold at each event, given the ones before it.
  ghost predicate AllowedAt(path: string, t: seq<Event>, i: nat)
    requires i < |t|
  {
    && |OpenAfter(t[..i])| <= 1
    && (t[i].Opened? ==> OpenAfter(t[..i]) == {} && t[i].path == path)
    && (ToDescriptor(t[i]) || t[i].Closed? ==> OpenAfter(t[..i]) == {t[i].fd})
    && (t[i].NvmeIdentify? ==> Contains(path, "/nvme"))
    && (IsPassThrough(t[i]) ==> Vetted(t, i, t[i].fd))
  }

  ghost predicate SafeRun(path: string, t: seq<Event>) {
    |OpenAfter(t)| <= 1 && forall i :: 0 <= i < |t| ==> AllowedAt(path, t, i)
  }

  // ---- a watcher that checks event by event ----

  datatype Watch = Watch(open: Option<int>, vetted: bool, ok: bool)

  const IDLE_WATCH := Watch(None, false, true)

  ghost function Next(path: string, w: Watch, e: Event): Watch {
    match e
    case Opened(p, fd) => Watch(Some(fd), false, w.ok && w.open == None && p == path)
    case OpenRefused(p) => w
    case Closed(fd) => Watch(None, false, w.ok && w.open == Some(fd))
    case NvmeIdentify(fd, _) => w.(ok := w.ok && w.open == Some(fd) && Contains(path, "/nvme"))
    case SgIo(fd, _, _, _) =>
      Watch(w.open, w.vetted || (IsDirectInquiry(e, fd) && w.open == Some(fd)),
            w.ok && w.open == Some(fd) && (IsPassThrough(e) ==> w.vetted))
  }

  ghost function Watched(path: string, w: Watch, t: seq<Event>): Watch {
    if t == [] then w else Next(path, Watched(path, w, t[..|t| - 1]), t[|t| - 1])
  }

  lemma {:induction false} WatchedAppends(path: string, w: Watch, a: seq<Event>, b: seq<Event>)
    ensures Watched(path, w, a + b) == Watched(path, Watched(path, w, a), b)
  {
    if b == [] {
      assert a + b == a;
    } else {
      assert (a + b)[..|a + b| - 1] == a + b[..|b| - 1];
      WatchedAppends(path, w, a, b[..|b| - 1]);
    }
  }

  // A watcher's verdict at the end covers every event, and it has tracked the descriptors.
  lemma {:induction false} WatchMeaning(path: string, t: seq<Event>)
    requires Watched(path, IDLE_WATCH, t).ok
    ensures SafeRun(path, t)
    ensures Tracks(Watched(path, IDLE_WATCH, t), t)
  {
    if t != [] {
      var front, e := t[..|t| - 1], t[|t| - 1];
      assert t == front + [e];
      WatchMeaning(path, front);
      var w := Watched(path, IDLE_WATCH, front);
      WatchStep(path, front, e, w);
      hide Contains, IsDirectInquiry, Vetted, AllowedAt, Next, OpenAfter;
      forall i | 0 <= i < |front|
        ensures AllowedAt(path, t, i)
      {
        AllowedInLonger(path, front, e, i);
      }
    }
  }

  ghost predicate Tracks(w: Watch, t: seq<Event>) {
    && OpenAfter(t) == (match w.open case None => {} case Some(fd) => {fd})
    && (w.vetted ==> w.open.Some? && Vetted(t, |t|, w.open.value))
  }

  lemma WatchStep(path: string, front: seq<Event>, e: Event, w: Watch)
    requires Tracks(w, front) && Next(path, w, e).ok
    ensures AllowedAt(path, front + [e], |front|) && Tracks(Next(path, w, e), front + [e])
  {
    var t := front + [e];
    assert t[..|front|] == front;
    hide Contains, IsDirectInquiry;
    if w.vetted {
      VettedInLonger(front, e, w.open.value);
    }
    if e.SgIo? && IsDirectInquiry(e, e.fd) {
      assert IsDirectInquiry(t[|front|], e.fd);
    }
  }

  lemma AllowedInLonger(path: string, front: seq<Event>, e: Event, i: nat)
    requires i < |front| && AllowedAt(path, front, i)
    ensures AllowedAt(path, front + [e], i)
  {
    hide Contains, IsDirectInquiry, OpenAfter;
    var t := front + [e];
    assert t[..i] == front[..i];
    if IsPassThrough(t[i]) {
      var j :| 0 <= j < i && IsDirectInquiry(front[j], t[i].fd)
               && forall m :: j < m < i ==> !front[m].Opened? && !front[m].Closed?;
      assert IsDirectInquiry(t[j], t[i].fd);
    }
  }

  lemma VettedInLonger(front: seq<Event>, e: Event, fd: int)
    requires Vetted(front, |front|, fd)
    ensures Vetted(front + [e], |front|, fd)
    ensures !e.Opened? && !e.Closed? ==> Vetted(front + [e], |front| + 1, fd)
  {
    hide IsDirectInquiry;
    var t := front + [e];
    var j :| 0 <= j < |front| && IsDirectInquiry(front[j], fd)
             && forall m :: j < m < |front| ==> !front[m].Opened? && !front[m].Closed?;
    assert IsDirectInquiry(t[j], fd);
  }

  // ---- each attempt, watched ----

  lemma Watch2(path: string, w: Watch, t: seq<Event>)
    requires |t| == 2
    ensures Watched(path, w, t) == Next(path, Next(path, w, t[0]), t[1])
  {
    var one := t[..1];
    assert one[..0] == [] && one[0] == t[0];
    WatchMore(path, w, one);
  }

  lemma WatchMore(path: string, w: Watch, t: seq<Event>)
    requires |t| >= 1
    ensures Watched(path, w, t) == Next(path, Watched(path, w, t[..|t| - 1]), t[|t| - 1])
  {
  }

  // After an open and an inquiry on it, the descriptor is open and nothing was wrong.
  lemma WatchPrelude(path: string, t: seq<Event>)
    requires |t| == 2 && t[0].Opened? && t[0].path == path && IsInquiry(t[1], t[0].fd)
    ensures Watched(path, IDLE_WATCH, t) == Watch(Some(t[0].fd), IsDirectInquiry(t[1], t[0].fd), true)
  {
    Watch2(path, IDLE_WATCH, t);
    assert t[1].cdb[0] == INQUIRY;
  }

  lemma WatchClose(path: string, t: seq<Event>, fd: int)
    requires |t| >= 1 && t[|t| - 1] == Closed(fd)
    requires var w := Watched(path, IDLE_WATCH, t[..|t| - 1]); w.ok && w.open == Some(fd)
    ensures Watched(path, IDLE_WATCH, t) == IDLE_WATCH
  {
  }

  lemma WatchIdentify(path: string, t: seq<Event>, fd: int)
    requires |t| >= 1 && IsIdentify(t[|t| - 1], fd)
    requires Watched(path, IDLE_WATCH, t[..|t| - 1]) == Watch(Some(fd), true, true)
    ensures Watched(path, IDLE_WATCH, t) == Watch(Some(fd), true, true)
  {
  }

  lemma WatchProbed(path: string, t: seq<Event>)
    requires |t| in {3, 4} && SataProbed(path, t, |t| - 1)
    ensures Watched(path, IDLE_WATCH, t) == Watch(Some(t[0].fd), true, true)
  {
    hide Watched, IsIdentify, IsInquiry;
    WatchPrelude(path, t[..2]);
    if |t| == 4 {
      assert t[..3][..2] == t[..2];
      WatchIdentify(path, t[..3], t[0].fd);
    }
    WatchIdentify(path, t, t[0].fd);
  }

  // Idle when the attempt failed, holding exactly its descriptor when it succeeded.
  function WatchFor<E>(r: Result<int, E>, vetted: bool): Watch {
    if r.Success? then Watch(Some(r.value), vetted, true) else IDLE_WATCH
  }

  lemma WatchRefused(path: string, t: seq<Event>)
    requires t == [OpenRefused(path)]
    ensures Watched(path, IDLE_WATCH, t) == IDLE_WATCH
  {
    assert t[..0] == [];
  }

  lemma WatchSata(path: string, env: Environment, t: seq<Event>, r: Result<int, SataError>)
    requires SataRun(path, env, t, r)
    ensures Watched(path, IDLE_WATCH, t) == WatchFor(r, true)
  {
    hide Watched, IsIdentify, IsInquiry, LookupFails;
    match r
    case Failure(SataOpenFailed) => WatchRefused(path, t);
    case Failure(SataInquiryFailed) =>
      WatchPrelude(path, t[..2]);
      WatchClose(path, t, t[0].fd);
    case Failure(NotDirectAccess) =>
      WatchPrelude(path, t[..2]);
      WatchClose(path, t, t[0].fd);
    case Failure(NotSat) =>
      WatchPrelude(path, t[..2]);
      assert t[..3][..2] == t[..2];
      WatchIdentify(path, t[..3], t[0].fd);
      WatchClose(path, t, t[0].fd);
    case Failure(IdentifyFailed) =>
      WatchProbed(path, t[..|t| - 1]);
      WatchClose(path, t, t[0].fd);
    case Failure(LookupFailed) =>
      WatchProbed(path, t[..|t| - 1]);
      WatchClose(path, t, t[0].fd);
    case Success(fd) => WatchProbed(path, t);
  }

  lemma WatchScsi(path: string, t: seq<Event>, r: Result<int, ScsiOpenError>)
    requires ScsiRun(path, t, r)
    ensures Watched(path, IDLE_WATCH, t) == WatchFor(r, true)
  {
    hide Watched, IsInquiry;
    match r
    case Failure(ScsiOpenFailed) => WatchRefused(path, t);
    case Failure(ScsiInquiryFailed) =>
      WatchPrelude(path, t[..2]);
      WatchClose(path, t, t[0].fd);
    case Failure(ScsiNotDirectAccess) =>
      WatchPrelude(path, t[..2]);
      WatchClose(path, t, t[0].fd);
    case Success(fd) => WatchPrelude(path, t);
  }

  lemma WatchNvme(path: string, t: seq<Event>, r: Result<int, NvmeError>)
    requires NvmeRun(path, t, r) && Contains(path, "/nvme")
    ensures Watched(path, IDLE_WATCH, t) == WatchFor(r, false)
  {
    hide Contains;
    match r
    case Failure(NvmeOpenFailed) => WatchRefused(path, t);
    case Failure(NvmeIdentifyFailed) =>
      Watch2(path, IDLE_WATCH, t[..2]);
      WatchClose(path, t, t[0].fd);
    case Success(fd) => Watch2(path, IDLE_WATCH, t);
  }

  // ---- the theorem ----

  function HeldBy(r: OpenResult): set<int> {
    match r
    case IsNvme(fd) => {fd}
    case IsSata(fd) => {fd}
    case IsScsi(fd) => {fd}
    case AllFailed(_, _, _) => {}
  }

  // Every run of Open: never two descriptors at once, every command on the one that is open, no
  // NVMe command for a path without "/nvme", no ATA pass-through before an INQUIRY on the same
  // descriptor reported type 0. At the end exactly the returned device is open, or nothing.
  lemma OpenIsSafe(path: string, env: Environment, a: seq<Event>, b: seq<Event>, c: seq<Event>, r: OpenResult)
    requires OpenRun(path, env, a, b, c, r)
    ensures SafeRun(path, a + b + c)
    ensures OpenAfter(a + b + c) == HeldBy(r)
  {
    WatchedAppends(path, IDLE_WATCH, a + b, c);
    WatchedAppends(path, IDLE_WATCH, a, b);
    hide SataRun, ScsiRun, NvmeRun, Contains;
    WatchOpen(path, env, a, b, c, r);
    WatchMeaning(path, a + b + c);
  }

  lemma WatchOpen(path: string, env: Environment, a: seq<Event>, b: seq<Event>, c: seq<Event>, r: OpenResult)
    requires OpenRun(path, env, a, b, c, r)
    ensures var w := Watched(path, Watched(path, Watched(path, IDLE_WATCH, a), b), c);
            w.ok && HeldBy(r) == (match w.open case None => {} case Some(fd) => {fd})
  {
    hide SataRun, ScsiRun, NvmeRun, Contains;
    match r
    case IsNvme(fd) => WatchNvme(path, a, Success(fd));
    case IsSata(fd) =>
      GivenUpNvme(path, a);
      WatchSata(path, env, b, Success(fd));
    case IsScsi(fd) =>
      GivenUpNvme(path, a);
      var e :| SataRun(path, env, b, Failure(e));
      WatchSata(path, env, b, Failure(e));
      WatchScsi(path, c, Success(fd));
    case AllFailed(nvme, sata, scsi) =>
      if nvme.Some? {
        assert NvmeRun(path, a, Failure(nvme.value));
      }
      GivenUpNvme(path, a);
      WatchSata(path, env, b, Failure(sata));
      WatchScsi(path, c, Failure(scsi));
  }

  lemma GivenUpNvme(path: string, a: seq<Event>)
    requires NvmeGivenUp(path, a)
    ensures Watched(path, IDLE_WATCH, a) == IDLE_WATCH
  {
    hide NvmeRun, Contains;
    if Contains(path, "/nvme") {
      var e :| NvmeRun(path, a, Failure(e));
      WatchNvme(path, a, Failure(e));
    }
  }

  // The same on paths and bytes. An NVMe command needs "/nvme" somewhere in the path; the NVMe
  // attempt is made exactly then. A pass-through block, opcode 85h, needs an earlier standard
  // INQUIRY on the same open descriptor that came back without an error and said type 0.
  lemma OpenIsSafeOnTheWire(path: string, env: Environment, a: seq<Event>, b: seq<Event>, c: seq<Event>, r: OpenResult)
    requires OpenRun(path, env, a, b, c, r)
    ensures a != [] <==> exists pre, post :: path == pre + "/nvme" + post
    ensures forall e | e in a + b + c && e.NvmeIdentify? :: exists pre, post :: path == pre + "/nvme" + post
    ensures forall i | 0 <= i < |a + b + c| && SendsAta((a + b + c)[i]) :: InquiredBefore(a + b + c, i)
  {
    OpenIsSafe(path, env, a, b, c, r);
    NvmeAttempted(path, env, a, b, c, r);
    ContainsMeaning(path, "/nvme");
    var t := a + b + c;
    hide OpenRun, Contains, OpenAfter;
    forall e | e in t && e.NvmeIdentify?
      ensures Contains(path, "/nvme")
    {
      var i :| 0 <= i < |t| && t[i] == e;
      assert AllowedAt(path, t, i);
    }
    forall i | 0 <= i < |t| && SendsAta(t[i])
      ensures InquiredBefore(t, i)
    {
      assert AllowedAt(path, t, i);
      VettedMeansInquired(t, i);
    }
  }

  // Which attempts are made and what the result says of them: the NVMe device is returned exactly
  // when it was identified, SATA is tried exactly when it was not, SCSI exactly when neither was
  // opened, and a failure tells a refused NVMe open from a failed one and from none.
  lemma CascadeExactly(path: string, env: Environment, a: seq<Event>, b: seq<Event>, c: seq<Event>, r: OpenResult)
    requires OpenRun(path, env, a, b, c, r)
    ensures r.IsNvme? <==> exists fd :: NvmeIdentify(fd, true) in a
    ensures b == [] <==> r.IsNvme?
    ensures c == [] <==> r.IsNvme? || r.IsSata?
    ensures r.AllFailed? ==> (r.nvme == None <==> a == [])
    ensures r.AllFailed? ==> (r.nvme == Some(NvmeOpenFailed) <==> a == [OpenRefused(path)])
  {
    hide Contains, LookupFails, IsInquiry, IsIdentify, IsDirectInquiry, SaysAta, Accepted;
    if r.IsNvme? {
      assert a[1] == NvmeIdentify(r.fd, true);
    }
  }

  predicate SendsAta(e: Event) {
    e.SgIo? && e.cdb != [] && e.cdb[0] == 0x85
  }

  lemma NvmeAttempted(path: string, env: Environment, a: seq<Event>, b: seq<Event>, c: seq<Event>, r: OpenResult)
    requires OpenRun(path, env, a, b, c, r)
    ensures a != [] <==> Contains(path, "/nvme")
  {
    hide Contains, SataRun, ScsiRun;
  }

  ghost predicate InquiredBefore(t: seq<Event>, i: nat)
    requires i < |t| && t[i].SgIo?
  {
    exists j :: 0 <= j < i && SaidTypeZero(t[j], t[i].fd)
                && forall m :: j < m < i ==> !t[m].Opened? && !t[m].Closed?
  }

  predicate SaidTypeZero(e: Event, fd: int) {
    && e.SgIo? && e.fd == fd && e.cdb == [0x12, 0x00, 0x00, 0x00, 0x24, 0x00]
    && !e.answer.failed && (e.answer.info % 2 == 0 || (e.answer.status == 0x02 && e.answer.sbLenWr > 0))
    && |e.answer.data| == 36 && e.answer.data[0] % 0x20 == 0x00
  }

  lemma VettedMeansInquired(t: seq<Event>, i: nat)
    requires i < |t| && t[i].SgIo? && Vetted(t, i, t[i].fd)
    ensures InquiredBefore(t, i)
  {
    var j :| 0 <= j < i && IsDirectInquiry(t[j], t[i].fd)
             && forall m :: j < m < i ==> !t[m].Opened? && !t[m].Closed?;
    AcceptedExactly(t[j].answer);
    hide Accepted;
    assert SaidTypeZero(t[j], t[i].fd);
  }

  // ---- when OpenSata succeeds ----

  // A nil error from scsiSendCdb, on the header fields themselves. The status only matters as
  // CHECK CONDITION with sense, and then it excuses the error flag.
  predicate NilError(a: IoAnswer) {
    !a.failed && (a.info % 2 == 0 || (a.status == 0x02 && a.sbLenWr > 0))
  }

  // The last answer from the device, which for a run that got to the lookup is its IDENTIFY data.
  function LastReply(t: seq<Event>): Option<IoAnswer> {
    if t == [] then None
    else if t[|t| - 1].SgIo? then Some(t[|t| - 1].answer)
    else LastReply(t[..|t| - 1])
  }

  // The kernel granted the open, the device is of type 0, every IDENTIFY came back without an
  // error, and the lookup on the last one's data meets no bad pattern.
  ghost predicate AnsweredWell(env: Environment, t: seq<Event>) {
    && |t| >= 3 && t[0].Opened?
    && IsInquiry(t[1], t[0].fd) && NilError(t[1].answer) && t[1].answer.data[0] % 0x20 == 0
    && (forall i :: 2 <= i < |t| && t[i].SgIo? ==> NilError(t[i].answer))
    && LookupPasses(env, t)
  }

  ghost predicate LookupPasses(env: Environment, t: seq<Event>) {
    LastReply(t).Some? && |LastReply(t).value.data| == 512 && !LookupFails(env, LastReply(t).value.data)
  }

  // The answer a device gives when it does not take the command: CHECK CONDITION with sense data, or
  // a status such as BUSY with the error flag clear.
  predicate Refused(a: IoAnswer) {
    !a.failed && if a.status == 0x02 then a.sbLenWr > 0 else a.info % 2 == 0
  }

  // Over every run of OpenSata: it returns a device exactly when the answers were these. What the
  // device said to IDENTIFY has no part in it.
  lemma SataOpensExactly(path: string, env: Environment, t: seq<Event>, r: Result<int, SataError>)
    requires SataRun(path, env, t, r)
    ensures r.Success? <==> AnsweredWell(env, t)
  {
    RepliesOfRun(path, env, t, r);
    hide LookupFails, SaysAta, LastReply;
    forall i | 0 <= i < |t| && t[i].SgIo?
      ensures Accepted(t[i].answer) <==> NilError(t[i].answer)
    {
      AcceptedExactly(t[i].answer);
    }
    hide Accepted;
  }

  lemma RepliesOfRun(path: string, env: Environment, t: seq<Event>, r: Result<int, SataError>)
    requires SataRun(path, env, t, r)
    ensures forall i :: 0 <= i < |t| && t[i].SgIo? ==> t[i].answer.sbLenWr <= |t[i].answer.sense|
    ensures r.Success? ==> LastReply(t) == Some(t[|t| - 1].answer)
    ensures r.Failure? && |t| >= 3 ==> LastReply(t) == Some(t[|t| - 2].answer)
  {
    hide LookupFails, Accepted, SaysAta;
  }

  // Over every run of OpenScsi: the open, the INQUIRY and the device type decide.
  lemma ScsiOpensExactly(path: string, t: seq<Event>, r: Result<int, ScsiOpenError>)
    requires ScsiRun(path, t, r)
    ensures r.Success? <==>
              && |t| >= 2 && t[0].Opened? && IsInquiry(t[1], t[0].fd)
              && NilError(t[1].answer) && t[1].answer.data[0] % 0x20 == 0
  {
    if |t| >= 2 {
      AcceptedExactly(t[1].answer);
    }
    hide Accepted;
  }

  // The two kinds of block that a run of OpenSata sends, byte for byte, and how often: IDENTIFY
  // once for a drive whose INQUIRY vendor field is "ATA     ", twice for any other.
  lemma SataBlocks(path: string, env: Environment, t: seq<Event>, fd: int)
    requires SataRun(path, env, t, Success(fd))
    ensures |t| == (if t[1].answer.data[8..16] == [0x41, 0x54, 0x41, 0x20, 0x20, 0x20, 0x20, 0x20] then 3 else 4)
    ensures t[0] == Opened(path, fd)
    ensures t[1].SgIo? && t[1].fd == fd && t[1].cdb == [0x12, 0x00, 0x00, 0x00, 0x24, 0x00]
    ensures forall i :: 2 <= i < |t| ==>
                          && t[i].SgIo? && t[i].fd == fd
                          && t[i].cdb == [0x85, 0x08, 0x0e, 0, 0, 0, 0, 0, 0, 0, 0, 0, 0, 0, 0xec, 0]
  {
    hide LookupFails, Accepted;
  }

  // In particular the device is opened as SATA, in every run, when it refuses each IDENTIFY with
  // sense data or is busy: neither the sense nor that status is looked at.
  lemma RefusedIdentifyStillOpens(path: string, env: Environment, t: seq<Event>, r: Result<int, SataError>)
    requires SataRun(path, env, t, r)
    requires |t| >= 3 && t[0].Opened? && IsDirectInquiry(t[1], t[0].fd)
    requires forall i :: 2 <= i < |t| && t[i].SgIo? ==> Refused(t[i].answer)
    requires LookupPasses(env, t)
    ensures r.Success?
  {
    SataOpensExactly(path, env, t, r);
    RepliesOfRun(path, env, t, r);
    hide LookupPasses, SaysAta, LastReply, SataRun;
    AcceptedExactly(t[1].answer);
    hide Accepted;
  }
}
