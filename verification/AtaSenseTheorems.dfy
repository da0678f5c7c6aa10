/** What the sense readers mean, stated on the wire format instead of on the walk. */
module AtaSenseTheorems {
  import opened Wrappers
  import opened Bytes
  import opened AtaSense

  // ---- the wire format: a list of descriptors ----

  datatype Descriptor = Descriptor(code: byte, body: seq<byte>)

  predicate WellFormed(x: Descriptor) {
    |x.body| < 0x100
  }

  predicate Qualifies(x: Descriptor) {
    x.code == 0x09 && |x.body| >= 12
  }

  predicate AllWellFormed(xs: seq<Descriptor>) {
    forall i :: 0 <= i < |xs| ==> WellFormed(xs[i])
  }

  // Descriptors the walk steps over.
  predicate NoneQualifies(xs: seq<Descriptor>) {
    forall i :: 0 <= i < |xs| ==> WellFormed(xs[i]) && !Qualifies(xs[i])
  }

  function Serialise(x: Descriptor): seq<byte>
    requires WellFormed(x)
  {
    [x.code, |x.body|] + x.body
  }

  function SerialiseAll(xs: seq<Descriptor>): seq<byte>
    requires AllWellFormed(xs)
  {
    if xs == [] then [] else Serialise(xs[0]) + SerialiseAll(xs[1..])
  }

  // No complete descriptor starts here: the end, a stray code byte, or a length that overruns.
  predicate Stuck(p: seq<byte>) {
    |p| < 2 || |p| - 2 < p[1]
  }

  // p is some skipped descriptors, then x, then anything.
  ghost predicate Reaches(p: seq<byte>, pre: seq<Descriptor>, x: Descriptor, post: seq<byte>) {
    NoneQualifies(pre) && WellFormed(x) && Qualifies(x) && p == SerialiseAll(pre) + Serialise(x) + post
  }

  // p is some skipped descriptors, then a place where no descriptor starts.
  ghost predicate Breaks(p: seq<byte>, pre: seq<Descriptor>, rest: seq<byte>) {
    NoneQualifies(pre) && Stuck(rest) && p == SerialiseAll(pre) + rest
  }

  lemma {:induction false} SkipsPrefix(pre: seq<Descriptor>, p: seq<byte>)
    requires NoneQualifies(pre)
    ensures FirstAtaReturn(SerialiseAll(pre) + p) == FirstAtaReturn(p)
  {
    if pre == [] {
      assert SerialiseAll(pre) + p == p;
    } else {
      var whole, tail := SerialiseAll(pre) + p, SerialiseAll(pre[1..]) + p;
      assert whole == Serialise(pre[0]) + tail;
      assert whole[DESC_HEADER_LEN + whole[1]..] == tail;
      SkipsPrefix(pre[1..], p);
    }
  }

  lemma StopsAtQualifying(x: Descriptor, post: seq<byte>)
    requires WellFormed(x) && Qualifies(x)
    ensures FirstAtaReturn(Serialise(x) + post) == Some(Serialise(x))
  {
    var p := Serialise(x) + post;
    assert p[..DESC_HEADER_LEN + p[1]] == Serialise(x);
  }

  lemma SkipOne(first: Descriptor, p: seq<byte>, pre: seq<Descriptor>, x: Descriptor, rest: seq<byte>)
    requires WellFormed(first) && !Qualifies(first)
    ensures Reaches(p, pre, x, rest) ==> Reaches(Serialise(first) + p, [first] + pre, x, rest)
    ensures Breaks(p, pre, rest) ==> Breaks(Serialise(first) + p, [first] + pre, rest)
  {
    if NoneQualifies(pre) {
      assert ([first] + pre)[1..] == pre;
      assert SerialiseAll([first] + pre) == Serialise(first) + SerialiseAll(pre);
    }
  }

  lemma {:induction false} WalkDecomposes(p: seq<byte>) returns (pre: seq<Descriptor>, x: Descriptor, rest: seq<byte>)
    ensures FirstAtaReturn(p).Some? ==> Reaches(p, pre, x, rest) && FirstAtaReturn(p).value == Serialise(x)
    ensures FirstAtaReturn(p).None? ==> Breaks(p, pre, rest)
    decreases |p|
  {
    pre, x, rest := [], Descriptor(0, []), p;
    assert SerialiseAll(pre) + p == p;
    if !Stuck(p) {
      var size := DESC_HEADER_LEN + p[1];
      var first := Descriptor(p[0], p[DESC_HEADER_LEN..size]);
      assert Serialise(first) == p[..size];
      assert Serialise(first) + p[size..] == p;
      if Qualifies(first) {
        x, rest := first, p[size..];
      } else {
        var tail, x', rest' := WalkDecomposes(p[size..]);
        SkipOne(first, p[size..], tail, x', rest');
        pre, x, rest := [first] + tail, x', rest';
      }
    }
  }

  // On arbitrary bytes: a descriptor is found exactly when well-formed, non-qualifying
  // predecessors lead to it, and nothing is found exactly when they lead to a dead end.
  lemma WalkFindsExactly(p: seq<byte>, d: seq<byte>)
    ensures FirstAtaReturn(p) == Some(d) <==>
              exists pre, x, post :: Reaches(p, pre, x, post) && d == Serialise(x)
    ensures FirstAtaReturn(p) == None <==> exists pre, rest :: Breaks(p, pre, rest)
  {
    var pre, x, rest := WalkDecomposes(p);
    forall pre, x, post | Reaches(p, pre, x, post)
      ensures FirstAtaReturn(p) == Some(Serialise(x))
    {
      ReachesIsFound(p, pre, x, post);
    }
    forall pre, rest | Breaks(p, pre, rest)
      ensures FirstAtaReturn(p) == None
    {
      SkipsPrefix(pre, rest);
    }
  }

  lemma ReachesIsFound(p: seq<byte>, pre: seq<Descriptor>, x: Descriptor, post: seq<byte>)
    requires Reaches(p, pre, x, post)
    ensures FirstAtaReturn(p) == Some(Serialise(x))
  {
    assert p == SerialiseAll(pre) + (Serialise(x) + post);
    SkipsPrefix(pre, Serialise(x) + post);
    StopsAtQualifying(x, post);
  }

  // ---- round trip ----

  // A descriptor-format buffer: seven header bytes of any content, the length, the descriptors,
  // and whatever follows the declared length.
  function DescriptorSense(header: seq<byte>, xs: seq<Descriptor>, trailing: seq<byte>): seq<byte>
    requires |header| == 7 && AllWellFormed(xs) && |SerialiseAll(xs)| < 0x100
  {
    header + [|SerialiseAll(xs)|] + SerialiseAll(xs) + trailing
  }

  lemma PayloadOfDescriptorSense(header: seq<byte>, xs: seq<Descriptor>, trailing: seq<byte>)
    requires |header| == 7 && AllWellFormed(xs) && |SerialiseAll(xs)| < 0x100
    ensures DescriptorIsValid(DescriptorSense(header, xs, trailing))
    ensures Payload(DescriptorSense(header, xs, trailing)) == SerialiseAll(xs)
  {
  }

  lemma {:induction false} SerialiseAllAppends(xs: seq<Descriptor>, ys: seq<Descriptor>)
    requires AllWellFormed(xs) && AllWellFormed(ys)
    ensures SerialiseAll(xs + ys) == SerialiseAll(xs) + SerialiseAll(ys)
  {
    if xs == [] {
      assert xs + ys == ys;
    } else {
      assert (xs + ys)[1..] == xs[1..] + ys;
      SerialiseAllAppends(xs[1..], ys);
    }
  }

  // Serialise any list of descriptors that fits the length byte: the walk returns, byte for
  // byte, the first one with code 09h and at least 12 payload bytes, or nothing.
  lemma DescriptorRoundTrip(header: seq<byte>, xs: seq<Descriptor>, trailing: seq<byte>)
    requires |header| == 7 && AllWellFormed(xs) && |SerialiseAll(xs)| < 0x100
    ensures forall k :: 0 <= k < |xs| && Qualifies(xs[k]) && NoneQualifies(xs[..k]) ==>
                          AtaReturnOf(DescriptorSense(header, xs, trailing)) == Some(Serialise(xs[k]))
    ensures NoneQualifies(xs) ==> AtaReturnOf(DescriptorSense(header, xs, trailing)) == None
  {
    PayloadOfDescriptorSense(header, xs, trailing);
    hide SerialiseAll, FirstAtaReturn, DescriptorSense;
    forall k | 0 <= k < |xs| && Qualifies(xs[k]) && NoneQualifies(xs[..k])
      ensures FirstAtaReturn(SerialiseAll(xs)) == Some(Serialise(xs[k]))
    {
      FirstQualifyingIsFound(xs, k);
    }
    if NoneQualifies(xs) {
      assert SerialiseAll(xs) == SerialiseAll(xs) + [];
      SkipsPrefix(xs, []);
      NothingInEmptyArea();
    }
  }

  lemma NothingInEmptyArea()
    ensures FirstAtaReturn([]) == None
  {
  }

  lemma FirstQualifyingIsFound(xs: seq<Descriptor>, k: nat)
    requires AllWellFormed(xs) && k < |xs| && Qualifies(xs[k]) && NoneQualifies(xs[..k])
    ensures FirstAtaReturn(SerialiseAll(xs)) == Some(Serialise(xs[k]))
  {
    var tail := xs[k..];
    assert xs == xs[..k] + tail;
    SerialiseAllAppends(xs[..k], tail);
    assert SerialiseAll(tail) == Serialise(tail[0]) + SerialiseAll(tail[1..]);
    hide SerialiseAll, FirstAtaReturn;
    StopsAtQualifying(tail[0], SerialiseAll(tail[1..]));
    SkipsPrefix(xs[..k], SerialiseAll(tail));
  }

  // ---- what a report carries ----

  datatype Report = Report(status: byte, error: byte, sectorCount: byte)

  // The signature RECOVERED ERROR / 00h,1Dh at the offsets of the buffer's own format.
  predicate HasSignature(s: seq<byte>) {
    || (|s| >= 14 && s[0] in {0x70, 0x71, 0xf0, 0xf1} && s[2] % 0x10 == 0x01 && s[12] == 0x00 && s[13] == 0x1d)
    || (|s| >= 8 && s[0] in {0x72, 0x73, 0xf2, 0xf3} && s[1] == 0x01 && s[2] == 0x00 && s[3] == 0x1d)
  }

  predicate CarriesFixed(s: seq<byte>, r: Report) {
    && HasSignature(s) && s[0] in {0x70, 0x71, 0xf0, 0xf1}
    && s[3] == r.error && s[4] == r.status && s[6] == r.sectorCount
  }

  ghost predicate CarriesInDescriptor(s: seq<byte>, r: Report) {
    && HasSignature(s) && s[0] in {0x72, 0x73, 0xf2, 0xf3}
    && DescriptorIsValid(s)
    && exists pre, x, post :: Reaches(Payload(s), pre, x, post)
                              && x.body[1] == r.error && x.body[3] == r.sectorCount && x.body[11] == r.status
  }

  ghost predicate Carries(s: seq<byte>, r: Report) {
    CarriesFixed(s, r) || CarriesInDescriptor(s, r)
  }

  // The three registers a successful read sees, gathered from either format.
  function ReportOf(s: seq<byte>): Option<Report> {
    if |s| >= 1 && IsDescriptorFormat(s) && DescriptorIsValid(s) && IsAtaPassThroughInfo(s) then
      var d := AtaReturnOf(s);
      if d.None? then None else Some(Report(d.value[13], d.value[3], d.value[5]))
    else if |s| >= 1 && IsFixedFormat(s) && FixedIsValid(s) && IsAtaPassThroughInfo(s) then
      Some(Report(s[4], s[3], s[6]))
    else None
  }

  lemma ReportIsCarried(s: seq<byte>, r: Report)
    ensures ReportOf(s) == Some(r) <==> Carries(s, r)
  {
    if |s| >= 1 && IsDescriptorFormat(s) && DescriptorIsValid(s) {
      DescriptorsCarried(s, r);
      hide CarriesInDescriptor, FirstAtaReturn;
    }
  }

  lemma DescriptorsCarried(s: seq<byte>, r: Report)
    requires |s| >= 1 && IsDescriptorFormat(s) && DescriptorIsValid(s)
    ensures CarriesInDescriptor(s, r) <==>
              && IsAtaPassThroughInfo(s) && AtaReturnOf(s).Some?
              && var d := AtaReturnOf(s).value; r == Report(d[13], d[3], d[5])
  {
    var p := Payload(s);
    var pre, x, rest := WalkDecomposes(p);
    forall pre, x, post | Reaches(p, pre, x, post)
      ensures FirstAtaReturn(p) == Some(Serialise(x))
    {
      ReachesIsFound(p, pre, x, post);
    }
    hide FirstAtaReturn, Reaches;
  }

  // Both readers, on every byte sequence of any length: exactly the carried registers come out.
  lemma ReadersAreExact(s: seq<byte>)
    ensures forall regs :: AtaSenseStatus(s) == Success(regs) <==>
                             exists r: Report :: Carries(s, r) && regs == Registers(r.status, r.error)
    ensures forall m :: AtaPowerModeFromSense(s) == Success(m) <==>
                          && m in {0x00, 0x01, 0x80, 0x81, 0x82, 0x83, 0xff}
                          && exists r: Report :: Carries(s, r) && r.sectorCount == m
  {
    forall r: Report
      ensures ReportOf(s) == Some(r) <==> Carries(s, r)
    {
      ReportIsCarried(s, r);
    }
    if ReportOf(s).Some? {
      assert Carries(s, ReportOf(s).value);
    }
  }

  // The two consumers agree: a mode is reported exactly when the status reader succeeds and the
  // sector count register holds one of the seven known modes.
  lemma ConsumersAgree(s: seq<byte>, m: byte)
    ensures AtaPowerModeFromSense(s) == Success(m) <==>
              && AtaSenseStatus(s).Success?
              && ReportOf(s).Some? && ReportOf(s).value.sectorCount == m
              && IsPowerMode(m)
    ensures AtaSenseStatus(s).Success? ==>
              && ReportOf(s).Some?
              && AtaSenseStatus(s).value == Registers(ReportOf(s).value.status, ReportOf(s).value.error)
  {
    if |s| >= 1 && IsFixedFormat(s) {
      assert !IsDescriptorFormat(s);
    }
  }

  // Success needs the signature, so stale registers under another sense key never get through.
  lemma SuccessNeedsSignature(s: seq<byte>)
    ensures AtaSenseStatus(s).Success? ==> HasSignature(s)
    ensures AtaPowerModeFromSense(s).Success? ==> HasSignature(s)
  {
    if |s| >= 1 {
      assert IsFixedFormat(s) <==> s[0] in {0x70, 0x71, 0xf0, 0xf1};
      assert IsDescriptorFormat(s) <==> s[0] in {0x72, 0x73, 0xf2, 0xf3};
    }
  }

  // The sense buffer the kernel did not write (96 zero bytes in the source) is always rejected.
  lemma ZeroBufferRejected(s: seq<byte>)
    requires forall i :: 0 <= i < |s| ==> s[i] == 0
    ensures AtaSenseStatus(s) == Failure(if s == [] then SenseTooShort else UnsupportedFormat)
    ensures AtaPowerModeFromSense(s) == Failure(if s == [] then SenseTooShort else UnsupportedFormat)
  {
  }

  // Every report fits both formats. A fixed buffer: any bytes, with the signature and the
  // registers written over them.
  function FixedSense(filler: seq<byte>, code: byte, r: Report): (s: seq<byte>)
    requires |filler| >= FIXED_SENSE_MIN_LEN
    ensures |s| == |filler|
  {
    filler[0 := code][2 := filler[2] / 0x10 * 0x10 + SK_RECOVERED_ERROR][3 := r.error][4 := r.status]
      [6 := r.sectorCount][12 := ASC_ATA_PT_INFO][13 := ASCQ_ATA_PT_INFO]
  }

  lemma FixedCarriesReport(filler: seq<byte>, code: byte, r: Report)
    requires |filler| >= FIXED_SENSE_MIN_LEN && code in {0x70, 0x71, 0xf0, 0xf1}
    ensures Carries(FixedSense(filler, code, r), r)
  {
    var s := FixedSense(filler, code, r);
    assert (filler[2] / 0x10 * 0x10 + SK_RECOVERED_ERROR) % 0x10 == SK_RECOVERED_ERROR;
    assert s[0] == code && s[3] == r.error && s[4] == r.status && s[6] == r.sectorCount;
  }

  // A status return descriptor: any payload long enough, with the registers written over it.
  function StatusReturn(filler: seq<byte>, r: Report): (x: Descriptor)
    requires ATA_RETURN_PAYLOAD_LEN <= |filler| < 0x100
    ensures WellFormed(x) && Qualifies(x)
  {
    Descriptor(DESC_ATA_RETURN, filler[1 := r.error][3 := r.sectorCount][11 := r.status])
  }

  // The same report built into the two formats, behind any skipped descriptors and among any
  // other bytes, gets the same answers from both readers: the report's own registers.
  lemma BuiltFormatsAgree(filler: seq<byte>, code: byte, header: seq<byte>, pre: seq<Descriptor>, payload: seq<byte>,
                          post: seq<Descriptor>, trailing: seq<byte>, r: Report)
    requires |filler| >= FIXED_SENSE_MIN_LEN && code in {0x70, 0x71, 0xf0, 0xf1}
    requires |header| == 7 && header[0] in {0x72, 0x73, 0xf2, 0xf3}
    requires header[1] == SK_RECOVERED_ERROR && header[2] == ASC_ATA_PT_INFO && header[3] == ASCQ_ATA_PT_INFO
    requires ATA_RETURN_PAYLOAD_LEN <= |payload| < 0x100 && NoneQualifies(pre) && AllWellFormed(post)
    requires |SerialiseAll(pre + [StatusReturn(payload, r)] + post)| < 0x100
    ensures var s := FixedSense(filler, code, r);
            var d := DescriptorSense(header, pre + [StatusReturn(payload, r)] + post, trailing);
            && AtaSenseStatus(s) == AtaSenseStatus(d) == Success(Registers(r.status, r.error))
            && AtaPowerModeFromSense(s) == AtaPowerModeFromSense(d) == KnownPowerMode(r.sectorCount)
  {
    var xs := pre + [StatusReturn(payload, r)] + post;
    var s, d := FixedSense(filler, code, r), DescriptorSense(header, xs, trailing);
    assert xs[..|pre|] == pre && xs[|pre|] == StatusReturn(payload, r);
    FixedCarriesReport(filler, code, r);
    DescriptorCarrier(header, xs, |pre|, trailing, r);
    hide FixedSense, DescriptorSense, Carries, SerialiseAll;
    FormatIndependence(s, d, r);
    ModeOfReport(s, r);
  }

  lemma ModeOfReport(s: seq<byte>, r: Report)
    requires Carries(s, r)
    ensures AtaPowerModeFromSense(s) == KnownPowerMode(r.sectorCount)
  {
    ReportIsCarried(s, r);
    hide Carries;
  }

  // The first qualifying descriptor of a buffer is the one whose registers it carries.
  lemma DescriptorCarrier(header: seq<byte>, xs: seq<Descriptor>, k: nat, trailing: seq<byte>, r: Report)
    requires |header| == 7 && header[0] in {0x72, 0x73, 0xf2, 0xf3}
    requires header[1] == SK_RECOVERED_ERROR && header[2] == ASC_ATA_PT_INFO && header[3] == ASCQ_ATA_PT_INFO
    requires AllWellFormed(xs) && |SerialiseAll(xs)| < 0x100
    requires k < |xs| && NoneQualifies(xs[..k]) && Qualifies(xs[k])
    requires xs[k].body[1] == r.error && xs[k].body[3] == r.sectorCount && xs[k].body[11] == r.status
    ensures Carries(DescriptorSense(header, xs, trailing), r)
  {
    var s := DescriptorSense(header, xs, trailing);
    DescriptorRoundTrip(header, xs, trailing);
    assert AtaReturnOf(s) == Some(Serialise(xs[k]));
    ReportIsCarried(s, r);
  }

  // The same registers give the same answers in either format, VALID bit or not, deferred or
  // not, whatever other descriptors and filler bytes surround them.
  lemma FormatIndependence(s: seq<byte>, t: seq<byte>, r: Report)
    requires Carries(s, r) && Carries(t, r)
    ensures AtaSenseStatus(s) == AtaSenseStatus(t) == Success(Registers(r.status, r.error))
    ensures AtaPowerModeFromSense(s) == AtaPowerModeFromSense(t)
  {
    ReportIsCarried(s, r);
    ReportIsCarried(t, r);
    ConsumersAgree(s, r.sectorCount);
    ConsumersAgree(t, r.sectorCount);
  }

  // Bytes after a valid buffer are never looked at: answers and failures stay the same.
  lemma TrailingBytesIgnored(s: seq<byte>, suffix: seq<byte>)
    requires |s| >= 1 && IsValid(s)
    ensures AtaSenseStatus(s + suffix) == AtaSenseStatus(s)
    ensures AtaPowerModeFromSense(s + suffix) == AtaPowerModeFromSense(s)
  {
    if IsDescriptorFormat(s) {
      assert Payload(s + suffix) == Payload(s);
    }
  }
}
