/** Sense data returned for an ATA PASS-THROUGH command: the two wire formats of section 4.5 of
    SPC-4, the walk that looks for the ATA Status Return descriptor (section 12.2 of SAT-3), and
    the two readers built on it. */
module AtaSense {
  import opened Wrappers
  import opened Bytes

  const SENSE_HEADER_LEN := 8
  const DESC_HEADER_LEN := 2
  const ATA_RETURN_PAYLOAD_LEN := 12
  const FIXED_SENSE_MIN_LEN := 14

  const FIXED_FORMAT := 0x70
  const DESCRIPTOR_FORMAT := 0x72
  const SK_RECOVERED_ERROR := 0x01
  const ASC_ATA_PT_INFO := 0x00
  const ASCQ_ATA_PT_INFO := 0x1d
  const DESC_ATA_RETURN := 0x09

  // The error messages of the source, reduced to which check failed.
  datatype SenseError =
    | SenseTooShort
    | DescriptorSenseTooShort
    | FixedSenseTooShort
    | UnsupportedFormat
    | NoAtaReturnDescriptor
    | CommandFailed
    | UnexpectedSignature
    | UnknownPowerMode

  datatype Registers = Registers(status: byte, error: byte)

  // ---- views ----

  // Mask 7fh: the VALID bit is dropped.
  function ResponseCode(s: seq<byte>): byte
    requires |s| >= 1
  {
    s[0] % 0x80
  }

  // Mask 7eh on top: current (70h, 72h) and deferred (71h, 73h) reports fall together.
  function Format(s: seq<byte>): byte
    requires |s| >= 1
  {
    ResponseCode(s) / 2 * 2
  }

  predicate IsFixedFormat(s: seq<byte>)
    requires |s| >= 1
  {
    Format(s) == FIXED_FORMAT
  }

  predicate IsDescriptorFormat(s: seq<byte>)
    requires |s| >= 1
  {
    Format(s) == DESCRIPTOR_FORMAT
  }

  predicate FixedIsValid(s: seq<byte>) {
    |s| >= FIXED_SENSE_MIN_LEN
  }

  predicate DescriptorIsValid(s: seq<byte>) {
    |s| >= SENSE_HEADER_LEN && |s| >= SENSE_HEADER_LEN + s[7]
  }

  predicate IsValid(s: seq<byte>)
    requires |s| >= 1
  {
    if IsDescriptorFormat(s) then DescriptorIsValid(s)
    else IsFixedFormat(s) && FixedIsValid(s)
  }

  // The sense key is the low nibble of byte 2 in the fixed format, all of byte 1 in the other.
  predicate IsAtaPassThroughInfo(s: seq<byte>)
    requires |s| >= 1
    requires if IsFixedFormat(s) then FixedIsValid(s) else |s| >= SENSE_HEADER_LEN
  {
    if IsFixedFormat(s) then
      s[2] % 0x10 == SK_RECOVERED_ERROR && s[12] == ASC_ATA_PT_INFO && s[13] == ASCQ_ATA_PT_INFO
    else
      s[1] == SK_RECOVERED_ERROR && s[2] == ASC_ATA_PT_INFO && s[3] == ASCQ_ATA_PT_INFO
  }

  function Payload(s: seq<byte>): seq<byte>
    requires DescriptorIsValid(s)
  {
    s[SENSE_HEADER_LEN..SENSE_HEADER_LEN + s[7]]
  }

  // ---- the descriptor walk ----

  // Reference parser over the descriptor area: consume one code/length/value triple at a time.
  function FirstAtaReturn(p: seq<byte>): (d: Option<seq<byte>>)
    ensures d.Some? ==> |d.value| >= DESC_HEADER_LEN + ATA_RETURN_PAYLOAD_LEN
    decreases |p|
  {
    if |p| < DESC_HEADER_LEN || |p| < DESC_HEADER_LEN + p[1] then None
    else
      var size := DESC_HEADER_LEN + p[1];
      if p[0] == DESC_ATA_RETURN && p[1] >= ATA_RETURN_PAYLOAD_LEN then Some(p[..size])
      else FirstAtaReturn(p[size..])
  }

  function AtaReturnOf(s: seq<byte>): (d: Option<seq<byte>>)
    ensures d.Some? ==> |d.value| >= DESC_HEADER_LEN + ATA_RETURN_PAYLOAD_LEN
  {
    if DescriptorIsValid(s) then FirstAtaReturn(Payload(s)) else None
  }

  // The source's loop. It takes at most half as many turns as the descriptor area has bytes,
  // rounded up: a stray last byte takes a turn too.
  method FindAtaReturnDescriptor(sense: seq<byte>) returns (d: seq<byte>, ok: bool, ghost turns: nat)
    ensures AtaReturnOf(sense) == if ok then Some(d) else None
    ensures ok ==> |d| >= DESC_HEADER_LEN + ATA_RETURN_PAYLOAD_LEN
    ensures DescriptorIsValid(sense) ==> 2 * turns <= |Payload(sense)| + 1
  {
    d, turns := [], 0;
    if !DescriptorIsValid(sense) {
      return d, false, turns;
    }
    var payload := Payload(sense);
    var offset := 0;
    while offset < |payload|
      invariant 0 <= offset <= |payload|
      invariant FirstAtaReturn(payload[offset..]) == FirstAtaReturn(payload)
      invariant 2 * turns <= offset
    {
      turns := turns + 1;
      var code := payload[offset];
      if offset + DESC_HEADER_LEN > |payload| {
        return d, false, turns;
      }
      var payloadLen := payload[offset + 1];
      if offset + DESC_HEADER_LEN + payloadLen > |payload| {
        return d, false, turns;
      }
      var next := offset + DESC_HEADER_LEN + payloadLen;
      assert payload[offset..][DESC_HEADER_LEN + payloadLen..] == payload[next..];
      if code == DESC_ATA_RETURN && payloadLen >= ATA_RETURN_PAYLOAD_LEN {
        assert payload[offset..][..DESC_HEADER_LEN + payloadLen] == payload[offset..next];
        return payload[offset..next], true, turns;
      }
      offset := next;
    }
    ok := false;
  }

  // ---- the two readers ----

  function AtaSenseStatus(sense: seq<byte>): Result<Registers, SenseError> {
    if |sense| < 1 then Failure(SenseTooShort)
    else if IsDescriptorFormat(sense) then
      if !DescriptorIsValid(sense) then Failure(DescriptorSenseTooShort)
      else
        var d := AtaReturnOf(sense);
        if IsAtaPassThroughInfo(sense) then
          if d.None? then Failure(NoAtaReturnDescriptor)
          else Success(Registers(d.value[13], d.value[3]))
        else if d.Some? then Failure(CommandFailed)
        else Failure(UnexpectedSignature)
    else if IsFixedFormat(sense) then
      if !FixedIsValid(sense) then Failure(FixedSenseTooShort)
      else if IsAtaPassThroughInfo(sense) then Success(Registers(sense[4], sense[3]))
      else Failure(CommandFailed)
    else Failure(UnsupportedFormat)
  }

  const STANDBY: byte := 0x00
  const STANDBY_Y: byte := 0x01
  const IDLE: byte := 0x80
  const IDLE_A: byte := 0x81
  const IDLE_B: byte := 0x82
  const IDLE_C: byte := 0x83
  const ACTIVE_OR_IDLE: byte := 0xff

  predicate IsPowerMode(m: byte) {
    m in {STANDBY, STANDBY_Y, IDLE, IDLE_A, IDLE_B, IDLE_C, ACTIVE_OR_IDLE}
  }

  function KnownPowerMode(nsect: byte): Result<byte, SenseError> {
    if IsPowerMode(nsect) then Success(nsect) else Failure(UnknownPowerMode)
  }

  function AtaPowerModeFromSense(sense: seq<byte>): Result<byte, SenseError> {
    if |sense| < 1 then Failure(SenseTooShort)
    else if IsDescriptorFormat(sense) then
      if !DescriptorIsValid(sense) then Failure(DescriptorSenseTooShort)
      else if !IsAtaPassThroughInfo(sense) then Failure(UnexpectedSignature)
      else
        var d := AtaReturnOf(sense);
        if d.None? then Failure(NoAtaReturnDescriptor) else KnownPowerMode(d.value[5])
    else if IsFixedFormat(sense) then
      if !FixedIsValid(sense) then Failure(FixedSenseTooShort)
      else if !IsAtaPassThroughInfo(sense) then Failure(UnexpectedSignature)
      else KnownPowerMode(sense[6])
    else Failure(UnsupportedFormat)
  }
}
