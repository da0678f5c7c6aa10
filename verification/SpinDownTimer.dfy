/** The Standby timer codec (Table 52 of ACS-3) on int64 nanosecond durations. */
module SpinDownTimer {
  import opened Wrappers
  import opened Bytes
  import opened Durations

  datatype TimerError = NegativeDuration | NotEncodable

  // Go's byte(x): the low eight bits.
  function ToByte(x: int): byte {
    x % 0x100
  }

  // In steps of 5 seconds up to 20 minutes, then of 30 minutes up to 5 and a half hours. The
  // durations that reach a division are positive, where Go's / and % are Euclidean.
  function EncodeAtaSpinDownTimeout(d: int64): Result<byte, TimerError> {
    if d == 0 then Success(0)
    else if d < 0 then Failure(NegativeDuration)
    else if d <= 20 * MINUTE && d % 5_000_000_000 == 0 then Success(ToByte(d / 5_000_000_000))
    else if d <= 5 * HOUR + 30 * MINUTE && d % 1_800_000_000_000 == 0 then
      Success(ToByte(ToByte(d / 1_800_000_000_000) + 240))
    else Failure(NotEncodable)
  }

  function DecodeAtaSpinDownTimeout(v: byte): int64 {
    if v == 0 then 0
    else if v <= 240 then v * 5 * SECOND
    else if v <= 251 then (v - 240) * 30 * MINUTE
    else if v == 252 then 21 * MINUTE
    else if v == 255 then 21 * MINUTE + 15 * SECOND
    else 0
  }

  // Table 52 in nanoseconds: 5 second steps, 30 minute steps, 21 minutes, the vendor specific and
  // the reserved value the source reads as zero, and 21 minutes 15 seconds.
  lemma DecodedTable(v: byte)
    ensures DecodeAtaSpinDownTimeout(v) ==
            if v <= 240 then v * 5_000_000_000
            else if v <= 251 then (v - 240) * 1_800_000_000_000
            else if v == 252 then 1_260_000_000_000
            else if v == 255 then 1_275_000_000_000
            else 0
  {
  }

  lemma ShortSteps(n: nat)
    ensures n * 5_000_000_000 % 5_000_000_000 == 0 && n * 5_000_000_000 / 5_000_000_000 == n
    ensures n % 5_000_000_000 == 0 ==> n / 5_000_000_000 * 5_000_000_000 == n
  {
  }

  lemma LongSteps(n: nat)
    ensures n * 1_800_000_000_000 % 1_800_000_000_000 == 0 && n * 1_800_000_000_000 / 1_800_000_000_000 == n
    ensures n % 1_800_000_000_000 == 0 ==> n / 1_800_000_000_000 * 1_800_000_000_000 == n
  {
  }

  lemma EncodeShort(d: int64, v: byte)
    requires v <= 240 && d == v * 5_000_000_000
    ensures EncodeAtaSpinDownTimeout(d) == Success(v)
  {
    ShortSteps(v);
  }

  lemma EncodeLong(d: int64, v: byte)
    requires 241 <= v <= 251 && d == (v - 240) * 1_800_000_000_000
    ensures EncodeAtaSpinDownTimeout(d) == Success(v)
  {
    LongSteps(v - 240);
  }

  // Every accepted duration is a standard value's.
  lemma StandardValue(d: int64) returns (v: byte)
    requires EncodeAtaSpinDownTimeout(d).Success?
    ensures v <= 251 && d == if v <= 240 then v * 5_000_000_000 else (v - 240) * 1_800_000_000_000
  {
    if d <= 20 * MINUTE {
      ShortSteps(d);
      v := d / 5_000_000_000;
    } else {
      LongSteps(d);
      v := d / 1_800_000_000_000 + 240;
    }
  }

  // encode . decode is the identity on the standard values 0..251, and on no other value.
  lemma EncodeInvertsDecode(v: byte)
    ensures EncodeAtaSpinDownTimeout(DecodeAtaSpinDownTimeout(v)) == Success(v) <==> v <= 251
    ensures v in {252, 255} ==> EncodeAtaSpinDownTimeout(DecodeAtaSpinDownTimeout(v)) == Failure(NotEncodable)
  {
    var d := DecodeAtaSpinDownTimeout(v);
    DecodedTable(v);
    hide DecodeAtaSpinDownTimeout;
    if v <= 251 {
      hide EncodeAtaSpinDownTimeout;
      if v <= 240 {
        EncodeShort(d, v);
      } else {
        EncodeLong(d, v);
      }
    }
  }

  // decode . encode is the identity on everything encode accepts, and neither byte conversion
  // loses anything.
  lemma DecodeInvertsEncode(d: int64)
    requires EncodeAtaSpinDownTimeout(d).Success?
    ensures EncodeAtaSpinDownTimeout(d).value <= 251
    ensures DecodeAtaSpinDownTimeout(EncodeAtaSpinDownTimeout(d).value) == d
    ensures d <= 20 * MINUTE ==> d / 5_000_000_000 == EncodeAtaSpinDownTimeout(d).value
    ensures d > 20 * MINUTE ==> d / 1_800_000_000_000 + 240 == EncodeAtaSpinDownTimeout(d).value
  {
    var v := StandardValue(d);
    DecodedTable(v);
    hide EncodeAtaSpinDownTimeout, DecodeAtaSpinDownTimeout;
    if v <= 240 {
      EncodeShort(d, v);
      ShortSteps(v);
    } else {
      EncodeLong(d, v);
      LongSteps(v - 240);
    }
  }

  // Encoding finds the standard value of a duration: from 0 to 240 for so many 5 second steps,
  // from 241 to 251 for so many half hours.
  lemma EncodedTable(d: int64, v: byte)
    ensures EncodeAtaSpinDownTimeout(d) == Success(v) <==>
              || (v <= 240 && d == v * 5_000_000_000)
              || (241 <= v <= 251 && d == (v - 240) * 1_800_000_000_000)
    ensures EncodeAtaSpinDownTimeout(d).Failure? ==>
              EncodeAtaSpinDownTimeout(d) == Failure(if d < 0 then NegativeDuration else NotEncodable)
  {
    DecodedTable(v);
    EncodeInvertsDecode(v);
    hide DecodeAtaSpinDownTimeout;
    if EncodeAtaSpinDownTimeout(d) == Success(v) {
      DecodeInvertsEncode(d);
    }
    RefusedExactly(d);
    hide EncodeAtaSpinDownTimeout;
  }

  lemma RefusedExactly(d: int64)
    ensures EncodeAtaSpinDownTimeout(d).Failure? ==>
              EncodeAtaSpinDownTimeout(d) == Failure(if d < 0 then NegativeDuration else NotEncodable)
  {
  }

  // Accepted durations are exactly the ones a standard value stands for.
  lemma EncodableExactly(d: int64)
    ensures EncodeAtaSpinDownTimeout(d).Success? <==>
              exists v: byte :: v <= 251 && DecodeAtaSpinDownTimeout(v) == d
  {
    if EncodeAtaSpinDownTimeout(d).Success? {
      DecodeInvertsEncode(d);
    }
    forall v: byte | v <= 251 && DecodeAtaSpinDownTimeout(v) == d
      ensures EncodeAtaSpinDownTimeout(d).Success?
    {
      EncodeInvertsDecode(v);
    }
  }

  lemma EncodingIsIncreasing(d: int64, e: int64)
    requires EncodeAtaSpinDownTimeout(d).Success? && EncodeAtaSpinDownTimeout(e).Success?
    ensures d < e <==> EncodeAtaSpinDownTimeout(d).value < EncodeAtaSpinDownTimeout(e).value
  {
    DecodeInvertsEncode(d);
    DecodeInvertsEncode(e);
    hide EncodeAtaSpinDownTimeout;
  }
}
