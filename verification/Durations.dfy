/** Reading a raw attribute value as a duration in int64 nanoseconds. */
module Durations {
  import opened Wrappers
  import opened Bytes
  import opened RawValue
  import opened Temperature

  const MILLISECOND := 1_000_000
  const SECOND := 1_000_000_000
  const MINUTE := 60_000_000_000
  const HOUR := 3_600_000_000_000

  // Every product and sum of the source is one of int64 values and wraps.
  function ParseAsDuration(typ: int, raw: uint64): Result<int64, TypeError> {
    if typ == MIN2HOUR then Success(Int64(Int64(raw % 0x1_0000_0000) * MINUTE))
    else if typ == SEC2HOUR then Success(Int64(Int64(raw) * SECOND))
    else if typ == HALFMIN2HOUR then Success(Int64(Int64(Int64(raw) * 30) * SECOND))
    else if typ == MSEC24HOUR32 then
      var hours := raw % 0x1_0000_0000;
      var milliseconds := raw / 0x1_0000_0000;
      Success(Int64(Int64(Int64(hours) * HOUR) + Int64(Int64(milliseconds) * MILLISECOND)))
    else Failure(UnknownType(typ))
  }

  predicate IsDurationType(typ: int) {
    typ in {MIN2HOUR, SEC2HOUR, HALFMIN2HOUR, MSEC24HOUR32}
  }

  // Any other type is refused by name.
  lemma UnknownDurationFails(typ: int, raw: uint64)
    ensures ParseAsDuration(typ, raw).Failure? <==> typ !in {14, 15, 16, 17}
    ensures ParseAsDuration(typ, raw).Failure? ==> ParseAsDuration(typ, raw) == Failure(UnknownType(typ))
  {
  }

  // The time the drive meant, as an unbounded number of nanoseconds.
  function Nanoseconds(typ: int, raw: uint64): nat
    requires IsDurationType(typ)
  {
    if typ == MIN2HOUR then raw % 0x1_0000_0000 * MINUTE
    else if typ == SEC2HOUR then raw * SECOND
    else if typ == HALFMIN2HOUR then raw * (30 * SECOND)
    else raw % 0x1_0000_0000 * HOUR + raw / 0x1_0000_0000 * MILLISECOND
  }

  // However the wrapping steps are nested, the result is the true time modulo 2^64 ...
  lemma DurationWrapsOnce(typ: int, raw: uint64)
    requires IsDurationType(typ)
    ensures ParseAsDuration(typ, raw) == Success(Int64(Nanoseconds(typ, raw)))
  {
    hide Int64;
    if typ == MIN2HOUR {
      Int64OfProduct(raw % 0x1_0000_0000, MINUTE);
    } else if typ == SEC2HOUR {
      Int64OfProduct(raw, SECOND);
    } else if typ == HALFMIN2HOUR {
      Int64OfProduct(raw, 30);
      Int64OfProduct(raw * 30, SECOND);
      assert raw * 30 * SECOND == raw * (30 * SECOND);
    } else {
      Int64OfProduct(raw % 0x1_0000_0000, HOUR);
      Int64OfProduct(raw / 0x1_0000_0000, MILLISECOND);
      Int64OfSum(raw % 0x1_0000_0000 * HOUR, raw / 0x1_0000_0000 * MILLISECOND);
    }
  }

  // ... so it is exact precisely while the true time fits int64, ...
  lemma DurationIsExactWhenItFits(typ: int, raw: uint64)
    requires IsDurationType(typ)
    ensures ParseAsDuration(typ, raw) == Success(Nanoseconds(typ, raw)) <==> Nanoseconds(typ, raw) < TWO_63
  {
    DurationWrapsOnce(typ, raw);
    hide Nanoseconds, ParseAsDuration;
    var n: int := Nanoseconds(typ, raw);
  }

  // ... which is up to these counts and not one further.
  lemma TightBounds(typ: int, raw: uint64)
    requires typ in {MIN2HOUR, SEC2HOUR, HALFMIN2HOUR}
    ensures Nanoseconds(typ, raw) < TWO_63 <==>
            if typ == MIN2HOUR then raw % 0x1_0000_0000 <= 153_722_867
            else if typ == SEC2HOUR then raw <= 9_223_372_036
            else raw <= 307_445_734
  {
  }

  lemma TightBoundsOfHours(raw: uint64)
    ensures var hours, milliseconds := raw % 0x1_0000_0000, raw / 0x1_0000_0000;
            Nanoseconds(MSEC24HOUR32, raw) < TWO_63 <==> hours * 3_600_000 + milliseconds <= 9_223_372_036_854
  {
  }

  // The attribute bytes behind an hours-and-milliseconds value: hours in vendor bytes 0..3,
  // milliseconds in vendor bytes 4, 5 and the reserved byte, below 2^24 for that reason.
  lemma Msec24Hour32Bytes(s: Source)
    ensures var raw, v := RawValueOf(MSEC24HOUR32, s), s.vendorBytes;
            var ms := LE2(v[4], v[5]) + s.reserved * 0x1_0000;
            && ms < 0x100_0000
            && Nanoseconds(MSEC24HOUR32, raw)
               == (LE2(v[0], v[1]) + LE2(v[2], v[3]) * 0x1_0000) * HOUR + ms * MILLISECOND
  {
    var raw, v := RawValueOf(MSEC24HOUR32, s), s.vendorBytes;
    HighAndLow(LE2(v[0], v[1]) + LE2(v[2], v[3]) * 0x1_0000, LE2(v[4], v[5]) + s.reserved * 0x1_0000, raw);
  }

  lemma HighAndLow(low: uint32, high: nat, raw: nat)
    requires raw == low + high * 0x1_0000_0000
    ensures raw % 0x1_0000_0000 == low && raw / 0x1_0000_0000 == high
  {
  }
}
