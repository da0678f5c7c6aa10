/** Recovering a temperature, its range and an over-temperature counter from a raw value. */
module Temperature {
  import opened Wrappers
  import opened Bytes
  import opened RawValue

  datatype Reading = Reading(value: int, lo: int, hi: int, count: int)

  datatype TypeError = UnknownType(typ: int)

  // The six low bytes of a raw value, lowest first, and the words they form.
  datatype Raw = Raw(b0: byte, b1: byte, b2: byte, b3: byte, b4: byte, b5: byte) {
    function Word0(): uint16 { LE2(b0, b1) }
    function Word1(): uint16 { LE2(b2, b3) }
    function Word2(): uint16 { LE2(b4, b5) }
  }

  function Split(raw: uint64): Raw {
    Raw(raw % 0x100, raw / 0x100 % 0x100, raw / 0x1_0000 % 0x100,
        raw / 0x100_0000 % 0x100, raw / 0x1_0000_0000 % 0x100, raw / 0x100_0000_0000 % 0x100)
  }

  lemma SplitWords(raw: uint64)
    ensures Split(raw).Word0() == raw % 0x1_0000
    ensures Split(raw).Word1() == raw / 0x1_0000 % 0x1_0000
    ensures Split(raw).Word2() == raw / 0x1_0000_0000 % 0x1_0000
  {
    WordBytes(raw);
    WordBytes(raw / 0x1_0000);
    WordBytes(raw / 0x1_0000_0000);
    assert raw / 0x1_0000 / 0x100 == raw / 0x100_0000;
    assert raw / 0x1_0000_0000 / 0x100 == raw / 0x100_0000_0000;
  }

  lemma WordBytes(n: nat)
    ensures 0x100 * (n / 0x100 % 0x100) + n % 0x100 == n % 0x1_0000
  {
  }

  // ---- the two plausibility checks ----

  // Which interpretations make a word a temperature: 01h as a signed byte, 10h as a signed word.
  function CheckTempWord(word: uint16): bv8 {
    if word <= 0x7f then 0x11
    else if word <= 0xff then 0x01
    else if 0xff80 <= word then 0x10
    else 0x00
  }

  // The target of the source's *int8 parameters.
  class Int8Ref {
    var value: int8
    constructor (v: int8)
      ensures value == v
    {
      value := v;
    }
  }

  // A range is plausible around t: within -60..120 and not the "-1, at most 0" filler pattern.
  predicate Plausible(t: int, lo: int, hi: int) {
    -60 <= lo <= t <= hi <= 120 && !(lo == -1 && hi <= 0)
  }

  predicate PlausiblePair(t: int, x: int, y: int) {
    Plausible(t, Min(x, y), Max(x, y))
  }

  // Writes the sorted pair through lo and hi if it is plausible, and touches neither otherwise.
  method CheckTempRange(t: int8, t1: int8, t2: int8, lo: Int8Ref, hi: Int8Ref) returns (ok: bool)
    requires lo != hi
    modifies lo, hi
    ensures ok == PlausiblePair(t, t1, t2)
    ensures ok <==> -60 <= Min(t1, t2) <= t <= Max(t1, t2) <= 120 && !(Min(t1, t2) == -1 && Max(t1, t2) <= 0)
    ensures ok ==> lo.value == Min(t1, t2) && hi.value == Max(t1, t2)
    ensures !ok ==> lo.value == old(lo.value) && hi.value == old(hi.value)
  {
    var x, y := t1, t2;
    if x > y {
      x, y := y, x;
    }
    if -60 <= x && x <= t && t <= y && y <= 120 && !(x == -1 && y <= 0) {
      lo.value := x;
      hi.value := y;
      return true;
    }
    return false;
  }

  // ---- the layouts ----

  // The byte layouts of the source's comments, most significant byte first.
  datatype Layout =
    | Bare          // 00 00 00 00 xx TT
    | PairAbove     // 00 00 HL LH xx TT
    | PairAdjacent  // 00 00 00 HL LH TT
    | ThreeWords    // xx HL xx LH xx TT
    | Counted       // CC CC HL LH xx TT

  predicate SignedByteWord(w: uint16) { w <= 0xff }

  predicate SignedWord(w: uint16) { w <= 0x7f || 0xff80 <= w }

  // Some one signed interpretation makes all three words temperatures.
  predicate CommonInterpretation(x: Raw) {
    || (SignedByteWord(x.Word0()) && SignedByteWord(x.Word1()) && SignedByteWord(x.Word2()))
    || (SignedWord(x.Word0()) && SignedWord(x.Word1()) && SignedWord(x.Word2()))
  }

  predicate TempWord(w: uint16) {
    SignedByteWord(w) || SignedWord(w)
  }

  // The two bytes a layout takes the range from.
  function Bounds(l: Layout, x: Raw): (int, int) {
    match l
    case Bare => (0, 0)
    case PairAbove => (Int8(x.b2), Int8(x.b3))
    case PairAdjacent => (Int8(x.b1), Int8(x.b2))
    case ThreeWords => (Int8(x.b2), Int8(x.b4))
    case Counted => (Int8(x.b2), Int8(x.b3))
  }

  // What a layout asks of the bytes outside the range.
  predicate ShapeFits(l: Layout, x: Raw) {
    match l
    case Bare => x.Word2() == 0 && x.Word1() == 0 && TempWord(x.Word0())
    case PairAbove => x.Word2() == 0 && TempWord(x.Word0())
    case PairAdjacent => x.Word2() == 0 && x.b3 == 0
    case ThreeWords => x.Word2() != 0 && CommonInterpretation(x)
    case Counted => x.Word2() != 0 && TempWord(x.Word0()) && x.Word2() < 0x7fff
                    && Max(Int8(x.b2), Int8(x.b3)) >= 40
  }

  predicate Fits(l: Layout, x: Raw) {
    ShapeFits(l, x) && (l == Bare || PlausiblePair(Int8(x.b0), Bounds(l, x).0, Bounds(l, x).1))
  }

  function Under(l: Layout, x: Raw): Reading {
    var (p, q) := Bounds(l, x);
    Reading(Int8(x.b0), Min(p, q), Max(p, q), if l == Counted then x.Word2() else 0)
  }

  // The value under the first layout that fits, in this order of priority; the low byte alone if
  // none does.
  function ReadingOf(x: Raw): Reading {
    if Fits(Bare, x) then Under(Bare, x)
    else if Fits(PairAbove, x) then Under(PairAbove, x)
    else if Fits(PairAdjacent, x) then Under(PairAdjacent, x)
    else if Fits(ThreeWords, x) then Under(ThreeWords, x)
    else if Fits(Counted, x) then Under(Counted, x)
    else Reading(Int8(x.b0), 0, 0, 0)
  }

  // The same choice, arranged by the tests the source makes.
  lemma ReadingByBranches(x: Raw)
    ensures ReadingOf(x) ==
            var t := Int8(x.b0);
            var above := (Int8(x.b2), Int8(x.b3));
            if x.Word2() == 0 then
              if x.Word1() == 0 && TempWord(x.Word0()) then Reading(t, 0, 0, 0)
              else if TempWord(x.Word0()) && PlausiblePair(t, above.0, above.1) then
                Reading(t, Min(above.0, above.1), Max(above.0, above.1), 0)
              else if x.b3 == 0 && PlausiblePair(t, Int8(x.b1), above.0) then
                Reading(t, Min(Int8(x.b1), above.0), Max(Int8(x.b1), above.0), 0)
              else Reading(t, 0, 0, 0)
            else if CommonInterpretation(x) && PlausiblePair(t, above.0, Int8(x.b4)) then
              Reading(t, Min(above.0, Int8(x.b4)), Max(above.0, Int8(x.b4)), 0)
            else if TempWord(x.Word0()) && x.Word2() < 0x7fff && PlausiblePair(t, above.0, above.1)
                    && Max(above.0, above.1) >= 40 then
              Reading(t, Min(above.0, above.1), Max(above.0, above.1), x.Word2())
            else Reading(t, 0, 0, 0)
  {
  }

  // The three masks have a bit in common exactly when one interpretation fits all three words.
  lemma MasksMeanInterpretations(x: Raw)
    ensures CheckTempWord(x.Word0()) != 0 <==> TempWord(x.Word0())
    ensures CheckTempWord(x.Word0()) & CheckTempWord(x.Word1()) & CheckTempWord(x.Word2()) != 0 <==>
              CommonInterpretation(x)
  {
    MaskBits(x.Word0());
    MaskBits(x.Word1());
    MaskBits(x.Word2());
    AndBits(CheckTempWord(x.Word0()), CheckTempWord(x.Word1()), CheckTempWord(x.Word2()));
  }

  lemma MaskBits(w: uint16)
    ensures CheckTempWord(w) in {0x00, 0x01, 0x10, 0x11}
    ensures CheckTempWord(w) in {0x01, 0x11} <==> SignedByteWord(w)
    ensures CheckTempWord(w) in {0x10, 0x11} <==> SignedWord(w)
  {
  }

  lemma AndBits(a: bv8, b: bv8, c: bv8)
    requires a in {0x00, 0x01, 0x10, 0x11} && b in {0x00, 0x01, 0x10, 0x11} && c in {0x00, 0x01, 0x10, 0x11}
    ensures a & b & c != 0 <==>
              || (a in {0x01, 0x11} && b in {0x01, 0x11} && c in {0x01, 0x11})
              || (a in {0x10, 0x11} && b in {0x10, 0x11} && c in {0x10, 0x11})
  {
  }

  function TemperatureOf(typ: int, raw: uint64): Result<Reading, TypeError> {
    if typ == TEMP10X then Success(Reading(raw % 0x1_0000 / 10, 0, 0, 0))
    else if typ == TEMP_MIN_MAX then Success(ReadingOf(Split(raw)))
    else Failure(UnknownType(typ))
  }

  // Tenths of a degree in the two low bytes, rounded down, and no range.
  lemma TenthsOfADegree(raw: uint64, degrees: nat, tenths: nat)
    requires tenths < 10 && LE2(raw % 0x100, raw / 0x100 % 0x100) == 10 * degrees + tenths
    ensures TemperatureOf(TEMP10X, raw) == Success(Reading(degrees, 0, 0, 0))
  {
    SplitWords(raw);
    hide LE2;
    TenthOf(raw % 0x1_0000, degrees, tenths);
  }

  lemma TenthOf(n: nat, degrees: nat, tenths: nat)
    requires tenths < 10 && n == 10 * degrees + tenths
    ensures n / 10 == degrees
  {
  }

  lemma UnknownTemperatureFails(typ: int, raw: uint64)
    ensures TemperatureOf(typ, raw).Failure? <==> typ !in {18, 19}
    ensures TemperatureOf(typ, raw).Failure? ==> TemperatureOf(typ, raw) == Failure(UnknownType(typ))
  {
  }

  method ParseAsTemperature(typ: int, valueRaw: uint64) returns (r: Result<Reading, TypeError>)
    ensures r == TemperatureOf(typ, valueRaw)
  {
    if typ == TEMP10X {
      return Success(Reading(valueRaw % 0x1_0000 / 10, 0, 0, 0));
    }
    if typ != TEMP_MIN_MAX {
      return Failure(UnknownType(typ));
    }
    hide ReadingOf, CommonInterpretation, TempWord, PlausiblePair, CheckTempWord, Int8;
    var word0 := valueRaw % 0x1_0000;
    var word1 := valueRaw / 0x1_0000 % 0x1_0000;
    var word2 := valueRaw / 0x1_0000_0000 % 0x1_0000;
    var raw0 := Int8(valueRaw % 0x100);
    var raw1 := Int8(valueRaw / 0x100 % 0x100);
    var raw2 := Int8(valueRaw / 0x1_0000 % 0x100);
    var raw3 := Int8(valueRaw / 0x100_0000 % 0x100);
    var raw4 := Int8(valueRaw / 0x1_0000_0000 % 0x100);
    var hi := new Int8Ref(0);
    var lo := new Int8Ref(0);

    ghost var x := Split(valueRaw);
    SplitWords(valueRaw);
    ReadingByBranches(x);
    MasksMeanInterpretations(x);

    r := Success(Reading(raw0, 0, 0, 0));
    var ctw0 := CheckTempWord(word0);
    if word2 == 0 {
      if word1 == 0 && ctw0 != 0 {
        return;
      }
      if ctw0 != 0 {
        var ok := CheckTempRange(raw0, raw2, raw3, lo, hi);
        if ok {
          return Success(Reading(raw0, lo.value, hi.value, 0));
        }
      }
      if raw3 == 0 {
        var ok := CheckTempRange(raw0, raw1, raw2, lo, hi);
        if ok {
          return Success(Reading(raw0, lo.value, hi.value, 0));
        }
      }
    } else if ctw0 != 0 {
      if ctw0 & CheckTempWord(word1) & CheckTempWord(word2) != 0x00 {
        var ok := CheckTempRange(raw0, raw2, raw4, lo, hi);
        if ok {
          return Success(Reading(raw0, lo.value, hi.value, 0));
        }
      }
      if word2 < 0x7fff {
        var ok := CheckTempRange(raw0, raw2, raw3, lo, hi);
        if ok && hi.value >= 40 {
          return Success(Reading(raw0, lo.value, hi.value, word2));
        }
      }
    }
  }
}
