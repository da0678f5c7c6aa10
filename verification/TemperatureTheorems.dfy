/** What the temperature heuristic guarantees for every raw value, and which readings each byte
    layout of the source's comments survives. */
module TemperatureTheorems {
  import opened Wrappers
  import opened Bytes
  import opened RawValue
  import opened Temperature

  // ---- soundness for every 64-bit value ----

  predicate NoRange(r: Reading) {
    r.lo == 0 && r.hi == 0 && r.count == 0
  }

  lemma SoundReading(raw: uint64)
    ensures TemperatureOf(TEMP_MIN_MAX, raw).Success?
    ensures var r, x := TemperatureOf(TEMP_MIN_MAX, raw).value, Split(raw);
            && r.value == Int8(raw % 0x100)
            && (NoRange(r)
                || (&& -60 <= r.lo <= r.value <= r.hi <= 120 && !(r.lo == -1 && r.hi <= 0)
                    && exists l: Layout :: Fits(l, x) && {r.lo, r.hi} == {Bounds(l, x).0, Bounds(l, x).1}))
            && (r.count != 0 ==> r.hi >= 40 && r.count == raw / 0x1_0000_0000 % 0x1_0000 < 0x7fff)
  {
    var x := Split(raw);
    SplitWords(raw);
    assert forall l: Layout {:trigger Fits(l, x)} :: Fits(l, x) ==>
      var r := Under(l, x); {r.lo, r.hi} == {Bounds(l, x).0, Bounds(l, x).1};
  }

  // A word's value under the interpretation that admits it is its low byte, sign and all.
  function ByteReading(w: uint16): int
    requires SignedByteWord(w)
  {
    if w < 0x80 then w else w - 0x100
  }

  function WordReading(w: uint16): int
    requires SignedWord(w)
  {
    if w < 0x8000 then w else w - 0x1_0000
  }

  // The two interpretations: a word fits one if it is some temperature extended to 16 bits that way.
  lemma InterpretationsMean(w: uint16)
    ensures SignedByteWord(w) <==> exists t: int8 :: w == LE2(Uint8(t), 0)
    ensures SignedWord(w) <==> exists t: int8 :: w == LE2(Uint8(t), if t < 0 then 0xff else 0)
  {
    if SignedByteWord(w) {
      assert w == LE2(Uint8(Int8(w)), 0);
    }
    if SignedWord(w) {
      var t := WordReading(w);
      assert w == LE2(Uint8(t), if t < 0 then 0xff else 0);
    }
  }

  // The three-word layout reports the three words themselves, all read in one way.
  lemma ThreeWordsReadsWords(x: Raw)
    requires CommonInterpretation(x)
    ensures || (&& SignedByteWord(x.Word0()) && SignedByteWord(x.Word1()) && SignedByteWord(x.Word2())
                && ByteReading(x.Word0()) == Int8(x.b0)
                && (ByteReading(x.Word1()), ByteReading(x.Word2())) == Bounds(ThreeWords, x))
            || (&& SignedWord(x.Word0()) && SignedWord(x.Word1()) && SignedWord(x.Word2())
                && WordReading(x.Word0()) == Int8(x.b0)
                && (WordReading(x.Word1()), WordReading(x.Word2())) == Bounds(ThreeWords, x))
  {
    WordValues(x.b0, x.b1);
    WordValues(x.b2, x.b3);
    WordValues(x.b4, x.b5);
  }

  lemma WordValues(lo: byte, hi: byte)
    ensures SignedByteWord(LE2(lo, hi)) ==> ByteReading(LE2(lo, hi)) == Int8(lo)
    ensures SignedWord(LE2(lo, hi)) ==> WordReading(LE2(lo, hi)) == Int8(lo)
  {
  }

  // ---- from vendor bytes to a reading ----

  function RawFrom(v: VendorBytes): Raw {
    Raw(v[0], v[1], v[2], v[3], v[4], v[5])
  }

  lemma SplitInvertsPacking(v: VendorBytes)
    ensures Split(LE6(v)) == RawFrom(v)
  {
    var w0: int, w1: int, w2: int := LE2(v[0], v[1]), LE2(v[2], v[3]), LE2(v[4], v[5]);
    var upper: int := w1 + w2 * 0x1_0000;
    assert LE6(v) == w0 + upper * 0x1_0000;
    assert LE6(v) / 0x1_0000 == upper && upper / 0x1_0000 == w2;
    WordSplits(v[0], v[1], upper);
    WordSplits(v[2], v[3], w2);
    WordSplits(v[4], v[5], 0);
    QuotientsNest(LE6(v));
  }

  lemma QuotientsNest(n: nat)
    ensures n / 0x100_0000 == n / 0x1_0000 / 0x100
    ensures n / 0x1_0000_0000 == n / 0x1_0000 / 0x1_0000
    ensures n / 0x100_0000_0000 == n / 0x1_0000 / 0x1_0000 / 0x100
  {
  }

  lemma WordSplits(lo: byte, hi: byte, rest: nat)
    ensures (LE2(lo, hi) + rest * 0x1_0000) % 0x100 == lo
    ensures (LE2(lo, hi) + rest * 0x1_0000) / 0x100 % 0x100 == hi
  {
    assert LE2(lo, hi) + rest * 0x1_0000 == 0x100 * (hi + 0x100 * rest) + lo;
  }

  // A temperature attribute's bytes, packed and parsed.
  function Parsed(v: VendorBytes): Reading {
    ReadingOf(RawFrom(v))
  }

  lemma ParsedIsPackThenParse(v: VendorBytes, reserved: byte, current: byte, worst: byte)
    ensures TemperatureOf(TEMP_MIN_MAX, RawValueOf(TEMP_MIN_MAX, Source(v, reserved, current, worst)))
            == Success(Parsed(v))
  {
    SplitInvertsPacking(v);
  }

  // The bytes marked xx in the low word are free only as far as the word stays a temperature.
  predicate FillerFits(t: int8, xx: byte) {
    xx == 0 || (xx == 0xff && t < 0)
  }

  lemma LowWord(t: int8, xx: byte)
    ensures TempWord(LE2(Uint8(t), xx)) <==> FillerFits(t, xx)
  {
  }

  // 00 00 00 00 xx TT: a lone temperature comes back unless the filler byte itself makes a
  // plausible range with 0.
  lemma BareLayout(t: int8, xx: byte)
    ensures Parsed([Uint8(t), xx, 0, 0, 0, 0]) == Reading(t, 0, 0, 0) <==>
              FillerFits(t, xx) || !PlausiblePair(t, Int8(xx), 0)
  {
    LowWord(t, xx);
    ReadingByBranches(RawFrom([Uint8(t), xx, 0, 0, 0, 0]));
  }

  // 00 00 HL LH xx TT, bounds p and q in either order: exact unless the filler byte spoils the
  // low word. (A range 0..0 is also what "no range" looks like, so it survives a filler that
  // makes no range of its own.)
  lemma PairAboveLayout(t: int8, p: int8, q: int8, xx: byte)
    requires PlausiblePair(t, p, q)
    ensures Parsed([Uint8(t), xx, Uint8(p), Uint8(q), 0, 0]) == Reading(t, Min(p, q), Max(p, q), 0) <==>
              || FillerFits(t, xx)
              || (p == 0 && q == 0 && !PlausiblePair(t, Int8(xx), 0))
  {
    LowWord(t, xx);
    ReadingByBranches(RawFrom([Uint8(t), xx, Uint8(p), Uint8(q), 0, 0]));
  }

  // 00 00 00 HL LH TT: misread exactly when the maximum is -1 and sits next to the temperature;
  // the two bytes then look like one negative word and the range becomes lo..0.
  lemma PairAdjacentLayout(t: int8, p: int8, q: int8)
    requires PlausiblePair(t, p, q)
    ensures Parsed([Uint8(t), Uint8(p), Uint8(q), 0, 0, 0]) == Reading(t, Min(p, q), Max(p, q), 0) <==>
              !(p == -1 && q < p)
    ensures p == -1 && q < p ==> Parsed([Uint8(t), Uint8(p), Uint8(q), 0, 0, 0]) == Reading(t, q, 0, 0)
  {
    LowWord(t, Uint8(p));
    ReadingByBranches(RawFrom([Uint8(t), Uint8(p), Uint8(q), 0, 0, 0]));
  }

  // xx HL xx LH xx TT, any three filler bytes. A range other than 0..0 is read back exactly when
  // the words have a common interpretation; but if the top word is zero the layout is not
  // recognised, and the range survives only as the shorter 00 00 HL LH xx TT.
  lemma ThreeWordsLayout(t: int8, p: int8, q: int8, x0: byte, x1: byte, x2: byte)
    requires PlausiblePair(t, p, q) && !(p == 0 && q == 0)
    ensures var x := RawFrom([Uint8(t), x0, Uint8(p), x1, Uint8(q), x2]);
            ReadingOf(x) == Reading(t, Min(p, q), Max(p, q), 0) <==>
              if q == 0 && x2 == 0 then FillerFits(t, x0) && x1 == 0 else CommonInterpretation(x)
  {
    var x := RawFrom([Uint8(t), x0, Uint8(p), x1, Uint8(q), x2]);
    LowWord(t, x0);
    ReadingByBranches(x);
    hide ReadingOf;
  }

  // The range 0..0 looks like "no range", so it is read back unless the filler bytes make up a
  // range of their own.
  lemma ThreeWordsZeroRange(x0: byte, x1: byte, x2: byte)
    ensures Parsed([0, x0, 0, x1, 0, x2]) == Reading(0, 0, 0, 0) <==>
              if x2 != 0 then !(x0 == 0 && x2 < 0x80 && PlausiblePair(0, Int8(x1), 0) && Int8(x1) >= 40)
              else if x1 != 0 then !(x0 == 0 && PlausiblePair(0, Int8(x1), 0))
              else x0 == 0 || !PlausiblePair(0, Int8(x0), 0)
  {
    var x := RawFrom([0, x0, 0, x1, 0, x2]);
    LowWord(0, x0);
    ReadingByBranches(x);
    hide ReadingOf;
  }

  // The high byte of a word holding t, as a signed byte (zero) or a signed word (the sign).
  function Fill(asWord: bool, t: int8): byte {
    if asWord && t < 0 then 0xff else 0
  }

  // With the fillers drives use: exact in the signed-byte form; in the signed-word form misread
  // exactly when the top word is a maximum of 0 over a negative minimum.
  lemma ThreeWordsSignedForms(t: int8, p: int8, q: int8, asWord: bool)
    requires PlausiblePair(t, p, q)
    ensures Parsed([Uint8(t), Fill(asWord, t), Uint8(p), Fill(asWord, p), Uint8(q), Fill(asWord, q)])
            == Reading(t, Min(p, q), Max(p, q), 0) <==>
              !(asWord && q == 0 && p < 0)
  {
    if p == 0 && q == 0 {
      ThreeWordsZeroRange(0, 0, 0);
    } else {
      ThreeWordsLayout(t, p, q, Fill(asWord, t), Fill(asWord, p), Fill(asWord, q));
    }
  }

  // What a misread signed-word range becomes: -1 replaces the maximum 0, or the range is lost.
  lemma ThreeWordsMisread(t: int8, p: int8)
    requires PlausiblePair(t, p, 0) && p < 0
    ensures Parsed([Uint8(t), Fill(true, t), Uint8(p), 0xff, 0, 0])
            == if t < 0 then Reading(t, p, -1, 0) else Reading(t, 0, 0, 0)
  {
    var x := RawFrom([Uint8(t), Fill(true, t), Uint8(p), 0xff, 0, 0]);
    LowWord(t, Fill(true, t));
    ReadingByBranches(x);
    hide ReadingOf, TempWord;
    assert x.Word2() == 0 && x.Word1() != 0 && Int8(x.b0) == t && Int8(x.b2) == p && Int8(x.b3) == -1;
    assert ReadingOf(x) == if PlausiblePair(t, p, -1) then Reading(t, p, -1, 0) else Reading(t, 0, 0, 0);
  }

  // CC CC HL LH xx TT: exact when the maximum is at least 40, the counter below 7fffh and the
  // filler fits, except that a counter of one byte next to a zero bound is taken for a third
  // temperature word whenever it makes a plausible range itself.
  lemma CountedLayout(t: int8, p: int8, q: int8, xx: byte, c0: byte, c1: byte)
    requires PlausiblePair(t, p, q) && LE2(c0, c1) != 0
    ensures Parsed([Uint8(t), xx, Uint8(p), Uint8(q), c0, c1]) == Reading(t, Min(p, q), Max(p, q), LE2(c0, c1)) <==>
              && FillerFits(t, xx)
              && Max(p, q) >= 40
              && LE2(c0, c1) < 0x7fff
              && !(q == 0 && c1 == 0 && PlausiblePair(t, p, Int8(c0)))
  {
    LowWord(t, xx);
    ReadingByBranches(RawFrom([Uint8(t), xx, Uint8(p), Uint8(q), c0, c1]));
  }
}
