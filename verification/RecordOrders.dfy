/** The byte order a database record asks for, against the one its type is read with. */
module RecordOrders {
  import opened Bytes
  import opened RawValue

  predicate NamesByte(c: char) {
    '0' <= c <= '5' || c == 'r' || c == 'v' || c == 'w'
  }

  // Leading characters that name no byte contribute leading zeros.
  function Strip(order: string): string {
    if order != [] && !NamesByte(order[0]) then Strip(order[1..]) else order
  }

  function LastEight(order: string): string {
    if |order| <= 8 then order else order[|order| - 8..]
  }

  // A record's order is honoured when every attribute reads as that order says.
  ghost predicate Honoured(typ: int, order: string) {
    forall s: Source :: RawValueOf(typ, s) == Packed(order, s)
  }

  // The code honours a record's order exactly when it happens to be the one built in for the
  // type, up to characters that cannot matter.
  lemma HonouredExactly(typ: int, order: string)
    ensures Honoured(typ, order) <==> Strip(LastEight(order)) == EffectiveOrder(typ)
  {
    hide Packed, Positional, Selected, RawValueOf, EffectiveOrder, Strip, LastEight;
    var asked, builtIn := Strip(LastEight(order)), EffectiveOrder(typ);
    forall s: Source
      ensures Packed(order, s) == Positional(Selected(asked, s))
      ensures RawValueOf(typ, s) == Positional(Selected(builtIn, s))
    {
      OrderValue(order, s);
      BuiltInValue(typ, s);
    }
    if Honoured(typ, order) {
      assert RawValueOf(typ, WITNESS) == Packed(order, WITNESS);
      StripStartsWithByte(LastEight(order));
      BuiltInStartsWithByte(typ);
      SameWitnessSameOrder(asked, builtIn);
    }
  }

  lemma OrderValue(order: string, s: Source)
    ensures Packed(order, s) == Positional(Selected(Strip(LastEight(order)), s))
  {
    hide Packed, Positional, Selected, Strip;
    var tail := LastEight(order);
    if |order| <= 8 {
      PackingIsExact(order, s, s);
    } else {
      assert order == order[..|order| - 8] + tail;
      OnlyLastEightMatter(order[..|order| - 8], tail, s);
    }
    StripKeepsValue(tail, s);
  }

  lemma BuiltInValue(typ: int, s: Source)
    ensures RawValueOf(typ, s) == Positional(Selected(EffectiveOrder(typ), s))
  {
    hide Packed, Positional, Selected, RawValueOf;
    EffectiveOrderPacks(typ, s);
    assert |EffectiveOrder(typ)| <= 8;
    PackingIsExact(EffectiveOrder(typ), s, s);
  }

  lemma {:induction false} StripKeepsValue(order: string, s: Source)
    ensures Positional(Selected(Strip(order), s)) == Positional(Selected(order, s))
  {
    if order != [] && !NamesByte(order[0]) {
      StripKeepsValue(order[1..], s);
      var rest := Selected(order[1..], s);
      assert Selected(order, s) == [0] + rest;
      PositionalSplits([0], rest);
      OneDigit(0);
    }
  }

  lemma {:induction false} StripStartsWithByte(order: string)
    ensures Strip(order) != [] ==> NamesByte(Strip(order)[0])
  {
    if order != [] && !NamesByte(order[0]) {
      StripStartsWithByte(order[1..]);
    }
  }

  lemma BuiltInStartsWithByte(typ: int)
    ensures EffectiveOrder(typ) != []
    ensures forall i :: 0 <= i < |EffectiveOrder(typ)| ==> NamesByte(EffectiveOrder(typ)[i])
  {
  }

  // A source whose nine bytes are all different and none zero tells all characters apart.
  const WITNESS := Source([1, 2, 3, 4, 5, 6], 7, 8, 9)

  lemma WitnessTellsApart(c: char, d: char)
    ensures Select(c, WITNESS) != 0 <==> NamesByte(c)
    ensures NamesByte(c) && Select(c, WITNESS) == Select(d, WITNESS) ==> c == d
  {
    WitnessByte(c);
    WitnessByte(d);
  }

  lemma WitnessByte(c: char)
    ensures Select(c, WITNESS) ==
            if '0' <= c <= '5' then c as int - '0' as int + 1
            else if c == 'r' then 7 else if c == 'v' then 8 else if c == 'w' then 9 else 0
  {
  }

  lemma SameWitnessSameOrder(a: string, b: string)
    requires a != [] ==> NamesByte(a[0])
    requires b != [] && forall i :: 0 <= i < |b| ==> NamesByte(b[i])
    requires Positional(Selected(a, WITNESS)) == Positional(Selected(b, WITNESS))
    ensures a == b
  {
    hide Positional, Select, NamesByte;
    var x, y := Selected(a, WITNESS), Selected(b, WITNESS);
    if a != [] {
      WitnessTellsApart(a[0], a[0]);
    }
    WitnessTellsApart(b[0], b[0]);
    SameValueSameDigits(x, y);
    forall i | 0 <= i < |b|
      ensures a[i] == b[i]
    {
      assert x[i] == y[i];
      WitnessTellsApart(b[i], a[i]);
    }
  }

  // Without leading zeros a number has one digit string.
  lemma SameValueSameDigits(x: seq<byte>, y: seq<byte>)
    requires x != [] ==> x[0] != 0
    requires y != [] ==> y[0] != 0
    requires Positional(x) == Positional(y)
    ensures x == y
  {
    if |x| < |y| {
      LongerIsLarger(x, y);
    } else if |y| < |x| {
      LongerIsLarger(y, x);
    } else {
      PositionalInjective(x, y);
    }
  }

  lemma LongerIsLarger(x: seq<byte>, y: seq<byte>)
    requires |x| < |y| && y[0] != 0
    ensures Positional(x) < Positional(y)
  {
    hide Positional, Pow256;
    PositionalBound(x);
    Pow256Monotone(|x|, |y| - 1);
    assert y == [y[0]] + y[1..];
    PositionalSplits([y[0]], y[1..]);
    OneDigit(y[0]);
    assert y[0] * Pow256(|y| - 1) >= Pow256(|y| - 1);
  }

  // A type and the non-empty order some record of the database gives it.
  datatype Asked = Asked(typ: int, order: string)

  const DATABASE_ORDERS: seq<Asked> := [
    Asked(HEX48, "w01234"), Asked(HEX64, "w012345r"), Asked(RAW48, "54321"),
    Asked(RAW24_DIV_RAW24, "w01234"), Asked(RAW24_DIV_RAW24, "w01z23"), Asked(RAW24_DIV_RAW24, "z54z10"),
    Asked(RAW24_DIV_RAW32, "04321"), Asked(RAW24_DIV_RAW32, "210zr54"), Asked(RAW24_DIV_RAW32, "zvzzzw")]

  // Not one of them is honoured.
  lemma NoDatabaseOrderIsHonoured()
    ensures forall i :: 0 <= i < |DATABASE_ORDERS| ==> !Honoured(DATABASE_ORDERS[i].typ, DATABASE_ORDERS[i].order)
  {
    forall i | 0 <= i < |DATABASE_ORDERS|
      ensures !Honoured(DATABASE_ORDERS[i].typ, DATABASE_ORDERS[i].order)
    {
      HonouredExactly(DATABASE_ORDERS[i].typ, DATABASE_ORDERS[i].order);
    }
  }

  // For instance the thermal throttle attribute of the Intel records: its order leaves byte 5
  // out, and the value read has it at bit 40.
  lemma ThermalThrottleReadsByteFive(b: byte)
    ensures Packed("04321", Source([0, 0, 0, 0, 0, b], 0, 0, 0)) == 0
    ensures RawValueOf(RAW24_DIV_RAW32, Source([0, 0, 0, 0, 0, b], 0, 0, 0)) == b * 0x100_0000_0000
  {
    var s := Source([0, 0, 0, 0, 0, b], 0, 0, 0);
    var zeros := Selected("04321", s);
    assert zeros == [0, 0, 0, 0, 0];
    AllZeros(zeros);
  }

  lemma {:induction false} AllZeros(bs: seq<byte>)
    requires forall i :: 0 <= i < |bs| ==> bs[i] == 0
    ensures Positional(bs) == 0
  {
    if bs != [] {
      AllZeros(bs[..|bs| - 1]);
    }
  }
}
