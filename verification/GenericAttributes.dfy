/** The aggregation over a page's attributes. A Go map is iterated in an unspecified order, so the
    model is an arbitrary run: at each turn any key not yet visited may come next. */
module GenericAttributes {
  import opened Wrappers
  import opened Bytes
  import opened Temperature
  import opened TemperatureTheorems
  import opened Durations
  import opened SmartTables

  datatype Group = TemperatureGroup | ReadGroup | WrittenGroup | HoursGroup | CyclesGroup | Untracked

  predicate IsTemperatureName(name: string) {
    name == "Airflow_Temperature_Cel" || name == "Temperature_Celsius" || name == "Temperature_Celsius_X10"
  }

  function GroupOf(name: string): Group {
    if IsTemperatureName(name) then TemperatureGroup
    else if name == "Total_LBAs_Read" then ReadGroup
    else if name == "Total_LBAs_Written" then WrittenGroup
    else if name == "Power_On_Hours" then HoursGroup
    else if name == "Power_Cycle_Count" then CyclesGroup
    else Untracked
  }

  // The record has one field per tracked group.
  datatype Record = Record(
    temperature: uint64, read: uint64, written: uint64, powerOnHours: uint64, powerCycles: uint64)
  {
    function Get(g: Group): uint64
      requires g != Untracked
    {
      match g
      case TemperatureGroup => temperature
      case ReadGroup => read
      case WrittenGroup => written
      case HoursGroup => powerOnHours
      case CyclesGroup => powerCycles
    }

    function Set(g: Group, v: uint64): Record
      requires g != Untracked
    {
      match g
      case TemperatureGroup => this.(temperature := v)
      case ReadGroup => this.(read := v)
      case WrittenGroup => this.(written := v)
      case HoursGroup => this.(powerOnHours := v)
      case CyclesGroup => this.(powerCycles := v)
    }
  }

  const EMPTY := Record(0, 0, 0, 0, 0)

  type Attrs = map<byte, SmartAttr>

  // uint64(d.Hours()): a float64 truncated to an integer; how a negative one converts is up to
  // the Go implementation, so the conversion is a parameter.
  type HoursOf = int64 -> uint64

  // What one attribute contributes to its group; None makes the whole read fail.
  function Contribution(a: SmartAttr, hours: HoursOf): Option<uint64>
    requires GroupOf(a.name) != Untracked
  {
    match GroupOf(a.name)
    case TemperatureGroup =>
      var t := TemperatureOf(a.typ, a.valueRaw);
      if t.Failure? then None else Some(Uint64(t.value.value))
    case HoursGroup =>
      var d := ParseAsDuration(a.typ, a.valueRaw);
      Some(if d.Success? then hours(d.value) else a.valueRaw)
    case ReadGroup => Some(a.valueRaw)
    case WrittenGroup => Some(a.valueRaw)
    case CyclesGroup => Some(a.valueRaw)
  }

  // One turn of the loop.
  function Step(r: Record, a: SmartAttr, hours: HoursOf): Option<Record> {
    var g := GroupOf(a.name);
    if g == Untracked then Some(r)
    else
      var c := Contribution(a, hours);
      if c.None? then None else Some(r.Set(g, c.value))
  }

  // The loop over one order of the keys.
  function Aggregate(attrs: Attrs, order: seq<byte>, hours: HoursOf): Option<Record>
    requires forall k :: k in order ==> k in attrs
  {
    if order == [] then Some(EMPTY)
    else
      var before := Aggregate(attrs, order[..|order| - 1], hours);
      if before.None? then None else Step(before.value, attrs[order[|order| - 1]], hours)
  }

  // An iteration order visits every key once.
  ghost predicate IsOrder(attrs: Attrs, order: seq<byte>) {
    && (forall k :: k in order <==> k in attrs)
    && (forall i, j :: 0 <= i < j < |order| ==> order[i] != order[j])
  }

  // Whatever order the run takes: it fails exactly on an unparseable temperature, and otherwise
  // gives the aggregate of the order it took.
  method AggregateAttributes(attrs: Attrs, hours: HoursOf) returns (r: Option<Record>)
    ensures r.None? <==> exists k :: k in attrs && Unparseable(attrs[k])
    ensures r.Some? ==> exists order :: IsOrder(attrs, order) && r == Aggregate(attrs, order, hours)
  {
    r := Some(EMPTY);
    ghost var order: seq<byte> := [];
    var pending := attrs.Keys;
    while pending != {}
      invariant pending <= attrs.Keys
      invariant forall k :: k in order <==> k in attrs.Keys - pending
      invariant forall i, j :: 0 <= i < j < |order| ==> order[i] != order[j]
      invariant r.Some? && r == Aggregate(attrs, order, hours)
      decreases pending
    {
      var key :| key in pending;
      var a := attrs[key];
      assert key !in order && (order + [key])[..|order|] == order;
      order := order + [key];
      pending := pending - {key};
      match GroupOf(a.name)
      case TemperatureGroup =>
        var t := ParseAsTemperature(a.typ, a.valueRaw);
        if t.Failure? {
          r := None;
          return;
        }
        r := Some(r.value.(temperature := Uint64(t.value.value)));
      case ReadGroup => r := Some(r.value.(read := a.valueRaw));
      case WrittenGroup => r := Some(r.value.(written := a.valueRaw));
      case HoursGroup =>
        var d := ParseAsDuration(a.typ, a.valueRaw);
        r := Some(r.value.(powerOnHours := if d.Success? then hours(d.value) else a.valueRaw));
      case CyclesGroup => r := Some(r.value.(powerCycles := a.valueRaw));
      case Untracked =>
    }
    FailsOnUnparseable(attrs, order, hours);
    assert IsOrder(attrs, order);
  }

  // ---- when the order matters ----

  predicate IsTemperatureType(typ: int) {
    typ == RawValue.TEMP10X || typ == RawValue.TEMP_MIN_MAX
  }

  // A temperature-named attribute of another type: what makes the read fail.
  predicate Unparseable(a: SmartAttr) {
    GroupOf(a.name) == TemperatureGroup && !IsTemperatureType(a.typ)
  }

  predicate InGroup(attrs: Attrs, k: byte, g: Group) {
    k in attrs && g != Untracked && GroupOf(attrs[k].name) == g
  }

  lemma {:induction false} FailsOnUnparseable(attrs: Attrs, order: seq<byte>, hours: HoursOf)
    requires forall k :: k in order ==> k in attrs
    ensures Aggregate(attrs, order, hours).None? <==> exists k :: k in order && Unparseable(attrs[k])
  {
    if order != [] {
      var last := order[|order| - 1];
      assert order == order[..|order| - 1] + [last];
      FailsOnUnparseable(attrs, order[..|order| - 1], hours);
    }
  }

  // Failure does not depend on the order: every run fails or none does, and they fail exactly
  // when some temperature-named attribute has a type that is no temperature.
  lemma FailureIsOrderIndependent(attrs: Attrs, order: seq<byte>, hours: HoursOf)
    requires IsOrder(attrs, order)
    ensures Aggregate(attrs, order, hours).None? <==> exists k :: k in attrs && Unparseable(attrs[k])
  {
    FailsOnUnparseable(attrs, order, hours);
  }

  // A field is zero if its group is empty, and otherwise what some member contributes.
  lemma {:induction false} FieldComesFromMember(attrs: Attrs, order: seq<byte>, hours: HoursOf, g: Group)
    requires (forall k :: k in order ==> k in attrs) && g != Untracked
    requires Aggregate(attrs, order, hours).Some?
    ensures var v := Aggregate(attrs, order, hours).value.Get(g);
            if exists k :: k in order && InGroup(attrs, k, g)
            then exists k :: k in order && InGroup(attrs, k, g) && Contribution(attrs[k], hours) == Some(v)
            else v == 0
  {
    if order != [] {
      var last, front := order[|order| - 1], order[..|order| - 1];
      assert order == front + [last];
      FieldComesFromMember(attrs, front, hours, g);
      if InGroup(attrs, last, g) {
        assert last in order;
      }
    }
  }

  // ---- the record in terms of the attributes' names ----

  lemma GroupNames(name: string)
    ensures GroupOf(name) == ReadGroup <==> name == "Total_LBAs_Read"
    ensures GroupOf(name) == WrittenGroup <==> name == "Total_LBAs_Written"
    ensures GroupOf(name) == HoursGroup <==> name == "Power_On_Hours"
    ensures GroupOf(name) == CyclesGroup <==> name == "Power_Cycle_Count"
    ensures GroupOf(name) == TemperatureGroup <==>
              name == "Airflow_Temperature_Cel" || name == "Temperature_Celsius" || name == "Temperature_Celsius_X10"
  {
    assert |"Airflow_Temperature_Cel"| == 23 && |"Temperature_Celsius"| == 19 && |"Temperature_Celsius_X10"| == 23;
    assert |"Total_LBAs_Read"| == 15 && |"Total_LBAs_Written"| == 18;
    assert |"Power_On_Hours"| == 14 && |"Power_Cycle_Count"| == 17;
  }

  // A counter is the raw value of an attribute with this name, and zero if there is none.
  ghost predicate Counts(attrs: Attrs, name: string, field: uint64) {
    if exists k :: k in attrs && attrs[k].name == name
    then exists k :: k in attrs && attrs[k].name == name && attrs[k].valueRaw == field
    else field == 0
  }

  lemma CountersByName(attrs: Attrs, order: seq<byte>, hours: HoursOf, r: Record)
    requires IsOrder(attrs, order) && Aggregate(attrs, order, hours) == Some(r)
    ensures Counts(attrs, "Total_LBAs_Read", r.read)
    ensures Counts(attrs, "Total_LBAs_Written", r.written)
    ensures Counts(attrs, "Power_Cycle_Count", r.powerCycles)
  {
    CounterOfGroup(attrs, order, hours, r, ReadGroup, "Total_LBAs_Read");
    CounterOfGroup(attrs, order, hours, r, WrittenGroup, "Total_LBAs_Written");
    CounterOfGroup(attrs, order, hours, r, CyclesGroup, "Power_Cycle_Count");
    hide Aggregate, IsOrder, Counts;
    assert r.Get(ReadGroup) == r.read && r.Get(WrittenGroup) == r.written && r.Get(CyclesGroup) == r.powerCycles;
  }

  lemma CounterOfGroup(attrs: Attrs, order: seq<byte>, hours: HoursOf, r: Record, g: Group, name: string)
    requires IsOrder(attrs, order) && Aggregate(attrs, order, hours) == Some(r)
    requires (g == ReadGroup && name == "Total_LBAs_Read") || (g == WrittenGroup && name == "Total_LBAs_Written")
             || (g == CyclesGroup && name == "Power_Cycle_Count")
    ensures Counts(attrs, name, r.Get(g))
  {
    FieldComesFromMember(attrs, order, hours, g);
    hide Aggregate;
    forall k | k in attrs
      ensures InGroup(attrs, k, g) <==> attrs[k].name == name
      ensures InGroup(attrs, k, g) ==> Contribution(attrs[k], hours) == Some(attrs[k].valueRaw)
    {
      GroupNames(attrs[k].name);
      hide GroupOf;
    }
    hide GroupOf, Contribution, InGroup;
  }

  // What an attribute called Power_On_Hours reports: a time in nanoseconds given in hours for the
  // four duration types, its raw value for every other.
  function HoursReported(a: SmartAttr, hours: HoursOf): uint64 {
    match a.typ
    case 14 => hours(Int64(a.valueRaw * 1_000_000_000))
    case 15 => hours(Int64(a.valueRaw % 0x1_0000_0000 * 60_000_000_000))
    case 16 => hours(Int64(a.valueRaw * 30_000_000_000))
    case 17 =>
      hours(Int64(a.valueRaw % 0x1_0000_0000 * 3_600_000_000_000 + a.valueRaw / 0x1_0000_0000 * 1_000_000))
    case _ => a.valueRaw
  }

  lemma HoursContribution(a: SmartAttr, hours: HoursOf)
    requires a.name == "Power_On_Hours"
    ensures GroupOf(a.name) == HoursGroup && Contribution(a, hours) == Some(HoursReported(a, hours))
  {
    GroupNames(a.name);
    hide GroupOf, Int64;
    UnknownDurationFails(a.typ, a.valueRaw);
    if IsDurationType(a.typ) {
      DurationWrapsOnce(a.typ, a.valueRaw);
      hide ParseAsDuration;
    }
  }

  lemma HoursByName(attrs: Attrs, order: seq<byte>, hours: HoursOf, r: Record)
    requires IsOrder(attrs, order) && Aggregate(attrs, order, hours) == Some(r)
    ensures if exists k :: k in attrs && attrs[k].name == "Power_On_Hours"
            then exists k :: k in attrs && attrs[k].name == "Power_On_Hours"
                             && r.powerOnHours == HoursReported(attrs[k], hours)
            else r.powerOnHours == 0
  {
    FieldComesFromMember(attrs, order, hours, HoursGroup);
    hide Aggregate, HoursReported;
    forall k | k in attrs
      ensures InGroup(attrs, k, HoursGroup) <==> attrs[k].name == "Power_On_Hours"
      ensures InGroup(attrs, k, HoursGroup) ==> Contribution(attrs[k], hours) == Some(HoursReported(attrs[k], hours))
    {
      GroupNames(attrs[k].name);
      hide GroupOf, Contribution;
      if attrs[k].name == "Power_On_Hours" {
        HoursContribution(attrs[k], hours);
      }
    }
    assert r.Get(HoursGroup) == r.powerOnHours;
    hide GroupOf, Contribution, InGroup;
  }

  predicate HasTemperatureName(a: SmartAttr) {
    a.name == "Airflow_Temperature_Cel" || a.name == "Temperature_Celsius" || a.name == "Temperature_Celsius_X10"
  }

  // What an attribute with such a name reports: tenths of a degree rounded down, or the low byte
  // as a signed temperature.
  function TemperatureReported(a: SmartAttr): Option<uint64> {
    match a.typ
    case 18 => Some(Uint64(Int8(a.valueRaw % 0x100)))
    case 19 => Some(a.valueRaw % 0x1_0000 / 10)
    case _ => None
  }

  lemma TemperatureContribution(a: SmartAttr, hours: HoursOf)
    requires HasTemperatureName(a)
    ensures GroupOf(a.name) == TemperatureGroup && Contribution(a, hours) == TemperatureReported(a)
  {
    GroupNames(a.name);
    hide GroupOf, Int8;
    if a.typ == RawValue.TEMP_MIN_MAX {
      SoundReading(a.valueRaw);
      hide TemperatureOf;
    }
  }

  // The run fails exactly if some attribute with a temperature's name has another type, and
  // otherwise reports one of them.
  lemma TemperatureByName(attrs: Attrs, order: seq<byte>, hours: HoursOf)
    requires IsOrder(attrs, order)
    ensures Aggregate(attrs, order, hours).None? <==>
              exists k :: k in attrs && HasTemperatureName(attrs[k]) && TemperatureReported(attrs[k]).None?
    ensures Aggregate(attrs, order, hours).Some? ==>
              var temperature := Aggregate(attrs, order, hours).value.temperature;
              if exists k :: k in attrs && HasTemperatureName(attrs[k])
              then exists k :: k in attrs && HasTemperatureName(attrs[k])
                               && TemperatureReported(attrs[k]) == Some(temperature)
              else temperature == 0
  {
    FailureIsOrderIndependent(attrs, order, hours);
    forall k | k in attrs
      ensures InGroup(attrs, k, TemperatureGroup) <==> HasTemperatureName(attrs[k])
      ensures HasTemperatureName(attrs[k]) ==> Contribution(attrs[k], hours) == TemperatureReported(attrs[k])
      ensures Unparseable(attrs[k]) <==> HasTemperatureName(attrs[k]) && TemperatureReported(attrs[k]).None?
    {
      GroupNames(attrs[k].name);
      hide GroupOf, Contribution;
      if HasTemperatureName(attrs[k]) {
        TemperatureContribution(attrs[k], hours);
      }
    }
    hide GroupOf, Contribution, InGroup, Unparseable, TemperatureReported, HasTemperatureName;
    if Aggregate(attrs, order, hours).Some? {
      FieldComesFromMember(attrs, order, hours, TemperatureGroup);
      hide Aggregate;
      var r := Aggregate(attrs, order, hours).value;
      assert r.Get(TemperatureGroup) == r.temperature;
    }
  }

  // Every group's members agree on what they contribute.
  ghost predicate GroupsAgree(attrs: Attrs, hours: HoursOf) {
    forall k, l :: k in attrs && l in attrs && GroupOf(attrs[k].name) == GroupOf(attrs[l].name) != Untracked ==>
      Contribution(attrs[k], hours) == Contribution(attrs[l], hours)
  }

  lemma AgreeingGroupsGiveOneRecord(attrs: Attrs, o: seq<byte>, p: seq<byte>, hours: HoursOf)
    requires IsOrder(attrs, o) && IsOrder(attrs, p) && GroupsAgree(attrs, hours)
    ensures Aggregate(attrs, o, hours) == Aggregate(attrs, p, hours)
  {
    FailureIsOrderIndependent(attrs, o, hours);
    FailureIsOrderIndependent(attrs, p, hours);
    if Aggregate(attrs, o, hours).Some? {
      var r, s := Aggregate(attrs, o, hours).value, Aggregate(attrs, p, hours).value;
      forall g: Group | g != Untracked
        ensures r.Get(g) == s.Get(g)
      {
        FieldComesFromMember(attrs, o, hours, g);
        FieldComesFromMember(attrs, p, hours, g);
      }
      assert r.Get(TemperatureGroup) == s.Get(TemperatureGroup) && r.Get(ReadGroup) == s.Get(ReadGroup);
      assert r.Get(WrittenGroup) == s.Get(WrittenGroup) && r.Get(HoursGroup) == s.Get(HoursGroup);
      assert r.Get(CyclesGroup) == s.Get(CyclesGroup);
    }
  }

  // Some order that ends with a chosen key.
  lemma {:induction false} OrderOf(keys: set<byte>) returns (order: seq<byte>)
    ensures forall k :: k in order <==> k in keys
    ensures forall i, j :: 0 <= i < j < |order| ==> order[i] != order[j]
    decreases keys
  {
    order := [];
    if keys != {} {
      var k :| k in keys;
      var rest := OrderOf(keys - {k});
      order := rest + [k];
    }
  }

  lemma OrderEndingWith(attrs: Attrs, k: byte) returns (order: seq<byte>)
    requires k in attrs
    ensures IsOrder(attrs, order) && order != [] && order[|order| - 1] == k
  {
    var rest := OrderOf(attrs.Keys - {k});
    order := rest + [k];
  }

  // The result is independent of the iteration order exactly when every run fails or every
  // group's members agree.
  lemma OrderIndependentExactly(attrs: Attrs, hours: HoursOf)
    ensures (exists k :: k in attrs && Unparseable(attrs[k])) || GroupsAgree(attrs, hours) <==>
              forall o, p :: IsOrder(attrs, o) && IsOrder(attrs, p) ==>
                               Aggregate(attrs, o, hours) == Aggregate(attrs, p, hours)
  {
    hide Aggregate;
    if (exists k :: k in attrs && Unparseable(attrs[k])) || GroupsAgree(attrs, hours) {
      forall o, p | IsOrder(attrs, o) && IsOrder(attrs, p)
        ensures Aggregate(attrs, o, hours) == Aggregate(attrs, p, hours)
      {
        FailureIsOrderIndependent(attrs, o, hours);
        FailureIsOrderIndependent(attrs, p, hours);
        if GroupsAgree(attrs, hours) {
          AgreeingGroupsGiveOneRecord(attrs, o, p, hours);
        }
      }
    } else {
      var k, l :| k in attrs && l in attrs && GroupOf(attrs[k].name) == GroupOf(attrs[l].name) != Untracked
                  && Contribution(attrs[k], hours) != Contribution(attrs[l], hours);
      var o := OrderEndingWith(attrs, k);
      var p := OrderEndingWith(attrs, l);
      LastOneWins(attrs, o, hours);
      LastOneWins(attrs, p, hours);
    }
  }

  lemma LastOneWins(attrs: Attrs, order: seq<byte>, hours: HoursOf)
    requires IsOrder(attrs, order) && order != []
    requires forall k :: k in attrs ==> !Unparseable(attrs[k])
    requires GroupOf(attrs[order[|order| - 1]].name) != Untracked
    ensures var a := attrs[order[|order| - 1]];
            Aggregate(attrs, order, hours).Some?
            && Contribution(a, hours) == Some(Aggregate(attrs, order, hours).value.Get(GroupOf(a.name)))
  {
    FailsOnUnparseable(attrs, order, hours);
    FailsOnUnparseable(attrs, order[..|order| - 1], hours);
  }

  // In particular, one record results when each tracked group occurs at most once.
  lemma UniqueGroupsGiveOneRecord(attrs: Attrs, o: seq<byte>, p: seq<byte>, hours: HoursOf)
    requires IsOrder(attrs, o) && IsOrder(attrs, p)
    requires forall k, l | k in attrs && l in attrs ::
               GroupOf(attrs[k].name) == GroupOf(attrs[l].name) != Untracked ==> k == l
    ensures Aggregate(attrs, o, hours) == Aggregate(attrs, p, hours)
  {
    assert GroupsAgree(attrs, hours);
    AgreeingGroupsGiveOneRecord(attrs, o, p, hours);
  }

  // A page with two temperature attributes, as the default table's 190 (airflow) and 194 (drive)
  // give: whichever is visited last sets the temperature.
  lemma TwoTemperaturesDependOnOrder(k: byte, l: byte, a: SmartAttr, b: SmartAttr, hours: HoursOf)
    requires k != l && GroupOf(a.name) == GroupOf(b.name) == TemperatureGroup
    requires !Unparseable(a) && !Unparseable(b)
    ensures var attrs: Attrs := map[k := a, l := b];
            var kl, lk := Aggregate(attrs, [k, l], hours), Aggregate(attrs, [l, k], hours);
            && IsOrder(attrs, [k, l]) && IsOrder(attrs, [l, k])
            && kl.Some? && Contribution(b, hours) == Some(kl.value.temperature)
            && lk.Some? && Contribution(a, hours) == Some(lk.value.temperature)
  {
    var attrs: Attrs := map[k := a, l := b];
    LastOneWins(attrs, [k, l], hours);
    LastOneWins(attrs, [l, k], hours);
  }

  // For instance, with airflow at 30 and the drive at 41 degrees
  // the answer is 41 or 30.
  lemma ThirtyOrFortyOne(airflow: SmartAttr, drive: SmartAttr, hours: HoursOf)
    requires GroupOf(airflow.name) == GroupOf(drive.name) == TemperatureGroup
    requires airflow.typ == drive.typ == RawValue.TEMP_MIN_MAX && airflow.valueRaw == 30 && drive.valueRaw == 41
    ensures var attrs: Attrs := map[190 := airflow, 194 := drive];
            var up, down := Aggregate(attrs, [190, 194], hours), Aggregate(attrs, [194, 190], hours);
            up.Some? && up.value.temperature == 41 && down.Some? && down.value.temperature == 30
  {
    hide Aggregate;
    TwoTemperaturesDependOnOrder(190, 194, airflow, drive, hours);
    LoneTemperature(30);
    LoneTemperature(41);
  }

  lemma LoneTemperature(degrees: byte)
    requires degrees <= 120
    ensures TemperatureOf(RawValue.TEMP_MIN_MAX, degrees) == Success(Reading(degrees, 0, 0, 0))
  {
    var v := [degrees, 0, 0, 0, 0, 0];
    assert RawValue.LE6(v) == degrees;
    SplitInvertsPacking(v);
    BareLayout(degrees, 0);
  }
}
