/** The bytes of the SMART data and threshold pages: a version word and thirty 12-byte entries. */
module SmartPages {
  import opened Bytes
  import opened RawValue
  import opened SmartTables

  const TABLE_SIZE := 30

  datatype SmartPage = SmartPage(version: uint16, attrs: map<byte, SmartAttr>)

  datatype ThresholdsPage = ThresholdsPage(revision: uint16, thresholds: map<byte, byte>)

  function AttrAt(buf: seq<byte>, o: nat): RawAttr
    requires o + 12 <= |buf|
  {
    RawAttr(buf[o], LE2(buf[o + 1], buf[o + 2]), Source(buf[o + 5..o + 11], buf[o + 11], buf[o + 3], buf[o + 4]))
  }

  function PageAttrs(buf: seq<byte>): (entries: seq<RawAttr>)
    requires |buf| >= 362
    ensures |entries| == TABLE_SIZE
  {
    seq(TABLE_SIZE, i requires 0 <= i < TABLE_SIZE => AttrAt(buf, 2 + 12 * i))
  }

  function PageThresholds(buf: seq<byte>): (entries: seq<RawThreshold>)
    requires |buf| >= 362
    ensures |entries| == TABLE_SIZE
  {
    seq(TABLE_SIZE, i requires 0 <= i < TABLE_SIZE => RawThreshold(buf[2 + 12 * i], buf[3 + 12 * i]))
  }

  function PageVersion(buf: seq<byte>): uint16
    requires |buf| >= 2
  {
    LE2(buf[0], buf[1])
  }

  // ---- what a drive sends ----

  type Entry = e: seq<byte> | |e| == 12 witness [0, 0, 0, 0, 0, 0, 0, 0, 0, 0, 0, 0]

  function Word(w: uint16): (s: seq<byte>)
    ensures |s| == 2
  {
    [w % 0x100, w / 0x100]
  }

  // Field by field: id, flags low byte first, current, worst, six vendor bytes, reserved.
  function AttrEntry(a: RawAttr): Entry {
    [a.id] + Word(a.flags) + [a.source.current] + [a.source.worst] + a.source.vendorBytes + [a.source.reserved]
  }

  type Padding = p: seq<byte> | |p| == 10 witness [0, 0, 0, 0, 0, 0, 0, 0, 0, 0]

  // Id, threshold, ten reserved bytes.
  function ThresholdEntry(t: RawThreshold, padding: Padding): Entry {
    [t.id] + [t.threshold] + padding
  }

  function Joined(entries: seq<Entry>): (s: seq<byte>)
    ensures |s| == 12 * |entries|
  {
    if entries == [] then [] else entries[0] + Joined(entries[1..])
  }

  // A page: the version word, the entries one after the other, and whatever follows.
  function Page(version: uint16, entries: seq<Entry>, trailing: seq<byte>): seq<byte> {
    Word(version) + Joined(entries) + trailing
  }

  lemma {:induction false} JoinedAt(entries: seq<Entry>, i: nat)
    requires i < |entries|
    ensures Joined(entries)[12 * i..12 * i + 12] == entries[i]
  {
    if i > 0 {
      JoinedAt(entries[1..], i - 1);
      assert Joined(entries)[12..] == Joined(entries[1..]);
      assert Joined(entries)[12 * i..12 * i + 12] == Joined(entries)[12..][12 * (i - 1)..12 * (i - 1) + 12];
    }
  }

  lemma EntryOfPage(version: uint16, entries: seq<Entry>, trailing: seq<byte>, i: nat, k: nat)
    requires i < |entries| && k < 12
    ensures 2 + 12 * i + k < |Page(version, entries, trailing)|
    ensures Page(version, entries, trailing)[2 + 12 * i + k] == entries[i][k]
  {
    JoinedAt(entries, i);
    assert Joined(entries)[12 * i + k] == Joined(entries)[12 * i..12 * i + 12][k];
    hide Joined;
  }

  lemma VersionOfPage(version: uint16, entries: seq<Entry>, trailing: seq<byte>)
    ensures |Page(version, entries, trailing)| >= 2 && PageVersion(Page(version, entries, trailing)) == version
  {
    hide Joined;
  }

  // Reading an entry's twelve bytes gives the entry back.
  lemma AttrRoundTrip(buf: seq<byte>, o: nat, a: RawAttr)
    requires o + 12 <= |buf| && forall k :: 0 <= k < 12 ==> buf[o + k] == AttrEntry(a)[k]
    ensures AttrAt(buf, o) == a
  {
    var e := AttrEntry(a);
    assert e[0] == a.id && e[1] == a.flags % 0x100 && e[2] == a.flags / 0x100;
    assert e[3] == a.source.current && e[4] == a.source.worst && e[11] == a.source.reserved;
    assert e[5..11] == a.source.vendorBytes;
    hide AttrEntry;
    assert buf[o + 0] == e[0] && buf[o + 1] == e[1] && buf[o + 2] == e[2] && buf[o + 3] == e[3];
    assert buf[o + 4] == e[4] && buf[o + 11] == e[11];
    forall k | 0 <= k < 6
      ensures buf[o + 5..o + 11][k] == e[5..11][k]
    {
      assert buf[o + (5 + k)] == e[5 + k];
    }
    assert buf[o + 5..o + 11] == e[5..11];
  }

  // A page of thirty attributes is read back entry for entry, with its version.
  lemma AttrPageRoundTrip(version: uint16, attrs: seq<RawAttr>, trailing: seq<byte>)
    requires |attrs| == 30
    ensures var page := Page(version, seq(30, i requires 0 <= i < 30 => AttrEntry(attrs[i])), trailing);
            |page| >= 362 && PageVersion(page) == version && PageAttrs(page) == attrs
  {
    var entries: seq<Entry> := seq(30, i requires 0 <= i < 30 => AttrEntry(attrs[i]));
    var page := Page(version, entries, trailing);
    VersionOfPage(version, entries, trailing);
    hide PageVersion, AttrEntry, AttrAt, Word;
    assert |page| == 362 + |trailing|;
    forall i | 0 <= i < 30
      ensures PageAttrs(page)[i] == attrs[i]
    {
      forall k | 0 <= k < 12
        ensures page[2 + 12 * i + k] == AttrEntry(attrs[i])[k]
      {
        EntryOfPage(version, entries, trailing, i, k);
      }
      AttrRoundTrip(page, 2 + 12 * i, attrs[i]);
    }
  }

  lemma ThresholdPageRoundTrip(version: uint16, ts: seq<RawThreshold>, paddings: seq<Padding>, trailing: seq<byte>)
    requires |ts| == |paddings| == 30
    ensures var page := Page(version, seq(30, i requires 0 <= i < 30 => ThresholdEntry(ts[i], paddings[i])), trailing);
            |page| >= 362 && PageVersion(page) == version && PageThresholds(page) == ts
  {
    var entries: seq<Entry> := seq(30, i requires 0 <= i < 30 => ThresholdEntry(ts[i], paddings[i]));
    var page := Page(version, entries, trailing);
    VersionOfPage(version, entries, trailing);
    hide PageVersion, Word;
    assert |page| == 362 + |trailing|;
    forall i | 0 <= i < 30
      ensures PageThresholds(page)[i] == ts[i]
    {
      EntryOfPage(version, entries, trailing, i, 0);
      EntryOfPage(version, entries, trailing, i, 1);
      assert entries[i][0] == ts[i].id && entries[i][1] == ts[i].threshold;
    }
  }

  // From the bytes to the table: an attribute whose entry is the last with its id, before any
  // entry with id zero, is found under that id with every field of the entry, and with the name,
  // type and value its mapping gives it.
  lemma AttributeOfPage(version: uint16, entries: seq<RawAttr>, trailing: seq<byte>, i: nat,
                        mapping: map<int, AtaDeviceAttr>, attrs: map<byte, SmartAttr>)
    requires |entries| == 30 && i < 30
    requires i < LiveCount(IdsOf(entries))
    requires forall j :: i < j < LiveCount(IdsOf(entries)) ==> entries[j].id != entries[i].id
    requires var page := Page(version, seq(30, k requires 0 <= k < 30 => AttrEntry(entries[k])), trailing);
             |page| >= 362 && IsAttrTable(attrs, PageAttrs(page), mapping)
    ensures var e := entries[i];
            && e.id in attrs
            && var a := attrs[e.id];
            && a.id == e.id && a.flags == e.flags && a.vendorBytes == e.source.vendorBytes
            && a.current == e.source.current && a.worst == e.source.worst
            && (e.id in mapping ==> a.name == mapping[e.id].name && a.typ == mapping[e.id].typ
                                    && a.valueRaw == RawValueOf(a.typ, e.source))
            && (e.id !in mapping ==> a.name == "" && a.typ == 0 && a.valueRaw == 0)
  {
    AttrPageRoundTrip(version, entries, trailing);
    hide Page, PageAttrs, AttrEntry, RawValueOf;
    var ids := IdsOf(entries);
    assert forall j :: 0 <= j < 30 ==> ids[j] == entries[j].id;
    LastLiveMeaning(ids, entries[i].id, i);
  }

  lemma ThresholdOfPage(version: uint16, ts: seq<RawThreshold>, paddings: seq<Padding>, trailing: seq<byte>, i: nat,
                        thresholds: map<byte, byte>)
    requires |ts| == |paddings| == 30 && i < 30
    requires i < LiveCount(ThresholdIds(ts))
    requires forall j :: i < j < LiveCount(ThresholdIds(ts)) ==> ts[j].id != ts[i].id
    requires var page := Page(version, seq(30, k requires 0 <= k < 30 => ThresholdEntry(ts[k], paddings[k])), trailing);
             |page| >= 362 && IsThresholdTable(thresholds, PageThresholds(page))
    ensures ts[i].id in thresholds && thresholds[ts[i].id] == ts[i].threshold
  {
    ThresholdPageRoundTrip(version, ts, paddings, trailing);
    hide Page, PageThresholds, ThresholdEntry;
    var ids := ThresholdIds(ts);
    assert forall j :: 0 <= j < 30 ==> ids[j] == ts[j].id;
    LastLiveMeaning(ids, ts[i].id, i);
  }
}
