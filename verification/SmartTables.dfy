/** The attribute and threshold tables of a SMART page: fixed arrays of entries, ended early by an
    entry with id zero, turned into maps keyed by id. */
module SmartTables {
  import opened Wrappers
  import opened Bytes
  import opened RawValue

  datatype RawAttr = RawAttr(id: byte, flags: uint16, source: Source)

  datatype SmartAttr = SmartAttr(
    id: byte, flags: uint16, current: byte, worst: byte, vendorBytes: VendorBytes,
    name: string, typ: int, valueRaw: uint64)

  datatype RawThreshold = RawThreshold(id: byte, threshold: byte)

  // ---- which entries count ----

  // Entries before the first zero id.
  function LiveCount(ids: seq<byte>): (n: nat)
    ensures n <= |ids| && (n < |ids| ==> ids[n] == 0)
    ensures forall j :: 0 <= j < n ==> ids[j] != 0
  {
    if ids == [] || ids[0] == 0 then 0 else 1 + LiveCount(ids[1..])
  }

  // Position of the last of the first n entries that has this id.
  function LastBefore(ids: seq<byte>, n: nat, id: byte): (i: Option<nat>)
    requires n <= |ids|
    ensures i.Some? ==> i.value < n && ids[i.value] == id
  {
    if n == 0 then None
    else if ids[n - 1] == id then Some(n - 1)
    else LastBefore(ids, n - 1, id)
  }

  function LastLive(ids: seq<byte>, id: byte): (i: Option<nat>)
    ensures i.Some? ==> i.value < |ids| && ids[i.value] == id
  {
    LastBefore(ids, LiveCount(ids), id)
  }

  function IdsOf(entries: seq<RawAttr>): seq<byte> {
    seq(|entries|, i requires 0 <= i < |entries| => entries[i].id)
  }

  function ThresholdIds(entries: seq<RawThreshold>): seq<byte> {
    seq(|entries|, i requires 0 <= i < |entries| => entries[i].id)
  }

  // A mapped attribute gets its packed value, type and name; an unmapped one zeros.
  function Decoded(mapping: map<int, AtaDeviceAttr>, a: RawAttr): SmartAttr {
    var blank := SmartAttr(a.id, a.flags, a.source.current, a.source.worst, a.source.vendorBytes, "", 0, 0);
    if a.id in mapping then
      blank.(name := mapping[a.id].name, typ := mapping[a.id].typ, valueRaw := RawValueOf(mapping[a.id].typ, a.source))
    else blank
  }

  // The keys are the live ids, and each holds its last live entry.
  ghost predicate IsAttrTable(attrs: map<byte, SmartAttr>, entries: seq<RawAttr>, mapping: map<int, AtaDeviceAttr>) {
    forall id: byte :: var last := LastLive(IdsOf(entries), id);
                       if last.None? then id !in attrs
                       else id in attrs && attrs[id] == Decoded(mapping, entries[last.value])
  }

  ghost predicate IsThresholdTable(thresholds: map<byte, byte>, entries: seq<RawThreshold>) {
    forall id: byte :: var last := LastLive(ThresholdIds(entries), id);
                       if last.None? then id !in thresholds
                       else id in thresholds && thresholds[id] == entries[last.value].threshold
  }

  // ---- the loops ----

  method FillAttributes(entries: seq<RawAttr>, mapping: map<int, AtaDeviceAttr>) returns (attrs: map<byte, SmartAttr>)
    ensures IsAttrTable(attrs, entries, mapping)
  {
    attrs := map[];
    ghost var ids := IdsOf(entries);
    var i := 0;
    while i < |entries|
      invariant 0 <= i <= |ids|
      invariant forall j :: 0 <= j < i ==> ids[j] != 0
      invariant forall id: byte :: var last := LastBefore(ids, i, id);
                                   if last.None? then id !in attrs
                                   else id in attrs && attrs[id] == Decoded(mapping, entries[last.value])
    {
      var a := entries[i];
      assert ids[i] == a.id;
      if a.id == 0 {
        break;
      }
      var n := SmartAttr(a.id, a.flags, a.source.current, a.source.worst, a.source.vendorBytes, "", 0, 0);
      if a.id in mapping {
        var raw := ComputeAttributeRawValue(mapping[a.id], a.source);
        n := n.(valueRaw := raw, typ := mapping[a.id].typ, name := mapping[a.id].name);
      }
      assert n == Decoded(mapping, a);
      attrs := attrs[n.id := n];
      i := i + 1;
    }
    assert i == LiveCount(ids);
  }

  method FillThresholds(entries: seq<RawThreshold>) returns (thresholds: map<byte, byte>)
    ensures IsThresholdTable(thresholds, entries)
  {
    thresholds := map[];
    ghost var ids := ThresholdIds(entries);
    var i := 0;
    while i < |entries|
      invariant 0 <= i <= |ids|
      invariant forall j :: 0 <= j < i ==> ids[j] != 0
      invariant forall id: byte :: var last := LastBefore(ids, i, id);
                                   if last.None? then id !in thresholds
                                   else id in thresholds && thresholds[id] == entries[last.value].threshold
    {
      var a := entries[i];
      assert ids[i] == a.id;
      if a.id == 0 {
        break;
      }
      thresholds := thresholds[a.id := a.threshold];
      i := i + 1;
    }
    assert i == LiveCount(ids);
  }

  // ---- what the specification means ----

  // An id has a table entry exactly when it occurs before the first zero id, and the entry is its
  // last occurrence there.
  lemma LastLiveMeaning(ids: seq<byte>, id: byte, i: nat)
    ensures LastLive(ids, id) == Some(i) <==>
              && i < LiveCount(ids) && ids[i] == id
              && forall j :: i < j < LiveCount(ids) ==> ids[j] != id
    ensures LastLive(ids, id) == None <==> id !in ids[..LiveCount(ids)]
  {
    LastBeforeMeaning(ids, LiveCount(ids), id);
    if id in ids[..LiveCount(ids)] {
      var j :| 0 <= j < LiveCount(ids) && ids[j] == id;
    }
  }

  lemma {:induction false} LastBeforeMeaning(ids: seq<byte>, n: nat, id: byte)
    requires n <= |ids|
    ensures var last := LastBefore(ids, n, id);
            forall j :: (if last.Some? then last.value else -1) < j < n ==> ids[j] != id
  {
    if n > 0 {
      LastBeforeMeaning(ids, n - 1, id);
    }
  }

  // Entries from the first zero id on change nothing.
  lemma TailIsIgnored(live: seq<byte>, tail: seq<byte>, id: byte)
    requires 0 !in live
    ensures LiveCount(live + [0] + tail) == |live|
    ensures LastLive(live + [0] + tail, id) == LastLive(live, id)
  {
    var ids := live + [0] + tail;
    var n := LiveCount(ids);
    assert forall j :: 0 <= j < |live| ==> ids[j] == live[j];
    assert ids[|live|] == 0;
    assert LiveCount(live) == |live|;
    LastBeforeOfPrefix(live, ids, |live|, id);
  }

  lemma {:induction false} LastBeforeOfPrefix(a: seq<byte>, b: seq<byte>, n: nat, id: byte)
    requires n <= |a| && n <= |b| && forall j :: 0 <= j < n ==> a[j] == b[j]
    ensures LastBefore(a, n, id) == LastBefore(b, n, id)
  {
    if n > 0 {
      LastBeforeOfPrefix(a, b, n - 1, id);
    }
  }

  // Nothing else gets into a table.
  lemma OnlyLiveIds(entries: seq<RawAttr>, mapping: map<int, AtaDeviceAttr>, attrs: map<byte, SmartAttr>, id: byte)
    requires IsAttrTable(attrs, entries, mapping)
    ensures id in attrs <==> id in IdsOf(entries)[..LiveCount(IdsOf(entries))]
  {
    LastLiveMeaning(IdsOf(entries), id, 0);
  }
}
