/** Looking a drive up in the attribute database, and layering its presets over the defaults. */
module DriveDb {
  import opened Wrappers
  import opened Bytes
  import opened RawValue

  // A Go map is shared by reference, so the model's tables are objects.
  class AttrTable {
    var entries: map<int, AtaDeviceAttr>
    constructor ()
      ensures entries == map[]
    {
      entries := map[];
    }
  }

  // The presets are literals of the generated table that no code writes to; None is its nil map.
  datatype DbRecord = DbRecord(modelRe: string, firmwareRe: string, presets: Option<map<int, AtaDeviceAttr>>, bug: int)

  // The regular expression engine: None for a pattern that does not compile.
  type Matcher = (string, seq<byte>) -> Option<bool>

  datatype DbError = BadPattern

  predicate ModelMatches(m: Matcher, r: DbRecord, model: seq<byte>) {
    m(r.modelRe, model) == Some(true)
  }

  // A bad firmware pattern is met only once the model has matched.
  predicate IsBad(m: Matcher, r: DbRecord, model: seq<byte>, firmware: seq<byte>) {
    || m(r.modelRe, model) == None
    || (ModelMatches(m, r, model) && r.firmwareRe != "" && m(r.firmwareRe, firmware) == None)
  }

  predicate IsMatch(m: Matcher, r: DbRecord, model: seq<byte>, firmware: seq<byte>) {
    ModelMatches(m, r, model) && (r.firmwareRe == "" || m(r.firmwareRe, firmware) == Some(true))
  }

  predicate Decides(m: Matcher, r: DbRecord, model: seq<byte>, firmware: seq<byte>) {
    IsBad(m, r, model, firmware) || IsMatch(m, r, model, firmware)
  }

  // What the outcomes of its two patterns make of a record: skipped, bad or a match.
  lemma PatternsDecide(m: Matcher, r: DbRecord, model: seq<byte>, firmware: seq<byte>)
    ensures match (m(r.modelRe, model), if r.firmwareRe == "" then Some(true) else m(r.firmwareRe, firmware))
            case (None, _) => IsBad(m, r, model, firmware) && !IsMatch(m, r, model, firmware)
            case (Some(false), _) => !Decides(m, r, model, firmware)
            case (Some(true), None) => IsBad(m, r, model, firmware) && !IsMatch(m, r, model, firmware)
            case (Some(true), Some(false)) => !Decides(m, r, model, firmware)
            case (Some(true), Some(true)) => IsMatch(m, r, model, firmware) && !IsBad(m, r, model, firmware)
  {
  }

  // The first record that decides is at index i.
  ghost predicate DecidedAt(m: Matcher, db: seq<DbRecord>, model: seq<byte>, firmware: seq<byte>, i: nat) {
    && i < |db| && Decides(m, db[i], model, firmware)
    && forall j :: 0 <= j < i ==> !Decides(m, db[j], model, firmware)
  }

  method FindMatchingDbRecord(m: Matcher, db: seq<DbRecord>, model: seq<byte>, firmware: seq<byte>)
    returns (r: Result<Option<DbRecord>, DbError>)
    ensures r.Failure? <==> exists i: nat :: DecidedAt(m, db, model, firmware, i) && IsBad(m, db[i], model, firmware)
    ensures forall rec :: r == Success(Some(rec)) ==>
                            exists i: nat :: DecidedAt(m, db, model, firmware, i)
                                             && IsMatch(m, db[i], model, firmware) && rec == db[i]
    ensures r == Success(None) <==> forall i :: 0 <= i < |db| ==> !Decides(m, db[i], model, firmware)
  {
    for i := 0 to |db|
      invariant forall j :: 0 <= j < i ==> !Decides(m, db[j], model, firmware)
    {
      var matched := m(db[i].modelRe, model);
      if matched == None {
        assert DecidedAt(m, db, model, firmware, i);
        return Failure(BadPattern);
      }
      if !matched.value {
        continue;
      }
      if db[i].firmwareRe != "" {
        var fwMatched := m(db[i].firmwareRe, firmware);
        if fwMatched == None {
          assert DecidedAt(m, db, model, firmware, i);
          return Failure(BadPattern);
        }
        if !fwMatched.value {
          continue;
        }
      }
      assert DecidedAt(m, db, model, firmware, i);
      return Success(Some(db[i]));
    }
    return Success(None);
  }

  // The table contents a record stands for: the defaults overridden key by key by its presets.
  function Layered(defaults: map<int, AtaDeviceAttr>, r: DbRecord): map<int, AtaDeviceAttr> {
    if r.presets == None then defaults else defaults + r.presets.value
  }

  // A preset replaces the default of its key; every other key keeps its default, if it has one.
  lemma LayeredByKey(defaults: map<int, AtaDeviceAttr>, r: DbRecord, presets: map<int, AtaDeviceAttr>, key: int)
    requires r.presets == if presets == map[] then None else Some(presets)
    ensures var table := Layered(defaults, r);
            if key in presets then key in table && table[key] == presets[key]
            else if key in defaults then key in table && table[key] == defaults[key]
            else key !in table
  {
  }

  // The mapping and the bug flags are those of the record that decides, if one does.
  ghost predicate Follows(m: Matcher, db: seq<DbRecord>, defaults: map<int, AtaDeviceAttr>, model: seq<byte>,
                          firmware: seq<byte>, entries: map<int, AtaDeviceAttr>, bug: int)
  {
    && (forall i: nat :: DecidedAt(m, db, model, firmware, i) ==>
                           entries == Layered(defaults, db[i]) && bug == db[i].bug)
    && ((forall i :: 0 <= i < |db| ==> !Decides(m, db[i], model, firmware)) ==> entries == defaults && bug == 0)
  }

  // The library call maps.Copy: src overrides dst key by key.
  method CopyInto(dst: AttrTable, src: map<int, AtaDeviceAttr>)
    modifies dst
    ensures dst.entries == old(dst.entries) + src
  {
    dst.entries := dst.entries + src;
  }

  // The mapping of the first matching record: the default table itself when there is nothing to
  // add, else a new table with the record's presets on top. No existing table is modified.
  method FindAttributesMapping(m: Matcher, db: seq<DbRecord>, defaults: AttrTable,
                               model: seq<byte>, firmware: seq<byte>)
    returns (r: Result<(AttrTable, int), DbError>)
    ensures r.Failure? <==> exists i: nat :: DecidedAt(m, db, model, firmware, i) && IsBad(m, db[i], model, firmware)
    ensures r.Success? ==> Follows(m, db, defaults.entries, model, firmware, r.value.0.entries, r.value.1)
    ensures r.Success? ==> r.value.0 == defaults || fresh(r.value.0)
  {
    var found := FindMatchingDbRecord(m, db, model, firmware);
    forall i: nat, j: nat | DecidedAt(m, db, model, firmware, i) && DecidedAt(m, db, model, firmware, j)
      ensures i == j
    {
    }
    match found
    case Failure(e) => return Failure(e);
    case Success(None) => return Success((defaults, 0));
    case Success(Some(rec)) =>
      if rec.presets == None {
        return Success((defaults, rec.bug));
      }
      var table := new AttrTable();
      CopyInto(table, defaults.entries);
      CopyInto(table, rec.presets.value);
      return Success((table, rec.bug));
  }
}
