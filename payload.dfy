/** `entries_to_json_data` and `json_data_to_entries` of
    `cosmic_pair_ledger/core.py`: the `{entries, keymap}` payload that the JSON
    and YAML converters write and read.  The textual JSON / YAML encoding is
    not part of this model. */
module Payload {
  import opened Wrappers
  import opened Records
  import opened Values

  /** The `ValueError`s `json_data_to_entries` raises, and the two shapes it
      cannot convert at all. */
  datatype PayloadError =
    | NotAMapping        // the payload itself is not a mapping (`data.get` fails)
    | EntriesNotAList    // no top-level `entries` list
    | KeymapNotAMapping  // a truthy `keymap` that is not a mapping
    | EntryNotAMapping   // an item of `entries` that is not a mapping

  /** A record as a JSON object of strings. */
  function RecordValue(r: Record): (v: Value)
    ensures v.Object? && |v.members| == |r|
    ensures forall i :: 0 <= i < |r| ==> v.members[i] == Member(r[i].key, Str(r[i].value))
  {
    Object(seq(|r|, i requires 0 <= i < |r| => Member(r[i].key, Str(r[i].value))))
  }

  function RecordValues(entries: seq<Record>): (vs: seq<Value>)
    ensures |vs| == |entries| && forall i :: 0 <= i < |entries| ==> vs[i] == RecordValue(entries[i])
  {
    seq(|entries|, i requires 0 <= i < |entries| => RecordValue(entries[i]))
  }

  /** `entries_to_json_data(entries, keymap)`: `entries` always, `keymap` only
      when there is one. */
  function EntriesToJsonData(entries: seq<Record>, keymap: Record): (data: Value)
    ensures data.Object?
    ensures Lookup(data.members, "entries") == Some(List(RecordValues(entries)))
    ensures Lookup(data.members, "keymap") == if keymap == [] then None else Some(RecordValue(keymap))
  {
    var members := [Member("entries", List(RecordValues(entries)))] +
      (if keymap != [] then [Member("keymap", RecordValue(keymap))] else []);
    assert members[0].key == "entries";
    assert keymap != [] ==> members[1].key == "keymap";
    Object(members)
  }

  /** `{str(k): str(v) for k, v in m.items()}`: the dict built from the
      members in order, later duplicates winning. */
  function StringMap(members: seq<Member>): (r: Record)
    ensures DistinctKeys(r)
  {
    FromPairs(seq(|members|, i requires 0 <= i < |members| => Pair(members[i].key, PyStr(members[i].value))))
  }

  /** `dict(item)` for each item, failing on the first that is not a mapping. */
  function ItemsToRecords(items: seq<Value>): (r: Result<seq<Record>, PayloadError>)
    ensures r.Success? <==> forall i :: 0 <= i < |items| ==> items[i].Object?
    ensures r.Failure? ==> r.error == EntryNotAMapping
    ensures r.Success? ==>
              (|r.value| == |items| && forall i :: 0 <= i < |items| ==> r.value[i] == StringMap(items[i].members))
  {
    if items == [] then Success([])
    else
      var rest := ItemsToRecords(items[1..]);
      assert forall i :: 1 <= i < |items| ==> items[i] == items[1..][i - 1];
      if !items[0].Object? then Failure(EntryNotAMapping)
      else if rest.Failure? then rest
      else Success([StringMap(items[0].members)] + rest.value)
  }

  /** The keymap `json_data_to_entries` returns for the `keymap` member it found:
      an empty dict when it is missing or falsy. */
  function KeymapOf(keymapData: Option<Value>): Result<Record, PayloadError>
  {
    match keymapData
    case None => Success([])
    case Some(kd) =>
      if !Truthy(kd) then Success([])
      else if !kd.Object? then Failure(KeymapNotAMapping)
      else Success(StringMap(kd.members))
  }

  /** `json_data_to_entries(data)` */
  function JsonDataToEntries(data: Value): (r: Result<(seq<Record>, Record), PayloadError>)
    ensures r.Success? ==>
              (data.Object? &&
               var entries := Lookup(data.members, "entries");
               entries.Some? && entries.value.List? && |r.value.0| == |entries.value.items|)
  {
    if !data.Object? then Failure(NotAMapping)
    else
      match Lookup(data.members, "entries")
      case None => Failure(EntriesNotAList)
      case Some(entries) =>
        if !entries.List? then Failure(EntriesNotAList)
        else
          match KeymapOf(Lookup(data.members, "keymap"))
          case Failure(e) => Failure(e)
          case Success(keymap) =>
            match ItemsToRecords(entries.items)
            case Failure(e) => Failure(e)
            case Success(records) => Success((records, keymap))
  }

  // ---------------------------------------------------------------------------
  // Properties

  /** The checks, in the order the source makes them. */
  lemma JsonDataToEntriesErrors(data: Value)
    requires data.Object?
    ensures var entries := Lookup(data.members, "entries");
      var kd := Lookup(data.members, "keymap");
      var r := JsonDataToEntries(data);
      (r == Failure(EntriesNotAList) <==> entries.None? || !entries.value.List?) &&
      (r == Failure(KeymapNotAMapping) <==>
         entries.Some? && entries.value.List? && kd.Some? && Truthy(kd.value) && !kd.value.Object?) &&
      (r == Failure(EntryNotAMapping) <==>
         entries.Some? && entries.value.List? && KeymapOf(kd).Success? &&
         exists i :: 0 <= i < |entries.value.items| && !entries.value.items[i].Object?)
  {
  }

  /** A missing or falsy `keymap` yields an empty keymap. */
  lemma FalsyKeymapIsEmpty(data: Value)
    requires data.Object?
    requires var kd := Lookup(data.members, "keymap"); kd.None? || !Truthy(kd.value)
    requires JsonDataToEntries(data).Success?
    ensures JsonDataToEntries(data).value.1 == []
  {
  }

  lemma StringMapOfRecord(r: Record)
    requires DistinctKeys(r)
    ensures StringMap(RecordValue(r).members) == r
  {
    var ms := RecordValue(r).members;
    var ps := seq(|ms|, i requires 0 <= i < |ms| => Pair(ms[i].key, PyStr(ms[i].value)));
    assert ps == r;
    FromPairsDistinct(r);
  }

  /** Each written record reads back as itself. */
  lemma ItemsRoundTrip(entries: seq<Record>)
    requires forall i :: 0 <= i < |entries| ==> DistinctKeys(entries[i])
    ensures ItemsToRecords(RecordValues(entries)) == Success(entries)
  {
    var items := RecordValues(entries);
    forall i | 0 <= i < |entries| ensures StringMap(items[i].members) == entries[i] {
      StringMapOfRecord(entries[i]);
    }
    var r := ItemsToRecords(items).value;
    assert r == entries;
  }

  /** Reading back the payload written for records and a keymap gives them
      back; every dict has distinct keys. */
  lemma JsonRoundTrip(entries: seq<Record>, keymap: Record)
    requires forall i :: 0 <= i < |entries| ==> DistinctKeys(entries[i])
    requires DistinctKeys(keymap)
    ensures JsonDataToEntries(EntriesToJsonData(entries, keymap)) == Success((entries, keymap))
  {
    ItemsRoundTrip(entries);
    KeymapRoundTrip(keymap);
    var data := EntriesToJsonData(entries, keymap);
    DecodeFound(data, RecordValues(entries), entries, keymap);
  }

  /** The keymap member written for a keymap reads back as it. */
  lemma KeymapRoundTrip(keymap: Record)
    requires DistinctKeys(keymap)
    ensures KeymapOf(if keymap == [] then None else Some(RecordValue(keymap))) == Success(keymap)
  {
    if keymap != [] {
      StringMapOfRecord(keymap);
    }
  }

  /** A payload whose `entries` and `keymap` members both convert. */
  lemma DecodeFound(data: Value, items: seq<Value>, records: seq<Record>, keymap: Record)
    requires data.Object? && Lookup(data.members, "entries") == Some(List(items))
    requires KeymapOf(Lookup(data.members, "keymap")) == Success(keymap)
    requires ItemsToRecords(items) == Success(records)
    ensures JsonDataToEntries(data) == Success((records, keymap))
  {
  }
}
