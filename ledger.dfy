/** The pair-ledger line codec and keymap resolver of
    `cosmic_pair_ledger/core.py`.  A ledger is a list of lines; each line is a
    record, written as `key:value` segments joined by commas.  A record whose
    `record` field is `keymap` is not data: it maps short aliases to full key
    paths.  Files are not opened here: loading takes the text read from the
    file and writing returns the text to write. */
module Ledger {
  import opened Wrappers
  import opened Text
  import opened StringOrder
  import opened Records
  import opened Seqs
  import opened TextFile

  /** `KEYMAP_RECORD`: the `record` value that marks the keymap record. */
  const KeymapRecord: string := "keymap"

  /** The field naming the kind of a record. */
  const RecordField: string := "record"

  predicate IsKeymapRecord(e: Record) {
    Get(e, RecordField) == Some(KeymapRecord)
  }

  // ---------------------------------------------------------------------------
  // _separate_keymap

  /** The keymap after the inner loop of `_separate_keymap` has gone over `e`:
      every field except `record` is assigned into it, in order. */
  function MergeKeymap(keymap: Record, e: Record): Record
  {
    if e == [] then keymap
    else
      var merged := MergeKeymap(keymap, e[..|e| - 1]);
      var p := e[|e| - 1];
      if p.key == RecordField then merged else Put(merged, p.key, p.value)
  }

  /** What `_separate_keymap` returns after going over `entries` in order:
      the data records, and the keymap merged from every keymap record. */
  function Separated(entries: seq<Record>): (seq<Record>, Record)
  {
    if entries == [] then ([], [])
    else
      var (data, keymap) := Separated(entries[..|entries| - 1]);
      var e := entries[|entries| - 1];
      if IsKeymapRecord(e) then (data, MergeKeymap(keymap, e)) else (data + [e], keymap)
  }

  /** `[e for e in entries if e.get("record") != KEYMAP_RECORD]` */
  function DataRecords(entries: seq<Record>): seq<Record>
  {
    if entries == [] then []
    else (if IsKeymapRecord(entries[0]) then [] else [entries[0]]) + DataRecords(entries[1..])
  }

  lemma {:induction false} DataRecordsAppend(entries: seq<Record>, e: Record)
    ensures DataRecords(entries + [e]) == DataRecords(entries) + (if IsKeymapRecord(e) then [] else [e])
    decreases |entries|
  {
    if entries != [] {
      assert (entries + [e])[1..] == entries[1..] + [e];
      DataRecordsAppend(entries[1..], e);
    }
  }

  /** The data half of the split is the input with the keymap records taken
      out, each record unchanged and in its original order. */
  lemma {:induction false} SeparatedData(entries: seq<Record>)
    ensures Separated(entries).0 == DataRecords(entries)
    decreases |entries|
  {
    if entries != [] {
      var init := entries[..|entries| - 1];
      SeparatedData(init);
      DataRecordsAppend(init, entries[|entries| - 1]);
      assert init + [entries[|entries| - 1]] == entries;
    }
  }

  lemma {:induction false} DataRecordsNotKeymap(entries: seq<Record>)
    ensures forall i :: 0 <= i < |DataRecords(entries)| ==> !IsKeymapRecord(DataRecords(entries)[i])
    decreases |entries|
  {
    if entries != [] {
      DataRecordsNotKeymap(entries[1..]);
    }
  }

  /** Merging reads `a` as the last value `e` gives it, unless `a` is `record`. */
  lemma {:induction false} MergeKeymapGet(keymap: Record, e: Record, a: string)
    ensures Get(MergeKeymap(keymap, e), a) ==
              if a != RecordField && LastValue(e, a).Some? then LastValue(e, a) else Get(keymap, a)
    decreases |e|
  {
    if e != [] {
      MergeKeymapGet(keymap, e[..|e| - 1], a);
      var p := e[|e| - 1];
      PutGet(MergeKeymap(keymap, e[..|e| - 1]), p.key, p.value, a);
    }
  }

  /** The keymap never holds the key `record`. */
  lemma {:induction false} SeparatedKeymapHasNoRecordField(entries: seq<Record>)
    ensures !HasKey(Separated(entries).1, RecordField)
    decreases |entries|
  {
    if entries != [] {
      var init := entries[..|entries| - 1];
      SeparatedKeymapHasNoRecordField(init);
      var e := entries[|entries| - 1];
      if IsKeymapRecord(e) {
        MergeKeymapGet(Separated(init).1, e, RecordField);
      }
    }
  }

  /** A later keymap record overwrites an alias an earlier one gave. */
  lemma KeymapLaterWins(entries: seq<Record>, e: Record, a: string)
    requires IsKeymapRecord(e)
    ensures Get(Separated(entries + [e]).1, a) ==
              if a != RecordField && LastValue(e, a).Some? then LastValue(e, a) else Get(Separated(entries).1, a)
  {
    assert (entries + [e])[..|entries|] == entries;
    MergeKeymapGet(Separated(entries).1, e, a);
  }

  /** `_separate_keymap(entries)` */
  method SeparateKeymap(entries: seq<Record>) returns (data: seq<Record>, keymap: Record)
    ensures (data, keymap) == Separated(entries)
    ensures data == DataRecords(entries)
    ensures forall i :: 0 <= i < |data| ==> !IsKeymapRecord(data[i])
    ensures !HasKey(keymap, RecordField)
  {
    data, keymap := [], [];
    for i := 0 to |entries|
      invariant (data, keymap) == Separated(entries[..i])
    {
      SeparatedStep(entries, i);
      var entry := entries[i];
      if Get(entry, RecordField) == Some(KeymapRecord) {
        keymap := MergeInto(keymap, entry);
        continue;
      }
      data := data + [entry];
    }
    TakeAll(entries, |entries|);
    SeparatedData(entries);
    DataRecordsNotKeymap(entries);
    SeparatedKeymapHasNoRecordField(entries);
  }

  lemma SeparatedStep(entries: seq<Record>, i: nat)
    requires i < |entries|
    ensures var (data, keymap) := Separated(entries[..i]);
      var e := entries[i];
      Separated(entries[..i + 1]) == if IsKeymapRecord(e) then (data, MergeKeymap(keymap, e)) else (data + [e], keymap)
  {
    PrefixSnoc(entries, i);
    assert entries[..i + 1][..i] == entries[..i];
  }

  /** The inner loop of `_separate_keymap`: every field of the keymap record
      except `record` assigned into `keymap`. */
  method MergeInto(keymap: Record, entry: Record) returns (merged: Record)
    ensures merged == MergeKeymap(keymap, entry)
  {
    merged := keymap;
    for j := 0 to |entry|
      invariant merged == MergeKeymap(keymap, entry[..j])
    {
      MergeKeymapStep(keymap, entry, j);
      if entry[j].key == RecordField {
        continue;
      }
      merged := Put(merged, entry[j].key, entry[j].value);
    }
    TakeAll(entry, |entry|);
  }

  lemma MergeKeymapStep(keymap: Record, e: Record, j: nat)
    requires j < |e|
    ensures MergeKeymap(keymap, e[..j + 1]) ==
      if e[j].key == RecordField then MergeKeymap(keymap, e[..j]) else Put(MergeKeymap(keymap, e[..j]), e[j].key, e[j].value)
  {
    PrefixSnoc(e, j);
    assert e[..j + 1][..j] == e[..j];
  }


  // ---------------------------------------------------------------------------
  // _apply_keymap

  /** `keymap.get(k, k)` */
  function Resolve(keymap: Record, k: string): string
  {
    match Get(keymap, k)
    case Some(path) => path
    case None => k
  }

  /** The items of `entry` with every key resolved through `keymap`. */
  function Renamed(entry: Record, keymap: Record): seq<Pair>
  {
    seq(|entry|, i requires 0 <= i < |entry| => Pair(Resolve(keymap, entry[i].key), entry[i].value))
  }

  /** `_apply_keymap(entry, keymap)`: the entry itself for an empty keymap;
      otherwise the dict `{keymap.get(k, k): v for k, v in entry.items()}`, in
      which two keys that resolve alike keep the first position and the last value. */
  function ApplyKeymap(entry: Record, keymap: Record): (r: Record)
    ensures keymap == [] ==> r == entry
    ensures keymap != [] ==> forall k :: Get(r, k) == LastValue(Renamed(entry, keymap), k)
    ensures keymap != [] && DistinctKeys(Renamed(entry, keymap)) ==>
              |r| == |entry| &&
              forall i :: 0 <= i < |entry| ==> r[i] == Pair(Resolve(keymap, entry[i].key), entry[i].value)
  {
    if keymap == [] then entry
    else
      var ps := Renamed(entry, keymap);
      FromPairsGetAll(ps);
      if DistinctKeys(ps) then FromPairsDistinct(ps); FromPairs(ps) else FromPairs(ps)
  }

  lemma FromPairsGetAll(ps: seq<Pair>)
    ensures forall k :: Get(FromPairs(ps), k) == LastValue(ps, k)
  {
    forall k ensures Get(FromPairs(ps), k) == LastValue(ps, k) {
      FromPairsGet(ps, k);
    }
  }

  // ---------------------------------------------------------------------------
  // parse_pair_line

  /** A key as the parser produces it: no comma, no colon, no whitespace at either end. */
  predicate IsKey(s: string) {
    ',' !in s && ':' !in s && Trimmed(s)
  }

  /** A value as the parser produces it: no comma, no whitespace at either end. */
  predicate IsValue(s: string) {
    ',' !in s && Trimmed(s)
  }

  /** One segment of a line: `None` when it has no colon (it is dropped);
      otherwise split at its first colon only, both sides stripped. */
  function DecodeSegment(part: string): (p: Option<Pair>)
    ensures p.None? <==> ':' !in part
    ensures p.Some? ==> ':' !in p.value.key && Trimmed(p.value.key) && Trimmed(p.value.value)
    ensures p.Some? && ',' !in part ==> ',' !in p.value.key && ',' !in p.value.value
  {
    match IndexOf(part, ':')
    case None => None
    case Some(i) =>
      StripKeepsOut(part[..i], ':');
      CutKeepsOut(part, i, ',');
      Some(Pair(Strip(part[..i]), Strip(part[i + 1..])))
  }

  /** Cutting at `i` and stripping both sides adds no character. */
  lemma CutKeepsOut(part: string, i: nat, c: char)
    requires i < |part|
    ensures c !in part ==> c !in Strip(part[..i]) && c !in Strip(part[i + 1..])
  {
    if c !in part {
      SliceKeepsOut(part, 0, i, c);
      SliceKeepsOut(part, i + 1, |part|, c);
      assert part[0..i] == part[..i] && part[i + 1..|part|] == part[i + 1..];
      StripKeepsOut(part[..i], c);
      StripKeepsOut(part[i + 1..], c);
    }
  }

  /** A value may itself contain colons: only the first colon separates. */
  lemma DecodeAtFirstColon(k: string, v: string)
    requires ':' !in k
    ensures DecodeSegment(k + ":" + v) == Some(Pair(Strip(k), Strip(v)))
  {
    var part := k + ":" + v;
    assert part[|k|] == ':' && part[..|k|] == k && part[|k| + 1..] == v;
    IndexOfIs(part, ':', |k|);
  }

  /** `[segment for segment in parts if segment]` */
  function NonEmpty(parts: seq<string>): (r: seq<string>)
    ensures forall i :: 0 <= i < |r| ==> r[i] != "" && r[i] in parts
    ensures forall s :: s in parts && s != "" ==> s in r
  {
    if parts == [] then []
    else
      var init := NonEmpty(parts[..|parts| - 1]);
      assert forall s :: s in parts[..|parts| - 1] ==> s in parts;
      assert parts == parts[..|parts| - 1] + [parts[|parts| - 1]];
      if parts[|parts| - 1] == "" then init else init + [parts[|parts| - 1]]
  }

  /** Filtering keeps a non-empty segment and drops an empty one... */
  lemma NonEmptySingle(part: string)
    ensures NonEmpty([part]) == if part == "" then [] else [part]
  {
    assert [part][..0] == [];
  }

  /** ...one segment at a time, in order. */
  lemma {:induction false} NonEmptyAppend(a: seq<string>, b: seq<string>)
    ensures NonEmpty(a + b) == NonEmpty(a) + NonEmpty(b)
    decreases |b|
  {
    if b == [] {
      assert a + b == a;
    } else {
      var init := b[..|b| - 1];
      assert (a + b)[..|a + b| - 1] == a + init;
      assert (a + b)[|a + b| - 1] == b[|b| - 1];
      NonEmptyAppend(a, init);
    }
  }

  /** What one segment assigns: nothing, or its pair. */
  function Decoded(part: string): seq<Pair>
  {
    match DecodeSegment(part)
    case None => []
    case Some(p) => [p]
  }

  /** The pairs the loop of `parse_pair_line` assigns, in order. */
  function DecodedPairs(parts: seq<string>): seq<Pair>
  {
    if parts == [] then [] else DecodedPairs(parts[..|parts| - 1]) + Decoded(parts[|parts| - 1])
  }

  lemma DecodedPairsSnoc(parts: seq<string>, part: string)
    ensures DecodedPairs(parts + [part]) == DecodedPairs(parts) + Decoded(part)
  {
    assert (parts + [part])[..|parts|] == parts;
  }

  lemma DecodedPairsSingle(seg: string)
    ensures DecodedPairs([seg]) == Decoded(seg)
  {
    assert [seg][..0] == [];
    var x := Decoded(seg);
    assert DecodedPairs([seg]) == DecodedPairs([]) + x;
    assert [] + x == x;
  }

  /** Decoding distributes over concatenation: segments are decoded one by one. */
  lemma {:induction false} DecodedPairsAppend(a: seq<string>, b: seq<string>)
    ensures DecodedPairs(a + b) == DecodedPairs(a) + DecodedPairs(b)
    decreases |b|
  {
    if b == [] {
      assert a + b == a;
    } else {
      var init, last := b[..|b| - 1], b[|b| - 1];
      AppendLast(a, b);
      DecodedPairsAppend(a, init);
      DecodedPairsSnoc(a + init, last);
      DecodedPairsSnoc(init, last);
      AppendAssoc(DecodedPairs(a), DecodedPairs(init), Decoded(last));
    }
  }

  /** A segment without a colon contributes nothing, wherever it stands. */
  lemma DroppedSegment(before: seq<string>, seg: string, after: seq<string>)
    requires ':' !in seg
    ensures DecodedPairs(before + [seg] + after) == DecodedPairs(before + after)
  {
    DecodedPairsAppend(before + [seg], after);
    DecodedPairsAppend(before, [seg]);
    DecodedPairsAppend(before, after);
    DecodedPairsSingle(seg);
    var d := DecodedPairs(before);
    assert d + DecodedPairs([seg]) == d;
  }

  /** The record `parse_pair_line(line)` returns. */
  function ParsedLine(line: string): Record
  {
    if line == "" then [] else FromPairs(DecodedPairs(NonEmpty(Split(Strip(line), ','))))
  }

  /** The pair decoded from a comma-free segment has a key and a value as the
      parser produces them. */
  lemma SegmentClean(part: string)
    requires ',' !in part
    ensures forall p :: p in Decoded(part) ==> IsKey(p.key) && IsValue(p.value)
  {
    match DecodeSegment(part)
    case None =>
      assert Decoded(part) == [];
    case Some(q) =>
      assert IsKey(q.key) && IsValue(q.value);
      assert Decoded(part) == [q];
      OnlyPairClean(q, Decoded(part));
  }

  lemma OnlyPairClean(q: Pair, pairs: seq<Pair>)
    requires pairs == [q] && IsKey(q.key) && IsValue(q.value)
    ensures forall p :: p in pairs ==> IsKey(p.key) && IsValue(p.value)
  {
  }

  /** Every pair decoded from comma-free segments has a key and a value as the
      parser produces them. */
  lemma {:induction false} DecodedPairsClean(parts: seq<string>)
    requires forall i :: 0 <= i < |parts| ==> ',' !in parts[i]
    ensures forall p :: p in DecodedPairs(parts) ==> IsKey(p.key) && IsValue(p.value)
    decreases |parts|
  {
    if parts != [] {
      var init, part := parts[..|parts| - 1], parts[|parts| - 1];
      assert forall i :: 0 <= i < |init| ==> init[i] == parts[i];
      DecodedPairsClean(init);
      SegmentClean(part);
      AllInAppend(DecodedPairs(init), Decoded(part));
    }
  }

  /** Membership in a concatenation. */
  lemma AllInAppend(a: seq<Pair>, b: seq<Pair>)
    ensures forall p :: p in a + b ==> p in a || p in b
  {
  }

  /** A blank line parses to an empty record. */
  lemma BlankLineParsesEmpty(line: string)
    requires AllSpace(line)
    ensures ParsedLine(line) == []
  {
    assert Strip(line) == "";
    assert Split("", ',') == [""];
  }

  lemma ParsedClean(parts: seq<string>, record: Record)
    requires forall i :: 0 <= i < |parts| ==> ',' !in parts[i]
    requires record == FromPairs(DecodedPairs(parts))
    ensures forall i :: 0 <= i < |record| ==> IsKey(record[i].key) && IsValue(record[i].value)
  {
    DecodedPairsClean(parts);
    FromPairsPairs(DecodedPairs(parts));
    PairsClean(DecodedPairs(parts), record);
  }

  lemma PairsClean(ps: seq<Pair>, record: Record)
    requires forall p :: p in record ==> p in ps
    requires forall p :: p in ps ==> IsKey(p.key) && IsValue(p.value)
    ensures forall i :: 0 <= i < |record| ==> IsKey(record[i].key) && IsValue(record[i].value)
  {
    assert forall i :: 0 <= i < |record| ==> record[i] in record;
  }

  /** One turn of the segment loop: a segment without a colon leaves the
      record as it is, any other assigns its decoded pair. */
  lemma ParseStep(parts: seq<string>, i: nat)
    requires i < |parts|
    ensures FromPairs(DecodedPairs(parts[..i + 1])) ==
              match DecodeSegment(parts[i])
              case None => FromPairs(DecodedPairs(parts[..i]))
              case Some(p) => Put(FromPairs(DecodedPairs(parts[..i])), p.key, p.value)
  {
    PrefixSnoc(parts, i);
    DecodedPairsSnoc(parts[..i], parts[i]);
    var ps := DecodedPairs(parts[..i]);
    match DecodeSegment(parts[i])
    case None => assert ps + [] == ps;
    case Some(p) => FromPairsSnoc(ps, p);
  }

  /** `parse_pair_line(line)` */
  method ParsePairLine(line: string) returns (record: Record)
    ensures record == ParsedLine(line)
    ensures DistinctKeys(record)
    ensures forall i :: 0 <= i < |record| ==> IsKey(record[i].key) && IsValue(record[i].value)
  {
    record := [];
    if line == "" {
      return;
    }
    var parts := NonEmpty(Split(Strip(line), ','));
    record := AssignSegments(parts);
    ParsedClean(parts, record);
  }

  /** The segment loop of `parse_pair_line`. */
  method AssignSegments(parts: seq<string>) returns (record: Record)
    ensures record == FromPairs(DecodedPairs(parts))
  {
    record := [];
    for i := 0 to |parts|
      invariant record == FromPairs(DecodedPairs(parts[..i]))
    {
      ParseStep(parts, i);
      record := AssignSegment(record, parts[i]);
    }
    assert parts[..|parts|] == parts;
  }

  /** One segment: skipped without a colon, else `record[key.strip()] = value.strip()`
      around the first colon. */
  method AssignSegment(record: Record, part: string) returns (record': Record)
    ensures record' == match DecodeSegment(part)
                       case None => record
                       case Some(p) => Put(record, p.key, p.value)
  {
    if ':' !in part {
      return record;
    }
    var colon := IndexOf(part, ':').value;
    var key, value := part[..colon], part[colon + 1..];
    DecodeSegmentAt(part, colon);
    record' := Put(record, Strip(key), Strip(value));
  }

  lemma DecodeSegmentAt(part: string, colon: nat)
    requires IndexOf(part, ':') == Some(colon)
    ensures DecodeSegment(part) == Some(Pair(Strip(part[..colon]), Strip(part[colon + 1..])))
  {
  }

  // ---------------------------------------------------------------------------
  // load_pair_csv, load_pair_csv_with_keymap

  /** The records the line loop collects: every line stripped, blank ones skipped. */
  function ReadLines(lines: seq<string>): seq<Record>
  {
    if lines == [] then []
    else
      var line := Strip(lines[|lines| - 1]);
      ReadLines(lines[..|lines| - 1]) + (if line == "" then [] else [ParsedLine(line)])
  }

  /** `[_apply_keymap(entry, keymap) for entry in data]` */
  function Expanded(data: seq<Record>, keymap: Record): seq<Record>
  {
    seq(|data|, i requires 0 <= i < |data| => ApplyKeymap(data[i], keymap))
  }

  /** The data records and the keymap of a ledger; aliases are expanded only
      when asked to and when there is a keymap. */
  function Loaded(lines: seq<string>, expandKeymap: bool): (seq<Record>, Record)
  {
    var (data, keymap) := Separated(ReadLines(lines));
    (if expandKeymap && keymap != [] then Expanded(data, keymap) else data, keymap)
  }

  /** The line loop shared by both load functions. */
  lemma ReadLinesStep(lines: seq<string>, i: nat)
    requires i < |lines|
    ensures var line := Strip(lines[i]);
      ReadLines(lines[..i + 1]) == ReadLines(lines[..i]) + if line == "" then [] else [ParsedLine(line)]
  {
    PrefixSnoc(lines, i);
    assert lines[..i + 1][..i] == lines[..i];
  }

  method ReadRecords(lines: seq<string>) returns (records: seq<Record>)
    ensures records == ReadLines(lines)
  {
    records := [];
    for i := 0 to |lines|
      invariant records == ReadLines(lines[..i])
    {
      ReadLinesStep(lines, i);
      records := ReadLine(records, lines[i]);
    }
    assert lines[..|lines|] == lines;
  }

  /** The body of the line loop: a blank line is skipped, any other is
      parsed and its record collected. */
  method ReadLine(records: seq<Record>, rawLine: string) returns (next: seq<Record>)
    ensures Strip(rawLine) == "" ==> next == records
    ensures Strip(rawLine) != "" ==> next == records + [ParsedLine(Strip(rawLine))]
  {
    var line := Strip(rawLine);
    if line == "" {
      next := records;
      return;
    }
    var record := ParsePairLine(line);
    next := records + [record];
  }

  /** `load_pair_csv(path, expand_keymap=...)` on the text of the file. */
  method LoadPairCsv(text: string, expandKeymap: bool) returns (entries: seq<Record>)
    ensures entries == Loaded(FileLines(text), expandKeymap).0
    ensures !expandKeymap ==> forall i :: 0 <= i < |entries| ==> !IsKeymapRecord(entries[i])
  {
    var records := ReadRecords(FileLines(text));
    var keymap;
    entries, keymap := SeparateKeymap(records);
    if expandKeymap && keymap != [] {
      entries := Expanded(entries, keymap);
    }
  }

  /** `load_pair_csv_with_keymap(path, expand_keymap=...)` on the text of the file. */
  method LoadPairCsvWithKeymap(text: string, expandKeymap: bool) returns (entries: seq<Record>, keymap: Record)
    ensures (entries, keymap) == Loaded(FileLines(text), expandKeymap)
    ensures !HasKey(keymap, RecordField)
  {
    var records := ReadRecords(FileLines(text));
    entries, keymap := SeparateKeymap(records);
    if expandKeymap && keymap != [] {
      entries := Expanded(entries, keymap);
    }
  }

  // ---------------------------------------------------------------------------
  // write_pair_csv

  /** The line `_write_entry` writes for `entry`, without its newline. */
  function SerializeRecord(entry: Record): string
  {
    Join(Segments(entry), ',')
  }

  /** `f"{key}:{value}"` */
  function Segment(p: Pair): string
  {
    p.key + ":" + p.value
  }

  /** `[f"{key}:{value}" for key, value in entry.items()]` */
  function Segments(entry: Record): (segs: seq<string>)
    ensures |segs| == |entry| && forall i :: 0 <= i < |entry| ==> segs[i] == Segment(entry[i])
  {
    if entry == [] then [] else Segments(entry[..|entry| - 1]) + [Segment(entry[|entry| - 1])]
  }

  /** `sorted(keymap)`: the aliases in Python's string order. */
  function SortedAliases(keymap: Record): (aliases: seq<string>)
    ensures Sorted(aliases)
    ensures multiset(aliases) == multiset(Keys(keymap))
    ensures forall i :: 0 <= i < |aliases| ==> HasKey(keymap, aliases[i])
  {
    var aliases := SortStrings(Keys(keymap));
    assert forall i :: 0 <= i < |aliases| ==> aliases[i] in multiset(aliases);
    aliases
  }

  /** `(alias, keymap[alias]) for alias in sorted(keymap)` */
  function AliasPairs(keymap: Record): seq<Pair>
  {
    var aliases := SortedAliases(keymap);
    seq(|aliases|, i requires 0 <= i < |aliases| => Pair(aliases[i], ValueOf(keymap, aliases[i])))
  }

  /** The assignments that build the header: `record` first, then each alias
      in sorted order. */
  function HeaderPairs(keymap: Record): seq<Pair>
  {
    [Pair(RecordField, KeymapRecord)] + AliasPairs(keymap)
  }

  /** The keymap record `write_pair_csv` writes first. */
  function HeaderRecord(keymap: Record): Record
  {
    FromPairs(HeaderPairs(keymap))
  }

  /** The lines of `write_pair_csv(entries, path, keymap)`: the keymap header
      when there is a keymap, then one line per entry. */
  function Written(entries: seq<Record>, keymap: Record): seq<string>
  {
    (if keymap != [] then [SerializeRecord(HeaderRecord(keymap))] else []) + EntryLines(entries)
  }

  /** One line per entry, in entry order. */
  function EntryLines(entries: seq<Record>): (lines: seq<string>)
    ensures |lines| == |entries| && forall i :: 0 <= i < |entries| ==> lines[i] == SerializeRecord(entries[i])
  {
    if entries == [] then [] else EntryLines(entries[..|entries| - 1]) + [SerializeRecord(entries[|entries| - 1])]
  }

  /** The loop of `write_pair_csv` that builds `keymap_entry`. */
  method KeymapEntry(keymap: Record) returns (keymapEntry: Record)
    ensures keymapEntry == HeaderRecord(keymap)
  {
    var aliases := SortedAliases(keymap);
    HeaderStart(keymap);
    forall i | 0 <= i < |aliases|
      ensures HeaderPairs(keymap)[i + 1] == Pair(aliases[i], ValueOf(keymap, aliases[i]))
    {
      HeaderAssignment(keymap, i);
    }
    keymapEntry := AssignAliases(keymap, aliases, HeaderPairs(keymap));
  }

  /** The loop of the keymap header: `record` first, then
      `keymap_entry[alias] = keymap[alias]` for each alias in turn. */
  method AssignAliases(keymap: Record, aliases: seq<string>, ghost header: seq<Pair>) returns (keymapEntry: Record)
    requires |header| == |aliases| + 1 && header[0] == Pair(RecordField, KeymapRecord)
    requires forall i :: 0 <= i < |aliases| ==>
      HasKey(keymap, aliases[i]) && header[i + 1] == Pair(aliases[i], ValueOf(keymap, aliases[i]))
    ensures keymapEntry == FromPairs(header)
  {
    keymapEntry := [Pair(RecordField, KeymapRecord)];
    FromPairsFirst(header);
    for i := 0 to |aliases|
      invariant keymapEntry == FromPairs(header[..i + 1])
    {
      FromPairsStep(header, i + 1);
      keymapEntry := Put(keymapEntry, aliases[i], ValueOf(keymap, aliases[i]));
    }
    TakeAll(header, |aliases| + 1);
  }


  /** The header assignments start with `record`... */
  lemma HeaderStart(keymap: Record)
    ensures |HeaderPairs(keymap)| == |SortedAliases(keymap)| + 1
    ensures HeaderPairs(keymap)[0] == Pair(RecordField, KeymapRecord)
  {
  }

  /** ...followed by each sorted alias with its path. */
  lemma HeaderAssignment(keymap: Record, i: nat)
    requires i < |SortedAliases(keymap)|
    ensures |HeaderPairs(keymap)| == |SortedAliases(keymap)| + 1
    ensures HeaderPairs(keymap)[i + 1] == Pair(SortedAliases(keymap)[i], ValueOf(keymap, SortedAliases(keymap)[i]))
  {
    var a := AliasPairs(keymap);
    assert HeaderPairs(keymap)[i + 1] == a[i];
  }



  /** The loop of `write_pair_csv` that writes one line per entry, returning
      the text it writes. */
  method WriteEntries(entries: seq<Record>) returns (text: string)
    ensures text == FileText(EntryLines(entries))
  {
    text := "";
    for i := 0 to |entries|
      invariant text == FileText(EntryLines(entries[..i]))
    {
      PrefixSnoc(entries, i);
      FileTextSnoc(EntryLines(entries[..i]), SerializeRecord(entries[i]));
      text := text + SerializeRecord(entries[i]) + "\n";
    }
    assert entries[..|entries|] == entries;
  }

  /** `write_pair_csv(entries, path, keymap)`, returning the text it writes
      to the file.  A missing keymap is `[]`. */
  method WritePairCsv(entries: seq<Record>, keymap: Record) returns (text: string)
    ensures text == FileText(Written(entries, keymap))
  {
    text := "";
    if keymap != [] {
      var keymapEntry := KeymapEntry(keymap);
      text := SerializeRecord(keymapEntry) + "\n";
    }
    var body := WriteEntries(entries);
    text := text + body;
    WrittenText(entries, keymap);
  }

  /** The file starts with the header line, when there is one, and goes on
      with the entries' lines. */
  lemma WrittenText(entries: seq<Record>, keymap: Record)
    ensures FileText(Written(entries, keymap)) ==
              (if keymap != [] then SerializeRecord(HeaderRecord(keymap)) + "\n" else "") + FileText(EntryLines(entries))
  {
    if keymap != [] {
      FileTextCons(SerializeRecord(HeaderRecord(keymap)), EntryLines(entries));
    } else {
      assert [] + EntryLines(entries) == EntryLines(entries);
    }
  }
}
