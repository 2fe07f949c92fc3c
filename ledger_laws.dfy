/** What the ledger codec promises across its operations: a line written for
    a record parses back to that record, the header carries the keymap in
    sorted order, and loading what was written gives back the entries and
    the keymap. */
module LedgerLaws {
  import opened Wrappers
  import opened Seqs
  import opened Text
  import opened StringOrder
  import opened Records
  import opened Ledger
  import opened TextFile

  /** Every key and value is one the parser can produce, and none holds a
      line break, which would end the line it is written on. */
  predicate CleanPairs(r: Record) {
    forall i :: 0 <= i < |r| ==>
      IsKey(r[i].key) && IsValue(r[i].value) && OneLine(r[i].key) && OneLine(r[i].value)
  }

  /** A record whose line reads back as itself: it has a field, its keys are
      distinct and its keys and values need no quoting. */
  predicate Storable(entry: Record) {
    entry != [] && DistinctKeys(entry) && CleanPairs(entry)
  }

  /** A keymap `write_pair_csv` can write as a header: clean aliases and paths,
      and no alias `record`, which would overwrite the header's marker. */
  predicate StorableKeymap(keymap: Record) {
    DistinctKeys(keymap) && CleanPairs(keymap) && !HasKey(keymap, RecordField)
  }

  // ---------------------------------------------------------------------------
  // One line

  lemma SegmentsClean(entry: Record)
    requires CleanPairs(entry)
    ensures forall i :: 0 <= i < |entry| ==>
              Segments(entry)[i] != "" && ',' !in Segments(entry)[i] && ':' in Segments(entry)[i]
  {
    forall i | 0 <= i < |entry|
      ensures Segments(entry)[i] != "" && ',' !in Segments(entry)[i] && ':' in Segments(entry)[i]
    {
      var k, v := entry[i].key, entry[i].value;
      assert Segments(entry)[i] == k + ":" + v;
      assert (k + ":" + v)[|k|] == ':';
    }
  }

  /** The line of a clean non-empty record has no whitespace at either end. */
  lemma SerializedTrimmed(entry: Record)
    requires entry != [] && CleanPairs(entry)
    ensures SerializeRecord(entry) != "" && Trimmed(SerializeRecord(entry))
  {
    var segs := Segments(entry);
    SegmentsClean(entry);
    JoinEnds(segs, ',');
    var k0, v0 := entry[0].key, entry[0].value;
    assert segs[0] == k0 + ":" + v0;
    assert segs[0][0] == if k0 == "" then ':' else k0[0];
    var n := |entry| - 1;
    var k1, v1 := entry[n].key, entry[n].value;
    assert segs[n] == k1 + ":" + v1;
    assert segs[n][|segs[n]| - 1] == if v1 == "" then ':' else v1[|v1| - 1];
  }

  lemma {:induction false} NonEmptyAll(parts: seq<string>)
    requires forall i :: 0 <= i < |parts| ==> parts[i] != ""
    ensures NonEmpty(parts) == parts
    decreases |parts|
  {
    if parts != [] {
      NonEmptyAll(parts[..|parts| - 1]);
      AppendLast([], parts);
    }
  }

  /** Each written segment decodes to the pair it was written from. */
  lemma {:induction false} SegmentsDecode(entry: Record)
    requires CleanPairs(entry)
    ensures DecodedPairs(Segments(entry)) == entry
    decreases |entry|
  {
    if entry != [] {
      var init, last := entry[..|entry| - 1], entry[|entry| - 1];
      SegmentsDecode(init);
      DecodedPairsSnoc(Segments(init), Segment(last));
      DecodeAtFirstColon(last.key, last.value);
      StripTrimmed(last.key);
      StripTrimmed(last.value);
      AppendLast([], entry);
    }
  }

  /** Parsing the line written for a storable record gives the record back;
      the line needs no stripping and is not blank. */
  lemma SerializeParseRoundTrip(entry: Record)
    requires Storable(entry)
    ensures var line := SerializeRecord(entry);
      line != "" && Strip(line) == line && ParsedLine(line) == entry
  {
    var line := SerializeRecord(entry);
    var segs := Segments(entry);
    SerializedTrimmed(entry);
    StripTrimmed(line);
    SegmentsClean(entry);
    SplitJoin(segs, ',');
    NonEmptyAll(segs);
    SegmentsDecode(entry);
    FromPairsDistinct(entry);
  }

  /** A key assigned twice on one line keeps its first position and takes
      its last value. */
  lemma ParsedLineLastWriteWins(line: string, k: string)
    requires line != ""
    ensures var ps := DecodedPairs(NonEmpty(Split(Strip(line), ',')));
      Get(ParsedLine(line), k) == LastValue(ps, k) &&
      Keys(ParsedLine(line)) == FirstOccurrences(Keys(ps))
  {
    var ps := DecodedPairs(NonEmpty(Split(Strip(line), ',')));
    FromPairsGet(ps, k);
    FromPairsKeys(ps);
  }

  // ---------------------------------------------------------------------------
  // The header

  lemma AliasPairsFacts(keymap: Record)
    ensures Keys(AliasPairs(keymap)) == SortedAliases(keymap)
    ensures forall a :: HasKey(AliasPairs(keymap), a) <==> HasKey(keymap, a)
  {
    var aliases := SortedAliases(keymap);
    var ps := AliasPairs(keymap);
    assert Keys(ps) == aliases;
    forall a ensures HasKey(ps, a) <==> HasKey(keymap, a) {
      calc {
        HasKey(ps, a);
        a in Keys(ps);
        a in multiset(aliases);
        a in multiset(Keys(keymap));
        HasKey(keymap, a);
      }
    }
  }

  /** The header lists every alias once, in sorted order, each with its path;
      it reads like the keymap it was written from. */
  lemma AliasPairsSorted(keymap: Record)
    requires DistinctKeys(keymap)
    ensures |AliasPairs(keymap)| == |keymap|
    ensures Sorted(Keys(AliasPairs(keymap)))
    ensures DistinctKeys(AliasPairs(keymap))
    ensures forall a :: Get(AliasPairs(keymap), a) == Get(keymap, a)
  {
    var aliases := SortedAliases(keymap);
    AliasPairsFacts(keymap);
    assert Distinct(Keys(keymap));
    DistinctPermutation(Keys(keymap), aliases);
    assert |aliases| == |multiset(aliases)| == |multiset(Keys(keymap))| == |keymap|;
    AliasPairsGet(keymap);
  }

  lemma AliasPairsGet(keymap: Record)
    ensures forall a :: Get(AliasPairs(keymap), a) == Get(keymap, a)
  {
    var ps := AliasPairs(keymap);
    AliasPairsFacts(keymap);
    forall a ensures Get(ps, a) == Get(keymap, a) {
      match KeyIndex(ps, a)
      case None =>
      case Some(i) =>
        assert Get(ps, a) == Some(ValueOf(keymap, a));
    }
  }

  /** The keymap record `write_pair_csv` builds: `record:keymap` first, then
      the aliases in sorted order. */
  lemma HeaderRecordShape(keymap: Record)
    requires DistinctKeys(keymap) && !HasKey(keymap, RecordField)
    ensures HeaderRecord(keymap) == [Pair(RecordField, KeymapRecord)] + AliasPairs(keymap)
    ensures IsKeymapRecord(HeaderRecord(keymap))
  {
    HeaderPairsDistinct(keymap);
    FromPairsDistinct(HeaderPairs(keymap));
  }

  lemma HeaderPairsDistinct(keymap: Record)
    requires DistinctKeys(keymap) && !HasKey(keymap, RecordField)
    ensures DistinctKeys(HeaderPairs(keymap))
  {
    var ps := AliasPairs(keymap);
    AliasPairsSorted(keymap);
    AliasPairsFacts(keymap);
    var h := HeaderPairs(keymap);
    forall i, j | 0 <= i < j < |h| ensures h[i].key != h[j].key {
      assert h[j] == ps[j - 1];
      if i > 0 {
        assert h[i] == ps[i - 1];
      }
    }
  }

  /** The header line is storable when the keymap is. */
  lemma HeaderStorable(keymap: Record)
    requires StorableKeymap(keymap)
    ensures Storable(HeaderRecord(keymap))
  {
    HeaderRecordShape(keymap);
    HeaderPairsStorable(keymap);
  }

  lemma HeaderPairsStorable(keymap: Record)
    requires StorableKeymap(keymap)
    ensures Storable(HeaderPairs(keymap))
  {
    HeaderPairsDistinct(keymap);
    forall i | 0 <= i < |HeaderPairs(keymap)| {
      HeaderPairClean(keymap, i);
    }
  }

  lemma HeaderPairClean(keymap: Record, i: nat)
    requires CleanPairs(keymap) && i < |HeaderPairs(keymap)|
    ensures IsKey(HeaderPairs(keymap)[i].key) && IsValue(HeaderPairs(keymap)[i].value)
    ensures OneLine(HeaderPairs(keymap)[i].key) && OneLine(HeaderPairs(keymap)[i].value)
  {
    if i == 0 {
      MarkerClean();
    } else {
      HeaderPairsAt(keymap, i);
      AliasPairClean(keymap, i - 1);
    }
  }

  lemma HeaderPairsAt(keymap: Record, i: nat)
    requires 0 < i < |HeaderPairs(keymap)|
    ensures HeaderPairs(keymap)[i] == AliasPairs(keymap)[i - 1]
  {
  }

  lemma MarkerClean()
    ensures IsKey(RecordField) && IsValue(KeymapRecord)
    ensures OneLine(RecordField) && OneLine(KeymapRecord)
  {
    assert RecordField == ['r', 'e', 'c', 'o', 'r', 'd'];
    assert KeymapRecord == ['k', 'e', 'y', 'm', 'a', 'p'];
  }

  lemma AliasPairClean(keymap: Record, i: nat)
    requires CleanPairs(keymap) && i < |AliasPairs(keymap)|
    ensures IsKey(AliasPairs(keymap)[i].key) && IsValue(AliasPairs(keymap)[i].value)
    ensures OneLine(AliasPairs(keymap)[i].key) && OneLine(AliasPairs(keymap)[i].value)
  {
    var p := AliasPairs(keymap)[i];
    var j := KeyIndex(keymap, p.key).value;
    assert p.value == keymap[j].value;
  }

  // ---------------------------------------------------------------------------
  // Loading what was written

  lemma ReadLinesSnoc(lines: seq<string>, l: string)
    ensures ReadLines(lines + [l]) ==
              ReadLines(lines) + (if Strip(l) == "" then [] else [ParsedLine(Strip(l))])
  {
    SnocParts(lines, l);
  }

  /** Reading goes line by line. */
  lemma {:induction false} ReadLinesAppend(a: seq<string>, b: seq<string>)
    ensures ReadLines(a + b) == ReadLines(a) + ReadLines(b)
    decreases |b|
  {
    if b == [] {
      assert a + b == a;
    } else {
      var init, last := b[..|b| - 1], b[|b| - 1];
      AppendLast(a, b);
      ReadLinesAppend(a, init);
      ReadLinesSnoc(a + init, last);
      ReadLinesSnoc(init, last);
      var more := if Strip(last) == "" then [] else [ParsedLine(Strip(last))];
      AppendAssoc(ReadLines(a), ReadLines(init), more);
    }
  }

  /** The line written for a storable record reads back as that record. */
  lemma ReadLineWritten(entry: Record)
    requires Storable(entry)
    ensures ReadLines([SerializeRecord(entry)]) == [entry]
  {
    SerializeParseRoundTrip(entry);
    ReadOneLine(SerializeRecord(entry));
  }

  lemma ReadOneLine(l: string)
    requires l != "" && Strip(l) == l
    ensures ReadLines([l]) == [ParsedLine(l)]
  {
    ReadLinesSnoc([], l);
    assert [] + [l] == [l];
  }

  /** One line per storable entry reads back as the entries. */
  lemma {:induction false} ReadEntryLines(entries: seq<Record>)
    requires forall i :: 0 <= i < |entries| ==> Storable(entries[i])
    ensures ReadLines(EntryLines(entries)) == entries
    decreases |entries|
  {
    if entries != [] {
      var init, last := entries[..|entries| - 1], entries[|entries| - 1];
      ReadEntryLines(init);
      SerializeParseRoundTrip(last);
      ReadLinesSnoc(EntryLines(init), SerializeRecord(last));
      AppendLast([], entries);
    }
  }

  /** Merging a record whose only `record` field comes first builds the dict
      of its remaining pairs. */
  lemma {:induction false} MergeAfterMarker(marker: Pair, ps: seq<Pair>)
    requires marker.key == RecordField && !HasKey(ps, RecordField)
    ensures MergeKeymap([], [marker] + ps) == FromPairs(ps)
    decreases |ps|
  {
    if ps == [] {
      assert ([marker] + ps)[..0] == [];
    } else {
      var init, last := ps[..|ps| - 1], ps[|ps| - 1];
      AppendLast([marker], ps);
      assert !HasKey(init, RecordField) by {
        assert forall i :: 0 <= i < |init| ==> init[i] == ps[i];
      }
      MergeAfterMarker(marker, init);
      FromPairsSnoc(init, last);
    }
  }

  /** Without keymap records, separation keeps every record and finds no keymap. */
  lemma {:induction false} SeparatedPlain(entries: seq<Record>)
    requires forall i :: 0 <= i < |entries| ==> !IsKeymapRecord(entries[i])
    ensures Separated(entries) == (entries, [])
    decreases |entries|
  {
    if entries != [] {
      SeparatedPlain(entries[..|entries| - 1]);
      AppendLast([], entries);
    }
  }

  /** A keymap record in front of plain records gives the plain records and
      its merged keymap. */
  lemma {:induction false} SeparatedHeader(h: Record, entries: seq<Record>)
    requires IsKeymapRecord(h)
    requires forall i :: 0 <= i < |entries| ==> !IsKeymapRecord(entries[i])
    ensures Separated([h] + entries) == (entries, MergeKeymap([], h))
    decreases |entries|
  {
    if entries == [] {
      assert ([h] + entries)[..0] == [];
    } else {
      AppendLast([h], entries);
      SeparatedHeader(h, entries[..|entries| - 1]);
      AppendLast([], entries);
    }
  }

  /** The lines written for `entries` and `keymap` read back as the header
      record, when there is one, followed by the entries. */
  lemma WrittenParses(entries: seq<Record>, keymap: Record)
    requires forall i :: 0 <= i < |entries| ==> Storable(entries[i])
    requires StorableKeymap(keymap)
    ensures ReadLines(Written(entries, keymap)) ==
              (if keymap != [] then [HeaderRecord(keymap)] else []) + entries
  {
    ReadEntryLines(entries);
    var header := if keymap != [] then [SerializeRecord(HeaderRecord(keymap))] else [];
    ReadLinesAppend(header, EntryLines(entries));
    if keymap != [] {
      HeaderStorable(keymap);
      ReadLineWritten(HeaderRecord(keymap));
    } else {
      assert [] + entries == entries;
    }
  }

  /** Loading reads the aliases through `AliasPairs`, the sorted copy of the
      keymap that was written; expansion through it renames like the original. */
  lemma ExpandedSortedKeymap(entries: seq<Record>, keymap: Record)
    requires DistinctKeys(keymap) && keymap != []
    ensures Expanded(entries, AliasPairs(keymap)) == Expanded(entries, keymap)
  {
    AliasPairsSorted(keymap);
    assert AliasPairs(keymap) != [];
    forall i | 0 <= i < |entries|
      ensures ApplyKeymap(entries[i], AliasPairs(keymap)) == ApplyKeymap(entries[i], keymap)
    {
      assert Renamed(entries[i], AliasPairs(keymap)) == Renamed(entries[i], keymap);
    }
  }

  /** Loading what was written without a keymap gives the entries back. */
  lemma WriteLoadPlain(entries: seq<Record>)
    requires forall i :: 0 <= i < |entries| ==> Storable(entries[i]) && !IsKeymapRecord(entries[i])
    ensures Separated(ReadLines(Written(entries, []))) == (entries, [])
  {
    WrittenParses(entries, []);
    assert [] + entries == entries;
    SeparatedPlain(entries);
  }

  /** Loading what was written with a keymap gives the entries back, and the
      keymap with its aliases in sorted order. */
  lemma WriteLoadWithKeymap(entries: seq<Record>, keymap: Record)
    requires forall i :: 0 <= i < |entries| ==> Storable(entries[i]) && !IsKeymapRecord(entries[i])
    requires StorableKeymap(keymap) && keymap != []
    ensures Separated(ReadLines(Written(entries, keymap))) == (entries, AliasPairs(keymap))
  {
    WrittenParses(entries, keymap);
    HeaderRecordShape(keymap);
    SeparatedHeader(HeaderRecord(keymap), entries);
    AliasPairsFacts(keymap);
    MergeAfterMarker(Pair(RecordField, KeymapRecord), AliasPairs(keymap));
    AliasPairsSorted(keymap);
    FromPairsDistinct(AliasPairs(keymap));
  }

  /** Each segment of a clean record is on one line. */
  lemma SegmentsOneLine(entry: Record)
    requires CleanPairs(entry)
    ensures forall i :: 0 <= i < |entry| ==> OneLine(Segments(entry)[i])
  {
    forall i | 0 <= i < |entry| ensures OneLine(Segments(entry)[i]) {
      assert Segments(entry)[i] == entry[i].key + [':'] + entry[i].value;
      JoinedOneLine(entry[i].key, ':', entry[i].value);
    }
  }

  /** The line written for a clean record holds no line break. */
  lemma SerializedOneLine(entry: Record)
    requires CleanPairs(entry)
    ensures OneLine(SerializeRecord(entry))
  {
    SegmentsOneLine(entry);
    var segs := Segments(entry);
    if '\n' in SerializeRecord(entry) {
      JoinHolds(segs, ',', '\n');
    }
    if '\r' in SerializeRecord(entry) {
      JoinHolds(segs, ',', '\r');
    }
  }

  /** Every line written for storable entries and keymap is one line of the file. */
  lemma WrittenOneLine(entries: seq<Record>, keymap: Record)
    requires forall i :: 0 <= i < |entries| ==> Storable(entries[i])
    requires StorableKeymap(keymap)
    ensures forall i :: 0 <= i < |Written(entries, keymap)| ==> OneLine(Written(entries, keymap)[i])
  {
    var lines := Written(entries, keymap);
    var h := if keymap != [] then 1 else 0;
    forall i | 0 <= i < |lines| ensures OneLine(lines[i]) {
      if i < h {
        HeaderStorable(keymap);
        SerializedOneLine(HeaderRecord(keymap));
      } else {
        assert lines[i] == EntryLines(entries)[i - h];
        SerializedOneLine(entries[i - h]);
      }
    }
  }

  /** Round trip: loading the file `write_pair_csv` wrote gives back the
      entries, and the keymap with its aliases in sorted order; with
      expansion, the entries with every alias resolved through that keymap. */
  lemma WriteLoadRoundTrip(entries: seq<Record>, keymap: Record)
    requires forall i :: 0 <= i < |entries| ==> Storable(entries[i]) && !IsKeymapRecord(entries[i])
    requires StorableKeymap(keymap)
    ensures Loaded(FileLines(FileText(Written(entries, keymap))), false) == (entries, AliasPairs(keymap))
    ensures Loaded(FileLines(FileText(Written(entries, keymap))), true) ==
              (if keymap == [] then entries else Expanded(entries, keymap), AliasPairs(keymap))
  {
    WrittenOneLine(entries, keymap);
    FileRoundTrip(Written(entries, keymap));
    if keymap == [] {
      WriteLoadPlain(entries);
      AliasPairsSorted(keymap);
    } else {
      WriteLoadWithKeymap(entries, keymap);
      AliasPairsSorted(keymap);
      ExpandedSortedKeymap(entries, keymap);
    }
  }
}
