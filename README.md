# Cosmic Pair Ledger, modelled in Dafny

A Cosmic Pair Ledger (CPL) file is a text file with one record per line.
A line is a comma-separated list of `key:value` segments. A record is an
insertion-ordered string map. Assigning a key that is already present keeps
its position and takes the new value. A reserved record `record:keymap`
carries alias → full-key pairs. Loading separates that record from the data
and can expand aliased keys. Writing puts it first, as a header line with
the aliases sorted.

This project models two parts of the repository:

- `cosmic_pair_ledger/core.py`. This is the line codec, the keymap
  separation and expansion, loading (from the text of a file), writing
  (producing the text of a file), and the `{entries, keymap}` payload used
  by the JSON and YAML converters.
- The converters in `cosmic_pair_ledger_cli.py`:
  - `_stringify_scalar`;
  - the memoizing `AliasGenerator`;
  - `_walk_yaml_paths` and `_flatten_yaml_documents`, which turn YAML
    documents into aliased `yaml-doc` records;
  - the `HtmlCollector` state machine, which turns HTML tokenizer events into
    `element` and `text` node records with parent and `child<i>` links.

Layout:

| file | module | contents |
|---|---|---|
| `wrappers.dfy` | `Wrappers` | `Option`, `Result` |
| `seqs.dfy` | `Seqs` | small sequence facts |
| `text.dfy` | `Text` | `str.strip()`, `split`, `join`, `find`, `str(n)` |
| `text_file.dfy` | `TextFile` | a file written line by line and read back line by line in text mode |
| `string_order.dfy` | `StringOrder` | code-point order and `sorted()` on strings |
| `records.dfy` | `Records` | the ordered dict: `Get`, `Put`, a dict built from pairs |
| `values.dfy` | `Values` | JSON / YAML values, `bool()` and `str()` on them |
| `ledger.dfy` | `Ledger` | `core.py`: keymap separation and expansion, parsing, loading, writing |
| `ledger_laws.dfy` | `LedgerLaws` | the write-then-load round trip and the header facts |
| `payload.dfy` | `Payload` | `entries_to_json_data`, `json_data_to_entries` |
| `walk.dfy` | `YamlPaths` | `_stringify_scalar`, `_walk_yaml_paths` |
| `aliases.dfy` | `Aliases` | `AliasGenerator` as a class, with its table invariant |
| `flatten.dfy` | `YamlFlatten` | `_flatten_yaml_documents` |
| `flatten_laws.dfy` | `YamlFlattenLaws` | what the flattened entries and keymap contain |
| `html.dfy` | `Html` | the collector's handlers as functions on its state |
| `html_collector.dfy` | `HtmlCollecting` | `HtmlCollector` as a class, and `to_entries` |
| `html_laws.dfy` | `HtmlLaws` | the node-tree invariant and its consequences |

How the code is modelled:

- Loops that update variables are `method`s with `while` or `for` loops.
  Each method is proved equal to a specification function. Those functions
  are folds defined from the back, so a loop invariant `x == F(s[..i])`
  follows the loop step by step.
- `AliasGenerator` and `HtmlCollector` are classes whose methods change
  their fields. `HtmlCollector.State()` reads the fields as a value. Each
  handler is proved to move that value exactly as the pure handler
  functions in `Html` do, and the invariant is proved about those functions.
- A ledger file is its text. Writing returns the text written, each line
  followed by `\n`. Loading cuts the text into lines the way text-mode
  iteration does, at `\n`, `\r\n` or a lone `\r`. Tokenizer and parser
  output is replaced by input values: an HTML event sequence, or a tree of
  `Values.Value`.
- Each loop method is proved equal to a specification function, so the
  specification functions (`Ledger.ParsedLine`, `Ledger.Separated`,
  `Ledger.Loaded`, `Ledger.Written`, `YamlPaths.Walk`, `YamlFlatten.Flattened`,
  `Aliases.AliasOf`, `Aliases.Remember`, `Html.OnStartTag`, `Html.OnEndTag`,
  `Html.OnData`, `Html.Feed`) have no rows of their own. The method rows
  and the lemma rows about those functions state what they compute.

## Model

| member | source | states |
|---|---|---|
| Text.Strip | cosmic_pair_ledger/core.py:59 | `strip()` returns a slice of its argument with only whitespace cut from either end, and neither end of the result is whitespace |
| Text.StripBlank | cosmic_pair_ledger/core.py:59-61 | a stripped line is empty exactly when the line is all whitespace, so exactly the blank lines are skipped |
| Text.StripTrimmed | cosmic_pair_ledger/core.py:59 | stripping a line that has no surrounding whitespace leaves it unchanged |
| Text.StripKeepsOut | cosmic_pair_ledger/core.py:48-49 | stripping adds no character, so a stripped key still has no colon |
| Text.Split | cosmic_pair_ledger/core.py:44 | `split(",")` returns at least one part; no part contains the separator; joining the parts with it gives back the string |
| Text.SplitJoin | cosmic_pair_ledger/core.py:44 | splitting joined separator-free parts gives back the parts |
| Text.JoinEnds | cosmic_pair_ledger/core.py:92 | the join of non-empty parts starts with the first part's first character and ends with the last part's last character |
| Text.JoinKeepsOut | cosmic_pair_ledger/core.py:44 | a character missing from a joined string is missing from every part |
| Text.JoinHolds | cosmic_pair_ledger/core.py:92 | every character of a join is the separator or a character of some part |
| TextFile.Universal | cosmic_pair_ledger/core.py:57-58 | reading in text mode turns `\r\n` and a lone `\r` into `\n`, so no `\r` is left, and it changes nothing in text that has no `\r` |
| TextFile.FileLines | cosmic_pair_ledger/core.py:57-58 | iterating over the file yields lines that hold no line break |
| TextFile.FileTextCons | cosmic_pair_ledger/core.py:92 | the first line written comes first in the file, followed by a newline |
| TextFile.FileTextSnoc | cosmic_pair_ledger/core.py:92 | writing one more line appends it and a newline to the file |
| TextFile.FileTextJoin | cosmic_pair_ledger/core.py:92 | the file is its lines joined by newlines, with a newline at the end |
| TextFile.FileTextNoReturn | cosmic_pair_ledger/core.py:92 | a file of lines without `\r` holds no `\r` |
| TextFile.PiecesOfFile | cosmic_pair_ledger/core.py:92 | cutting such a file at newlines gives its lines and an empty last piece |
| TextFile.FileRoundTrip | cosmic_pair_ledger/core.py:57-58 | reading back a file written from lines that hold no line break gives exactly those lines |
| TextFile.JoinedOneLine | cosmic_pair_ledger/core.py:91 | two strings without line breaks joined by another character have no line break |
| TextFile.BrokenLine | cosmic_pair_ledger/core.py:57-58 | a line written with a `\n` inside it is read back as two lines |
| Text.IndexOf | cosmic_pair_ledger/core.py:46-48 | finds the first occurrence of the separator, or reports that there is none |
| Text.NatToString | cosmic_pair_ledger_cli.py:52 | `str(n)` is a non-empty string of decimal digits, and one digit long exactly when n < 10 |
| Text.NatToStringInjective | cosmic_pair_ledger_cli.py:52 | distinct numbers have distinct decimal forms |
| Text.NumberedDistinct | cosmic_pair_ledger_cli.py:99-102 | `prefix + str(n)` names differ for distinct n, so numbered aliases and ids never collide |
| StringOrder.SortStrings | cosmic_pair_ledger/core.py:97 | `sorted(keymap)` is sorted in code-point order and is a permutation of the keys |
| StringOrder.Insert | cosmic_pair_ledger/core.py:97 | inserting into a sorted list keeps it sorted and adds exactly one element |
| StringOrder.BelowIrreflexive | cosmic_pair_ledger/core.py:97 | the string order is irreflexive |
| StringOrder.BelowTransitive | cosmic_pair_ledger/core.py:97 | the string order is transitive |
| StringOrder.BelowTotal | cosmic_pair_ledger/core.py:97 | any two distinct strings are ordered one way or the other |
| StringOrder.SortedDistinctStrict | cosmic_pair_ledger/core.py:97 | sorted distinct aliases are strictly increasing |
| Records.Get | cosmic_pair_ledger/core.py:18 | `entry.get(k)` finds a value exactly when the key is present |
| Records.Keys | cosmic_pair_ledger/core.py:97 | the keys in insertion order, one per pair; a key is listed exactly when it is present |
| Records.KeyIndex | cosmic_pair_ledger/core.py:22 | the position of a key is its first occurrence, or there is none when the key is absent |
| Records.Put | cosmic_pair_ledger/core.py:22 | `d[k] = v` makes `k` read `v`, appends a new key at the end, and keeps keys distinct |
| Records.PutFacts | cosmic_pair_ledger/core.py:22 | `d[k] = v` leaves every other key as it was; overwriting a present key keeps every key and position and changes only that pair |
| Records.PutGet | cosmic_pair_ledger/core.py:22 | a lookup after `d[k] = v` gives `v` for `k` and the old value for any other key |
| Records.FromPairs | cosmic_pair_ledger/core.py:45-49 | a dict built by assigning pairs in order has distinct keys, and exactly the keys of the pairs |
| Records.FromPairsGet | cosmic_pair_ledger/core.py:49 | last write wins: each key reads the value of its last pair |
| Records.FromPairsKeys | cosmic_pair_ledger/core.py:49 | a repeated key keeps its first position: the keys appear in order of first occurrence |
| Records.FromPairsPairs | cosmic_pair_ledger/core.py:49 | every pair of the dict is one of the assigned pairs |
| Records.FromPairsDistinct | cosmic_pair_ledger/core.py:31 | assigning pairs whose keys are distinct rebuilds exactly those pairs |
| Records.FromPairsSnoc | cosmic_pair_ledger/core.py:49 | one more pair is one more assignment |
| Records.LastValueAppend | cosmic_pair_ledger/core.py:22 | across two runs of assignments, the later run decides a key it assigns |
| Values.Lookup | cosmic_pair_ledger/core.py:114 | `data.get(k)` finds a member with that key exactly when one exists |
| Ledger.MergeInto | cosmic_pair_ledger/core.py:19-22 | the inner loop of `_separate_keymap` assigns every field of a keymap record except `record` into the keymap |
| Ledger.MergeKeymapGet | cosmic_pair_ledger/core.py:19-22 | after merging a keymap record, an alias reads its last value in that record, or its old value; `record` is never taken |
| Ledger.SeparateKeymap | cosmic_pair_ledger/core.py:13-25 | `_separate_keymap` returns the non-keymap records in order and the merged keymap; no returned record is a keymap record, and the keymap has no `record` key |
| Ledger.SeparatedData | cosmic_pair_ledger/core.py:17-24 | the data part is exactly the input with the keymap records filtered out, in order |
| Ledger.DataRecordsNotKeymap | cosmic_pair_ledger/core.py:18-24 | no data record has `record == "keymap"` |
| Ledger.DataRecordsAppend | cosmic_pair_ledger/core.py:17-24 | one more record adds itself to the data unless it is a keymap record |
| Ledger.SeparatedKeymapHasNoRecordField | cosmic_pair_ledger/core.py:20-21 | the merged keymap never holds the key `record` |
| Ledger.KeymapLaterWins | cosmic_pair_ledger/core.py:18-22 | a later keymap record overrides the aliases it assigns and keeps the others |
| Ledger.ApplyKeymap | cosmic_pair_ledger/core.py:28-31 | `_apply_keymap` returns the entry unchanged for an empty keymap; otherwise each key `k` becomes `keymap.get(k, k)` with values untouched; keys that collide keep the first position and the last value |
| Ledger.DecodeSegment | cosmic_pair_ledger/core.py:46-49 | a segment without `:` is dropped; otherwise the key is the stripped text before the first colon and has no colon, the value is the stripped rest, and neither has a comma when the segment has none |
| Ledger.CutKeepsOut | cosmic_pair_ledger/core.py:48-49 | both sides of the cut, stripped, lack any character the segment lacks |
| Ledger.DecodeSegmentAt | cosmic_pair_ledger/core.py:48-49 | `split(":", 1)` splits at the first colon found |
| Ledger.DecodeAtFirstColon | cosmic_pair_ledger/core.py:48-49 | a value may itself contain colons: only the first colon separates |
| Ledger.NonEmpty | cosmic_pair_ledger/core.py:44 | every segment kept is non-empty and comes from the input, and every non-empty input segment is kept |
| Ledger.NonEmptySingle | cosmic_pair_ledger/core.py:44 | one segment is kept exactly when it is non-empty |
| Ledger.NonEmptyAppend | cosmic_pair_ledger/core.py:44 | filtering two runs of segments filters each and keeps their order |
| Ledger.DroppedSegment | cosmic_pair_ledger/core.py:46-47 | a segment without a colon contributes nothing |
| Ledger.DecodedPairsAppend | cosmic_pair_ledger/core.py:45-49 | the segments of two runs contribute their pairs in order |
| Ledger.ParsePairLine | cosmic_pair_ledger/core.py:34-50 | `parse_pair_line` gives `{}` for the empty line, otherwise the dict assigned from the decoded segments; the keys are distinct, and keys and values are comma-free and trimmed |
| Ledger.AssignSegments | cosmic_pair_ledger/core.py:45-49 | the segment loop assigns the decoded pairs in order |
| Ledger.AssignSegment | cosmic_pair_ledger/core.py:46-49 | one loop step skips a colon-free segment or assigns its pair |
| Ledger.BlankLineParsesEmpty | cosmic_pair_ledger/core.py:41-44 | an empty or whitespace-only line parses to an empty record |
| Ledger.SegmentClean | cosmic_pair_ledger/core.py:44-49 | a decoded segment has a trimmed key free of comma and colon, and a trimmed comma-free value |
| Ledger.DecodedPairsClean | cosmic_pair_ledger/core.py:44-49 | every pair a line yields is clean in that sense |
| Ledger.ParsedClean | cosmic_pair_ledger/core.py:44-50 | every pair of the parsed record is clean in that sense |
| Ledger.ReadRecords | cosmic_pair_ledger/core.py:58-62 | the line loop strips each line, skips blank ones, and parses the rest, in order |
| Ledger.ReadLine | cosmic_pair_ledger/core.py:59-62 | one step of the line loop: a line that strips to nothing adds no record, any other adds its parsed record at the end |
| Ledger.LoadPairCsv | cosmic_pair_ledger/core.py:53-66 | `load_pair_csv` reads the file's lines and returns the data records, expanded when asked and the keymap is non-empty; unexpanded, none of them is a keymap record |
| Ledger.LoadPairCsvWithKeymap | cosmic_pair_ledger/core.py:69-82 | `load_pair_csv_with_keymap` reads the file's lines and returns the same entries with the merged keymap, which has no `record` key |
| Ledger.Segments | cosmic_pair_ledger/core.py:91 | one `key:value` segment per item, in order |
| Ledger.EntryLines | cosmic_pair_ledger/core.py:100-101 | exactly one line per entry, in entry order |
| Ledger.SortedAliases | cosmic_pair_ledger/core.py:97 | the header's aliases are sorted, are a permutation of the keymap's keys, and are all present in the keymap |
| Ledger.KeymapEntry | cosmic_pair_ledger/core.py:95-98 | the header record is `record:keymap` followed by each alias, in sorted order, with its full key |
| Ledger.AssignAliases | cosmic_pair_ledger/core.py:96-98 | the header loop assigns `record:keymap` and then the sorted aliases in order |
| Ledger.HeaderStart | cosmic_pair_ledger/core.py:96 | the header starts with `record:keymap` and has one more pair than there are aliases |
| Ledger.HeaderAssignment | cosmic_pair_ledger/core.py:97-98 | header pair i+1 is the i-th sorted alias with its full key |
| Ledger.WriteEntries | cosmic_pair_ledger/core.py:100-101 | the entry loop writes one serialized line per entry, each followed by a newline, in order |
| Ledger.WritePairCsv | cosmic_pair_ledger/core.py:85-101 | `write_pair_csv` writes the header line only when the keymap is non-empty, then one line per entry, each followed by a newline |
| Ledger.WrittenText | cosmic_pair_ledger/core.py:94-101 | the file is the header line and its newline, when there is a header, followed by the entries' lines |
| LedgerLaws.SegmentsClean | cosmic_pair_ledger/core.py:91 | a clean pair serializes to a non-empty, comma-free segment containing a colon |
| LedgerLaws.SerializedTrimmed | cosmic_pair_ledger/core.py:90-92 | a non-empty clean record gives a non-empty line with no surrounding whitespace |
| LedgerLaws.NonEmptyAll | cosmic_pair_ledger/core.py:44 | filtering keeps a list of non-empty segments whole |
| LedgerLaws.SegmentsDecode | cosmic_pair_ledger/core.py:44-49 | decoding the segments of a clean record gives back its pairs |
| LedgerLaws.SerializeParseRoundTrip | cosmic_pair_ledger/core.py:44-49 | parsing the line written for a storable record (non-empty, distinct clean keys, clean values, no line breaks) gives back the record, and stripping leaves that line unchanged |
| LedgerLaws.ParsedLineLastWriteWins | cosmic_pair_ledger/core.py:49 | within one line, a repeated key takes the last value and keeps its first position |
| LedgerLaws.AliasPairsFacts | cosmic_pair_ledger/core.py:97-98 | the header's alias pairs list the sorted aliases, and hold exactly the keymap's aliases |
| LedgerLaws.AliasPairsSorted | cosmic_pair_ledger/core.py:97-98 | for a keymap with distinct aliases, the header pairs are a sorted rearrangement with the same lookups |
| LedgerLaws.AliasPairsGet | cosmic_pair_ledger/core.py:98 | each alias in the header reads its full key from the keymap |
| LedgerLaws.HeaderRecordShape | cosmic_pair_ledger/core.py:95-98 | the header is `record:keymap` followed by the sorted alias pairs, and is itself a keymap record |
| LedgerLaws.HeaderPairsDistinct | cosmic_pair_ledger/core.py:96-98 | the header's keys are distinct |
| LedgerLaws.HeaderStorable | cosmic_pair_ledger/core.py:95-99 | the header is storable when the keymap is |
| LedgerLaws.HeaderPairsStorable | cosmic_pair_ledger/core.py:96-98 | the header pairs are storable when the keymap is |
| LedgerLaws.HeaderPairClean | cosmic_pair_ledger/core.py:96-98 | every header pair is clean when the keymap is |
| LedgerLaws.HeaderPairsAt | cosmic_pair_ledger/core.py:97-98 | header pair i is alias pair i-1 |
| LedgerLaws.MarkerClean | cosmic_pair_ledger/core.py:96 | `record:keymap` is itself a clean pair |
| LedgerLaws.AliasPairClean | cosmic_pair_ledger/core.py:97-98 | every alias pair is clean when the keymap is |
| LedgerLaws.ReadLinesSnoc | cosmic_pair_ledger/core.py:58-62 | one more line adds its parsed record unless it is blank |
| LedgerLaws.ReadLinesAppend | cosmic_pair_ledger/core.py:58-62 | loading two runs of lines loads the records of each, in order |
| LedgerLaws.ReadOneLine | cosmic_pair_ledger/core.py:59-62 | a non-blank stripped line loads as its parsed record |
| LedgerLaws.ReadLineWritten | cosmic_pair_ledger/core.py:90-92 | the line written for a storable record loads as that record |
| LedgerLaws.ReadEntryLines | cosmic_pair_ledger/core.py:100-101 | the lines written for storable entries load as those entries |
| LedgerLaws.MergeAfterMarker | cosmic_pair_ledger/core.py:19-22 | merging a header skips its marker and assigns the remaining pairs |
| LedgerLaws.SeparatedPlain | cosmic_pair_ledger/core.py:13-25 | without keymap records, separation returns the records unchanged and an empty keymap |
| LedgerLaws.SeparatedHeader | cosmic_pair_ledger/core.py:13-25 | a keymap record followed by data records separates into that data and the merged header |
| LedgerLaws.WrittenParses | cosmic_pair_ledger/core.py:94-101 | loading the written lines gives the header record, present only for a non-empty keymap, followed by the entries |
| LedgerLaws.ExpandedSortedKeymap | cosmic_pair_ledger/core.py:64-65 | expanding with the sorted copy of a keymap is the same as expanding with the keymap |
| LedgerLaws.WriteLoadPlain | cosmic_pair_ledger/core.py:85-101 | writing without a keymap and separating gives back the entries and an empty keymap |
| LedgerLaws.WriteLoadWithKeymap | cosmic_pair_ledger/core.py:85-101 | writing with a keymap and separating gives back the entries and the keymap in sorted order |
| LedgerLaws.SegmentsOneLine | cosmic_pair_ledger/core.py:91 | the segments of a clean record hold no line break |
| LedgerLaws.SerializedOneLine | cosmic_pair_ledger/core.py:91-92 | the line written for a clean record holds no line break |
| LedgerLaws.WrittenOneLine | cosmic_pair_ledger/core.py:94-101 | every line written for storable entries and keymap is one line of the file |
| LedgerLaws.WriteLoadRoundTrip | cosmic_pair_ledger/core.py:53-101 | reading back the file `write_pair_csv` wrote and loading it gives back the storable entries (expanded through the keymap when asked) and the keymap in sorted order |
| Payload.RecordValue | cosmic_pair_ledger/core.py:106 | a record becomes a JSON object with the same keys, in order, and string values |
| Payload.RecordValues | cosmic_pair_ledger/core.py:106 | the entries become a list of such objects, one per entry |
| Payload.EntriesToJsonData | cosmic_pair_ledger/core.py:104-109 | the payload has `entries`, and has `keymap` only when the keymap is non-empty |
| Payload.StringMap | cosmic_pair_ledger/core.py:120 | a dict comprehension over a mapping has distinct keys |
| Payload.ItemsToRecords | cosmic_pair_ledger/core.py:121 | each item becomes a record exactly when every item is a mapping; otherwise it fails with "entry not a mapping" |
| Payload.JsonDataToEntries | cosmic_pair_ledger/core.py:112-121 | a successful decode read a top-level `entries` list and returns one record per item |
| Payload.JsonDataToEntriesErrors | cosmic_pair_ledger/core.py:114-119 | decoding fails exactly when `entries` is missing or not a list, then exactly when a truthy `keymap` is not a mapping, then exactly when an item is not a mapping |
| Payload.FalsyKeymapIsEmpty | cosmic_pair_ledger/core.py:117-120 | a missing or falsy `keymap` decodes as `{}` |
| Payload.StringMapOfRecord | cosmic_pair_ledger/core.py:120 | converting the object of a record gives back the record |
| Payload.ItemsRoundTrip | cosmic_pair_ledger/core.py:121 | decoding the encoded entries gives them back |
| Payload.KeymapRoundTrip | cosmic_pair_ledger/core.py:117-120 | decoding the encoded keymap, or its absence, gives it back |
| Payload.DecodeFound | cosmic_pair_ledger/core.py:112-121 | when `entries` and `keymap` convert, the decode returns them |
| Payload.JsonRoundTrip | cosmic_pair_ledger/core.py:104-121 | `json_data_to_entries(entries_to_json_data(e, k))` gives back `(e, k)` |
| YamlPaths.StringifyScalar | cosmic_pair_ledger_cli.py:36-41 | `None` becomes `""`, booleans become `"true"`/`"false"`, anything else becomes its `str()` |
| YamlPaths.Render | cosmic_pair_ledger_cli.py:61-71 | one leaf per path, named by its dotted path below the prefix |
| YamlPaths.RenderAppend | cosmic_pair_ledger_cli.py:63-69 | the leaves of two runs of children come in order |
| YamlPaths.RenderUnder | cosmic_pair_ledger_cli.py:64-68 | the leaves below a child are named under the child's prefix |
| YamlPaths.WalkRendersPaths | cosmic_pair_ledger_cli.py:61-71 | the walk yields exactly the tree's key/index paths to its scalars, in order, each joined with dots below the prefix |
| YamlPaths.WalkMembersRenders | cosmic_pair_ledger_cli.py:62-65 | a mapping's members are walked in order under `prefix.key` |
| YamlPaths.WalkItemsRenders | cosmic_pair_ledger_cli.py:66-69 | a list's items are walked in order under `prefix.index` |
| YamlPaths.DottedBelow | cosmic_pair_ledger_cli.py:64 | below a non-empty prefix, a path is the prefix, a dot, and the components joined with dots |
| YamlPaths.DottedFromTop | cosmic_pair_ledger_cli.py:64 | from the top, a path is its components joined with dots, with no leading dot |
| YamlPaths.DottedSplits | cosmic_pair_ledger_cli.py:61-71 | when the components have no dots, splitting a path at dots gives them back |
| YamlPaths.WalkScalar | cosmic_pair_ledger_cli.py:70-71 | a top-level scalar yields the one leaf with path `""` |
| Aliases.Inverse | cosmic_pair_ledger_cli.py:57-58 | the inverse table swaps every pair, in order |
| Aliases.AppendTable | cosmic_pair_ledger_cli.py:51-54 | giving a new path the alias `prefix + len` keeps the table well formed |
| Aliases.RememberTable | cosmic_pair_ledger_cli.py:50-55 | after `alias_for`, the path has its alias, older paths keep theirs, a new path is appended, and the table extends the old one |
| Aliases.NewAliasStep | cosmic_pair_ledger_cli.py:51-54 | a new path gets `prefix + len(table)`, is recorded in both tables, and keeps them inverse |
| Aliases.KnownAliasStep | cosmic_pair_ledger_cli.py:55 | a known path returns its stored alias and changes neither table |
| Aliases.RememberStep | cosmic_pair_ledger_cli.py:50-55 | the table keys stay the distinct requested paths in order of first request |
| Aliases.AliasMemoized | cosmic_pair_ledger_cli.py:50-55 | asking for the same path again returns the same alias and changes nothing |
| Aliases.AliasesDistinct | cosmic_pair_ledger_cli.py:52 | distinct paths have distinct aliases |
| Aliases.FreshAlias | cosmic_pair_ledger_cli.py:52-54 | the next alias is not yet in the alias-to-path table |
| Aliases.InverseGet | cosmic_pair_ledger_cli.py:57-58 | the keymap maps an alias to a path exactly when the table maps that path to the alias |
| Aliases.LearnedTable | cosmic_pair_ledger_cli.py:50-55 | after a run of requests the table is well formed, extends the old one, and knows every path requested |
| Aliases.LearnedKeys | cosmic_pair_ledger_cli.py:50-55 | the table's paths are the requested paths in order of first request |
| Aliases.AliasNumber | cosmic_pair_ledger_cli.py:52 | a path's alias is `prefix + n`, where n is the number of distinct paths requested before it |
| Aliases.AliasInjective | cosmic_pair_ledger_cli.py:52 | two paths with the same alias are the same path |
| Aliases.AliasGenerator.constructor | cosmic_pair_ledger_cli.py:45-48 | a new generator has empty tables and the given prefix |
| Aliases.AliasGenerator.AliasFor | cosmic_pair_ledger_cli.py:50-55 | `alias_for` returns the stored alias of a known path, or the next numbered alias for a new path, recorded in both tables |
| Aliases.AliasGenerator.AsKeymap | cosmic_pair_ledger_cli.py:57-58 | `as_keymap` is the inverse of the path-to-alias table, one pair per distinct path requested |
| YamlFlatten.FlattenYamlDocuments | cosmic_pair_ledger_cli.py:74-88 | the loop over documents with one shared generator computes the specification's entries and keymap |
| YamlFlatten.FlattenDocsStep | cosmic_pair_ledger_cli.py:77-87 | each document adds its entry and carries the generator's table forward |
| YamlFlatten.FlattenDocument | cosmic_pair_ledger_cli.py:78-87 | a document's entry starts with its header; a `None` document stops there, and any other adds its leaves |
| YamlFlatten.FillDocument | cosmic_pair_ledger_cli.py:82-86 | the leaf loop fills the entry and the generator as specified |
| YamlFlatten.FillLeaf | cosmic_pair_ledger_cli.py:83-86 | a leaf with the empty path is skipped; otherwise its value is stored under its alias |
| YamlFlatten.FillEntryStep | cosmic_pair_ledger_cli.py:82-86 | each leaf extends the specification of the loop by one step |
| YamlFlattenLaws.NonEmptyPaths | cosmic_pair_ledger_cli.py:83-84 | only non-empty paths get aliases |
| YamlFlattenLaws.FillEntryTable | cosmic_pair_ledger_cli.py:82-86 | a document teaches the generator its non-empty paths, in order |
| YamlFlattenLaws.FlattenDocTable | cosmic_pair_ledger_cli.py:78-87 | a `None` document teaches it nothing |
| YamlFlattenLaws.LearnedAppend | cosmic_pair_ledger_cli.py:74-88 | learning two runs of paths is learning one after the other |
| YamlFlattenLaws.FlattenDocsTable | cosmic_pair_ledger_cli.py:74-88 | the shared table is what all the documents' paths teach, in order |
| YamlFlattenLaws.FlattenedTable | cosmic_pair_ledger_cli.py:74-88 | the final table is well formed, lists each path once in order of first appearance across documents, and knows every path |
| YamlFlattenLaws.FlattenedKeymap | cosmic_pair_ledger_cli.py:88 | the returned keymap maps an alias to a path exactly when the shared table maps that path to the alias |
| YamlFlattenLaws.FlattenedLength | cosmic_pair_ledger_cli.py:76-87 | one entry per document |
| YamlFlattenLaws.FlattenDocsAlias | cosmic_pair_ledger_cli.py:75 | the shared table is well formed |
| YamlFlattenLaws.FlattenDocsSnoc | cosmic_pair_ledger_cli.py:77-87 | one more document adds its entry at the end, and the table only grows |
| YamlFlattenLaws.FlattenDocsAt | cosmic_pair_ledger_cli.py:77-87 | entry i is document i flattened with the table the earlier documents left, and the final table extends that |
| YamlFlattenLaws.FillEntryPairs | cosmic_pair_ledger_cli.py:82-86 | a document's entry is its header followed by its leaves under their final aliases |
| YamlFlattenLaws.AliasedPairsKeys | cosmic_pair_ledger_cli.py:85-86 | every leaf key of an entry is the alias of one of its paths |
| YamlFlattenLaws.AliasedLast | cosmic_pair_ledger_cli.py:85-86 | a path's alias holds the value of the document's last leaf at that path |
| YamlFlattenLaws.AliasNotHeader | cosmic_pair_ledger_cli.py:78-86 | no alias is `record` or `doc_index` |
| YamlFlattenLaws.HeaderUntouched | cosmic_pair_ledger_cli.py:78-86 | the leaves never write `record` or `doc_index` |
| YamlFlattenLaws.EntryPairs | cosmic_pair_ledger_cli.py:78-87 | the entry of a non-`None` document is its header followed by its leaves under the final table's aliases |
| YamlFlattenLaws.DocHeaderGet | cosmic_pair_ledger_cli.py:78 | the header says `record=yaml-doc` and `doc_index=str(i)` |
| YamlFlattenLaws.EntryHeaderGet | cosmic_pair_ledger_cli.py:78-86 | the entry keeps the header's two values |
| YamlFlattenLaws.FlattenedHeader | cosmic_pair_ledger_cli.py:77-81 | entry i has `record=yaml-doc` and `doc_index=str(i)`; a `None` document has only those two keys |
| YamlFlattenLaws.FlattenedEntry | cosmic_pair_ledger_cli.py:74-88 | for every alias of the keymap, and every document, the entry holds under that alias the document's last value at the alias's path, or nothing; so one path has one alias across documents |
| YamlFlattenLaws.EntryKeys | cosmic_pair_ledger_cli.py:78-86 | every other key of an entry is the alias of a path of its document |
| YamlFlattenLaws.FlattenedKeys | cosmic_pair_ledger_cli.py:78-88 | every key of every entry other than `record` and `doc_index` is an alias in the returned keymap |
| Html.Entries | cosmic_pair_ledger_cli.py:136-145 | `to_entries` gives one entry per node, in node order, each the node with its children added |
| HtmlCollecting.HtmlCollector.constructor | cosmic_pair_ledger_cli.py:92-97 | a new collector has no nodes, no children, an empty stack and counter 0 |
| HtmlCollecting.HtmlCollector.NextId | cosmic_pair_ledger_cli.py:99-102 | `_next_id` returns `prefix + str(counter)` and increments the counter, changing nothing else |
| HtmlCollecting.HtmlCollector.HandleStartTag | cosmic_pair_ledger_cli.py:104-118 | `handle_starttag` updates the fields exactly as the start-tag handler function does |
| HtmlCollecting.HtmlCollector.AdoptChild | cosmic_pair_ledger_cli.py:114 | the new id is appended to the parent's children, and nothing else changes |
| HtmlCollecting.HtmlCollector.HandleEndTag | cosmic_pair_ledger_cli.py:120-122 | `handle_endtag` pops the stack, or does nothing when it is empty, whatever the tag |
| HtmlCollecting.HtmlCollector.HandleData | cosmic_pair_ledger_cli.py:124-134 | `handle_data` updates the fields exactly as the text handler function does |
| HtmlCollecting.HtmlCollector.AppendText | cosmic_pair_ledger_cli.py:128-134 | non-blank text becomes a text node under the stack top |
| HtmlCollecting.HtmlCollector.Handle | cosmic_pair_ledger_cli.py:104-134 | each event runs its handler |
| HtmlCollecting.HtmlCollector.ToEntries | cosmic_pair_ledger_cli.py:136-145 | the freeze pass computes the specification's entries |
| HtmlCollecting.WithAttrPairs | cosmic_pair_ledger_cli.py:115-116 | the attribute loop stores each attribute under `attr.<name>` |
| HtmlCollecting.WithChildIds | cosmic_pair_ledger_cli.py:142-143 | the child loop stores each child under `child<i>` |
| HtmlCollecting.EntriesSnoc | cosmic_pair_ledger_cli.py:138-144 | each node adds its entry |
| HtmlCollecting.HtmlToEntries | cosmic_pair_ledger_cli.py:91-145 | a fresh collector fed the events in order, then frozen, gives the specification's entries, and every node has an id |
| HtmlCollecting.FeedAll | cosmic_pair_ledger_cli.py:104-134 | feeding the events one by one reaches the state the events specify |
| HtmlCollecting.FeedStep | cosmic_pair_ledger_cli.py:104-134 | each event is one handler step |
| HtmlLaws.WithAttrsKeeps | cosmic_pair_ledger_cli.py:115-116 | attributes write only `attr.` keys |
| HtmlLaws.WithAttrsGet | cosmic_pair_ledger_cli.py:115-116 | an attribute's last occurrence decides its value, and a missing value is stored as `""` |
| HtmlLaws.WithAttrsSnoc | cosmic_pair_ledger_cli.py:116 | one attribute writes only its own key |
| HtmlLaws.AttrKeyInjective | cosmic_pair_ledger_cli.py:116 | distinct attribute names give distinct keys |
| HtmlLaws.WithParentGet | cosmic_pair_ledger_cli.py:112-113 | `parent` is set only when there is a parent, and nothing else changes |
| HtmlLaws.ElementNodeGet | cosmic_pair_ledger_cli.py:107-116 | an element node has `record=element`, its id, its tag, and `parent` exactly when there is one |
| HtmlLaws.TextNodeGet | cosmic_pair_ledger_cli.py:130-132 | a text node has `record=text`, its id, its text, and `parent` exactly when there is one |
| HtmlLaws.NodesKept | cosmic_pair_ledger_cli.py:117 | appending a node changes no earlier node |
| HtmlLaws.ChildIdsSnoc | cosmic_pair_ledger_cli.py:114 | a new node adds itself to its parent's children |
| HtmlLaws.TopIsElement | cosmic_pair_ledger_cli.py:106 | the stack top is an element, or there is none |
| HtmlLaws.AdoptChildren | cosmic_pair_ledger_cli.py:112-114 | after adoption, the children index still lists exactly the nodes naming each parent |
| HtmlLaws.NewParentOk | cosmic_pair_ledger_cli.py:106 | a new node's parent is an element created before it |
| HtmlLaws.AddNode | cosmic_pair_ledger_cli.py:104-134 | adding a node under the stack top keeps every part of the invariant |
| HtmlLaws.OnStartTagWf | cosmic_pair_ledger_cli.py:104-118 | `handle_starttag` keeps the invariant |
| HtmlLaws.StackPush | cosmic_pair_ledger_cli.py:118 | only element ids are pushed |
| HtmlLaws.OnEndTagWf | cosmic_pair_ledger_cli.py:120-122 | `handle_endtag` keeps the invariant |
| HtmlLaws.OnDataWf | cosmic_pair_ledger_cli.py:124-134 | `handle_data` keeps the invariant |
| HtmlLaws.FeedWf | cosmic_pair_ledger_cli.py:104-134 | for any event sequence: node i is `n<i>` or `t<i>`, parents come earlier, the stack holds elements, and the children index matches the parents |
| HtmlLaws.WfHasIds | cosmic_pair_ledger_cli.py:139 | every node has the `id` that `to_entries` reads |
| HtmlLaws.TextChildless | cosmic_pair_ledger_cli.py:118 | a text node never has children, because only elements are pushed |
| HtmlLaws.NoChildIds | cosmic_pair_ledger_cli.py:128-133 | no node names a non-element as its parent |
| HtmlLaws.NodesKeptBack | cosmic_pair_ledger_cli.py:117 | the earlier nodes alone still have earlier parents |
| HtmlLaws.FedNode | cosmic_pair_ledger_cli.py:104-134 | once fed, each node is a numbered element or text, its parent is earlier, its children are the nodes naming it, and a text node has none |
| HtmlLaws.NodeIdsDistinct | cosmic_pair_ledger_cli.py:99-102 | no two nodes share an id |
| HtmlLaws.ChildListed | cosmic_pair_ledger_cli.py:113-114 | a node naming `p` as its parent is among `p`'s children |
| HtmlLaws.FedParentListsChild | cosmic_pair_ledger_cli.py:136-145 | once fed, a node's parent is an earlier element whose entry lists the node under some `child<m>` |
| HtmlLaws.OnDataText | cosmic_pair_ledger_cli.py:124-134 | whitespace-only text adds no node; other text adds one node holding the stripped, non-empty text |
| HtmlLaws.WithChildrenSnoc | cosmic_pair_ledger_cli.py:143 | one more child writes only its own `child<i>` key |
| HtmlLaws.WithChildrenGet | cosmic_pair_ledger_cli.py:142-143 | `child<j>` reads the j-th child |
| HtmlLaws.WithChildrenKeeps | cosmic_pair_ledger_cli.py:141-143 | the node's own keys are copied unchanged |
| HtmlLaws.FedEntries | cosmic_pair_ledger_cli.py:136-145 | once fed, entry i lists node i's children in creation order under `child0`, `child1`, ..., and keeps its other keys |
| HtmlLaws.ExampleNames | cosmic_pair_ledger_cli.py:99-102 | the ids of the example are `n0`, `t1` and `child0` |
| HtmlLaws.ParagraphStart | cosmic_pair_ledger_cli.py:104-118 | `<p>` on a fresh collector makes element `n0` and opens it |
| HtmlLaws.ParagraphText | cosmic_pair_ledger_cli.py:130-132 | the text node of the example |
| HtmlLaws.OnDataNonBlank | cosmic_pair_ledger_cli.py:124-134 | the text handler on non-blank text, written out |
| HtmlLaws.ParagraphAdopt | cosmic_pair_ledger_cli.py:133 | `t1` becomes the only child of `n0` |
| HtmlLaws.ParagraphData | cosmic_pair_ledger_cli.py:124-134 | `Hi` inside `<p>` makes text node `t1` under `n0` |
| HtmlLaws.FeedSnoc | cosmic_pair_ledger_cli.py:104-134 | one more event is one more handler step |
| HtmlLaws.ParagraphFed | cosmic_pair_ledger_cli.py:104-134 | `<p>Hi</p>` leaves nodes `n0` and `t1` and an empty stack |
| HtmlLaws.ParagraphChild | cosmic_pair_ledger_cli.py:142-143 | `n0`'s entry gains `child0=t1` |
| HtmlLaws.ParagraphIds | cosmic_pair_ledger_cli.py:139 | the example nodes have ids `n0` and `t1` |
| HtmlLaws.ParagraphEntries | cosmic_pair_ledger_cli.py:136-145 | freezing the example gives `n0` with `child0=t1`, then `t1` |
| HtmlLaws.ParagraphExample | cosmic_pair_ledger_cli.py:91-145 | `<p>Hi</p>` yields the entries `n0` (with `child0=t1`) and `t1` |

## Left out

- Opening, reading and writing files is not modelled: `Path.open`, `read_text` and `write_text`. Loading takes the file's text; `Ledger.WritePairCsv` returns the text it writes. The UTF-8 encoding is left out: text is a sequence of characters.
- `LedgerLaws.WriteLoadRoundTrip` needs keys and values without line breaks. The source writes such a value as it is, and it is read back as two lines (`TextFile.BrokenLine`).
- The command-line layer is not modelled: `argparse`, the `cmd_*` dispatchers, `main`, `_write_text_output` and the `sys.path` set-up. It is plumbing around the modelled functions.
- Signal and broken-pipe handling is left out, because it is a process concern.
- The JSON and YAML libraries (`json.dumps`, `json.loads`, `yaml.safe_load_all`, `yaml.safe_dump`) are not modelled. Their values are the `Values.Value` datatype.
- `Values.Lookup` takes the first member with a key. A parsed JSON or YAML mapping has each key once, so the first member is the only one.
- Mapping keys are kept as their `str()` form. A non-string key, such as a YAML integer key, is represented by that string.
- `Values.PyStr`: `str()` of a float or another library scalar is an abstract `Other` case that carries its text and its truth value. `str()` of a list or a dict (Python's repr) is not modelled and gives `""`. Such values are never leaves of a walk. They do reach a ledger line when an item of `entries` in a JSON payload has a list or dict value: the source writes `a:[1, 2]` where the model writes `a:`.
- The HTML tokenizer (`HTMLParser.feed`, `close`, entity and character-reference conversion, lower-casing of tags, self-closing tags) is not modelled. Its output is the input `Html.Event` sequence.
- `json_data_to_entries` applies `dict(item)` to each element of `entries`. Python coerces a non-mapping item that happens to be a sequence of pairs. The model treats every non-mapping item as the error `EntryNotAMapping`.
- Item values are converted with `str()` when the payload is read. The source keeps the raw values until the f-string in `write_pair_csv` formats them. The text that reaches a ledger line is the same.
- `data.get` on a payload that is not a mapping raises in Python. The model returns the error `NotAMapping`.
- `Payload.StringMap` states only that its keys are distinct. `Payload.StringMapOfRecord` and `Payload.JsonRoundTrip` state what it contains for a record's object.
- `Ledger.WritePairCsv` is tied to `TextFile.FileText` of `Ledger.Written`. The header line, the entry lines and their order are proved about `Written` by `LedgerLaws.WrittenParses` and `LedgerLaws.WriteLoadRoundTrip`, which need storable entries.
- `Ledger.ApplyKeymap` states each key's value (last write wins) for any keymap. It states the exact pairs and their order only when no two keys resolve to the same name.
- `YamlFlattenLaws.FlattenedEntry` states what every alias of an entry holds. The order of an entry's keys beyond the two header keys is given by `YamlFlattenLaws.EntryPairs`, not restated.
- `Aliases.AliasGenerator.requested` is a ghost field that records every path asked for. The source keeps no such list; the field exists only to state the size of `as_keymap`.
- The round trip (`LedgerLaws.WriteLoadRoundTrip`) returns the keymap in sorted alias order rather than insertion order. This is how the source behaves: the header line is written sorted.
