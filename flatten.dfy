/** `_flatten_yaml_documents` of `cosmic_pair_ledger_cli.py`: every YAML
    document becomes one ledger entry whose keys are short aliases `k0`,
    `k1`, ... for the dotted leaf paths, shared by all documents, and the
    alias table comes back as the keymap. */
module YamlFlatten {
  import opened Wrappers
  import opened Seqs
  import opened Text
  import opened Records
  import opened Values
  import opened YamlPaths
  import opened Aliases

  /** The prefix of every alias. */
  const AliasPrefix := "k"

  /** `{"record": "yaml-doc", "doc_index": str(doc_index)}` */
  function DocHeader(i: nat): Record {
    [Pair("record", "yaml-doc"), Pair("doc_index", NatToString(i))]
  }

  /** The inner loop over the leaves of one document: the entry and the
      path-to-alias table after the leaves, starting from `entry` and `t`.
      A leaf with the empty path is skipped. */
  function FillEntry(leaves: seq<Leaf>, entry: Record, t: Record): (Record, Record)
  {
    if leaves == [] then (entry, t)
    else
      var before := FillEntry(leaves[..|leaves| - 1], entry, t);
      var leaf := leaves[|leaves| - 1];
      if leaf.path == "" then before
      else
        (Put(before.0, AliasOf(before.1, AliasPrefix, leaf.path), leaf.value),
         Remember(before.1, AliasPrefix, leaf.path))
  }

  /** The entry of document `i` and the table after it. */
  function FlattenDoc(doc: Value, i: nat, t: Record): (Record, Record)
  {
    if doc.Null? then (DocHeader(i), t) else FillEntry(Walk(doc, ""), DocHeader(i), t)
  }

  /** The outer loop: the entries of all documents and the final table. */
  function FlattenDocs(docs: seq<Value>): (seq<Record>, Record)
  {
    if docs == [] then ([], [])
    else
      var before := FlattenDocs(docs[..|docs| - 1]);
      var last := FlattenDoc(docs[|docs| - 1], |docs| - 1, before.1);
      (before.0 + [last.0], last.1)
  }

  /** `_flatten_yaml_documents(documents)`: the entries and `as_keymap()`. */
  function Flattened(docs: seq<Value>): (seq<Record>, Record)
  {
    (FlattenDocs(docs).0, Inverse(FlattenDocs(docs).1))
  }

  method FlattenYamlDocuments(docs: seq<Value>) returns (entries: seq<Record>, keymap: Record)
    ensures (entries, keymap) == Flattened(docs)
  {
    var gen := new AliasGenerator(AliasPrefix);
    entries := [];
    var d := 0;
    while d < |docs|
      invariant 0 <= d <= |docs|
      invariant gen.Valid() && gen.prefix == AliasPrefix
      invariant (entries, gen.pathToAlias) == FlattenDocs(docs[..d])
    {
      FlattenDocsStep(docs, d);
      var entry := FlattenDocument(gen, docs[d], d);
      entries := entries + [entry];
      d := d + 1;
    }
    assert docs[..|docs|] == docs;
    keymap := gen.AsKeymap();
  }

  /** One more document of the outer loop. */
  lemma FlattenDocsStep(docs: seq<Value>, d: nat)
    requires d < |docs|
    ensures var before := FlattenDocs(docs[..d]);
      var last := FlattenDoc(docs[d], d, before.1);
      FlattenDocs(docs[..d + 1]) == (before.0 + [last.0], last.1)
  {
    PrefixSnoc(docs, d);
    assert docs[..d + 1][..d] == docs[..d];
  }

  /** The body of the outer loop: the header, then the leaves unless the
      document is null. */
  method FlattenDocument(gen: AliasGenerator, doc: Value, d: nat) returns (entry: Record)
    requires gen.Valid() && gen.prefix == AliasPrefix
    modifies gen
    ensures gen.Valid() && gen.prefix == AliasPrefix
    ensures (entry, gen.pathToAlias) == FlattenDoc(doc, d, old(gen.pathToAlias))
  {
    entry := DocHeader(d);
    if !doc.Null? {
      entry := FillDocument(gen, Walk(doc, ""), entry);
    }
  }

  /** The inner loop over the leaves of one document, filling `header` and
      the generator. */
  method FillDocument(gen: AliasGenerator, leaves: seq<Leaf>, header: Record) returns (entry: Record)
    requires gen.Valid() && gen.prefix == AliasPrefix
    modifies gen
    ensures gen.Valid() && gen.prefix == AliasPrefix
    ensures (entry, gen.pathToAlias) == FillEntry(leaves, header, old(gen.pathToAlias))
  {
    entry := header;
    var j := 0;
    while j < |leaves|
      invariant 0 <= j <= |leaves|
      invariant gen.Valid() && gen.prefix == AliasPrefix
      invariant (entry, gen.pathToAlias) == FillEntry(leaves[..j], header, old(gen.pathToAlias))
    {
      FillEntryStep(leaves, j, header, old(gen.pathToAlias));
      entry := FillLeaf(gen, entry, leaves[j]);
      j := j + 1;
    }
    assert leaves[..|leaves|] == leaves;
  }

  /** One leaf of the inner loop: `entry[generator.alias_for(path)] = value`,
      unless the path is empty. */
  method FillLeaf(gen: AliasGenerator, entry: Record, leaf: Leaf) returns (entry': Record)
    requires gen.Valid() && gen.prefix == AliasPrefix
    modifies gen
    ensures gen.Valid() && gen.prefix == AliasPrefix
    ensures (entry', gen.pathToAlias) ==
      if leaf.path == "" then (entry, old(gen.pathToAlias))
      else (Put(entry, AliasOf(old(gen.pathToAlias), AliasPrefix, leaf.path), leaf.value),
            Remember(old(gen.pathToAlias), AliasPrefix, leaf.path))
  {
    entry' := entry;
    if leaf.path != "" {
      var alias := gen.AliasFor(leaf.path);
      entry' := Put(entry, alias, leaf.value);
    }
  }

  /** One more leaf of the inner loop. */
  lemma FillEntryStep(leaves: seq<Leaf>, j: nat, entry: Record, t: Record)
    requires j < |leaves|
    ensures var before := FillEntry(leaves[..j], entry, t);
      var leaf := leaves[j];
      FillEntry(leaves[..j + 1], entry, t) ==
        if leaf.path == "" then before
        else (Put(before.0, AliasOf(before.1, AliasPrefix, leaf.path), leaf.value),
              Remember(before.1, AliasPrefix, leaf.path))
  {
    PrefixSnoc(leaves, j);
    assert leaves[..j + 1][..j] == leaves[..j];
  }
}
