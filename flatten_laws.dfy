/** What `_flatten_yaml_documents` promises: one entry per document, each
    with its header; one keymap for all documents, numbering the leaf paths
    in order of first appearance; and each entry holding, under a path's
    alias, the last value the document gives that path. */
module YamlFlattenLaws {
  import opened Wrappers
  import opened Seqs
  import opened Text
  import opened Records
  import opened Values
  import opened YamlPaths
  import opened Aliases
  import opened YamlFlatten

  /** The paths of `leaves` that receive an alias, in order. */
  function NonEmptyPaths(leaves: seq<Leaf>): (ps: seq<string>)
    ensures forall p :: p in ps ==> p != ""
  {
    if leaves == [] then []
    else
      var init := NonEmptyPaths(leaves[..|leaves| - 1]);
      if leaves[|leaves| - 1].path == "" then init else init + [leaves[|leaves| - 1].path]
  }

  /** The paths document `doc` asks aliases for. */
  function DocPaths(doc: Value): seq<string>
  {
    if doc.Null? then [] else NonEmptyPaths(Walk(doc, ""))
  }

  /** The paths all documents ask aliases for, in order. */
  function AllPaths(docs: seq<Value>): seq<string>
  {
    if docs == [] then [] else AllPaths(docs[..|docs| - 1]) + DocPaths(docs[|docs| - 1])
  }

  /** The value of the last leaf at path `p`. */
  function LastLeaf(leaves: seq<Leaf>, p: string): Option<string>
  {
    if leaves == [] then None
    else if leaves[|leaves| - 1].path == p then Some(leaves[|leaves| - 1].value)
    else LastLeaf(leaves[..|leaves| - 1], p)
  }

  /** What the entry of `doc` holds for path `p`: the last leaf at `p`;
      nothing for a null document or for the empty path, which is skipped. */
  function DocValue(doc: Value, p: string): Option<string>
  {
    if doc.Null? || p == "" then None else LastLeaf(Walk(doc, ""), p)
  }

  /** The assignments of the inner loop, each leaf under its path's alias in `t`. */
  function AliasedPairs(t: Record, leaves: seq<Leaf>): seq<Pair>
    requires forall p :: p in NonEmptyPaths(leaves) ==> HasKey(t, p)
  {
    if leaves == [] then []
    else
      var init := AliasedPairs(t, leaves[..|leaves| - 1]);
      var leaf := leaves[|leaves| - 1];
      if leaf.path == "" then init else init + [Pair(ValueOf(t, leaf.path), leaf.value)]
  }

  // ---------------------------------------------------------------------------
  // The alias table

  /** The inner loop asks for the non-empty paths in turn. */
  lemma {:induction false} FillEntryTable(leaves: seq<Leaf>, entry: Record, t: Record)
    ensures FillEntry(leaves, entry, t).1 == Learned(t, AliasPrefix, NonEmptyPaths(leaves))
    decreases |leaves|
  {
    if leaves != [] {
      FillEntryTable(leaves[..|leaves| - 1], entry, t);
    }
  }

  lemma FlattenDocTable(doc: Value, i: nat, t: Record)
    ensures FlattenDoc(doc, i, t).1 == Learned(t, AliasPrefix, DocPaths(doc))
  {
    if !doc.Null? {
      FillEntryTable(Walk(doc, ""), DocHeader(i), t);
    }
  }

  /** Asking for `a + b` is asking for `a`, then for `b`. */
  lemma {:induction false} LearnedAppend(t: Record, prefix: string, a: seq<string>, b: seq<string>)
    ensures Learned(t, prefix, a + b) == Learned(Learned(t, prefix, a), prefix, b)
    decreases |b|
  {
    if b == [] {
      assert a + b == a;
    } else {
      AppendLast(a, b);
      LearnedAppend(t, prefix, a, b[..|b| - 1]);
    }
  }

  /** The outer loop asks for the paths of every document in turn. */
  lemma {:induction false} FlattenDocsTable(docs: seq<Value>)
    ensures FlattenDocs(docs).1 == Learned([], AliasPrefix, AllPaths(docs))
    decreases |docs|
  {
    if docs != [] {
      var init := docs[..|docs| - 1];
      FlattenDocsTable(init);
      FlattenDocTable(docs[|docs| - 1], |docs| - 1, FlattenDocs(init).1);
      LearnedAppend([], AliasPrefix, AllPaths(init), DocPaths(docs[|docs| - 1]));
    }
  }

  /** The final path-to-alias table numbers the paths in order of first
      appearance across all documents: `k0` for the first, `k1` for the next. */
  lemma FlattenedTable(docs: seq<Value>)
    ensures AliasTable(FlattenDocs(docs).1, AliasPrefix)
    ensures Keys(FlattenDocs(docs).1) == FirstOccurrences(AllPaths(docs))
    ensures forall p :: p in AllPaths(docs) ==> HasKey(FlattenDocs(docs).1, p)
  {
    FlattenDocsTable(docs);
    LearnedTable([], AliasPrefix, AllPaths(docs));
    LearnedKeys([], AliasPrefix, [], AllPaths(docs));
    assert [] + AllPaths(docs) == AllPaths(docs);
  }

  /** The keymap sends an alias to a path exactly when the path got that alias. */
  lemma FlattenedKeymap(docs: seq<Value>, a: string, p: string)
    ensures Get(Flattened(docs).1, a) == Some(p) <==> Get(FlattenDocs(docs).1, p) == Some(a)
  {
    FlattenedTable(docs);
    InverseGet(FlattenDocs(docs).1, AliasPrefix, a, p);
  }

  // ---------------------------------------------------------------------------
  // The entries

  /** One entry per document. */
  lemma {:induction false} FlattenedLength(docs: seq<Value>)
    ensures |Flattened(docs).0| == |docs|
    decreases |docs|
  {
    if docs != [] {
      FlattenedLength(docs[..|docs| - 1]);
    }
  }

  /** The table after any number of documents is an alias table. */
  lemma FlattenDocsAlias(docs: seq<Value>)
    ensures AliasTable(FlattenDocs(docs).1, AliasPrefix)
  {
    FlattenDocsTable(docs);
    LearnedTable([], AliasPrefix, AllPaths(docs));
  }

  /** One more document appends one entry and extends the table. */
  lemma FlattenDocsSnoc(docs: seq<Value>)
    requires docs != []
    ensures var init := docs[..|docs| - 1];
      |FlattenDocs(init).0| == |docs| - 1 &&
      FlattenDocs(docs).0 == FlattenDocs(init).0 + [FlattenDoc(docs[|docs| - 1], |docs| - 1, FlattenDocs(init).1).0] &&
      Extends(FlattenDocs(docs).1, FlattenDocs(init).1)
  {
    var init, last := docs[..|docs| - 1], docs[|docs| - 1];
    FlattenedLength(init);
    FlattenDocsAlias(init);
    FlattenDocTable(last, |docs| - 1, FlattenDocs(init).1);
    LearnedTable(FlattenDocs(init).1, AliasPrefix, DocPaths(last));
  }

  /** Entry `i` is document `i` flattened with the table the earlier
      documents left, and the final table only extends the one it leaves. */
  lemma {:induction false} FlattenDocsAt(docs: seq<Value>, i: nat)
    requires i < |docs|
    ensures |FlattenDocs(docs).0| == |docs|
    ensures FlattenDocs(docs).0[i] == FlattenDoc(docs[i], i, FlattenDocs(docs[..i]).1).0
    ensures Extends(FlattenDocs(docs).1, FlattenDoc(docs[i], i, FlattenDocs(docs[..i]).1).1)
    decreases |docs|
  {
    FlattenedLength(docs);
    var init := docs[..|docs| - 1];
    var t := FlattenDocs(docs).1;
    if i == |docs| - 1 {
      assert init == docs[..i];
      assert t[..|t|] == t;
    } else {
      FlattenDocsAt(init, i);
      FlattenDocsSnoc(docs);
      PrefixPrefix(docs, |docs| - 1, i);
      ExtendsTrans(t, FlattenDocs(init).1, FlattenDoc(docs[i], i, FlattenDocs(docs[..i]).1).1);
    }
  }

  /** A table that extends the one the inner loop leaves knows every path it saw. */
  lemma ExtendsKnows(t: Record, leaves: seq<Leaf>, big: Record)
    requires AliasTable(t, AliasPrefix)
    requires Extends(big, Learned(t, AliasPrefix, NonEmptyPaths(leaves)))
    ensures forall p :: p in NonEmptyPaths(leaves) ==> HasKey(big, p)
  {
    var l := Learned(t, AliasPrefix, NonEmptyPaths(leaves));
    LearnedTable(t, AliasPrefix, NonEmptyPaths(leaves));
    forall p | p in NonEmptyPaths(leaves) ensures HasKey(big, p) {
      ExtendsGet(big, l, p);
    }
  }

  /** The inner loop builds the dict of the header assignments followed by one
      assignment per leaf, under the alias a later table gives its path. */
  lemma {:induction false} FillEntryPairs(leaves: seq<Leaf>, header: seq<Pair>, t: Record, big: Record)
    requires AliasTable(t, AliasPrefix)
    requires Extends(big, Learned(t, AliasPrefix, NonEmptyPaths(leaves)))
    ensures forall p :: p in NonEmptyPaths(leaves) ==> HasKey(big, p)
    ensures FillEntry(leaves, FromPairs(header), t).0 == FromPairs(header + AliasedPairs(big, leaves))
    decreases |leaves|
  {
    ExtendsKnows(t, leaves, big);
    if leaves == [] {
      assert header + [] == header;
    } else {
      var init, leaf := leaves[..|leaves| - 1], leaves[|leaves| - 1];
      var l := Learned(t, AliasPrefix, NonEmptyPaths(init));
      LearnedTable(t, AliasPrefix, NonEmptyPaths(init));
      if leaf.path != "" {
        RememberTable(l, AliasPrefix, leaf.path);
        ExtendsTrans(big, Remember(l, AliasPrefix, leaf.path), l);
        ExtendsGet(big, Remember(l, AliasPrefix, leaf.path), leaf.path);
      }
      FillEntryPairs(init, header, t, big);
      FillEntryTable(init, FromPairs(header), t);
      if leaf.path != "" {
        var x := Pair(ValueOf(big, leaf.path), leaf.value);
        AppendAssoc(header, AliasedPairs(big, init), [x]);
        FromPairsSnoc(header + AliasedPairs(big, init), x);
      }
    }
  }

  /** Every key the inner loop assigns is the alias of a path it saw. */
  lemma {:induction false} AliasedPairsKeys(t: Record, leaves: seq<Leaf>, k: string)
    requires forall p :: p in NonEmptyPaths(leaves) ==> HasKey(t, p)
    requires HasKey(AliasedPairs(t, leaves), k)
    ensures exists p :: p in NonEmptyPaths(leaves) && HasKey(t, p) && ValueOf(t, p) == k
    decreases |leaves|
  {
    var init, leaf := leaves[..|leaves| - 1], leaves[|leaves| - 1];
    var a := AliasedPairs(t, init);
    if leaf.path != "" && k == ValueOf(t, leaf.path) {
      assert leaf.path in NonEmptyPaths(leaves);
    } else {
      assert HasKey(a, k) by {
        var j :| 0 <= j < |AliasedPairs(t, leaves)| && AliasedPairs(t, leaves)[j].key == k;
        if leaf.path != "" {
          assert AliasedPairs(t, leaves) == a + [Pair(ValueOf(t, leaf.path), leaf.value)];
          assert j < |a| && AliasedPairs(t, leaves)[j] == a[j];
        }
      }
      AliasedPairsKeys(t, init, k);
    }
  }

  /** Under the alias of `p`, the assignments end with the last leaf at `p`. */
  lemma {:induction false} AliasedLast(t: Record, leaves: seq<Leaf>, p: string)
    requires AliasTable(t, AliasPrefix) && HasKey(t, p) && p != ""
    requires forall q :: q in NonEmptyPaths(leaves) ==> HasKey(t, q)
    ensures LastValue(AliasedPairs(t, leaves), ValueOf(t, p)) == LastLeaf(leaves, p)
    decreases |leaves|
  {
    if leaves != [] {
      var init, leaf := leaves[..|leaves| - 1], leaves[|leaves| - 1];
      AliasedLast(t, init, p);
      if leaf.path != "" {
        var a := AliasedPairs(t, init);
        var x := Pair(ValueOf(t, leaf.path), leaf.value);
        assert (a + [x])[..|a|] == a;
        if ValueOf(t, leaf.path) == ValueOf(t, p) {
          AliasInjective(t, AliasPrefix, leaf.path, p);
        }
      }
    }
  }

  /** An alias is neither `record` nor `doc_index`. */
  lemma AliasNotHeader(t: Record, p: string, i: nat)
    requires AliasTable(t, AliasPrefix) && HasKey(t, p)
    ensures !HasKey(DocHeader(i), ValueOf(t, p))
  {
    AliasNumber(t, AliasPrefix, p);
    assert ValueOf(t, p)[0] == 'k';
  }

  /** No assignment of the inner loop touches the header keys. */
  lemma HeaderUntouched(t: Record, leaves: seq<Leaf>, i: nat, k: string)
    requires AliasTable(t, AliasPrefix)
    requires forall p :: p in NonEmptyPaths(leaves) ==> HasKey(t, p)
    requires HasKey(DocHeader(i), k)
    ensures !HasKey(AliasedPairs(t, leaves), k)
  {
    if HasKey(AliasedPairs(t, leaves), k) {
      AliasedPairsKeys(t, leaves, k);
      var p :| p in NonEmptyPaths(leaves) && HasKey(t, p) && ValueOf(t, p) == k;
      AliasNotHeader(t, p, i);
    }
  }

  /** Entry `i` of a non-null document: its header, then the leaf assignments
      under the final table's aliases. */
  lemma EntryPairs(docs: seq<Value>, i: nat)
    requires i < |docs| && !docs[i].Null?
    ensures |Flattened(docs).0| == |docs|
    ensures AliasTable(FlattenDocs(docs).1, AliasPrefix)
    ensures forall p :: p in NonEmptyPaths(Walk(docs[i], "")) ==> HasKey(FlattenDocs(docs).1, p)
    ensures Flattened(docs).0[i] ==
      FromPairs(DocHeader(i) + AliasedPairs(FlattenDocs(docs).1, Walk(docs[i], "")))
  {
    FlattenDocsAt(docs, i);
    FlattenedTable(docs);
    var t := FlattenDocs(docs[..i]).1;
    FlattenedTable(docs[..i]);
    FillEntryTable(Walk(docs[i], ""), DocHeader(i), t);
    FromPairsDistinct(DocHeader(i));
    FillEntryPairs(Walk(docs[i], ""), DocHeader(i), t, FlattenDocs(docs).1);
  }

  /** The header reads as it is written. */
  lemma DocHeaderGet(i: nat)
    ensures DistinctKeys(DocHeader(i))
    ensures Get(DocHeader(i), "record") == Some("yaml-doc")
    ensures Get(DocHeader(i), "doc_index") == Some(NatToString(i))
  {
    var h := DocHeader(i);
    assert h[0].key == "record" && h[1].key == "doc_index";
    KeyIndexIs(h, "record", 0);
    KeyIndexIs(h, "doc_index", 1);
  }

  /** The header keys of an entry read as the header sets them. */
  lemma EntryHeaderGet(t: Record, leaves: seq<Leaf>, i: nat, k: string)
    requires AliasTable(t, AliasPrefix)
    requires forall p :: p in NonEmptyPaths(leaves) ==> HasKey(t, p)
    requires k == "record" || k == "doc_index"
    ensures Get(FromPairs(DocHeader(i) + AliasedPairs(t, leaves)), k) == Get(DocHeader(i), k)
  {
    DocHeaderGet(i);
    assert HasKey(DocHeader(i), k) by {
      assert DocHeader(i)[if k == "record" then 0 else 1].key == k;
    }
    HeaderUntouched(t, leaves, i, k);
    FromPairsPrefixGet(DocHeader(i), AliasedPairs(t, leaves), k);
  }

  /** Every entry starts from its header: `record` is `yaml-doc` and
      `doc_index` is the document's position; a null document gives the
      header alone. */
  lemma FlattenedHeader(docs: seq<Value>, i: nat)
    requires i < |docs|
    ensures |Flattened(docs).0| == |docs|
    ensures Get(Flattened(docs).0[i], "record") == Some("yaml-doc")
    ensures Get(Flattened(docs).0[i], "doc_index") == Some(NatToString(i))
    ensures docs[i].Null? ==> Flattened(docs).0[i] == DocHeader(i)
  {
    FlattenDocsAt(docs, i);
    DocHeaderGet(i);
    if !docs[i].Null? {
      EntryPairs(docs, i);
      EntryHeaderGet(FlattenDocs(docs).1, Walk(docs[i], ""), i, "record");
      EntryHeaderGet(FlattenDocs(docs).1, Walk(docs[i], ""), i, "doc_index");
    }
  }

  /** Under every alias of the keymap, entry `i` holds what document `i`
      gives the aliased path: the last leaf at that path, or nothing. */
  lemma FlattenedEntry(docs: seq<Value>, i: nat, a: string, p: string)
    requires i < |docs|
    requires Get(Flattened(docs).1, a) == Some(p)
    ensures |Flattened(docs).0| == |docs|
    ensures Get(Flattened(docs).0[i], a) == DocValue(docs[i], p)
  {
    FlattenedKeymap(docs, a, p);
    FlattenedTable(docs);
    var t := FlattenDocs(docs).1;
    AliasNotHeader(t, p, i);
    if docs[i].Null? {
      FlattenedHeader(docs, i);
    } else {
      EntryPairs(docs, i);
      var leaves := Walk(docs[i], "");
      var h, ps := DocHeader(i), AliasedPairs(t, leaves);
      FromPairsGet(h + ps, a);
      LastValueAppend(h, ps, a);
      if p == "" {
        if HasKey(ps, a) {
          AliasedPairsKeys(t, leaves, a);
          var q :| q in NonEmptyPaths(leaves) && HasKey(t, q) && ValueOf(t, q) == a;
          AliasInjective(t, AliasPrefix, p, q);
        }
      } else {
        AliasedLast(t, leaves, p);
      }
      if !HasKey(ps, a) {
        LastValueAbsent(h, a);
        LastValueAbsent(ps, a);
      }
    }
  }

  /** A key of an entry that is not a header key is the alias of a leaf path. */
  lemma EntryKeys(t: Record, leaves: seq<Leaf>, i: nat, k: string)
    requires forall p :: p in NonEmptyPaths(leaves) ==> HasKey(t, p)
    requires HasKey(FromPairs(DocHeader(i) + AliasedPairs(t, leaves)), k)
    requires k != "record" && k != "doc_index"
    ensures exists p :: p in NonEmptyPaths(leaves) && HasKey(t, p) && ValueOf(t, p) == k
  {
    HasKeyAppend(DocHeader(i), AliasedPairs(t, leaves), k);
    AliasedPairsKeys(t, leaves, k);
  }

  /** Every key of an entry is a header key or an alias of the keymap. */
  lemma FlattenedKeys(docs: seq<Value>, i: nat, k: string)
    requires i < |docs|
    ensures |Flattened(docs).0| == |docs|
    ensures HasKey(Flattened(docs).0[i], k) ==> k == "record" || k == "doc_index" || HasKey(Flattened(docs).1, k)
  {
    FlattenDocsAt(docs, i);
    if !docs[i].Null? && HasKey(Flattened(docs).0[i], k) && k != "record" && k != "doc_index" {
      EntryPairs(docs, i);
      var t := FlattenDocs(docs).1;
      EntryKeys(t, Walk(docs[i], ""), i, k);
      var p :| p in NonEmptyPaths(Walk(docs[i], "")) && HasKey(t, p) && ValueOf(t, p) == k;
      FlattenedKeymap(docs, k, p);
    }
  }
}
