/** `AliasGenerator` of `cosmic_pair_ledger_cli.py`: hands out short aliases
    `prefix + n` for key paths, remembering each path's alias, and gives back
    the alias-to-path table as a keymap. */
module Aliases {
  import opened Wrappers
  import opened Text
  import opened Records
  import opened Seqs

  /** A path-to-alias table as the generator builds it: paths in order of
      first request, the `i`-th with alias `prefix + str(i)`. */
  ghost predicate AliasTable(t: Record, prefix: string) {
    DistinctKeys(t) && forall i :: 0 <= i < |t| ==> t[i].value == Numbered(prefix, i)
  }

  /** The alias `alias_for(path)` returns given the table so far. */
  function AliasOf(t: Record, prefix: string, path: string): string
  {
    match Get(t, path)
    case Some(alias) => alias
    case None => Numbered(prefix, |t|)
  }

  /** The table after `alias_for(path)`. */
  function Remember(t: Record, prefix: string, path: string): Record
  {
    if HasKey(t, path) then t else t + [Pair(path, Numbered(prefix, |t|))]
  }

  /** The alias-to-path table: every pair turned around. */
  function Inverse(t: Record): (r: Record)
    ensures |r| == |t| && forall i :: 0 <= i < |t| ==> r[i] == Pair(t[i].value, t[i].key)
  {
    seq(|t|, i requires 0 <= i < |t| => Pair(t[i].value, t[i].key))
  }

  /** A path not yet in the table gets the next number, which no path has. */
  lemma AppendTable(t: Record, prefix: string, path: string)
    requires AliasTable(t, prefix) && !HasKey(t, path)
    ensures AliasTable(t + [Pair(path, Numbered(prefix, |t|))], prefix)
  {
    var a := Pair(path, Numbered(prefix, |t|));
    var t' := t + [a];
    assert forall i :: 0 <= i < |t| ==> t'[i] == t[i];
    assert t'[|t|] == a;
  }

  /** Remembering a path keeps the table an alias table; the path then reads
      as the alias handed out, and every path already present as before. */
  lemma RememberTable(t: Record, prefix: string, path: string)
    requires AliasTable(t, prefix)
    ensures AliasTable(Remember(t, prefix, path), prefix)
    ensures Get(Remember(t, prefix, path), path) == Some(AliasOf(t, prefix, path))
    ensures forall p :: HasKey(t, p) ==> Get(Remember(t, prefix, path), p) == Get(t, p)
    ensures Keys(Remember(t, prefix, path)) == if HasKey(t, path) then Keys(t) else Keys(t) + [path]
    ensures Extends(Remember(t, prefix, path), t)
  {
    if !HasKey(t, path) {
      assert (t + [Pair(path, Numbered(prefix, |t|))])[..|t|] == t;
      var a := Pair(path, Numbered(prefix, |t|));
      AppendTable(t, prefix, path);
      AppendLocates(t, a);
      KeysAppend(t, a);
      forall p | HasKey(t, p) ensures Get(t + [a], p) == Get(t, p) {
        ExtendGet(t, [a], p);
      }
    }
  }

  /** The inverse of a table grown by one pair is the old inverse grown by
      the pair turned around. */
  lemma InverseSnoc(t: Record, p: Pair)
    ensures Inverse(t + [p]) == Inverse(t) + [Pair(p.value, p.key)]
  {
  }

  /** The generator's invariant on values: `t` is an alias table numbering
      the paths asked for in order of first request, and `inv` its inverse. */
  ghost predicate Tables(t: Record, inv: Record, prefix: string, requested: seq<string>) {
    AliasTable(t, prefix) && inv == Inverse(t) && Keys(t) == FirstOccurrences(requested)
  }

  /** `alias_for(path)` on a new path: both tables get the next alias. */
  lemma NewAliasStep(t: Record, inv: Record, prefix: string, requested: seq<string>, path: string)
    requires Tables(t, inv, prefix, requested) && !HasKey(t, path)
    ensures Tables(Put(t, path, Numbered(prefix, |t|)), Put(inv, Numbered(prefix, |t|), path), prefix, requested + [path])
    ensures Put(t, path, Numbered(prefix, |t|)) == Remember(t, prefix, path)
    ensures AliasOf(t, prefix, path) == Numbered(prefix, |t|)
  {
    RememberStep(t, prefix, requested, path);
    RememberTable(t, prefix, path);
  }

  /** `alias_for(path)` on a known path changes nothing. */
  lemma KnownAliasStep(t: Record, inv: Record, prefix: string, requested: seq<string>, path: string)
    requires Tables(t, inv, prefix, requested) && HasKey(t, path)
    ensures Tables(t, inv, prefix, requested + [path])
    ensures t == Remember(t, prefix, path)
    ensures AliasOf(t, prefix, path) == ValueOf(t, path)
  {
    RememberStep(t, prefix, requested, path);
  }

  lemma RememberStep(t: Record, prefix: string, requested: seq<string>, path: string)
    requires AliasTable(t, prefix) && Keys(t) == FirstOccurrences(requested)
    ensures !HasKey(t, path) ==>
      Remember(t, prefix, path) == Put(t, path, AliasOf(t, prefix, path)) &&
      Inverse(Remember(t, prefix, path)) == Put(Inverse(t), AliasOf(t, prefix, path), path)
    ensures Keys(Remember(t, prefix, path)) == FirstOccurrences(requested + [path])
  {
    RememberTable(t, prefix, path);
    FirstOccurrencesSnoc(requested, path);
    if !HasKey(t, path) {
      var a := Numbered(prefix, |t|);
      FreshAlias(t, prefix);
      InverseSnoc(t, Pair(path, a));
    }
  }

  /** Memoized: asking again for a path gives the alias it got the first time. */
  lemma AliasMemoized(t: Record, prefix: string, path: string)
    requires AliasTable(t, prefix)
    ensures AliasOf(Remember(t, prefix, path), prefix, path) == AliasOf(t, prefix, path)
    ensures Remember(Remember(t, prefix, path), prefix, path) == Remember(t, prefix, path)
  {
    RememberTable(t, prefix, path);
  }

  /** Distinct paths have distinct aliases. */
  lemma AliasesDistinct(t: Record, prefix: string, i: nat, j: nat)
    requires AliasTable(t, prefix) && i < |t| && j < |t| && i != j
    ensures t[i].value != t[j].value
  {
    if t[i].value == t[j].value {
      NumberedInjective(prefix, i, j);
    }
  }

  /** A new alias is not yet in the alias-to-path table. */
  lemma FreshAlias(t: Record, prefix: string)
    requires AliasTable(t, prefix)
    ensures !HasKey(Inverse(t), Numbered(prefix, |t|))
  {
    if HasKey(Inverse(t), Numbered(prefix, |t|)) {
      var i :| 0 <= i < |t| && Inverse(t)[i].key == Numbered(prefix, |t|);
      NumberedInjective(prefix, i, |t|);
    }
  }

  /** `as_keymap()` is the inverse of the path-to-alias table: an alias reads
      as a path exactly when that path has that alias. */
  lemma InverseGet(t: Record, prefix: string, alias: string, path: string)
    requires AliasTable(t, prefix)
    ensures Get(Inverse(t), alias) == Some(path) <==> Get(t, path) == Some(alias)
  {
    var inv := Inverse(t);
    if Get(t, path) == Some(alias) {
      var i := KeyIndex(t, path).value;
      forall j | 0 <= j < i ensures inv[j].key != alias {
        AliasesDistinct(t, prefix, i, j);
      }
      KeyIndexIs(inv, alias, i);
    }
    if Get(inv, alias) == Some(path) {
      var i := KeyIndex(inv, alias).value;
      GetAt(t, i);
    }
  }

  /** The table after `alias_for` of each path in turn. */
  function Learned(t: Record, prefix: string, paths: seq<string>): Record
  {
    if paths == [] then t
    else Remember(Learned(t, prefix, paths[..|paths| - 1]), prefix, paths[|paths| - 1])
  }

  /** Asking for a list of paths keeps the table an alias table that only
      grows and knows every path asked for. */
  lemma {:induction false} LearnedTable(t: Record, prefix: string, paths: seq<string>)
    requires AliasTable(t, prefix)
    ensures AliasTable(Learned(t, prefix, paths), prefix)
    ensures Extends(Learned(t, prefix, paths), t)
    ensures forall p :: p in paths ==> HasKey(Learned(t, prefix, paths), p)
    decreases |paths|
  {
    if paths == [] {
      assert t[..|t|] == t;
    } else {
      var init, p := paths[..|paths| - 1], paths[|paths| - 1];
      LearnedTable(t, prefix, init);
      var l := Learned(t, prefix, init);
      RememberTable(l, prefix, p);
      ExtendsTrans(Remember(l, prefix, p), l, t);
      forall q | q in paths ensures HasKey(Remember(l, prefix, p), q) {
        if q != p {
          assert q in init;
        }
      }
    }
  }

  /** ... and lists the paths in order of first request. */
  lemma {:induction false} LearnedKeys(t: Record, prefix: string, requested: seq<string>, paths: seq<string>)
    requires AliasTable(t, prefix) && Keys(t) == FirstOccurrences(requested)
    ensures Keys(Learned(t, prefix, paths)) == FirstOccurrences(requested + paths)
    decreases |paths|
  {
    if paths == [] {
      assert requested + paths == requested;
    } else {
      var init, p := paths[..|paths| - 1], paths[|paths| - 1];
      LearnedKeys(t, prefix, requested, init);
      LearnedTable(t, prefix, init);
      RememberStep(Learned(t, prefix, init), prefix, requested + init, p);
      AppendLast(requested, paths);
    }
  }

  /** The alias of a path is the number of its position in the table. */
  lemma AliasNumber(t: Record, prefix: string, p: string)
    requires AliasTable(t, prefix) && HasKey(t, p)
    ensures ValueOf(t, p) == Numbered(prefix, KeyIndex(t, p).value)
  {
  }

  /** Distinct paths of a table have distinct aliases. */
  lemma AliasInjective(t: Record, prefix: string, p: string, q: string)
    requires AliasTable(t, prefix) && HasKey(t, p) && HasKey(t, q)
    requires ValueOf(t, p) == ValueOf(t, q)
    ensures p == q
  {
    var i, j := KeyIndex(t, p).value, KeyIndex(t, q).value;
    if i != j {
      AliasesDistinct(t, prefix, i, j);
    }
  }

  class AliasGenerator {
    /** `_path_to_alias` */
    var pathToAlias: Record
    /** `_alias_to_path` */
    var aliasToPath: Record
    /** `_prefix` */
    const prefix: string
    /** Every path asked for so far, in order. */
    ghost var requested: seq<string>

    ghost predicate Valid()
      reads this
    {
      Tables(pathToAlias, aliasToPath, prefix, requested)
    }

    /** `AliasGenerator(prefix)` */
    constructor(prefix: string)
      ensures Valid()
      ensures this.prefix == prefix && pathToAlias == [] && requested == []
    {
      this.prefix := prefix;
      pathToAlias := [];
      aliasToPath := [];
      requested := [];
    }

    /** `alias_for(path)`: the path-to-alias table becomes `Remember` of the
        old one, the alias-to-path table stays its inverse, and the path joins
        the paths asked for. */
    method AliasFor(path: string) returns (alias: string)
      requires Valid()
      modifies this
      ensures Valid()
      ensures alias == AliasOf(old(pathToAlias), prefix, path)
      ensures pathToAlias == Remember(old(pathToAlias), prefix, path)
      ensures requested == old(requested) + [path]
    {
      if !HasKey(pathToAlias, path) {
        NewAliasStep(pathToAlias, aliasToPath, prefix, requested, path);
        var a := Numbered(prefix, |pathToAlias|);
        pathToAlias := Put(pathToAlias, path, a);
        aliasToPath := Put(aliasToPath, a, path);
      } else {
        KnownAliasStep(pathToAlias, aliasToPath, prefix, requested, path);
      }
      alias := ValueOf(pathToAlias, path);
      requested := requested + [path];
    }

    /** `as_keymap()` */
    method AsKeymap() returns (keymap: Record)
      requires Valid()
      ensures keymap == Inverse(pathToAlias)
      ensures |keymap| == |FirstOccurrences(requested)|
    {
      keymap := aliasToPath;
    }
  }
}
