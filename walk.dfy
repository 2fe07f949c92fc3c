/** `_stringify_scalar` and `_walk_yaml_paths` of `cosmic_pair_ledger_cli.py`:
    a YAML tree is flattened into its leaves, each named by the dotted path of
    mapping keys and list indices that leads to it. */
module YamlPaths {
  import opened Seqs
  import opened Text
  import opened Values

  /** `_stringify_scalar(value)` */
  function StringifyScalar(v: Value): (s: string)
    ensures v.Null? ==> s == ""
    ensures v.Bool? ==> s == if v.b then "true" else "false"
    ensures !v.Null? && !v.Bool? ==> s == PyStr(v)
  {
    match v
    case Null => ""
    case Bool(b) => if b then "true" else "false"
    case _ => PyStr(v)
  }

  /** A leaf as the generator yields it: its dotted path and its text. */
  datatype Leaf = Leaf(path: string, value: string)

  /** `f"{prefix}.{key}" if prefix else str(key)` */
  function ChildPrefix(prefix: string, component: string): string
  {
    if prefix != "" then prefix + "." + component else component
  }

  /** `_walk_yaml_paths(node, prefix)`, as the list of what it yields. */
  function Walk(node: Value, prefix: string): seq<Leaf>
    decreases node
  {
    match node
    case Object(members) => WalkMembers(node, 0, prefix)
    case List(items) => WalkItems(node, 0, prefix)
    case _ => [Leaf(prefix, StringifyScalar(node))]
  }

  /** The leaves below the members of a mapping, from the `i`-th on. */
  function WalkMembers(node: Value, i: nat, prefix: string): seq<Leaf>
    requires node.Object? && i <= |node.members|
    decreases node, |node.members| - i
  {
    if i == |node.members| then []
    else
      var m := node.members[i];
      Walk(m.value, ChildPrefix(prefix, m.key)) + WalkMembers(node, i + 1, prefix)
  }

  /** The leaves below the items of a list, from the `i`-th on. */
  function WalkItems(node: Value, i: nat, prefix: string): seq<Leaf>
    requires node.List? && i <= |node.items|
    decreases node, |node.items| - i
  {
    if i == |node.items| then []
    else Walk(node.items[i], ChildPrefix(prefix, NatToString(i))) + WalkItems(node, i + 1, prefix)
  }

  // ---------------------------------------------------------------------------
  // A reference description of the leaves: each with the list of keys and
  // indices that leads to it.

  datatype KeyPath = KeyPath(components: seq<string>, value: string)

  function Paths(node: Value): seq<KeyPath>
    decreases node
  {
    match node
    case Object(members) => PathsMembers(node, 0)
    case List(items) => PathsItems(node, 0)
    case _ => [KeyPath([], StringifyScalar(node))]
  }

  function PathsMembers(node: Value, i: nat): seq<KeyPath>
    requires node.Object? && i <= |node.members|
    decreases node, |node.members| - i
  {
    if i == |node.members| then []
    else Under(node.members[i].key, Paths(node.members[i].value)) + PathsMembers(node, i + 1)
  }

  function PathsItems(node: Value, i: nat): seq<KeyPath>
    requires node.List? && i <= |node.items|
    decreases node, |node.items| - i
  {
    if i == |node.items| then []
    else Under(NatToString(i), Paths(node.items[i])) + PathsItems(node, i + 1)
  }

  /** The same key paths one level further down, below `c`. */
  function Under(c: string, ps: seq<KeyPath>): seq<KeyPath>
  {
    if ps == [] then [] else [KeyPath([c] + ps[0].components, ps[0].value)] + Under(c, ps[1..])
  }

  /** The name the walk gives to the components below `prefix`. */
  function Dotted(prefix: string, components: seq<string>): string
    decreases |components|
  {
    if components == [] then prefix else Dotted(ChildPrefix(prefix, components[0]), components[1..])
  }

  /** The leaves named by `Dotted`, in order. */
  function Render(prefix: string, ps: seq<KeyPath>): (leaves: seq<Leaf>)
    ensures |leaves| == |ps|
    ensures forall i :: 0 <= i < |ps| ==> leaves[i] == Leaf(Dotted(prefix, ps[i].components), ps[i].value)
  {
    if ps == [] then [] else [Leaf(Dotted(prefix, ps[0].components), ps[0].value)] + Render(prefix, ps[1..])
  }

  lemma {:induction false} RenderAppend(prefix: string, a: seq<KeyPath>, b: seq<KeyPath>)
    ensures Render(prefix, a + b) == Render(prefix, a) + Render(prefix, b)
    decreases |a|
  {
    if a == [] {
      assert a + b == b;
    } else {
      ConsParts(a, b);
      RenderAppend(prefix, a[1..], b);
      var x := [Leaf(Dotted(prefix, a[0].components), a[0].value)];
      AppendAssoc(x, Render(prefix, a[1..]), Render(prefix, b));
    }
  }

  lemma {:induction false} RenderUnder(prefix: string, c: string, ps: seq<KeyPath>)
    ensures Render(prefix, Under(c, ps)) == Render(ChildPrefix(prefix, c), ps)
    decreases |ps|
  {
    if ps != [] {
      var comps := [c] + ps[0].components;
      assert comps[0] == c && comps[1..] == ps[0].components;
      RenderUnder(prefix, c, ps[1..]);
    }
  }

  /** The walk names every leaf by the key path that leads to it. */
  lemma {:induction false} WalkRendersPaths(node: Value, prefix: string)
    ensures Walk(node, prefix) == Render(prefix, Paths(node))
    decreases node
  {
    match node
    case Object(members) => WalkMembersRenders(node, 0, prefix);
    case List(items) => WalkItemsRenders(node, 0, prefix);
    case _ =>
  }

  lemma {:induction false} WalkMembersRenders(node: Value, i: nat, prefix: string)
    requires node.Object? && i <= |node.members|
    ensures WalkMembers(node, i, prefix) == Render(prefix, PathsMembers(node, i))
    decreases node, |node.members| - i
  {
    if i < |node.members| {
      var m := node.members[i];
      WalkRendersPaths(m.value, ChildPrefix(prefix, m.key));
      WalkMembersRenders(node, i + 1, prefix);
      RenderUnder(prefix, m.key, Paths(m.value));
      RenderAppend(prefix, Under(m.key, Paths(m.value)), PathsMembers(node, i + 1));
    }
  }

  lemma {:induction false} WalkItemsRenders(node: Value, i: nat, prefix: string)
    requires node.List? && i <= |node.items|
    ensures WalkItems(node, i, prefix) == Render(prefix, PathsItems(node, i))
    decreases node, |node.items| - i
  {
    if i < |node.items| {
      var c := NatToString(i);
      WalkRendersPaths(node.items[i], ChildPrefix(prefix, c));
      WalkItemsRenders(node, i + 1, prefix);
      RenderUnder(prefix, c, Paths(node.items[i]));
      RenderAppend(prefix, Under(c, Paths(node.items[i])), PathsItems(node, i + 1));
    }
  }

  /** Below a non-empty prefix, the components follow it after dots. */
  lemma {:induction false} DottedBelow(prefix: string, components: seq<string>)
    requires prefix != "" && components != []
    ensures Dotted(prefix, components) == prefix + "." + Join(components, '.')
    decreases |components|
  {
    if |components| > 1 {
      var next := prefix + "." + components[0];
      DottedBelow(next, components[1..]);
      assert next + "." + Join(components[1..], '.') == prefix + "." + Join(components, '.');
    }
  }

  /** From the top, a path whose first component is not empty is its
      components joined by dots: there is no leading dot. */
  lemma DottedFromTop(components: seq<string>)
    requires components == [] || components[0] != ""
    ensures Dotted("", components) == Join(components, '.')
  {
    if |components| > 1 {
      DottedBelow(components[0], components[1..]);
    }
  }

  /** When no key holds a dot, a leaf's path splits back into its key path. */
  lemma DottedSplits(components: seq<string>)
    requires components != [] && components[0] != ""
    requires forall i :: 0 <= i < |components| ==> '.' !in components[i]
    ensures Split(Dotted("", components), '.') == components
  {
    DottedFromTop(components);
    SplitJoin(components, '.');
  }

  /** A top-level scalar is one leaf with the empty path. */
  lemma WalkScalar(node: Value)
    requires IsScalar(node)
    ensures Walk(node, "") == [Leaf("", StringifyScalar(node))]
  {
  }
}
