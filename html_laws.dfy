/** What the HTML collector keeps true while it is fed: nodes are numbered by
    creation, elements `n<i>` and texts `t<i>`; a node's parent is an element
    created before it; the open elements are elements; and the children index
    lists, for every element, exactly the nodes naming it as parent, in
    creation order. */
module HtmlLaws {
  import opened Wrappers
  import opened Seqs
  import opened Text
  import opened Records
  import opened Html

  /** The node's `id`, or nothing. */
  function NodeId(node: Record): string
  {
    match Get(node, "id")
    case Some(id) => id
    case None => ""
  }

  /** Node `j` is the element `n<j>`. */
  predicate IsElement(nodes: seq<Record>, j: nat) {
    j < |nodes| && Get(nodes[j], "record") == Some("element") && Get(nodes[j], "id") == Some(Numbered("n", j))
  }

  /** Node `j` is the text node `t<j>`. */
  predicate IsText(nodes: seq<Record>, j: nat) {
    j < |nodes| && Get(nodes[j], "record") == Some("text") && Get(nodes[j], "id") == Some(Numbered("t", j))
  }

  /** `s` names an element. */
  ghost predicate ElementId(nodes: seq<Record>, s: string) {
    exists j: nat :: s == Numbered("n", j) && IsElement(nodes, j)
  }

  /** Node `i` has no parent, or an element created before it. */
  ghost predicate ParentOk(nodes: seq<Record>, i: nat)
    requires i < |nodes|
  {
    match Get(nodes[i], "parent")
    case None => true
    case Some(p) => exists j: nat :: j < i && p == Numbered("n", j) && IsElement(nodes, j)
  }

  /** The ids of the nodes whose parent is `p`, in creation order. */
  function ChildIds(nodes: seq<Record>, p: string): seq<string>
  {
    if nodes == [] then []
    else
      var last := nodes[|nodes| - 1];
      ChildIds(nodes[..|nodes| - 1], p) + if Get(last, "parent") == Some(p) then [NodeId(last)] else []
  }

  ghost predicate Wf(c: Collector) {
    && c.counter == |c.nodes|
    && (forall i: nat :: i < |c.nodes| ==> IsElement(c.nodes, i) || IsText(c.nodes, i))
    && (forall i: nat :: i < |c.nodes| ==> ParentOk(c.nodes, i))
    && (forall k :: 0 <= k < |c.stack| ==> ElementId(c.nodes, c.stack[k]))
    && (forall p :: ChildrenOf(c.children, p) == ChildIds(c.nodes, p))
  }

  // ---------------------------------------------------------------------------
  // The node records

  /** Attribute keys start with `a`; no other key of a node record does. */
  lemma {:induction false} WithAttrsKeeps(node: Record, attrs: seq<(string, Option<string>)>, k: string)
    requires k != "" && k[0] != 'a'
    ensures Get(WithAttrs(node, attrs), k) == Get(node, k)
    decreases |attrs|
  {
    if attrs != [] {
      var a := attrs[|attrs| - 1];
      assert AttrKey(a.0)[0] == 'a';
      WithAttrsKeeps(node, attrs[..|attrs| - 1], k);
      PutGet(WithAttrs(node, attrs[..|attrs| - 1]), AttrKey(a.0), AttrValue(a.1), k);
    }
  }

  /** `node["parent"] = parent` touches no other key. */
  lemma WithParentGet(node: Record, parent: string, k: string)
    ensures Get(WithParent(node, parent), k) ==
      if k == "parent" && parent != "" then Some(parent) else Get(node, k)
  {
    if parent != "" {
      PutGet(node, "parent", parent, k);
    }
  }

  /** The three keys a node record starts with. */
  lemma BaseGet(kind: string, id: string, key: string, value: string)
    requires key != "record" && key != "id" && key != "parent"
    ensures var base := [Pair("record", kind), Pair("id", id), Pair(key, value)];
      Get(base, "record") == Some(kind) && Get(base, "id") == Some(id) &&
      Get(base, key) == Some(value) && Get(base, "parent") == None
  {
    var base := [Pair("record", kind), Pair("id", id), Pair(key, value)];
    GetAt(base, 0);
    GetAt(base, 1);
    GetAt(base, 2);
    assert !HasKey(base, "parent");
  }

  lemma ElementNodeGet(id: string, tag: string, parent: string, attrs: seq<(string, Option<string>)>)
    ensures Get(ElementNode(id, tag, parent, attrs), "record") == Some("element")
    ensures Get(ElementNode(id, tag, parent, attrs), "id") == Some(id)
    ensures Get(ElementNode(id, tag, parent, attrs), "tag") == Some(tag)
    ensures Get(ElementNode(id, tag, parent, attrs), "parent") == if parent != "" then Some(parent) else None
  {
    var base := [Pair("record", "element"), Pair("id", id), Pair("tag", tag)];
    BaseGet("element", id, "tag", tag);
    var node := WithParent(base, parent);
    WithParentGet(base, parent, "record");
    WithParentGet(base, parent, "id");
    WithParentGet(base, parent, "tag");
    WithParentGet(base, parent, "parent");
    WithAttrsKeeps(node, attrs, "record");
    WithAttrsKeeps(node, attrs, "id");
    WithAttrsKeeps(node, attrs, "tag");
    WithAttrsKeeps(node, attrs, "parent");
  }

  lemma TextNodeGet(id: string, text: string, parent: string)
    ensures Get(TextNode(id, text, parent), "record") == Some("text")
    ensures Get(TextNode(id, text, parent), "id") == Some(id)
    ensures Get(TextNode(id, text, parent), "text") == Some(text)
    ensures Get(TextNode(id, text, parent), "parent") == if parent != "" then Some(parent) else None
  {
    var base := [Pair("record", "text"), Pair("id", id), Pair("text", text)];
    BaseGet("text", id, "text", text);
    WithParentGet(base, parent, "record");
    WithParentGet(base, parent, "id");
    WithParentGet(base, parent, "text");
    WithParentGet(base, parent, "parent");
  }

  // ---------------------------------------------------------------------------
  // Adding a node

  /** What held of the earlier nodes still holds once a node is added. */
  lemma NodesKept(nodes: seq<Record>, n: Record)
    ensures forall j: nat :: IsElement(nodes, j) ==> IsElement(nodes + [n], j)
    ensures forall j: nat :: IsText(nodes, j) ==> IsText(nodes + [n], j)
    ensures forall s :: ElementId(nodes, s) ==> ElementId(nodes + [n], s)
    ensures forall i: nat :: i < |nodes| && ParentOk(nodes, i) ==> ParentOk(nodes + [n], i)
  {
    assert forall j :: 0 <= j < |nodes| ==> (nodes + [n])[j] == nodes[j];
  }

  lemma ChildIdsSnoc(nodes: seq<Record>, n: Record, p: string)
    ensures ChildIds(nodes + [n], p) == ChildIds(nodes, p) + if Get(n, "parent") == Some(p) then [NodeId(n)] else []
  {
    assert (nodes + [n])[..|nodes|] == nodes;
  }

  /** The innermost open element is a node's parent; there is none when no
      element is open. */
  lemma TopIsElement(c: Collector)
    requires forall k :: 0 <= k < |c.stack| ==> ElementId(c.nodes, c.stack[k])
    ensures c.stack != [] ==> Top(c.stack) != "" && ElementId(c.nodes, Top(c.stack))
    ensures c.stack == [] ==> Top(c.stack) == ""
  {
    if c.stack != [] {
      assert ElementId(c.nodes, c.stack[|c.stack| - 1]);
      var j: nat :| Top(c.stack) == Numbered("n", j) && IsElement(c.nodes, j);
    }
  }

  /** The new node names its parent as the children index records it. */
  lemma AdoptChildren(c: Collector, n: Record, id: string)
    requires forall p :: ChildrenOf(c.children, p) == ChildIds(c.nodes, p)
    requires NodeId(n) == id
    requires Get(n, "parent") == if Top(c.stack) != "" then Some(Top(c.stack)) else None
    ensures forall p :: ChildrenOf(Adopt(c.children, Top(c.stack), id), p) == ChildIds(c.nodes + [n], p)
  {
    forall p ensures ChildrenOf(Adopt(c.children, Top(c.stack), id), p) == ChildIds(c.nodes + [n], p) {
      ChildIdsSnoc(c.nodes, n, p);
    }
  }

  /** The new node's parent, if any, is an element created before it. */
  lemma NewParentOk(c: Collector, n: Record)
    requires forall k :: 0 <= k < |c.stack| ==> ElementId(c.nodes, c.stack[k])
    requires Get(n, "parent") == if Top(c.stack) != "" then Some(Top(c.stack)) else None
    ensures ParentOk(c.nodes + [n], |c.nodes|)
  {
    var nodes := c.nodes + [n];
    SnocParts(c.nodes, n);
    TopIsElement(c);
    NodesKept(c.nodes, n);
    if c.stack != [] {
      var j: nat :| Top(c.stack) == Numbered("n", j) && IsElement(c.nodes, j);
      assert IsElement(nodes, j);
    }
  }

  /** A node added below the innermost open element with the next number. */
  lemma AddNode(c: Collector, n: Record, id: string)
    requires Wf(c)
    requires IsElement(c.nodes + [n], |c.nodes|) || IsText(c.nodes + [n], |c.nodes|)
    requires Get(n, "id") == Some(id)
    requires Get(n, "parent") == if Top(c.stack) != "" then Some(Top(c.stack)) else None
    ensures forall i: nat :: i < |c.nodes| + 1 ==> IsElement(c.nodes + [n], i) || IsText(c.nodes + [n], i)
    ensures forall i: nat :: i < |c.nodes| + 1 ==> ParentOk(c.nodes + [n], i)
    ensures forall k :: 0 <= k < |c.stack| ==> ElementId(c.nodes + [n], c.stack[k])
    ensures forall p :: ChildrenOf(Adopt(c.children, Top(c.stack), id), p) == ChildIds(c.nodes + [n], p)
  {
    NodesKept(c.nodes, n);
    NewParentOk(c, n);
    AdoptChildren(c, n, id);
  }

  // ---------------------------------------------------------------------------
  // The handlers keep the invariant

  lemma OnStartTagWf(c: Collector, tag: string, attrs: seq<(string, Option<string>)>)
    requires Wf(c)
    ensures Wf(OnStartTag(c, tag, attrs))
  {
    var id := Numbered("n", c.counter);
    var n := ElementNode(id, tag, Top(c.stack), attrs);
    ElementNodeGet(id, tag, Top(c.stack), attrs);
    SnocParts(c.nodes, n);
    AddNode(c, n, id);
    var nodes := c.nodes + [n];
    assert ElementId(nodes, id) by {
      assert IsElement(nodes, |c.nodes|);
    }
    StackPush(nodes, c.stack, id);
  }

  /** Opening an element keeps every open id an element id. */
  lemma StackPush(nodes: seq<Record>, stack: seq<string>, id: string)
    requires forall k :: 0 <= k < |stack| ==> ElementId(nodes, stack[k])
    requires ElementId(nodes, id)
    ensures forall k :: 0 <= k < |stack + [id]| ==> ElementId(nodes, (stack + [id])[k])
  {
    forall k | 0 <= k < |stack + [id]| ensures ElementId(nodes, (stack + [id])[k]) {
      if k < |stack| {
        assert (stack + [id])[k] == stack[k];
      }
    }
  }

  lemma OnEndTagWf(c: Collector)
    requires Wf(c)
    ensures Wf(OnEndTag(c))
  {
    if c.stack != [] {
      var s := c.stack[..|c.stack| - 1];
      assert forall k :: 0 <= k < |s| ==> s[k] == c.stack[k];
    }
  }

  lemma OnDataWf(c: Collector, data: string)
    requires Wf(c)
    ensures Wf(OnData(c, data))
  {
    var text := Strip(data);
    if text != "" {
      var id := Numbered("t", c.counter);
      var n := TextNode(id, text, Top(c.stack));
      TextNodeGet(id, text, Top(c.stack));
      SnocParts(c.nodes, n);
      AddNode(c, n, id);
    }
  }

  /** Whatever the events, the collector stays well formed. */
  lemma {:induction false} FeedWf(events: seq<Event>)
    ensures Wf(Feed(events))
    decreases |events|
  {
    if events != [] {
      var c := Feed(events[..|events| - 1]);
      FeedWf(events[..|events| - 1]);
      match events[|events| - 1]
      case StartTag(tag, attrs) => OnStartTagWf(c, tag, attrs);
      case EndTag(_) => OnEndTagWf(c);
      case Data(text) => OnDataWf(c, text);
    }
  }

  lemma WfHasIds(c: Collector)
    requires Wf(c)
    ensures HasIds(c.nodes)
  {
    forall i | 0 <= i < |c.nodes| ensures HasKey(c.nodes[i], "id") {
      assert IsElement(c.nodes, i) || IsText(c.nodes, i);
    }
  }

  // ---------------------------------------------------------------------------
  // Consequences

  /** Only elements are parents: a text node has no children. */
  lemma TextChildless(c: Collector, i: nat)
    requires Wf(c) && IsText(c.nodes, i)
    ensures ChildrenOf(c.children, Numbered("t", i)) == []
  {
    NoChildIds(c.nodes, Numbered("t", i));
  }

  lemma {:induction false} NoChildIds(nodes: seq<Record>, p: string)
    requires forall i: nat :: i < |nodes| ==> ParentOk(nodes, i)
    requires p != "" && p[0] != 'n'
    ensures ChildIds(nodes, p) == []
    decreases |nodes|
  {
    if nodes != [] {
      var init, last := nodes[..|nodes| - 1], nodes[|nodes| - 1];
      NodesKeptBack(nodes, init);
      NoChildIds(init, p);
      assert ParentOk(nodes, |nodes| - 1);
    }
  }

  /** The earlier nodes on their own have parents created before them too. */
  lemma NodesKeptBack(nodes: seq<Record>, init: seq<Record>)
    requires nodes != [] && init == nodes[..|nodes| - 1]
    requires forall i: nat :: i < |nodes| ==> ParentOk(nodes, i)
    ensures forall i: nat :: i < |init| ==> ParentOk(init, i)
  {
    forall i: nat | i < |init| ensures ParentOk(init, i) {
      assert init[i] == nodes[i];
      assert ParentOk(nodes, i);
      assert forall j: nat :: j < i && IsElement(nodes, j) ==> IsElement(init, j) by {
        forall j: nat | j < i && IsElement(nodes, j) ensures IsElement(init, j) {
          assert init[j] == nodes[j];
        }
      }
    }
  }

  /** Everything every node knows about its place in the tree, once fed. */
  lemma FedNode(events: seq<Event>, i: nat)
    requires i < |Feed(events).nodes|
    ensures IsElement(Feed(events).nodes, i) || IsText(Feed(events).nodes, i)
    ensures ParentOk(Feed(events).nodes, i)
    ensures ChildrenOf(Feed(events).children, NodeId(Feed(events).nodes[i]))
         == ChildIds(Feed(events).nodes, NodeId(Feed(events).nodes[i]))
    ensures IsText(Feed(events).nodes, i) ==> ChildrenOf(Feed(events).children, NodeId(Feed(events).nodes[i])) == []
  {
    FeedWf(events);
    if IsText(Feed(events).nodes, i) {
      TextChildless(Feed(events), i);
    }
  }

  // ---------------------------------------------------------------------------
  // The entries

  /** One more child: its key is new, every other key reads as before. */
  lemma WithChildrenSnoc(node: Record, kids: seq<string>, k: string)
    requires kids != []
    ensures Get(WithChildren(node, kids), k) ==
      if k == Numbered("child", |kids| - 1) then Some(kids[|kids| - 1])
      else Get(WithChildren(node, kids[..|kids| - 1]), k)
  {
    PutGet(WithChildren(node, kids[..|kids| - 1]), Numbered("child", |kids| - 1), kids[|kids| - 1], k);
  }

  /** Entry keys `child<j>` read as the `j`-th child. */
  lemma {:induction false} WithChildrenGet(node: Record, kids: seq<string>, j: nat)
    requires j < |kids|
    ensures Get(WithChildren(node, kids), Numbered("child", j)) == Some(kids[j])
    decreases |kids|
  {
    WithChildrenSnoc(node, kids, Numbered("child", j));
    if j < |kids| - 1 {
      var init := kids[..|kids| - 1];
      WithChildrenGet(node, init, j);
      assert init[j] == kids[j];
      NumberedDistinct("child", j, |kids| - 1);
    }
  }

  /** Keys that do not start with `c` read as in the node. */
  lemma {:induction false} WithChildrenKeeps(node: Record, kids: seq<string>, k: string)
    requires k == "" || k[0] != 'c'
    ensures Get(WithChildren(node, kids), k) == Get(node, k)
    decreases |kids|
  {
    if kids != [] {
      assert Numbered("child", |kids| - 1)[0] == 'c';
      WithChildrenKeeps(node, kids[..|kids| - 1], k);
      PutGet(WithChildren(node, kids[..|kids| - 1]), Numbered("child", |kids| - 1), kids[|kids| - 1], k);
    }
  }

  /** `to_entries()` once fed: entry `i` is node `i` with its children, in
      creation order, under `child0`, `child1`, ...; its other keys as in the node. */
  lemma FedEntries(events: seq<Event>, i: nat, j: nat, k: string)
    requires i < |Feed(events).nodes|
    ensures HasIds(Feed(events).nodes)
    ensures var c := Feed(events); var kids := ChildIds(c.nodes, NodeId(c.nodes[i]));
      j < |kids| ==> Get(Entries(c.nodes, c.children)[i], Numbered("child", j)) == Some(kids[j])
    ensures var c := Feed(events);
      k == "" || k[0] != 'c' ==> Get(Entries(c.nodes, c.children)[i], k) == Get(c.nodes[i], k)
  {
    var c := Feed(events);
    FedNode(events, i);
    FeedWf(events);
    WfHasIds(c);
    var kids := ChildIds(c.nodes, NodeId(c.nodes[i]));
    assert ValueOf(c.nodes[i], "id") == NodeId(c.nodes[i]);
    if j < |kids| {
      WithChildrenGet(c.nodes[i], kids, j);
    }
    if k == "" || k[0] != 'c' {
      WithChildrenKeeps(c.nodes[i], ChildrenOf(c.children, NodeId(c.nodes[i])), k);
    }
  }

  /** One shared counter: no two nodes have the same id. */
  lemma NodeIdsDistinct(c: Collector, i: nat, j: nat)
    requires Wf(c) && i < j < |c.nodes|
    ensures NodeId(c.nodes[i]) != NodeId(c.nodes[j])
  {
    assert IsElement(c.nodes, i) || IsText(c.nodes, i);
    assert IsElement(c.nodes, j) || IsText(c.nodes, j);
    NumberedDistinct("n", i, j);
    NumberedDistinct("t", i, j);
    assert Numbered("n", i)[0] == 'n' && Numbered("t", i)[0] == 't';
    assert Numbered("n", j)[0] == 'n' && Numbered("t", j)[0] == 't';
  }

  /** A node naming `p` as its parent is among `p`'s children. */
  lemma {:induction false} ChildListed(nodes: seq<Record>, i: nat, p: string)
    requires i < |nodes| && Get(nodes[i], "parent") == Some(p)
    ensures NodeId(nodes[i]) in ChildIds(nodes, p)
    decreases |nodes|
  {
    var init := nodes[..|nodes| - 1];
    if i < |init| {
      assert init[i] == nodes[i];
      ChildListed(init, i, p);
    }
  }

  /** Once fed, a node's parent is an element created before it whose entry
      lists the node under some `child<m>`. */
  lemma FedParentListsChild(events: seq<Event>, i: nat, p: string)
    requires i < |Feed(events).nodes|
    requires Get(Feed(events).nodes[i], "parent") == Some(p)
    ensures HasIds(Feed(events).nodes)
    ensures var c := Feed(events);
      exists j: nat :: j < i && p == Numbered("n", j) && IsElement(c.nodes, j) &&
        exists m: nat :: Get(Entries(c.nodes, c.children)[j], Numbered("child", m)) == Some(NodeId(c.nodes[i]))
  {
    var c := Feed(events);
    FeedWf(events);
    WfHasIds(c);
    FedNode(events, i);
    var j: nat :| j < i && p == Numbered("n", j) && IsElement(c.nodes, j);
    assert NodeId(c.nodes[j]) == p;
    ChildListed(c.nodes, i, p);
    var kids := ChildIds(c.nodes, p);
    var m: nat :| m < |kids| && kids[m] == NodeId(c.nodes[i]);
    FedEntries(events, j, m, "");
  }

  /** `handle_data`: whitespace-only text adds nothing; other text adds one
      text node holding the stripped text. */
  lemma OnDataText(c: Collector, data: string)
    ensures AllSpace(data) ==> OnData(c, data) == c
    ensures !AllSpace(data) ==>
      var c' := OnData(c, data);
      |c'.nodes| == |c.nodes| + 1 && c'.counter == c.counter + 1 && c'.stack == c.stack &&
      c'.nodes[..|c.nodes|] == c.nodes &&
      Get(c'.nodes[|c.nodes|], "text") == Some(Strip(data)) &&
      Strip(data) != "" && Trimmed(Strip(data))
  {
    StripBlank(data);
    if !AllSpace(data) {
      var text := Strip(data);
      var n := TextNode(Numbered("t", c.counter), text, Top(c.stack));
      TextNodeGet(Numbered("t", c.counter), text, Top(c.stack));
      SnocParts(c.nodes, n);
    }
  }

  /** `node[f"attr.{k}"] = v or ""`: the last occurrence of an attribute
      decides its value, and a missing value reads as `""`. */
  lemma {:induction false} WithAttrsGet(node: Record, attrs: seq<(string, Option<string>)>, j: nat)
    requires j < |attrs|
    requires forall l :: j < l < |attrs| ==> attrs[l].0 != attrs[j].0
    ensures Get(WithAttrs(node, attrs), AttrKey(attrs[j].0)) == Some(AttrValue(attrs[j].1))
    decreases |attrs|
  {
    var init := attrs[..|attrs| - 1];
    WithAttrsSnoc(node, attrs, AttrKey(attrs[j].0));
    if j < |init| {
      assert init[j] == attrs[j];
      forall l | j < l < |init| ensures init[l].0 != init[j].0 {
        assert init[l] == attrs[l];
      }
      WithAttrsGet(node, init, j);
      if AttrKey(attrs[j].0) == AttrKey(attrs[|attrs| - 1].0) {
        AttrKeyInjective(attrs[j].0, attrs[|attrs| - 1].0);
      }
    }
  }

  lemma WithAttrsSnoc(node: Record, attrs: seq<(string, Option<string>)>, k: string)
    requires attrs != []
    ensures Get(WithAttrs(node, attrs), k) ==
      if k == AttrKey(attrs[|attrs| - 1].0) then Some(AttrValue(attrs[|attrs| - 1].1))
      else Get(WithAttrs(node, attrs[..|attrs| - 1]), k)
  {
    var a := attrs[|attrs| - 1];
    PutGet(WithAttrs(node, attrs[..|attrs| - 1]), AttrKey(a.0), AttrValue(a.1), k);
  }

  lemma AttrKeyInjective(a: string, b: string)
    requires AttrKey(a) == AttrKey(b)
    ensures a == b
  {
    assert a == AttrKey(a)[5..] && b == AttrKey(b)[5..];
  }

  // ---------------------------------------------------------------------------
  // An example: `<p>Hi</p>`

  const ParagraphEvents := [StartTag("p", []), Data("Hi"), EndTag("p")]
  const P0: Record := [Pair("record", "element"), Pair("id", "n0"), Pair("tag", "p")]
  const T1: Record := [Pair("record", "text"), Pair("id", "t1"), Pair("text", "Hi"), Pair("parent", "n0")]

  lemma ExampleNames()
    ensures Numbered("n", 0) == "n0" && Numbered("t", 1) == "t1" && Numbered("child", 0) == "child0"
  {
    assert Digit(0) == '0' && Digit(1) == '1';
  }

  lemma ParagraphStart()
    ensures OnStartTag(Empty, "p", []) == Collector([P0], map[], ["n0"], 1)
  {
    ExampleNames();
  }

  lemma ParagraphText()
    ensures TextNode("t1", "Hi", "n0") == T1
  {
    var t := [Pair("record", "text"), Pair("id", "t1"), Pair("text", "Hi")];
    assert "record"[0] != "parent"[0];
    assert !HasKey(t, "parent");
    assert t + [Pair("parent", "n0")] == T1;
  }

  /** `handle_data` on text that strips to `text`, not blank. */
  lemma OnDataNonBlank(c: Collector, data: string, text: string, id: string, parent: string)
    requires Strip(data) == text && text != ""
    requires id == Numbered("t", c.counter) && parent == Top(c.stack)
    ensures OnData(c, data) ==
      Collector(c.nodes + [TextNode(id, text, parent)], Adopt(c.children, parent, id), c.stack, c.counter + 1)
  {
  }

  lemma ParagraphAdopt()
    ensures Adopt(map[], "n0", "t1") == map["n0" := ["t1"]]
  {
    assert ChildrenOf(map[], "n0") + ["t1"] == ["t1"];
  }

  lemma ParagraphData()
    ensures OnData(Collector([P0], map[], ["n0"], 1), "Hi") == Collector([P0, T1], map["n0" := ["t1"]], ["n0"], 2)
  {
    var c := Collector([P0], map[], ["n0"], 1);
    ExampleNames();
    StripTrimmed("Hi");
    assert Top(c.stack) == "n0";
    OnDataNonBlank(c, "Hi", "Hi", "t1", "n0");
    var r := OnData(c, "Hi");
    ParagraphText();
    TwoDisplay(P0, T1);
    assert r.nodes == [P0, T1];
    ParagraphAdopt();
    assert r.children == map["n0" := ["t1"]];
    assert r.stack == ["n0"] && r.counter == 2;
  }

  lemma FeedSnoc(events: seq<Event>, e: Event)
    ensures Feed(events + [e]) == Step(Feed(events), e)
  {
    assert (events + [e])[..|events|] == events;
  }

  /** The collector after `<p>Hi</p>`. */
  lemma ParagraphFed()
    ensures Feed(ParagraphEvents) == Collector([P0, T1], map["n0" := ["t1"]], [], 2)
  {
    var a, b, c := StartTag("p", []), Data("Hi"), EndTag("p");
    FeedSnoc([], a);
    FeedSnoc([a], b);
    FeedSnoc([a, b], c);
    assert [] + [a] == [a] && [a] + [b] == [a, b] && [a, b] + [c] == ParagraphEvents;
    ParagraphStart();
    ParagraphData();
  }

  lemma ParagraphChild()
    ensures WithChildren(P0, ["t1"]) == P0 + [Pair("child0", "t1")]
  {
    ExampleNames();
    assert ["t1"][..0] == [];
    assert !HasKey(P0, "child0");
  }

  lemma ParagraphIds()
    ensures HasIds([P0, T1])
    ensures HasKey(P0, "id") && HasKey(T1, "id")
    ensures ValueOf(P0, "id") == "n0" && ValueOf(T1, "id") == "t1"
  {
    KeyIndexIs(P0, "id", 1);
    KeyIndexIs(T1, "id", 1);
  }

  lemma ParagraphEntries()
    ensures HasIds([P0, T1])
    ensures var entries := Entries([P0, T1], map["n0" := ["t1"]]);
      |entries| == 2 && entries[0] == P0 + [Pair("child0", "t1")] && entries[1] == T1
  {
    ParagraphIds();
    var m := map["n0" := ["t1"]];
    assert ChildrenOf(m, "n0") == ["t1"];
    assert ChildrenOf(m, "t1") == [];
    ParagraphChild();
  }

  /** `<p>Hi</p>`: the element `n0` with its one child `t1`, which names it
      as parent. */
  lemma ParagraphExample()
    ensures HasIds(Feed(ParagraphEvents).nodes)
    ensures var entries := Entries(Feed(ParagraphEvents).nodes, Feed(ParagraphEvents).children);
      |entries| == 2 && entries[0] == P0 + [Pair("child0", "t1")] && entries[1] == T1
  {
    ParagraphFed();
    ParagraphEntries();
  }
}
