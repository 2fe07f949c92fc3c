/** `HtmlCollector` of `cosmic_pair_ledger_cli.py`, on values: the events
    the HTML tokenizer reports (start tag, end tag, text) turn into one flat
    node record per element and per non-blank text run, each naming its
    parent, and finally into ledger entries that also name their children. */
module Html {
  import opened Wrappers
  import opened Text
  import opened Records

  /** What the tokenizer reports; an attribute without a value has `None`. */
  datatype Event =
    | StartTag(tag: string, attrs: seq<(string, Option<string>)>)
    | EndTag(tag: string)
    | Data(text: string)

  /** The collector's fields: `nodes`, `node_children`, `stack`, `_counter`. */
  datatype Collector = Collector(
    nodes: seq<Record>,
    children: map<string, seq<string>>,
    stack: seq<string>,
    counter: nat)

  /** A fresh collector. */
  const Empty := Collector([], map[], [], 0)

  /** `node_children[id]` of the `defaultdict(list)`: no entry reads as `[]`. */
  function ChildrenOf(children: map<string, seq<string>>, id: string): seq<string>
  {
    if id in children then children[id] else []
  }

  /** `stack[-1] if stack else ""` */
  function Top(stack: seq<string>): string
  {
    if stack == [] then "" else stack[|stack| - 1]
  }

  /** `node_children[parent].append(id)` when there is a parent. */
  function Adopt(children: map<string, seq<string>>, parent: string, id: string): map<string, seq<string>>
  {
    if parent != "" then children[parent := ChildrenOf(children, parent) + [id]] else children
  }

  /** `attr_value or ""` */
  function AttrValue(v: Option<string>): string
  {
    match v
    case None => ""
    case Some(s) => s
  }

  /** `f"attr.{attr_key}"` */
  function AttrKey(k: string): string
  {
    "attr." + k
  }

  /** `node[f"attr.{k}"] = v or ""` for each attribute in turn. */
  function WithAttrs(node: Record, attrs: seq<(string, Option<string>)>): Record
  {
    if attrs == [] then node
    else
      var a := attrs[|attrs| - 1];
      Put(WithAttrs(node, attrs[..|attrs| - 1]), AttrKey(a.0), AttrValue(a.1))
  }

  /** `node["parent"] = parent` when there is a parent. */
  function WithParent(node: Record, parent: string): Record
  {
    if parent != "" then Put(node, "parent", parent) else node
  }

  /** The record `handle_starttag` builds. */
  function ElementNode(id: string, tag: string, parent: string, attrs: seq<(string, Option<string>)>): Record
  {
    WithAttrs(WithParent([Pair("record", "element"), Pair("id", id), Pair("tag", tag)], parent), attrs)
  }

  /** The record `handle_data` builds. */
  function TextNode(id: string, text: string, parent: string): Record
  {
    WithParent([Pair("record", "text"), Pair("id", id), Pair("text", text)], parent)
  }

  /** `handle_starttag(tag, attrs)`: a new element `n<counter>` below the
      innermost open element, which it becomes. */
  function OnStartTag(c: Collector, tag: string, attrs: seq<(string, Option<string>)>): Collector
  {
    var id := Numbered("n", c.counter);
    var parent := Top(c.stack);
    Collector(c.nodes + [ElementNode(id, tag, parent, attrs)], Adopt(c.children, parent, id),
              c.stack + [id], c.counter + 1)
  }

  /** `handle_endtag(tag)`: closes the innermost open element, whatever its tag. */
  function OnEndTag(c: Collector): Collector
  {
    if c.stack != [] then c.(stack := c.stack[..|c.stack| - 1]) else c
  }

  /** `handle_data(data)`: a new text node `t<counter>` below the innermost
      open element, unless the stripped text is empty. */
  function OnData(c: Collector, data: string): Collector
  {
    var text := Strip(data);
    if text == "" then c else AddText(c, text)
  }

  /** The non-blank part of `handle_data`: the text node `t<counter>`. */
  function AddText(c: Collector, text: string): Collector
  {
    var parent := Top(c.stack);
    var id := Numbered("t", c.counter);
    Collector(c.nodes + [TextNode(id, text, parent)], Adopt(c.children, parent, id), c.stack, c.counter + 1)
  }

  function Step(c: Collector, e: Event): Collector
  {
    match e
    case StartTag(tag, attrs) => OnStartTag(c, tag, attrs)
    case EndTag(_) => OnEndTag(c)
    case Data(text) => OnData(c, text)
  }

  /** A fresh collector fed the events in order. */
  function Feed(events: seq<Event>): Collector
  {
    if events == [] then Empty else Step(Feed(events[..|events| - 1]), events[|events| - 1])
  }

  /** `entry[f"child{i}"] = child_id` for each child in turn. */
  function WithChildren(node: Record, kids: seq<string>): Record
  {
    if kids == [] then node
    else Put(WithChildren(node, kids[..|kids| - 1]), Numbered("child", |kids| - 1), kids[|kids| - 1])
  }

  /** Every node has an `id`. */
  predicate HasIds(nodes: seq<Record>) {
    forall i :: 0 <= i < |nodes| ==> HasKey(nodes[i], "id")
  }

  /** `to_entries()`: each node with its children listed after it. */
  function Entries(nodes: seq<Record>, children: map<string, seq<string>>): (entries: seq<Record>)
    requires HasIds(nodes)
    ensures |entries| == |nodes|
    ensures forall i :: 0 <= i < |nodes| ==>
      entries[i] == WithChildren(nodes[i], ChildrenOf(children, ValueOf(nodes[i], "id")))
  {
    if nodes == [] then []
    else
      var last := nodes[|nodes| - 1];
      Entries(nodes[..|nodes| - 1], children) + [WithChildren(last, ChildrenOf(children, ValueOf(last, "id")))]
  }
}
