/** The `HtmlCollector` object itself, whose handlers update its fields in
    place, and the conversion of an HTML event stream into ledger entries. */
module HtmlCollecting {
  import opened Wrappers
  import opened Seqs
  import opened Text
  import opened Records
  import opened Html
  import opened HtmlLaws

  class HtmlCollector {
    var nodes: seq<Record>
    var nodeChildren: map<string, seq<string>>
    var stack: seq<string>
    var counter: nat

    /** The fields as a value. */
    ghost function State(): Collector
      reads this
    {
      Collector(nodes, nodeChildren, stack, counter)
    }

    constructor()
      ensures State() == Empty
    {
      nodes := [];
      nodeChildren := map[];
      stack := [];
      counter := 0;
    }

    /** `_next_id(prefix)`: the next number, under `prefix`. */
    method NextId(prefix: string) returns (ident: string)
      modifies this
      ensures ident == Numbered(prefix, old(counter))
      ensures State() == old(State()).(counter := old(counter) + 1)
    {
      ident := prefix + NatToString(counter);
      counter := counter + 1;
    }

    /** `handle_starttag(tag, attrs)` */
    method HandleStartTag(tag: string, attrs: seq<(string, Option<string>)>)
      modifies this
      ensures State() == OnStartTag(old(State()), tag, attrs)
    {
      var nodeId := NextId("n");
      var parentId := if stack != [] then stack[|stack| - 1] else "";
      assert parentId == Top(stack);
      var node := [Pair("record", "element"), Pair("id", nodeId), Pair("tag", tag)];
      if parentId != "" {
        node := Put(node, "parent", parentId);
        AdoptChild(parentId, nodeId);
      }
      node := WithAttrPairs(node, attrs);
      nodes := nodes + [node];
      stack := stack + [nodeId];
    }

    /** `node_children[parent_id].append(node_id)` */
    method AdoptChild(parentId: string, nodeId: string)
      requires parentId != ""
      modifies this
      ensures nodeChildren == Adopt(old(nodeChildren), parentId, nodeId)
      ensures nodes == old(nodes) && stack == old(stack) && counter == old(counter)
    {
      var siblings := if parentId in nodeChildren then nodeChildren[parentId] else [];
      nodeChildren := nodeChildren[parentId := siblings + [nodeId]];
    }

    /** `handle_endtag(tag)` */
    method HandleEndTag(tag: string)
      modifies this
      ensures State() == OnEndTag(old(State()))
    {
      if stack != [] {
        stack := stack[..|stack| - 1];
      }
    }

    /** `handle_data(data)` */
    method HandleData(data: string)
      modifies this
      ensures State() == OnData(old(State()), data)
    {
      var text := Strip(data);
      if text == "" {
        return;
      }
      AppendText(text);
    }

    /** `handle_data` after the blank check: a text node below the innermost
        open element. */
    method AppendText(text: string)
      modifies this
      ensures State() == AddText(old(State()), text)
    {
      var parentId := if stack != [] then stack[|stack| - 1] else "";
      assert parentId == Top(stack);
      var nodeId := NextId("t");
      var node := TextNode(nodeId, text, parentId);
      if parentId != "" {
        AdoptChild(parentId, nodeId);
      }
      nodes := nodes + [node];
    }

    /** The handler the tokenizer calls for one event. */
    method Handle(e: Event)
      modifies this
      ensures State() == Step(old(State()), e)
    {
      match e {
        case StartTag(tag, attrs) => HandleStartTag(tag, attrs);
        case EndTag(tag) => HandleEndTag(tag);
        case Data(text) => HandleData(text);
      }
    }

    /** `to_entries()` */
    method ToEntries() returns (entries: seq<Record>)
      requires HasIds(nodes)
      ensures entries == Entries(nodes, nodeChildren)
    {
      entries := [];
      var i := 0;
      while i < |nodes|
        invariant 0 <= i <= |nodes|
        invariant HasIds(nodes[..i])
        invariant entries == Entries(nodes[..i], nodeChildren)
      {
        var node := nodes[i];
        var nodeId := ValueOf(node, "id");
        var children := if nodeId in nodeChildren then nodeChildren[nodeId] else [];
        var entry := WithChildIds(node, children);
        EntriesSnoc(nodes, i, nodeChildren);
        entries := entries + [entry];
        i := i + 1;
      }
      assert nodes[..|nodes|] == nodes;
    }
  }

  /** The attribute loop of `handle_starttag`: `node[f"attr.{k}"] = v or ""`. */
  method WithAttrPairs(node: Record, attrs: seq<(string, Option<string>)>) returns (r: Record)
    ensures r == WithAttrs(node, attrs)
  {
    r := node;
    var j := 0;
    while j < |attrs|
      invariant 0 <= j <= |attrs|
      invariant r == WithAttrs(node, attrs[..j])
    {
      PrefixSnoc(attrs, j);
      assert attrs[..j + 1][..j] == attrs[..j];
      var (attrKey, attrValue) := attrs[j];
      r := Put(r, "attr." + attrKey, if attrValue.Some? then attrValue.value else "");
      j := j + 1;
    }
    assert attrs[..|attrs|] == attrs;
  }

  /** The inner loop of `to_entries()`: `entry[f"child{i}"] = child_id`. */
  method WithChildIds(node: Record, children: seq<string>) returns (entry: Record)
    ensures entry == WithChildren(node, children)
  {
    entry := node;
    var j := 0;
    while j < |children|
      invariant 0 <= j <= |children|
      invariant entry == WithChildren(node, children[..j])
    {
      PrefixSnoc(children, j);
      assert children[..j + 1][..j] == children[..j];
      entry := Put(entry, "child" + NatToString(j), children[j]);
      j := j + 1;
    }
    assert children[..|children|] == children;
  }

  /** One more node converted. */
  lemma EntriesSnoc(nodes: seq<Record>, i: nat, children: map<string, seq<string>>)
    requires i < |nodes| && HasIds(nodes)
    ensures HasIds(nodes[..i]) && HasIds(nodes[..i + 1])
    ensures Entries(nodes[..i + 1], children) ==
      Entries(nodes[..i], children) + [WithChildren(nodes[i], ChildrenOf(children, ValueOf(nodes[i], "id")))]
  {
    PrefixSnoc(nodes, i);
    SnocParts(nodes[..i], nodes[i]);
  }

  /** The collector fed the events in order, then `to_entries()`. */
  method HtmlToEntries(events: seq<Event>) returns (entries: seq<Record>)
    ensures HasIds(Feed(events).nodes)
    ensures entries == Entries(Feed(events).nodes, Feed(events).children)
  {
    var collector := new HtmlCollector();
    FeedAll(collector, events);
    FeedWf(events);
    WfHasIds(Feed(events));
    entries := collector.ToEntries();
  }

  /** The tokenizer reporting the events to a fresh collector, in order. */
  method FeedAll(collector: HtmlCollector, events: seq<Event>)
    requires collector.State() == Empty
    modifies collector
    ensures collector.State() == Feed(events)
  {
    var i := 0;
    while i < |events|
      invariant 0 <= i <= |events|
      invariant collector.State() == Feed(events[..i])
    {
      FeedStep(events, i);
      collector.Handle(events[i]);
      i := i + 1;
    }
    assert events[..|events|] == events;
  }

  lemma FeedStep(events: seq<Event>, i: nat)
    requires i < |events|
    ensures Feed(events[..i + 1]) == Step(Feed(events[..i]), events[i])
  {
    PrefixSnoc(events, i);
    assert events[..i + 1][..i] == events[..i];
  }
}
