/** XmlParser:ParseXmlText: the stack loop that builds the tree. */
module XmlParser {
  import opened Wrappers
  import opened XmlText

  /** A finished element; an empty-element tag has no ChildNodes table. Nothing changes it any more. */
  datatype Node = Node(name: string, args: Args, children: Option<seq<Node>>)

  /** An element still open; the bottom one is the nameless root. */
  datatype Level = Level(name: string, args: Args, children: seq<Node>)

  type Stack = seq<Level>

  const ROOT := Level("", map[], [])

  function WithChild(level: Level, node: Node): Level {
    level.(children := level.children + [node])
  }

  /** One round of the loop; None where the Lua program stops with an error. */
  function Step(stack: Stack, tag: Tag): (s: Option<Stack>)
    requires stack != []
    ensures s.Some? ==> s.value != []
  {
    var top := stack[|stack| - 1];
    if tag.isEmpty then
      match ParseArgs(tag.args, map[])
      case None => None
      case Some(args) => Some(stack[..|stack| - 1] + [WithChild(top, Node(tag.tagName, args, None))])
    else if !tag.closing then
      match ParseArgs(tag.args, map[])
      case None => None
      case Some(args) => Some(stack + [Level(tag.tagName, args, [])])
    else if |stack| == 1 then None
    else
      var below := stack[|stack| - 2];
      Some(stack[..|stack| - 2] + [WithChild(below, Node(top.name, top.args, Some(top.children)))])
  }

  function Run(stack: Stack, tags: seq<Tag>): (s: Option<Stack>)
    requires stack != []
    ensures s.Some? ==> s.value != []
    decreases |tags|
  {
    if tags == [] then Some(stack)
    else
      match Step(stack, tags[0])
      case None => None
      case Some(s) => Run(s, tags[1..])
  }

  /** The first child of the root, if the text has one; the outer None is a Lua error. */
  function Parse(text: string): Option<Option<Node>> {
    match Run([ROOT], Lex(text))
    case None => None
    case Some(stack) => Some(if stack[0].children == [] then None else Some(stack[0].children[0]))
  }

  lemma {:induction false} RunConcat(stack: Stack, a: seq<Tag>, b: seq<Tag>)
    requires stack != []
    ensures Run(stack, a + b) == (match Run(stack, a) case None => None case Some(s) => Run(s, b))
    decreases |a|
  {
    if a == [] {
      assert a + b == b;
    } else {
      assert (a + b)[0] == a[0] && (a + b)[1..] == a[1..] + b;
      match Step(stack, a[0])
      case None =>
      case Some(s) => RunConcat(s, a[1..], b);
    }
  }

  // ---------------------------------------------------------------- round trip

  function ItemNodes(item: Item): seq<Node>
    decreases item, 0
  {
    match item
    case Text(_) => []
    case EmptyElement(name, attributes) => [Node(name, ArgsOf(attributes, map[]), None)]
    case Element(name, attributes, children) => [Node(name, ArgsOf(attributes, map[]), Some(Nodes(children)))]
  }

  /** The trees a document denotes. */
  function Nodes(items: seq<Item>): seq<Node>
    decreases items, 1
  {
    if items == [] then [] else ItemNodes(items[0]) + Nodes(items[1..])
  }

  function WithChildren(level: Level, nodes: seq<Node>): Level {
    level.(children := level.children + nodes)
  }

  lemma StepEmpty(below: Stack, top: Level, name: string, attributes: Attributes)
    requires AttributesOk(attributes)
    ensures Run(below + [top], [EmptyTag(name, attributes)])
         == Some(below + [WithChildren(top, [Node(name, ArgsOf(attributes, map[]), None)])])
  {
    ParseArgsInvertsRender(attributes, map[]);
    assert (below + [top])[..|below|] == below;
    assert [EmptyTag(name, attributes)][1..] == [];
  }

  lemma StepOpen(stack: Stack, name: string, attributes: Attributes)
    requires AttributesOk(attributes) && stack != []
    ensures Run(stack, [OpenTag(name, attributes)]) == Some(stack + [Level(name, ArgsOf(attributes, map[]), [])])
  {
    ParseArgsInvertsRender(attributes, map[]);
    assert [OpenTag(name, attributes)][1..] == [];
  }

  lemma StepClose(below: Stack, top: Level, closed: Level, name: string)
    ensures Run(below + [top] + [closed], [CloseTag(name)])
         == Some(below + [WithChildren(top, [Node(closed.name, closed.args, Some(closed.children))])])
  {
    var stack := below + [top] + [closed];
    assert stack[..|stack| - 2] == below && stack[|stack| - 2] == top;
    assert [CloseTag(name)][1..] == [];
  }

  lemma {:induction false} RunItem(below: Stack, top: Level, item: Item)
    requires ItemOk(item)
    ensures Run(below + [top], ItemTags(item)) == Some(below + [WithChildren(top, ItemNodes(item))])
    decreases item, 0
  {
    match item
    case Text(_) =>
      assert WithChildren(top, []) == top;
    case EmptyElement(name, attributes) =>
      StepEmpty(below, top, name, attributes);
    case Element(name, attributes, children) =>
      var stack := below + [top];
      var inner := Level(name, ArgsOf(attributes, map[]), []);
      StepOpen(stack, name, attributes);
      RunConcat(stack, [OpenTag(name, attributes)], Tags(children) + [CloseTag(name)]);
      RunItems(stack, inner, children);
      RunConcat(stack + [inner], Tags(children), [CloseTag(name)]);
      assert inner.children + Nodes(children) == Nodes(children);
      StepClose(below, top, WithChildren(inner, Nodes(children)), name);
  }

  /** From any stack, the tags of any items append exactly their trees to the current top and leave
      the rest of the stack as it was. */
  lemma {:induction false} RunItems(below: Stack, top: Level, items: seq<Item>)
    requires ItemsOk(items)
    ensures Run(below + [top], Tags(items)) == Some(below + [WithChildren(top, Nodes(items))])
    decreases items, 1
  {
    if items == [] {
      assert WithChildren(top, []) == top;
    } else {
      RunConcat(below + [top], ItemTags(items[0]), Tags(items[1..]));
      RunItem(below, top, items[0]);
      RunItems(below, WithChildren(top, ItemNodes(items[0])), items[1..]);
      Assoc(top.children, ItemNodes(items[0]), Nodes(items[1..]));
    }
  }

  /** Parsing the text of a document, with inert text anywhere between its tags and arbitrary
      attribute values, gives back its first tree. */
  lemma ParseInvertsRender(items: seq<Item>)
    requires ItemsOk(items)
    ensures Parse(Render(items)) == Some(if Nodes(items) == [] then None else Some(Nodes(items)[0]))
  {
    LexInvertsRender(items, []);
    assert Render(items) + [] == Render(items) && Tags(items) + Lex([]) == Tags(items);
    RunItems([], ROOT, items);
    assert [] + [ROOT] == [ROOT];
    assert ROOT.children + Nodes(items) == Nodes(items);
  }

  // ---------------------------------------------------------------- when the loop fails

  function Weight(t: Tag): int {
    if t.isEmpty then 0 else if t.closing then -1 else 1
  }

  /** Open tags minus close tags. */
  function Balance(tags: seq<Tag>): int {
    if tags == [] then 0 else Balance(tags[..|tags| - 1]) + Weight(tags[|tags| - 1])
  }

  predicate Readable(t: Tag) {
    t.isEmpty || !t.closing ==> ParseArgs(t.args, map[]).Some?
  }

  ghost predicate AllReadable(tags: seq<Tag>) {
    forall i :: 0 <= i < |tags| ==> Readable(tags[i])
  }

  ghost predicate NeverUnderflows(tags: seq<Tag>, depth: int) {
    forall i :: 0 <= i <= |tags| ==> Balance(tags[..i]) + depth > 0
  }

  lemma {:induction false} BalanceCons(t: Tag, tags: seq<Tag>)
    ensures Balance([t] + tags) == Weight(t) + Balance(tags)
    decreases |tags|
  {
    if tags == [] {
      assert [t] + tags == [t] && [t][..0] == [];
    } else {
      var all := [t] + tags;
      assert all[..|all| - 1] == [t] + tags[..|tags| - 1];
      BalanceCons(t, tags[..|tags| - 1]);
    }
  }

  lemma UnderflowCons(t: Tag, tags: seq<Tag>, depth: int)
    requires depth > 0
    ensures NeverUnderflows([t] + tags, depth) <==> NeverUnderflows(tags, depth + Weight(t))
  {
    var all := [t] + tags;
    forall i | 0 <= i <= |tags| ensures Balance(all[..i + 1]) == Weight(t) + Balance(tags[..i]) {
      assert all[..i + 1] == [t] + tags[..i];
      BalanceCons(t, tags[..i]);
    }
    if NeverUnderflows(all, depth) {
      forall i | 0 <= i <= |tags| ensures Balance(tags[..i]) + (depth + Weight(t)) > 0 {
        assert Balance(all[..i + 1]) + depth > 0;
      }
    }
    if NeverUnderflows(tags, depth + Weight(t)) {
      forall i | 0 <= i <= |all| ensures Balance(all[..i]) + depth > 0 {
        if i > 0 { assert Balance(tags[..i - 1]) + (depth + Weight(t)) > 0; }
      }
    }
  }

  lemma StepSucceedsIff(stack: Stack, t: Tag)
    requires stack != []
    ensures Step(stack, t).Some? <==> Readable(t) && |stack| + Weight(t) > 0
    ensures Step(stack, t).Some? ==> |Step(stack, t).value| == |stack| + Weight(t)
  {
  }

  /** The loop succeeds exactly when every argument list is readable and no close tag comes without
      an element open; the names in close tags do not matter. */
  lemma {:induction false} RunSucceedsIff(stack: Stack, tags: seq<Tag>)
    requires stack != []
    ensures Run(stack, tags).Some? <==> AllReadable(tags) && NeverUnderflows(tags, |stack|)
    ensures Run(stack, tags).Some? ==> |Run(stack, tags).value| == |stack| + Balance(tags)
    decreases |tags|
  {
    if tags == [] {
      assert tags[..0] == [];
    } else {
      var t, rest := tags[0], tags[1..];
      assert tags == [t] + rest;
      BalanceCons(t, rest);
      UnderflowCons(t, rest, |stack|);
      StepSucceedsIff(stack, t);
      ReadableCons(t, rest);
      match Step(stack, t)
      case None => StaysUnder(rest, |stack| + Weight(t));
      case Some(s) => RunSucceedsIff(s, rest);
    }
  }

  lemma ReadableCons(t: Tag, tags: seq<Tag>)
    ensures AllReadable([t] + tags) <==> Readable(t) && AllReadable(tags)
  {
    if AllReadable([t] + tags) {
      assert Readable(([t] + tags)[0]);
      assert forall i :: 0 <= i < |tags| ==> ([t] + tags)[i + 1] == tags[i];
    }
  }

  lemma StaysUnder(tags: seq<Tag>, depth: int)
    ensures NeverUnderflows(tags, depth) ==> depth > 0
  {
    assert tags[..0] == [];
    if NeverUnderflows(tags, depth) { assert Balance(tags[..0]) + depth > 0; }
  }

  // ---------------------------------------------------------------- the loop

  /** A table of the stack: `top` is another reference to the last one. */
  class Open {
    const name: string
    const args: Args
    /** The position on the stack; the program does not store it. */
    ghost const depth: nat
    var children: seq<Node>

    ghost function Value(): Level
      reads this
    {
      Level(name, args, children)
    }

    constructor (name: string, args: Args, ghost depth: nat)
      ensures Value() == Level(name, args, []) && this.depth == depth
    {
      this.name, this.args, this.depth, children := name, args, depth, [];
    }

    method Insert(node: Node)
      modifies this
      ensures Value() == WithChild(old(Value()), node)
    {
      children := children + [node];
    }
  }

  ghost predicate Holds(stack: seq<Open>, levels: Stack)
    reads stack
  {
    |stack| == |levels| && forall i :: 0 <= i < |stack| ==> stack[i].Value() == levels[i] && stack[i].depth == i
  }

  /** One tag: `top` stays the last entry of the stack. */
  method Round(stack: seq<Open>, top: Open, tag: Tag, ghost levels: Stack)
    returns (ok: bool, newStack: seq<Open>, newTop: Open)
    requires stack != [] && top == stack[|stack| - 1] && Holds(stack, levels)
    modifies stack
    ensures ok == Step(levels, tag).Some?
    ensures ok ==> newStack != [] && newTop == newStack[|newStack| - 1] && Holds(newStack, Step(levels, tag).value)
    ensures forall i :: 0 <= i < |newStack| ==> (i < |stack| && newStack[i] == stack[i]) || fresh(newStack[i])
  {
    ok, newStack, newTop := true, stack, top;
    if tag.isEmpty {
      var args := ParseArgs(tag.args, map[]);
      if args.None? {
        return false, stack, top;
      }
      top.Insert(Node(tag.tagName, args.value, None));
    } else if !tag.closing {
      var args := ParseArgs(tag.args, map[]);
      if args.None? {
        return false, stack, top;
      }
      newTop := new Open(tag.tagName, args.value, |stack|);
      newStack := stack + [newTop];
    } else {
      var toclose := stack[|stack| - 1];
      newStack := stack[..|stack| - 1];
      if newStack == [] {
        return false, stack, top;
      }
      newTop := newStack[|newStack| - 1];
      newTop.Insert(Node(toclose.name, toclose.args, Some(toclose.children)));
    }
  }

  method ParseXmlText(text: string) returns (ok: bool, first: Option<Node>)
    ensures ok == Parse(text).Some?
    ensures ok ==> first == Parse(text).value
  {
    first := None;
    var top := new Open("", map[], 0);
    var stack: seq<Open> := [top];
    var rest := text;
    ghost var levels: Stack := [ROOT];
    while true
      invariant stack != [] && top == stack[|stack| - 1]
      invariant forall i :: 0 <= i < |stack| ==> fresh(stack[i])
      invariant Holds(stack, levels) && Run(levels, Lex(rest)) == Run([ROOT], Lex(text))
      decreases |rest|
    {
      var m := FindTag(rest);
      if m.None? {
        break;
      }
      assert Lex(rest)[1..] == Lex(m.value.rest);
      ghost var next := Step(levels, m.value.tag);
      ok, stack, top := Round(stack, top, m.value.tag, levels);
      if !ok {
        return false, None;
      }
      levels, rest := next.value, m.value.rest;
    }
    ok := true;
    if stack[0].children != [] {
      first := Some(stack[0].children[0]);
    }
  }
}
