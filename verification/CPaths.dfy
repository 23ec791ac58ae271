/** cpaths.py: the path fragments and enumeration values of a generated header. */
module CPaths {
  import opened Wrappers
  import opened Decimal

  // ---------------------------------------------------------------- fragments

  datatype Keyword = ListNode | Rpc | Notification | OtherNode

  /** A schema node without its children. */
  datatype Name = Name(keyword: Keyword, arg: string)

  datatype Node = Node(name: Name, children: seq<Node>)

  /** The nodes from the top of the module down to one node. */
  type Chain = seq<Name>

  /** mk_path_str. */
  function MkPathStr(chain: Chain, level: nat, strip: nat): string
    requires level == |chain| - 1
    decreases level
  {
    if level > strip then
      var p := MkPathStr(chain[..level], level - 1, strip);
      if p != "" then p + "/" + chain[level].arg else chain[level].arg
    else if level == strip then chain[level].arg
    else ""
  }

  datatype Define = Define(chain: Chain, value: string)

  /** The strip level print_node continues with: it restarts below a list. */
  function StripAt(above: Chain, strip: nat): nat {
    if above != [] && above[|above| - 1].keyword == ListNode then |above| else strip
  }

  function ValueOf(chain: Chain, strip: nat): string
    requires chain != []
  {
    var value := MkPathStr(chain, |chain| - 1, strip);
    if strip == 0 then "/" + value else value
  }

  /** print_node: the defines of a node found below `above`, and of everything below it. */
  function PrintNode(above: Chain, node: Node, strip: nat): seq<Define>
    decreases node, 0
  {
    if node.name.keyword == Rpc || node.name.keyword == Notification then []
    else
      var s := StripAt(above, strip);
      var chain := above + [node.name];
      [Define(chain, ValueOf(chain, s))] + PrintNodes(chain, node.children, s)
  }

  function PrintNodes(above: Chain, nodes: seq<Node>, strip: nat): seq<Define>
    decreases nodes, 1
  {
    if nodes == [] then [] else PrintNode(above, nodes[0], strip) + PrintNodes(above, nodes[1..], strip)
  }

  // ---------------------------------------------------------------- what the fragments mean

  /** The depth below the last list above the node, or 0. */
  function StripOf(chain: Chain): (s: nat)
    requires chain != []
    ensures s < |chain|
    ensures s > 0 ==> chain[s - 1].keyword == ListNode
    ensures forall i :: s <= i < |chain| - 1 ==> chain[i].keyword != ListNode
  {
    if |chain| == 1 then 0
    else if chain[|chain| - 2].keyword == ListNode then |chain| - 1
    else StripOf(chain[..|chain| - 1])
  }

  ghost predicate ArgsOk(chain: Chain) {
    forall i :: 0 <= i < |chain| ==> chain[i].arg != ""
  }

  /** What the C code builds: the fragment of each list, the key of the entry, and so on down. */
  function Glue(chain: Chain, keys: seq<string>): string
    requires chain != [] && |keys| == |chain|
    decreases |chain|
  {
    var s := StripOf(chain);
    if s == 0 then ValueOf(chain, s)
    else Glue(chain[..s], keys[..s]) + "/" + keys[s - 1] + "/" + ValueOf(chain, s)
  }

  /** The absolute path: every name, and after every list above the node the key of its entry. */
  function FullPath(chain: Chain, keys: seq<string>): string
    requires chain != [] && |keys| == |chain|
    decreases |chain|
  {
    var n := |chain| - 1;
    (if n == 0 then ""
     else FullPath(chain[..n], keys[..n]) + (if chain[n - 1].keyword == ListNode then "/" + keys[n - 1] else ""))
    + "/" + chain[n].arg
  }

  lemma {:induction false} ValueBelow(chain: Chain, s: nat)
    requires |chain| > 1 && s < |chain| - 1 && ArgsOk(chain)
    ensures ValueOf(chain, s) == ValueOf(chain[..|chain| - 1], s) + "/" + chain[|chain| - 1].arg
  {
    var n := |chain| - 1;
    var p := MkPathStr(chain[..n], n - 1, s);
    FragmentNotEmpty(chain[..n], s);
    assert ("/" + p) + "/" + chain[n].arg == "/" + (p + "/" + chain[n].arg);
  }

  lemma FragmentNotEmpty(chain: Chain, s: nat)
    requires chain != [] && s < |chain| && ArgsOk(chain)
    ensures MkPathStr(chain, |chain| - 1, s) != ""
  {
    assert chain[|chain| - 1].arg != "";
  }

  /** Gluing the fragments of the lists above a node and of the node itself, with a key after each
      list, gives the absolute path with those keys in place. */
  lemma {:induction false} FragmentsCompose(chain: Chain, keys: seq<string>)
    requires chain != [] && |keys| == |chain| && ArgsOk(chain)
    ensures Glue(chain, keys) == FullPath(chain, keys)
    decreases |chain|
  {
    var n := |chain| - 1;
    if n > 0 {
      assert ArgsOk(chain[..n]);
      FragmentsCompose(chain[..n], keys[..n]);
      if chain[n - 1].keyword == ListNode {
        assert MkPathStr(chain, n, n) == chain[n].arg;
        Regroup(Glue(chain[..n], keys[..n]), "/" + keys[n - 1], "/" + chain[n].arg);
      } else {
        GlueBelow(chain, keys);
      }
    }
  }

  lemma {:induction false} GlueBelow(chain: Chain, keys: seq<string>)
    requires |chain| > 1 && |keys| == |chain| && ArgsOk(chain) && chain[|chain| - 2].keyword != ListNode
    ensures Glue(chain, keys) == Glue(chain[..|chain| - 1], keys[..|chain| - 1]) + ("/" + chain[|chain| - 1].arg)
  {
    var n := |chain| - 1;
    var s := StripOf(chain);
    assert s == StripOf(chain[..n]);
    ValueBelow(chain, s);
    if s > 0 {
      assert chain[..s] == chain[..n][..s] && keys[..s] == keys[..n][..s];
      Regroup(Glue(chain[..s], keys[..s]) + "/" + keys[s - 1] + "/", ValueOf(chain[..n], s), "/" + chain[n].arg);
    } else {
      assert Glue(chain, keys) == ValueOf(chain, 0);
      assert Glue(chain[..n], keys[..n]) == ValueOf(chain[..n], 0);
    }
  }

  lemma Regroup(a: string, b: string, c: string)
    ensures a + b + c == a + (b + c)
  {
  }

  /** The strip level stays at or above the level of the node, and is the depth below the last list. */
  lemma {:induction false} StripIsStripOf(above: Chain, name: Name, strip: nat)
    requires if above == [] then strip == 0 else strip == StripOf(above)
    ensures StripAt(above, strip) == StripOf(above + [name]) <= |above|
  {
    var chain := above + [name];
    if above != [] {
      assert chain[..|chain| - 1] == above;
      assert chain[|chain| - 2] == above[|above| - 1];
    }
  }

  lemma {:induction false} PrintNodeIsGlued(above: Chain, node: Node, strip: nat)
    requires if above == [] then strip == 0 else strip == StripOf(above)
    ensures forall d :: d in PrintNode(above, node, strip) ==>
            d.chain != [] && d.value == ValueOf(d.chain, StripOf(d.chain))
    decreases node, 0
  {
    if node.name.keyword != Rpc && node.name.keyword != Notification {
      var chain := above + [node.name];
      StripIsStripOf(above, node.name, strip);
      PrintNodesAreGlued(chain, node.children, StripAt(above, strip));
    }
  }

  /** Every define of any schema tree carries the fragment that gluing expects. */
  lemma {:induction false} PrintNodesAreGlued(above: Chain, nodes: seq<Node>, strip: nat)
    requires if above == [] then strip == 0 else strip == StripOf(above)
    ensures forall d :: d in PrintNodes(above, nodes, strip) ==>
            d.chain != [] && d.value == ValueOf(d.chain, StripOf(d.chain))
    decreases nodes, 1
  {
    if nodes != [] {
      PrintNodeIsGlued(above, nodes[0], strip);
      PrintNodesAreGlued(above, nodes[1..], strip);
    }
  }

  // ---------------------------------------------------------------- the header as a whole

  ghost predicate Emits(defines: seq<Define>, chain: Chain) {
    exists d :: d in defines && d.chain == chain
  }

  /** Every define is for a node below `above`, and the nodes in between have defines too. */
  ghost predicate Connected(defines: seq<Define>, above: Chain) {
    forall d :: d in defines ==>
      && |above| < |d.chain| && d.chain[..|above|] == above
      && forall n :: |above| < n <= |d.chain| ==> Emits(defines, d.chain[..n])
  }

  lemma ConnectedBelow(first: Define, defines: seq<Define>, above: Chain)
    requires |first.chain| == |above| + 1 && first.chain[..|above|] == above && Connected(defines, first.chain)
    ensures Connected([first] + defines, above)
  {
    var all := [first] + defines;
    assert first in all;
    forall d, n | d in all && |above| < n <= |d.chain| ensures d.chain[..|above|] == above && Emits(all, d.chain[..n]) {
      if d in defines {
        assert d.chain[..|above|] == d.chain[..|above| + 1][..|above|];
        if n > |above| + 1 { assert Emits(defines, d.chain[..n]); }
      } else {
        assert d == first && first.chain[..n] == first.chain;
      }
    }
  }

  lemma ConnectedConcat(a: seq<Define>, b: seq<Define>, above: Chain)
    requires Connected(a, above) && Connected(b, above)
    ensures Connected(a + b, above)
  {
    forall d, n | d in a + b && |above| < n <= |d.chain| ensures Emits(a + b, d.chain[..n]) {
      if d in a { assert Emits(a, d.chain[..n]); } else { assert Emits(b, d.chain[..n]); }
    }
  }

  lemma {:induction false} PrintNodeIsConnected(above: Chain, node: Node, strip: nat)
    ensures Connected(PrintNode(above, node, strip), above)
    decreases node, 0
  {
    if node.name.keyword != Rpc && node.name.keyword != Notification {
      var s := StripAt(above, strip);
      var chain := above + [node.name];
      PrintNodesAreConnected(chain, node.children, s);
      ConnectedBelow(Define(chain, ValueOf(chain, s)), PrintNodes(chain, node.children, s), above);
    }
  }

  lemma {:induction false} PrintNodesAreConnected(above: Chain, nodes: seq<Node>, strip: nat)
    ensures Connected(PrintNodes(above, nodes, strip), above)
    decreases nodes, 1
  {
    if nodes != [] {
      PrintNodeIsConnected(above, nodes[0], strip);
      PrintNodesAreConnected(above, nodes[1..], strip);
      ConnectedConcat(PrintNode(above, nodes[0], strip), PrintNodes(above, nodes[1..], strip), above);
    }
  }

  /** The chain leads from a node of the forest, child by child, to one of its descendants. */
  ghost predicate InForest(nodes: seq<Node>, chain: Chain)
    decreases |chain|, 1
  {
    exists node :: node in nodes && LeadsFrom(node, chain)
  }

  ghost predicate LeadsFrom(node: Node, chain: Chain)
    decreases |chain|, 0
  {
    chain != [] && node.name == chain[0] && (|chain| == 1 || InForest(node.children, chain[1..]))
  }

  /** No rpc and no notification. */
  predicate Visible(chain: Chain) {
    forall i :: 0 <= i < |chain| ==> chain[i].keyword != Rpc && chain[i].keyword != Notification
  }

  lemma EmitsConcat(a: seq<Define>, b: seq<Define>, chain: Chain)
    ensures Emits(a + b, chain) <==> Emits(a, chain) || Emits(b, chain)
  {
    if Emits(a, chain) {
      var d :| d in a && d.chain == chain;
      assert d in a + b;
    }
    if Emits(b, chain) {
      var d :| d in b && d.chain == chain;
      assert d in a + b;
    }
  }

  lemma VisibleTail(chain: Chain)
    requires chain != []
    ensures Visible(chain) <==> chain[0].keyword != Rpc && chain[0].keyword != Notification && Visible(chain[1..])
  {
    assert forall i :: 0 < i < |chain| ==> chain[i] == chain[1..][i - 1];
  }

  lemma {:induction false} NodeEmitsIff(above: Chain, node: Node, strip: nat, chain: Chain)
    requires chain != []
    ensures Emits(PrintNode(above, node, strip), above + chain) <==> LeadsFrom(node, chain) && Visible(chain)
    decreases node, 0
  {
    VisibleTail(chain);
    if node.name.keyword != Rpc && node.name.keyword != Notification {
      var s, here := StripAt(above, strip), above + [node.name];
      var first, below := Define(here, ValueOf(here, s)), PrintNodes(here, node.children, s);
      EmitsConcat([first], below, above + chain);
      FirstEmits(first, above, node.name, chain);
      PrintNodesAreConnected(here, node.children, s);
      if |chain| > 1 && chain[0] == node.name {
        assert above + chain == here + chain[1..];
        NodesEmitIff(here, node.children, s, chain[1..]);
      } else {
        NotBelow(below, above, node.name, chain);
      }
    }
  }

  lemma NotBelow(below: seq<Define>, above: Chain, name: Name, chain: Chain)
    requires chain != [] && Connected(below, above + [name]) && (|chain| == 1 || chain[0] != name)
    ensures !Emits(below, above + chain)
  {
    forall d | d in below ensures d.chain != above + chain {
      assert d.chain[..|above| + 1] == above + [name] && |d.chain| > |above| + 1;
      assert d.chain[|above|] == d.chain[..|above| + 1][|above|] == name;
      assert (above + chain)[|above|] == chain[0];
    }
  }

  lemma FirstEmits(first: Define, above: Chain, name: Name, chain: Chain)
    requires chain != [] && first.chain == above + [name]
    ensures Emits([first], above + chain) <==> chain == [name]
  {
    if Emits([first], above + chain) {
      assert (above + chain)[|above|..] == chain && (above + [name])[|above|..] == [name];
    }
    if chain == [name] { assert first in [first]; }
  }

  /** A define is printed for every node of the forest that is not an rpc or a notification or below one,
      and for nothing else. */
  lemma {:induction false} NodesEmitIff(above: Chain, nodes: seq<Node>, strip: nat, chain: Chain)
    requires chain != []
    ensures Emits(PrintNodes(above, nodes, strip), above + chain) <==> InForest(nodes, chain) && Visible(chain)
    decreases nodes, 1
  {
    if nodes != [] {
      NodeEmitsIff(above, nodes[0], strip, chain);
      NodesEmitIff(above, nodes[1..], strip, chain);
      EmitsConcat(PrintNode(above, nodes[0], strip), PrintNodes(above, nodes[1..], strip), above + chain);
      assert nodes == [nodes[0]] + nodes[1..];
      assert InForest(nodes, chain) <==> LeadsFrom(nodes[0], chain) || InForest(nodes[1..], chain);
    }
  }

  /** For a whole module. */
  lemma EmittedIff(nodes: seq<Node>, chain: Chain)
    requires chain != []
    ensures Emits(PrintNodes([], nodes, 0), chain) <==> InForest(nodes, chain) && Visible(chain)
  {
    NodesEmitIff([], nodes, 0, chain);
    assert [] + chain == chain;
  }

  ghost predicate Prints(defines: seq<Define>, chain: Chain, value: string) {
    exists d :: d in defines && d.chain == chain && d.value == value
  }

  /** `path` can be spelled with the defines of a header and the keys of the list entries: the path of
      the last list above the node, the key of its entry, and the define of the node. */
  ghost predicate Spells(defines: seq<Define>, chain: Chain, keys: seq<string>, path: string)
    requires chain != [] && |keys| == |chain|
    decreases |chain|
  {
    var s := StripOf(chain);
    if s == 0 then Prints(defines, chain, path)
    else
      exists list, value ::
        && Spells(defines, chain[..s], keys[..s], list) && Prints(defines, chain, value)
        && path == list + "/" + keys[s - 1] + "/" + value
  }

  /** For every node of every schema, outside rpcs and notifications, the header spells exactly one path, and that
      is the absolute path with every key in its place. */
  lemma {:induction false} HeaderSpellsFullPath(nodes: seq<Node>, chain: Chain, keys: seq<string>, path: string)
    requires chain != [] && |keys| == |chain| && ArgsOk(chain)
    requires InForest(nodes, chain) && Visible(chain)
    ensures Spells(PrintNodes([], nodes, 0), chain, keys, path) <==> path == FullPath(chain, keys)
  {
    EmittedIff(nodes, chain);
    PrintNodesAreGlued([], nodes, 0);
    PrintNodesAreConnected([], nodes, 0);
    SpellsIsGlue(PrintNodes([], nodes, 0), chain, keys, path);
    FragmentsCompose(chain, keys);
  }

  ghost predicate PrintsFragments(defines: seq<Define>) {
    forall d :: d in defines ==> d.chain != [] && d.value == ValueOf(d.chain, StripOf(d.chain))
  }

  lemma {:induction false} PrintsIsValue(defines: seq<Define>, chain: Chain, value: string)
    requires chain != [] && PrintsFragments(defines) && Emits(defines, chain)
    ensures Prints(defines, chain, value) <==> value == ValueOf(chain, StripOf(chain))
  {
    var d :| d in defines && d.chain == chain;
  }

  lemma {:induction false} SpellsIsGlue(defines: seq<Define>, chain: Chain, keys: seq<string>, path: string)
    requires chain != [] && |keys| == |chain|
    requires PrintsFragments(defines) && Connected(defines, []) && Emits(defines, chain)
    ensures Spells(defines, chain, keys, path) <==> path == Glue(chain, keys)
    decreases |chain|
  {
    var s := StripOf(chain);
    forall v ensures Prints(defines, chain, v) <==> v == ValueOf(chain, s) {
      PrintsIsValue(defines, chain, v);
    }
    if s > 0 {
      var up, upKeys := chain[..s], keys[..s];
      assert Emits(defines, up);
      forall list ensures Spells(defines, up, upKeys, list) <==> list == Glue(up, upKeys) {
        SpellsIsGlue(defines, up, upKeys, list);
      }
      assert Spells(defines, up, upKeys, Glue(up, upKeys)) && Prints(defines, chain, ValueOf(chain, s));
    }
  }

  // ---------------------------------------------------------------- enumerations

  /** A value statement: its text, and its number when int() reads one. */
  datatype Literal = Literal(text: string, number: Option<int>)

  datatype Enum = Enum(name: string, value: Option<Literal>)

  /** The counter before member `i`. */
  function Count(enums: seq<Enum>, i: nat): int
    requires i <= |enums|
  {
    if i == 0 then 0
    else
      match enums[i - 1].value
      case None => Count(enums, i - 1) + 1
      case Some(v) => (if v.number.Some? then v.number.value else Count(enums, i - 1)) + 1
  }

  /** The text emitted for member `i`. */
  function Emitted(enums: seq<Enum>, i: nat): string
    requires i < |enums|
  {
    if enums[i].value.Some? then enums[i].value.value.text else Render(Count(enums, i))
  }

  /** The enumeration part of print_node. */
  method PrintEnums(enums: seq<Enum>) returns (out: seq<(string, string)>)
    ensures |out| == |enums|
    ensures forall i :: 0 <= i < |enums| ==> out[i] == (enums[i].name, Emitted(enums, i))
    ensures Numbered(enums) ==> (PrintsRfc(enums, out) <==> LowValuesAreFollowed(enums))
  {
    out := [];
    var count := 0;
    for k := 0 to |enums|
      invariant |out| == k && count == Count(enums, k)
      invariant forall i :: 0 <= i < k ==> out[i] == (enums[i].name, Emitted(enums, i))
    {
      var enum := enums[k];
      if enum.value.Some? {
        out := out + [(enum.name, enum.value.value.text)];
        if enum.value.value.number.Some? {
          count := enum.value.value.number.value;
        }
      } else {
        out := out + [(enum.name, Render(count))];
      }
      count := count + 1;
    }
    if Numbered(enums) { PrintedIsRfcIff(enums, out); }
  }

  predicate HasNumber(enum: Enum) {
    enum.value.Some? && enum.value.value.number.Some?
  }

  /** The last member before `i` with a value that int() reads; -1 when there is none. */
  ghost predicate LastNumber(enums: seq<Enum>, i: nat, k: int)
    requires i <= |enums|
  {
    && -1 <= k < i && (k >= 0 ==> HasNumber(enums[k]))
    && forall j :: k < j < i ==> !HasNumber(enums[j])
  }

  lemma {:induction false} CountedFrom(enums: seq<Enum>, i: nat, k: int)
    requires i <= |enums| && LastNumber(enums, i, k)
    ensures Count(enums, i) == if k < 0 then i else enums[k].value.value.number.value + (i - k)
    decreases i
  {
    if k < i - 1 {
      assert !HasNumber(enums[i - 1]);
      CountedFrom(enums, i - 1, k);
    }
  }

  /** Any values, also such that int() does not read: a member without a value prints the last number
      before it plus its distance from there, or its own position when there is none. */
  lemma {:induction false} EmittedIsCounted(enums: seq<Enum>, i: nat, k: int)
    requires i < |enums| && enums[i].value.None? && LastNumber(enums, i, k)
    ensures Read(Emitted(enums, i)) == Some(if k < 0 then i else enums[k].value.value.number.value + (i - k))
  {
    CountedFrom(enums, i, k);
    ReadInverts(Count(enums, i));
  }

  ghost predicate Numbered(enums: seq<Enum>) {
    forall i :: 0 <= i < |enums| && enums[i].value.Some? ==> enums[i].value.value.number.Some?
  }

  /** The number a member gets from the loop. */
  function Code(enums: seq<Enum>, i: nat): int
    requires i < |enums| && Numbered(enums)
  {
    if enums[i].value.Some? then enums[i].value.value.number.value else Count(enums, i)
  }

  lemma NextCount(enums: seq<Enum>, i: nat)
    requires i < |enums| && Numbered(enums)
    ensures Count(enums, i + 1) == Code(enums, i) + 1
  {
  }

  function Max(a: int, b: int): int {
    if a < b then b else a
  }

  /** The number section 9.6.4.2 of RFC 7950 assigns: the explicit one, or else one more than the
      highest before it, and 0 for the first member. */
  function RfcCode(enums: seq<Enum>, i: nat): int
    requires i < |enums| && Numbered(enums)
    decreases i, 1
  {
    if enums[i].value.Some? then enums[i].value.value.number.value
    else if i == 0 then 0
    else Highest(enums, i) + 1
  }

  /** The highest number among the first `i` members. */
  function Highest(enums: seq<Enum>, i: nat): int
    requires 0 < i <= |enums| && Numbered(enums)
    decreases i, 0
  {
    if i == 1 then RfcCode(enums, 0) else Max(Highest(enums, i - 1), RfcCode(enums, i - 1))
  }

  /** An explicit value below an earlier number. */
  ghost predicate Low(enums: seq<Enum>, k: nat)
    requires Numbered(enums) && k < |enums|
  {
    enums[k].value.Some? && exists j :: 0 <= j < k && enums[k].value.value.number.value < RfcCode(enums, j)
  }

  /** After an explicit value below an earlier number, the next member is numbered. */
  ghost predicate LowValuesAreFollowed(enums: seq<Enum>)
    requires Numbered(enums)
  {
    forall k :: 0 <= k < |enums| - 1 && Low(enums, k) ==> enums[k + 1].value.Some?
  }

  lemma {:induction false} HighestIs(enums: seq<Enum>, i: nat, m: nat)
    requires Numbered(enums) && m < i <= |enums|
    requires forall j :: 0 <= j < i ==> RfcCode(enums, j) <= RfcCode(enums, m)
    ensures Highest(enums, i) == RfcCode(enums, m)
    decreases i
  {
    if i > 1 {
      HighestBounds(enums, i - 1);
      if m < i - 1 {
        HighestIs(enums, i - 1, m);
      } else {
        var j :| 0 <= j < i - 1 && RfcCode(enums, j) == Highest(enums, i - 1);
      }
    }
  }

  lemma {:induction false} HighestBounds(enums: seq<Enum>, i: nat)
    requires Numbered(enums) && 0 < i <= |enums|
    ensures forall j :: 0 <= j < i ==> RfcCode(enums, j) <= Highest(enums, i)
    ensures exists j :: 0 <= j < i && RfcCode(enums, j) == Highest(enums, i)
    decreases i
  {
    if i == 1 {
      assert RfcCode(enums, 0) == Highest(enums, 1);
    } else {
      HighestBounds(enums, i - 1);
      if Highest(enums, i) != RfcCode(enums, i - 1) {
        var j :| 0 <= j < i - 1 && RfcCode(enums, j) == Highest(enums, i - 1);
        assert RfcCode(enums, j) == Highest(enums, i);
      }
    }
  }

  /** The loop numbers members as RFC 7950 does exactly when, after every explicit value below an
      earlier number, the next member is numbered. */
  lemma {:induction false} NumberingIsRfcIff(enums: seq<Enum>)
    requires Numbered(enums)
    ensures (forall i :: 0 <= i < |enums| ==> Code(enums, i) == RfcCode(enums, i)) <==> LowValuesAreFollowed(enums)
  {
    if LowValuesAreFollowed(enums) {
      FollowingIsRfc(enums, |enums|);
    } else {
      var k :| 0 <= k < |enums| - 1 && Low(enums, k) && enums[k + 1].value.None?;
      LowIsNotRfc(enums, k);
    }
  }

  lemma {:induction false} LowIsNotRfc(enums: seq<Enum>, k: nat)
    requires Numbered(enums) && k + 1 < |enums| && Low(enums, k) && enums[k + 1].value.None?
    ensures Code(enums, k + 1) < RfcCode(enums, k + 1)
  {
    var j :| 0 <= j < k && enums[k].value.value.number.value < RfcCode(enums, j);
    HighestBounds(enums, k + 1);
    NextCount(enums, k);
  }

  lemma {:induction false} FollowingIsRfc(enums: seq<Enum>, n: nat)
    requires Numbered(enums) && LowValuesAreFollowed(enums) && n <= |enums|
    ensures forall i :: 0 <= i < n ==> Code(enums, i) == RfcCode(enums, i)
    decreases n
  {
    if n > 0 {
      FollowingIsRfc(enums, n - 1);
      if n > 1 && enums[n - 1].value.None? {
        assert !Low(enums, n - 2);
        if enums[n - 2].value.None? && n > 2 { HighestBounds(enums, n - 2); }
        HighestIs(enums, n - 1, n - 2);
        NextCount(enums, n - 2);
      }
    }
  }

  /** The printed lines carry the member's name with its own text, or the decimal text of the number the
      RFC assigns. */
  ghost predicate PrintsRfc(enums: seq<Enum>, out: seq<(string, string)>)
    requires Numbered(enums)
  {
    && |out| == |enums|
    && forall i :: 0 <= i < |enums| ==>
         out[i] == (enums[i].name,
                    if enums[i].value.Some? then enums[i].value.value.text else Render(RfcCode(enums, i)))
  }

  lemma {:induction false} PrintedIsRfcIff(enums: seq<Enum>, out: seq<(string, string)>)
    requires Numbered(enums) && |out| == |enums|
    requires forall i :: 0 <= i < |enums| ==> out[i] == (enums[i].name, Emitted(enums, i))
    ensures PrintsRfc(enums, out) <==> LowValuesAreFollowed(enums)
  {
    NumberingIsRfcIff(enums);
    if PrintsRfc(enums, out) {
      forall i | 0 <= i < |enums| ensures Code(enums, i) == RfcCode(enums, i) {
        assert out[i] == (enums[i].name, Emitted(enums, i));
        ReadInverts(Code(enums, i));
        ReadInverts(RfcCode(enums, i));
      }
    } else {
      var i :| 0 <= i < |enums| && out[i] !=
        (enums[i].name, if enums[i].value.Some? then enums[i].value.value.text else Render(RfcCode(enums, i)));
      assert Code(enums, i) != RfcCode(enums, i);
    }
  }

  /** Explicit values that each exceed every number before them. */
  ghost predicate Ascending(enums: seq<Enum>)
    requires Numbered(enums)
  {
    forall i, j :: 0 <= j < i < |enums| && enums[i].value.Some? ==>
        RfcCode(enums, j) < enums[i].value.value.number.value
  }

  lemma AscendingCodes(enums: seq<Enum>, i: nat, j: nat)
    requires Numbered(enums) && Ascending(enums) && j < i < |enums|
    ensures RfcCode(enums, j) < RfcCode(enums, i)
  {
    HighestBounds(enums, i);
  }

  /** Then the values are pairwise distinct, ascending, and those of the RFC. */
  lemma AscendingIsRfc(enums: seq<Enum>)
    requires Numbered(enums) && Ascending(enums)
    ensures forall i, j :: 0 <= j < i < |enums| ==> Code(enums, j) < Code(enums, i)
    ensures forall i :: 0 <= i < |enums| ==> Code(enums, i) == RfcCode(enums, i)
  {
    NumberingIsRfcIff(enums);
    forall i, j | 0 <= j < i < |enums| ensures Code(enums, j) < Code(enums, i) {
      AscendingCodes(enums, i, j);
    }
  }
}
