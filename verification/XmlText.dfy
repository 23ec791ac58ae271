/** The two string patterns of xml2c and the text of a document. */
module XmlText {
  import opened Wrappers
  import opened XmlEntities

  // ---------------------------------------------------------------- "<(%/?)([%w:]+)(.-)(%/?)>"

  predicate IsAlnum(c: char) {
    '0' <= c <= '9' || 'A' <= c <= 'Z' || 'a' <= c <= 'z'
  }

  predicate IsLabelChar(c: char) {
    IsAlnum(c) || c == ':'
  }

  function LabelRun(s: string): (n: nat)
    ensures n <= |s|
  {
    if s == [] || !IsLabelChar(s[0]) then 0 else 1 + LabelRun(s[1..])
  }

  function AlnumRun(s: string): (n: nat)
    ensures n <= |s|
  {
    if s == [] || !IsAlnum(s[0]) then 0 else 1 + AlnumRun(s[1..])
  }

  /** The index of the first occurrence, or the length of the string. */
  function IndexOf(s: string, c: char): (n: nat)
    ensures n <= |s|
    ensures n < |s| ==> s[n] == c
  {
    if s == [] || s[0] == c then 0 else 1 + IndexOf(s[1..], c)
  }

  datatype Tag = Tag(closing: bool, tagName: string, args: string, isEmpty: bool)

  datatype Match = Match(tag: Tag, rest: string)

  /** From the end of the label: the arguments stop at the first '>', giving up a slash just before it. */
  function ArgsFrom(closing: bool, tagName: string, u: string): (m: Option<Match>)
    ensures m.Some? ==> |m.value.rest| < |u|
  {
    var k := IndexOf(u, '>');
    if k == |u| then None
    else
      var body := u[..k];
      if body != [] && body[k - 1] == '/' then Some(Match(Tag(closing, tagName, body[..k - 1], true), u[k + 1..]))
      else Some(Match(Tag(closing, tagName, body, false), u[k + 1..]))
  }

  /** From the start of the label, which takes all the label characters. */
  function LabelFrom(closing: bool, t: string): (m: Option<Match>)
    ensures m.Some? ==> |m.value.rest| < |t|
  {
    var n := LabelRun(t);
    if n == 0 then None else ArgsFrom(closing, t[..n], t[n..])
  }

  /** The match that starts at the first character, if any. */
  function TagAt(s: string): (m: Option<Match>)
    ensures m.Some? ==> |m.value.rest| < |s|
  {
    if s == [] || s[0] != '<' then None
    else if |s| > 1 && s[1] == '/' then LabelFrom(true, s[2..])
    else LabelFrom(false, s[1..])
  }

  /** string.find from the current position. */
  function FindTag(s: string): (m: Option<Match>)
    ensures m.Some? ==> |m.value.rest| < |s|
  {
    if s == [] then None
    else if TagAt(s).Some? then TagAt(s)
    else FindTag(s[1..])
  }

  /** The tags the loop sees. */
  function Lex(s: string): seq<Tag>
    decreases |s|
  {
    match FindTag(s)
    case None => []
    case Some(m) => [m.tag] + Lex(m.rest)
  }

  // ---------------------------------------------------------------- "(%w+)=([\"'])(.-)%2"

  datatype Attribute = Attribute(name: string, raw: string, rest: string)

  function AttributeAt(s: string): (a: Option<Attribute>)
    ensures a.Some? ==> |a.value.rest| < |s|
  {
    var n := AlnumRun(s);
    if n == 0 || |s| < n + 2 || s[n] != '=' || (s[n + 1] != '"' && s[n + 1] != '\'') then None
    else
      var t := s[n + 2..];
      var k := IndexOf(t, s[n + 1]);
      if k == |t| then None else Some(Attribute(s[..n], t[..k], t[k + 1..]))
  }

  type Args = map<string, string>

  /** ParseArgs: None when a value cannot be decoded. A later attribute overwrites an earlier one. */
  function ParseArgs(s: string, args: Args): Option<Args>
    decreases |s|
  {
    if s == [] then Some(args)
    else
      match AttributeAt(s)
      case None => ParseArgs(s[1..], args)
      case Some(a) =>
        match FromXmlString(a.raw)
        case None => None
        case Some(v) => ParseArgs(a.rest, args[a.name := v])
  }

  // ---------------------------------------------------------------- the text of a document

  /** An attribute with its value in single or double quotes. */
  datatype Assignment = Assignment(name: string, quote: char, value: string)

  type Attributes = seq<Assignment>

  datatype Item =
    | Text(text: string)
    | EmptyElement(tagName: string, attributes: Attributes)
    | Element(tagName: string, attributes: Attributes, children: seq<Item>)

  /** ASCII letters and digits. */
  predicate LetterOrDigit(c: char) {
    'a' <= c <= 'z' || 'A' <= c <= 'Z' || '0' <= c <= '9'
  }

  predicate LabelOk(tagName: string) {
    tagName != [] && forall i :: 0 <= i < |tagName| ==> LetterOrDigit(tagName[i]) || tagName[i] == ':'
  }

  predicate AllAlnum(name: string) {
    forall i :: 0 <= i < |name| ==> LetterOrDigit(name[i])
  }

  /** An attribute name, qualified or not, that ends in a letter or a digit. */
  predicate NameOk(name: string) {
    && name != [] && LetterOrDigit(name[|name| - 1])
    && forall i :: 0 <= i < |name| ==> name[i] != '=' && name[i] != '"' && name[i] != '\'' && name[i] != '>'
  }

  predicate AttributesOk(attributes: Attributes) {
    forall i :: 0 <= i < |attributes| ==>
      NameOk(attributes[i].name) && (attributes[i].quote == '"' || attributes[i].quote == '\'')
  }

  /** Text in which no tag can begin: a '<' is followed by neither a slash nor a character of a tag name. */
  predicate TagFree(text: string) {
    forall i :: 0 <= i < |text| && text[i] == '<' ==>
      i + 1 < |text| && text[i + 1] != '/' && text[i + 1] != ':' && !LetterOrDigit(text[i + 1])
  }

  predicate ItemOk(item: Item)
    decreases item, 0
  {
    match item
    case Text(text) => TagFree(text)
    case EmptyElement(tagName, attributes) => LabelOk(tagName) && AttributesOk(attributes)
    case Element(tagName, attributes, children) => LabelOk(tagName) && AttributesOk(attributes) && ItemsOk(children)
  }

  predicate ItemsOk(items: seq<Item>)
    decreases items, 1
  {
    items == [] || (ItemOk(items[0]) && ItemsOk(items[1..]))
  }

  function RenderArgs(attributes: Attributes): string {
    if attributes == [] then []
    else
      var a := attributes[0];
      [' '] + (a.name + (['=', a.quote] + (Escape(a.value) + ([a.quote] + RenderArgs(attributes[1..])))))
  }

  function Body(tag: Tag): string {
    if tag.isEmpty then tag.args + "/" else tag.args
  }

  function TagIntro(tag: Tag): string {
    if tag.closing then "</" else "<"
  }

  function RenderTag(tag: Tag): string {
    TagIntro(tag) + (tag.tagName + (Body(tag) + ">"))
  }

  function OpenTag(tagName: string, attributes: Attributes): Tag {
    Tag(false, tagName, RenderArgs(attributes), false)
  }

  function EmptyTag(tagName: string, attributes: Attributes): Tag {
    Tag(false, tagName, RenderArgs(attributes), true)
  }

  function CloseTag(tagName: string): Tag {
    Tag(true, tagName, "", false)
  }

  function RenderItem(item: Item): string
    decreases item, 0
  {
    match item
    case Text(text) => text
    case EmptyElement(tagName, attributes) => RenderTag(EmptyTag(tagName, attributes))
    case Element(tagName, attributes, children) =>
      RenderTag(OpenTag(tagName, attributes)) + (Render(children) + RenderTag(CloseTag(tagName)))
  }

  function Render(items: seq<Item>): string
    decreases items, 1
  {
    if items == [] then [] else RenderItem(items[0]) + Render(items[1..])
  }

  function ItemTags(item: Item): seq<Tag>
    decreases item, 0
  {
    match item
    case Text(_) => []
    case EmptyElement(tagName, attributes) => [EmptyTag(tagName, attributes)]
    case Element(tagName, attributes, children) =>
      [OpenTag(tagName, attributes)] + (Tags(children) + [CloseTag(tagName)])
  }

  /** The tags of the items, in document order. */
  function Tags(items: seq<Item>): seq<Tag>
    decreases items, 1
  {
    if items == [] then [] else ItemTags(items[0]) + Tags(items[1..])
  }

  // ---------------------------------------------------------------- lexing inverts rendering

  lemma {:induction false} LabelRunIs(tagName: string, rest: string)
    requires forall i :: 0 <= i < |tagName| ==> IsLabelChar(tagName[i])
    requires rest == [] || !IsLabelChar(rest[0])
    ensures LabelRun(tagName + rest) == |tagName|
    decreases |tagName|
  {
    if tagName == [] {
      assert tagName + rest == rest;
    } else {
      assert (tagName + rest)[1..] == tagName[1..] + rest;
      LabelRunIs(tagName[1..], rest);
    }
  }

  lemma {:induction false} AlnumRunIs(name: string, rest: string)
    requires forall i :: 0 <= i < |name| ==> IsAlnum(name[i])
    requires rest == [] || !IsAlnum(rest[0])
    ensures AlnumRun(name + rest) == |name|
    decreases |name|
  {
    if name == [] {
      assert name + rest == rest;
    } else {
      assert (name + rest)[1..] == name[1..] + rest;
      AlnumRunIs(name[1..], rest);
    }
  }

  lemma {:induction false} IndexOfIs(s: string, c: char, rest: string)
    requires c !in s
    ensures IndexOf(s + [c] + rest, c) == |s|
    decreases |s|
  {
    if s == [] {
      assert (s + [c] + rest)[0] == c;
    } else {
      assert (s + [c] + rest)[1..] == s[1..] + [c] + rest;
      IndexOfIs(s[1..], c, rest);
    }
  }

  lemma Absent(c: char, a: string, b: string)
    requires c !in a && c !in b
    ensures c !in a + b
  {
  }

  lemma LastOf(a: string, b: string)
    requires b != []
    ensures a + b != [] && (a + b)[|a + b| - 1] == b[|b| - 1]
  {
  }

  lemma {:induction false} OneArg(a: Assignment, rest: string)
    requires NameOk(a.name) && (a.quote == '"' || a.quote == '\'')
    requires '>' !in rest && (rest != [] ==> rest[|rest| - 1] != '/')
    ensures var s := a.name + (['=', a.quote] + (Escape(a.value) + ([a.quote] + rest)));
            '>' !in s && s != [] && s[|s| - 1] != '/'
  {
    EscapeIsInert(a.value);
    var tail := [a.quote] + rest;
    assert tail[|tail| - 1] == if rest == [] then a.quote else rest[|rest| - 1];
    Absent('>', [a.quote], rest);
    Absent('>', Escape(a.value), tail);
    LastOf(Escape(a.value), tail);
    Absent('>', ['=', a.quote], Escape(a.value) + tail);
    LastOf(['=', a.quote], Escape(a.value) + tail);
    assert '>' !in a.name;
    Absent('>', a.name, ['=', a.quote] + (Escape(a.value) + tail));
    LastOf(a.name, ['=', a.quote] + (Escape(a.value) + tail));
  }

  lemma {:induction false} ArgsShape(attributes: Attributes)
    requires AttributesOk(attributes)
    ensures var s := RenderArgs(attributes);
            '>' !in s && (s != [] ==> s[0] == ' ' && s[|s| - 1] != '/')
  {
    if attributes != [] {
      var a, rest := attributes[0], RenderArgs(attributes[1..]);
      ArgsShape(attributes[1..]);
      OneArg(a, rest);
      var s := a.name + (['=', a.quote] + (Escape(a.value) + ([a.quote] + rest)));
      Absent('>', [' '], s);
      LastOf([' '], s);
    }
  }

  predicate TagOk(tag: Tag) {
    && LabelOk(tag.tagName) && '>' !in tag.args
    && (tag.args != [] ==> tag.args[0] == ' ' && tag.args[|tag.args| - 1] != '/')
  }

  lemma TakeDrop(a: string, b: string)
    ensures (a + b)[..|a|] == a && (a + b)[|a|..] == b
  {
  }

  lemma Assoc<T>(a: seq<T>, b: seq<T>, c: seq<T>)
    ensures (a + b) + c == a + (b + c)
  {
  }

  lemma ArgsFromRendered(tag: Tag, rest: string)
    requires TagOk(tag)
    ensures ArgsFrom(tag.closing, tag.tagName, Body(tag) + (">" + rest)) == Some(Match(tag, rest))
  {
    var body := Body(tag);
    IndexOfIs(body, '>', rest);
    Assoc(body, ">", rest);
    TakeDrop(body, ">" + rest);
    TakeDrop(">", rest);
    assert (body + (">" + rest))[|body| + 1..] == (">" + rest)[1..];
    if tag.isEmpty { TakeDrop(tag.args, "/"); }
  }

  lemma LabelFromRendered(tag: Tag, rest: string)
    requires TagOk(tag)
    ensures LabelFrom(tag.closing, tag.tagName + (Body(tag) + (">" + rest))) == Some(Match(tag, rest))
  {
    var u := Body(tag) + (">" + rest);
    assert u[0] == (if Body(tag) == [] then '>' else Body(tag)[0]);
    LabelRunIs(tag.tagName, u);
    TakeDrop(tag.tagName, u);
    ArgsFromRendered(tag, rest);
  }

  /** A rendered tag is found again, whatever follows it. */
  lemma TagAtRendered(tag: Tag, rest: string)
    requires TagOk(tag)
    ensures TagAt(RenderTag(tag) + rest) == Some(Match(tag, rest))
  {
    var t := tag.tagName + (Body(tag) + (">" + rest));
    Assoc(TagIntro(tag), tag.tagName + (Body(tag) + ">"), rest);
    Assoc(tag.tagName, Body(tag) + ">", rest);
    Assoc(Body(tag), ">", rest);
    assert RenderTag(tag) + rest == TagIntro(tag) + t;
    LabelFromRendered(tag, rest);
    TagAtIntro(tag, t);
  }

  lemma TagAtIntro(tag: Tag, t: string)
    requires t != [] && t[0] != '/'
    ensures TagAt(TagIntro(tag) + t) == LabelFrom(tag.closing, t)
  {
    TakeDrop(TagIntro(tag), t);
  }

  lemma LexRendered(tag: Tag, rest: string)
    requires TagOk(tag)
    ensures Lex(RenderTag(tag) + rest) == [tag] + Lex(rest)
  {
    TagAtRendered(tag, rest);
    assert RenderTag(tag) + rest != [];
  }

  lemma {:induction false} LexTagFree(text: string, rest: string)
    requires TagFree(text)
    ensures Lex(text + rest) == Lex(rest)
    decreases |text|
  {
    if text == [] {
      assert text + rest == rest;
    } else {
      var s := text + rest;
      assert s[1..] == text[1..] + rest;
      assert TagFree(text[1..]) by {
        assert forall i :: 0 <= i < |text[1..]| ==> text[1..][i] == text[i + 1];
      }
      if text[0] == '<' {
        assert s[1] == text[1];
        assert LabelRun(s[1..]) == 0;
      }
      assert TagAt(s) == None;
      LexTagFree(text[1..], rest);
    }
  }

  lemma RenderedTagsOk(tagName: string, attributes: Attributes)
    requires LabelOk(tagName) && AttributesOk(attributes)
    ensures TagOk(OpenTag(tagName, attributes)) && TagOk(EmptyTag(tagName, attributes)) && TagOk(CloseTag(tagName))
  {
    ArgsShape(attributes);
  }

  lemma {:induction false} LexItem(item: Item, rest: string)
    requires ItemOk(item)
    ensures Lex(RenderItem(item) + rest) == ItemTags(item) + Lex(rest)
    decreases item, 0
  {
    match item
    case Text(text) =>
      LexTagFree(text, rest);
    case EmptyElement(tagName, attributes) =>
      RenderedTagsOk(tagName, attributes);
      LexRendered(EmptyTag(tagName, attributes), rest);
    case Element(tagName, attributes, children) =>
      RenderedTagsOk(tagName, attributes);
      var open, close := OpenTag(tagName, attributes), CloseTag(tagName);
      var inner := Render(children);
      Assoc(RenderTag(open), inner + RenderTag(close), rest);
      Assoc(inner, RenderTag(close), rest);
      LexRendered(open, inner + (RenderTag(close) + rest));
      LexInvertsRender(children, RenderTag(close) + rest);
      LexRendered(close, rest);
      Assoc([open], Tags(children) + [close], Lex(rest));
      Assoc(Tags(children), [close], Lex(rest));
  }

  /** Lexing the text of a document gives its tags, inert text skipped. */
  lemma {:induction false} LexInvertsRender(items: seq<Item>, rest: string)
    requires ItemsOk(items)
    ensures Lex(Render(items) + rest) == Tags(items) + Lex(rest)
    decreases items, 1
  {
    if items == [] {
      assert Render(items) + rest == rest;
    } else {
      Assoc(RenderItem(items[0]), Render(items[1..]), rest);
      LexItem(items[0], Render(items[1..]) + rest);
      LexInvertsRender(items[1..], rest);
      Assoc(ItemTags(items[0]), Tags(items[1..]), Lex(rest));
    }
  }

  // ---------------------------------------------------------------- argument parsing inverts rendering

  /** What the pattern keeps of a name: its last run of letters and digits. */
  function KeyOf(name: string): (key: string)
    ensures |key| <= |name| && name[|name| - |key|..] == key && AllAlnum(key)
    ensures |key| < |name| ==> !IsAlnum(name[|name| - |key| - 1])
  {
    if AllAlnum(name) then name else KeyOf(name[1..])
  }

  function ArgsOf(attributes: Attributes, args: Args): Args {
    if attributes == [] then args else ArgsOf(attributes[1..], args[KeyOf(attributes[0].name) := attributes[0].value])
  }

  lemma {:induction false} AttributeAtRendered(name: string, quote: char, value: string, rest: string)
    requires name != [] && AllAlnum(name) && (quote == '"' || quote == '\'')
    ensures AttributeAt(name + (['=', quote] + (Escape(value) + ([quote] + rest))))
         == Some(Attribute(name, Escape(value), rest))
  {
    EscapeIsInert(value);
    var raw := Escape(value);
    var t := raw + ([quote] + rest);
    var u := ['=', quote] + t;
    AlnumRunIs(name, u);
    TakeDrop(name, u);
    TakeDrop(['=', quote], t);
    TakeDrop(raw, [quote] + rest);
    TakeDrop([quote], rest);
    IndexOfIs(raw, quote, rest);
    Assoc(raw, [quote], rest);
    assert (name + u)[|name|] == u[0] && (name + u)[|name| + 1] == u[1];
    assert (name + u)[|name| + 2..] == u[2..] == t;
    assert t[|raw| + 1..] == ([quote] + rest)[1..];
  }

  lemma {:induction false} AlnumRunStops(name: string, rest: string)
    requires !AllAlnum(name)
    ensures AlnumRun(name + rest) < |name| && !IsAlnum(name[AlnumRun(name + rest)])
    decreases |name|
  {
    if IsAlnum(name[0]) {
      assert (name + rest)[1..] == name[1..] + rest;
      assert name == [name[0]] + name[1..];
      AlnumRunStops(name[1..], rest);
    }
  }

  /** The search skips what comes before the last run of letters and digits. */
  lemma {:induction false} SearchSkips(name: string, u: string, args: Args)
    requires NameOk(name) && u != [] && u[0] == '='
    ensures ParseArgs(name + u, args) == ParseArgs(KeyOf(name) + u, args) && KeyOf(name) != []
    decreases |name|
  {
    if !AllAlnum(name) {
      AlnumRunStops(name, u);
      assert AttributeAt(name + u) == None;
      assert (name + u)[1..] == name[1..] + u;
      assert |name| > 1 && name[1..][|name| - 2] == name[|name| - 1];
      SearchSkips(name[1..], u, args);
    }
  }

  /** One attribute. */
  lemma {:induction false} AttributeRead(name: string, quote: char, value: string, rest: string, args: Args)
    requires NameOk(name) && (quote == '"' || quote == '\'')
    ensures ParseArgs(name + (['=', quote] + (Escape(value) + ([quote] + rest))), args)
         == ParseArgs(rest, args[KeyOf(name) := value])
  {
    var key, u := KeyOf(name), ['=', quote] + (Escape(value) + ([quote] + rest));
    SearchSkips(name, u, args);
    AttributeAtRendered(key, quote, value, rest);
    FromXmlStringInvertsEscape(value);
    MatchRead(key + u, Attribute(key, Escape(value), rest), value, args);
  }

  lemma {:induction false} MatchRead(s: string, a: Attribute, value: string, args: Args)
    requires s != [] && AttributeAt(s) == Some(a) && FromXmlString(a.raw) == Some(value)
    ensures ParseArgs(s, args) == ParseArgs(a.rest, args[a.name := value])
  {
  }

  /** ParseArgs recovers every attribute, for arbitrary attribute values, under the key of its name. */
  lemma {:induction false} ParseArgsInvertsRender(attributes: Attributes, args: Args)
    requires AttributesOk(attributes)
    ensures ParseArgs(RenderArgs(attributes), args) == Some(ArgsOf(attributes, args))
    decreases |attributes|
  {
    if attributes != [] {
      var Assignment(name, quote, value) := attributes[0];
      var rest := RenderArgs(attributes[1..]);
      var s := name + (['=', quote] + (Escape(value) + ([quote] + rest)));
      assert RenderArgs(attributes) == [' '] + s;
      assert AlnumRun([' '] + s) == 0 && ([' '] + s)[1..] == s;
      AttributeRead(name, quote, value, rest, args);
      assert AttributesOk(attributes[1..]);
      ParseArgsInvertsRender(attributes[1..], args[KeyOf(name) := value]);
    }
  }

  lemma SameKey(k: string, l: string, value: string)
    ensures var a: Args, b: Args := map[k := value], map[l := value];
            a == b <==> k == l
  {
    var a: Args, b: Args := map[k := value], map[l := value];
    if a == b { assert k in a && k in b; }
  }

  lemma {:induction false} OneAttribute(name: string, quote: char, value: string)
    requires NameOk(name) && (quote == '"' || quote == '\'')
    ensures ParseArgs(RenderArgs([Assignment(name, quote, value)]), map[]) == Some(map[KeyOf(name) := value])
  {
    var attributes: Attributes := [Assignment(name, quote, value)];
    assert attributes[1..] == [];
    ParseArgsInvertsRender(attributes, map[]);
    var none: Args := map[];
    assert ArgsOf(attributes, none) == none[KeyOf(name) := value] == map[KeyOf(name) := value];
  }

  lemma {:induction false} KeyIsNameIff(name: string)
    requires NameOk(name)
    ensures KeyOf(name) == name <==> AllAlnum(name)
  {
    assert AllAlnum(KeyOf(name));
  }

  lemma TwoReadings(read: Option<Args>, a: Args, b: Args)
    requires read == Some(a)
    ensures read == Some(b) <==> a == b
  {
  }

  /** A name survives the round trip exactly when it is made of letters and digits only. */
  lemma {:induction false} NameSurvivesIff(name: string, quote: char, value: string)
    requires NameOk(name) && (quote == '"' || quote == '\'')
    ensures ParseArgs(RenderArgs([Assignment(name, quote, value)]), map[]) == Some(map[name := value])
       <==> AllAlnum(name)
  {
    OneAttribute(name, quote, value);
    KeyIsNameIff(name);
    SameKey(KeyOf(name), name, value);
    TwoReadings(ParseArgs(RenderArgs([Assignment(name, quote, value)]), map[]),
                map[KeyOf(name) := value], map[name := value]);
  }
}
