/** XmlParser:FromXmlString: entity decoding as a chain of global substitutions. */
module XmlEntities {
  import opened Decimal
  import opened Wrappers

  /** A predefined entity: the text that stands for a character. */
  datatype Entity = Entity(text: string, stands: char)

  // ---------------------------------------------------------------- the chain

  /** string.gsub with a plain pattern: left to right, without overlaps. */
  function Gsub(s: string, text: string, c: char): string
    requires text != []
    decreases |s|
  {
    if s == [] then []
    else if text <= s then [c] + Gsub(s[|text|..], text, c)
    else [s[0]] + Gsub(s[1..], text, c)
  }

  /** The length of the run of digits a string starts with. */
  function DigitRun(s: string, hex: bool): (n: nat)
    ensures n <= |s|
    ensures forall i :: 0 <= i < n ==> IsHex(s[i])
  {
    if s == [] || !(if hex then IsHex(s[0]) else IsDigit(s[0])) then 0 else 1 + DigitRun(s[1..], hex)
  }

  /** The two substitutions of numeric references; None when string.char is out of its range. */
  function GsubNumeric(s: string, hex: bool): Option<string>
    decreases |s|
  {
    var intro := if hex then "&#x" else "&#";
    if s == [] then Some([])
    else if intro <= s && DigitRun(s[|intro|..], hex) > 0
            && [';'] <= s[|intro| + DigitRun(s[|intro|..], hex)..] then
      var n := DigitRun(s[|intro|..], hex);
      assert forall c :: c in s[|intro|..][..n] ==> IsHex(c);
      var code := ReadBase(s[|intro|..][..n], if hex then 16 else 10);
      var rest := GsubNumeric(s[|intro| + n + 1..], hex);
      if code < 256 && rest.Some? then Some([code as char] + rest.value) else None
    else
      var rest := GsubNumeric(s[1..], hex);
      if rest.Some? then Some([s[0]] + rest.value) else None
  }

  const PREDEFINED := [Entity("&quot;", '"'), Entity("&apos;", '\''), Entity("&gt;", '>'),
                       Entity("&lt;", '<'), Entity("&amp;", '&')]

  /** The substitutions applied one after the other, first entity first. */
  function Chain(s: string, entities: seq<Entity>): string
    requires forall e :: e in entities ==> e.text != []
  {
    if entities == [] then s
    else
      var last := entities[|entities| - 1];
      assert last in entities;
      Gsub(Chain(s, entities[..|entities| - 1]), last.text, last.stands)
  }

  function FromXmlString(s: string): Option<string> {
    var hex := GsubNumeric(s, true);
    if hex.None? then None
    else
      var decimal := GsubNumeric(hex.value, false);
      if decimal.None? then None else Some(Chain(decimal.value, PREDEFINED))
  }

  // ---------------------------------------------------------------- the decoder

  /** The first entity whose text the string starts with. */
  function Find(s: string, entities: seq<Entity>): (k: nat)
    ensures k <= |entities|
    ensures k < |entities| ==> entities[k].text <= s
    ensures forall i :: 0 <= i < k ==> !(entities[i].text <= s)
  {
    if entities == [] then 0
    else if entities[0].text <= s then 0
    else 1 + Find(s, entities[1..])
  }

  /** One pass from left to right (section 4.6 of XML 1.0). */
  function Decode(s: string, entities: seq<Entity>): string
    requires forall e :: e in entities ==> e.text != []
    decreases |s|
  {
    var k := Find(s, entities);
    if s == [] then []
    else if k < |entities| then
      assert entities[k] in entities;
      [entities[k].stands] + Decode(s[|entities[k].text|..], entities)
    else [s[0]] + Decode(s[1..], entities)
  }

  /** An ampersand, then characters that are neither ampersands nor produced by any entity. */
  ghost predicate IsReference(text: string, entities: seq<Entity>) {
    && |text| > 1 && text[0] == '&'
    && (forall i :: 0 < i < |text| ==> text[i] != '&')
    && (forall i, e :: 0 < i < |text| && e in entities ==> text[i] != e.stands)
  }

  /** Characters an entity table neither produces nor consumes. */
  ghost predicate Plain(p: string, entities: seq<Entity>) {
    forall i :: 0 <= i < |p| ==> p[i] != '&' && forall e :: e in entities ==> p[i] != e.stands
  }

  ghost predicate References(entities: seq<Entity>) {
    forall e :: e in entities ==> |e.text| > 1 && e.text[0] == '&'
  }

  lemma PrefixCons(p: string, c: char, d: string)
    requires p != []
    ensures p <= [c] + d <==> p[0] == c && p[1..] <= d
    ensures ([c] + d)[1..] == d
    ensures p <= [c] + d ==> ([c] + d)[|p|..] == d[|p[1..]|..]
  {
    assert p == [p[0]] + p[1..];
    if p[0] == c && p[1..] <= d {
      assert forall i :: 0 <= i < |p| ==> p[i] == ([c] + d)[i];
    }
    if p <= [c] + d {
      assert forall i :: 0 <= i < |p[1..]| ==> p[1..][i] == p[i + 1] == ([c] + d)[i + 1] == d[i];
    }
  }

  lemma StartsWithAmpersand(s: string, entities: seq<Entity>)
    requires References(entities) && Find(s, entities) < |entities|
    ensures s != [] && s[0] == '&'
  {
    assert entities[Find(s, entities)] in entities;
  }

  lemma {:induction false} DecodeKeeps(s: string, entities: seq<Entity>)
    requires References(entities) && s != [] && Find(s, entities) == |entities|
    ensures Decode(s, entities) == [s[0]] + Decode(s[1..], entities)
  {
  }

  lemma Regroup(text: string, c: char, d: string, rest: string)
    requires text != [] && text[0] == c && d == text[1..] + rest
    ensures [c] + d == text + rest
  {
  }

  lemma SamePrefix(text: string, c: char, u: string, d: string)
    requires text != [] && (text[1..] <= d <==> text[1..] <= u)
    ensures text <= [c] + d <==> text <= [c] + u
  {
    PrefixCons(text, c, u);
    PrefixCons(text, c, d);
  }

  lemma {:induction false} PlainIsNotReplaced(s: string, p: string, entities: seq<Entity>)
    requires References(entities) && Plain(p, entities) && p != [] && Find(s, entities) < |entities|
    ensures !(p <= Decode(s, entities)) && !(p <= s)
  {
    StartsWithAmpersand(s, entities);
    assert entities[Find(s, entities)] in entities;
    assert p[0] != '&' && p[0] != entities[Find(s, entities)].stands;
  }

  /** Plain text appears in the decoded string exactly where it appears in the source. */
  lemma {:induction false} PlainPrefix(s: string, p: string, entities: seq<Entity>)
    requires References(entities) && Plain(p, entities)
    ensures p <= Decode(s, entities) <==> p <= s
    ensures p <= s ==> Decode(s, entities) == p + Decode(s[|p|..], entities)
    decreases |p|
  {
    if p == [] {
      assert s[0..] == s && p + Decode(s, entities) == Decode(s, entities);
    } else if s == [] {
    } else if Find(s, entities) < |entities| {
      PlainIsNotReplaced(s, p, entities);
    } else {
      var u, d := s[1..], Decode(s[1..], entities);
      DecodeKeeps(s, entities);
      assert Plain(p[1..], entities) by {
        assert forall i :: 0 <= i < |p[1..]| ==> p[1..][i] == p[i + 1];
      }
      PlainPrefix(u, p[1..], entities);
      assert s == [s[0]] + u && |p[1..]| == |p| - 1 && (|p| <= |s| ==> u[|p| - 1..] == s[|p|..]);
      PrefixGrows(p, s[0], u, d, if |p| <= |s| then Decode(s[|p|..], entities) else []);
    }
  }

  lemma {:induction false} PrefixGrows(p: string, c: char, u: string, d: string, rest: string)
    requires p != [] && (p[1..] <= d <==> p[1..] <= u) && (p[1..] <= u ==> d == p[1..] + rest)
    ensures p <= [c] + d <==> p <= [c] + u
    ensures p <= [c] + u ==> [c] + d == p + rest
  {
    SamePrefix(p, c, u, d);
    PrefixCons(p, c, u);
    if p <= [c] + u { Regroup(p, c, d, rest); }
  }

  lemma FindSnoc(s: string, entities: seq<Entity>, e: Entity)
    ensures Find(s, entities + [e]) ==
              (if Find(s, entities) < |entities| then Find(s, entities)
               else if e.text <= s then |entities| else |entities| + 1)
  {
    var k := Find(s, entities + [e]);
    assert forall i :: 0 <= i < |entities| ==> (entities + [e])[i] == entities[i];
    assert (entities + [e])[|entities|] == e;
  }

  lemma GsubSkips(text: string, c: char, first: char, rest: string)
    requires text != [] && !(text <= [first] + rest)
    ensures Gsub([first] + rest, text, c) == [first] + Gsub(rest, text, c)
  {
    assert ([first] + rest)[1..] == rest;
  }

  lemma GsubReplaces(text: string, c: char, rest: string)
    requires text != []
    ensures Gsub(text + rest, text, c) == [c] + Gsub(rest, text, c)
  {
    assert (text + rest)[|text|..] == rest;
  }

  /** One more substitution decodes one more entity. */
  lemma {:induction false} SubstituteNext(s: string, entities: seq<Entity>, e: Entity)
    requires References(entities) && IsReference(e.text, entities)
    requires forall f :: f in entities ==> f.stands != '&'
    ensures Gsub(Decode(s, entities), e.text, e.stands) == Decode(s, entities + [e])
    decreases |s|
  {
    var k := Find(s, entities);
    FindSnoc(s, entities, e);
    if s == [] {
    } else if k < |entities| {
      var f := entities[k];
      assert f in entities && (entities + [e])[k] == f;
      var rest := s[|f.text|..];
      GsubSkips(e.text, e.stands, f.stands, Decode(rest, entities));
      SubstituteNext(rest, entities, e);
    } else {
      ReferenceSurvives(s, entities, e);
      if e.text <= s {
        var rest := s[|e.text|..];
        assert (entities + [e])[|entities|] == e;
        GsubReplaces(e.text, e.stands, Decode(rest, entities));
        SubstituteNext(rest, entities, e);
      } else {
        GsubSkips(e.text, e.stands, s[0], Decode(s[1..], entities));
        SubstituteNext(s[1..], entities, e);
      }
    }
  }

  /** The earlier substitutions neither break nor make a reference of the next entity. */
  lemma {:induction false} ReferenceSurvives(s: string, entities: seq<Entity>, e: Entity)
    requires References(entities) && IsReference(e.text, entities)
    requires s != [] && Find(s, entities) == |entities|
    ensures e.text <= Decode(s, entities) <==> e.text <= s
    ensures e.text <= s ==> Decode(s, entities) == e.text + Decode(s[|e.text|..], entities)
  {
    var tail, u := e.text[1..], s[1..];
    TailIsPlain(e.text, entities);
    PlainPrefix(u, tail, entities);
    var d := Decode(u, entities);
    DecodeKeeps(s, entities);
    assert s == [s[0]] + u;
    SamePrefix(e.text, s[0], u, d);
    if e.text <= s {
      Regroup(e.text, s[0], d, Decode(u[|tail|..], entities));
      assert u[|tail|..] == s[|e.text|..];
    }
  }

  lemma TailIsPlain(text: string, entities: seq<Entity>)
    requires IsReference(text, entities)
    ensures Plain(text[1..], entities)
  {
    forall i | 0 <= i < |text[1..]| ensures text[1..][i] == text[i + 1] { }
  }

  /** A table whose substitutions cannot make or break each other's references: only the last one
      may produce an ampersand. */
  ghost predicate Orderly(entities: seq<Entity>) {
    forall k :: 0 <= k < |entities| ==>
      IsReference(entities[k].text, entities[..k]) && (k < |entities| - 1 ==> entities[k].stands != '&')
  }

  /** Sequential substitution equals one pass, for every orderly table and every string. */
  lemma {:induction false} ChainIsOnePass(s: string, entities: seq<Entity>)
    requires Orderly(entities)
    ensures References(entities) && Chain(s, entities) == Decode(s, entities)
    decreases |entities|
  {
    OrderlyIsReferences(entities);
    if entities == [] {
      NothingToDecode(s);
    } else {
      var n := |entities| - 1;
      OrderlyInit(entities);
      ChainIsOnePass(s, entities[..n]);
      SubstituteNext(s, entities[..n], entities[n]);
      assert entities == entities[..n] + [entities[n]];
    }
  }

  lemma OrderlyIsReferences(entities: seq<Entity>)
    requires Orderly(entities)
    ensures References(entities)
  {
    forall e | e in entities ensures |e.text| > 1 && e.text[0] == '&' {
      var k :| 0 <= k < |entities| && entities[k] == e;
      assert IsReference(entities[k].text, entities[..k]);
    }
  }

  lemma OrderlyInit(entities: seq<Entity>)
    requires Orderly(entities) && entities != []
    ensures Orderly(entities[..|entities| - 1])
    ensures forall e :: e in entities[..|entities| - 1] ==> e.stands != '&'
  {
    var init := entities[..|entities| - 1];
    assert forall k :: 0 <= k < |init| ==> init[..k] == entities[..k] && init[k] == entities[k];
  }

  lemma {:induction false} NothingToDecode(s: string)
    ensures Decode(s, []) == s
    decreases |s|
  {
    if s != [] {
      NothingToDecode(s[1..]);
      assert Find(s, []) == 0;
    }
  }

  /** The texts are letters between an ampersand and a semicolon, and no entity stands for those. */
  lemma PredefinedShape(k: nat)
    requires k < |PREDEFINED|
    ensures var e := PREDEFINED[k];
            && |e.text| > 1 && e.text[0] == '&'
            && (forall i :: 0 < i < |e.text| ==> e.text[i] == ';' || 'a' <= e.text[i] <= 'z')
            && e.stands != ';' && !('a' <= e.stands <= 'z') && (k < |PREDEFINED| - 1 ==> e.stands != '&')
  {
  }

  lemma PredefinedIsOrderly()
    ensures Orderly(PREDEFINED)
  {
    var entities := PREDEFINED;
    forall k | 0 <= k < |entities|
      ensures IsReference(entities[k].text, entities[..k]) && (k < |entities| - 1 ==> entities[k].stands != '&')
    {
      PredefinedShape(k);
      forall i, e | 0 < i < |entities[k].text| && e in entities[..k] ensures entities[k].text[i] != e.stands {
        var j :| 0 <= j < k && entities[j] == e;
        PredefinedShape(j);
      }
    }
  }

  /** No numeric character reference can start. */
  predicate NoCharRef(s: string) {
    forall i :: 0 <= i < |s| - 1 ==> !(s[i] == '&' && s[i + 1] == '#')
  }

  lemma {:induction false} NumericUntouched(s: string, hex: bool)
    requires NoCharRef(s)
    ensures GsubNumeric(s, hex) == Some(s)
    decreases |s|
  {
    if s != [] {
      assert |s| > 1 ==> !(s[0] == '&' && s[1] == '#');
      var intro := if hex then "&#x" else "&#";
      assert intro[0] == '&' && intro[1] == '#';
      assert !(intro <= s);
      NumericUntouched(s[1..], hex);
      assert [s[0]] + s[1..] == s;
    }
  }

  /** FromXmlString decodes the five predefined entities in one pass, on every string without "&#". */
  lemma FromXmlStringIsOnePass(s: string)
    requires NoCharRef(s)
    ensures References(PREDEFINED) && FromXmlString(s) == Some(Decode(s, PREDEFINED))
  {
    NumericUntouched(s, true);
    NumericUntouched(s, false);
    PredefinedIsOrderly();
    ChainIsOnePass(s, PREDEFINED);
  }

  // ---------------------------------------------------------------- escaping

  function EscapeChar(c: char): string {
    if c == '"' then "&quot;" else if c == '\'' then "&apos;" else if c == '>' then "&gt;"
    else if c == '<' then "&lt;" else if c == '&' then "&amp;" else [c]
  }

  /** Standard escaping. */
  function Escape(s: string): string {
    if s == [] then [] else EscapeChar(s[0]) + Escape(s[1..])
  }

  /** No predefined reference is the beginning of another one and what follows it. */
  lemma {:induction false} FindReference(j: nat, rest: string)
    requires j < |PREDEFINED|
    ensures Find(PREDEFINED[j].text + rest, PREDEFINED) == j
  {
    var text, s := PREDEFINED[j].text, PREDEFINED[j].text + rest;
    assert text <= s && s[1] == text[1] && s[2] == text[2];
  }

  lemma EscapedReference(c: char) returns (j: nat)
    ensures j <= |PREDEFINED|
    ensures j < |PREDEFINED| ==> EscapeChar(c) == PREDEFINED[j].text && PREDEFINED[j].stands == c
    ensures j == |PREDEFINED| ==> EscapeChar(c) == [c] && c != '&'
  {
    j := if c == '"' then 0 else if c == '\'' then 1 else if c == '>' then 2 else if c == '<' then 3
         else if c == '&' then 4 else 5;
  }

  lemma {:induction false} DecodeEscapedChar(c: char, rest: string)
    requires References(PREDEFINED)
    ensures Decode(EscapeChar(c) + rest, PREDEFINED) == [c] + Decode(rest, PREDEFINED)
  {
    var s := EscapeChar(c) + rest;
    assert s[|EscapeChar(c)|..] == rest;
    var j := EscapedReference(c);
    if j < |PREDEFINED| {
      FindReference(j, rest);
    } else {
      assert forall e :: e in PREDEFINED ==> e.text[0] != s[0];
      assert Find(s, PREDEFINED) == |PREDEFINED|;
    }
  }

  lemma {:induction false} DecodeInvertsEscape(s: string)
    requires References(PREDEFINED)
    ensures Decode(Escape(s), PREDEFINED) == s
    decreases |s|
  {
    if s != [] {
      DecodeEscapedChar(s[0], Escape(s[1..]));
      DecodeInvertsEscape(s[1..]);
    }
  }

  /** Text that can stand between quotes or tags, in which every ampersand starts a named reference. */
  ghost predicate Inert(s: string) {
    && (forall i :: 0 <= i < |s| && s[i] == '&' ==> i + 1 < |s| && s[i + 1] != '#')
    && (forall c :: c in s ==> c != '<' && c != '>' && c != '"' && c != '\'')
  }

  lemma InertConcat(a: string, b: string)
    requires Inert(a) && Inert(b)
    ensures Inert(a + b)
  {
  }

  lemma EscapeCharIsInert(c: char)
    ensures Inert(EscapeChar(c)) && EscapeChar(c) != []
  {
  }

  lemma {:induction false} EscapeIsInert(s: string)
    ensures Inert(Escape(s)) && (s != [] ==> Escape(s) != [])
    decreases |s|
  {
    if s != [] {
      EscapeCharIsInert(s[0]);
      EscapeIsInert(s[1..]);
      InertConcat(EscapeChar(s[0]), Escape(s[1..]));
    }
  }

  /** FromXmlString inverts standard escaping, for every string. */
  lemma FromXmlStringInvertsEscape(s: string)
    ensures FromXmlString(Escape(s)) == Some(s)
  {
    EscapeIsInert(s);
    FromXmlStringIsOnePass(Escape(s));
    DecodeInvertsEscape(s);
  }

  lemma {:induction false} NoHexReference(s: string)
    requires forall i :: 0 <= i < |s| - 2 ==> !(s[i] == '&' && s[i + 2] == 'x')
    ensures GsubNumeric(s, true) == Some(s)
    decreases |s|
  {
    if s != [] {
      var intro := "&#x";
      assert intro[0] == '&' && intro[2] == 'x';
      assert |s| > 2 ==> !(s[0] == '&' && s[2] == 'x');
      assert !(intro <= s);
      NoHexReference(s[1..]);
      assert [s[0]] + s[1..] == s;
    }
  }

  /** A decimal reference at the start of a text without further numeric references. */
  lemma DecimalFirst(digits: string, rest: string)
    requires digits != [] && (forall c :: c in digits ==> IsDigit(c) && IsHex(c)) && ReadBase(digits, 10) < 256
    requires NoCharRef(rest)
    ensures GsubNumeric("&#" + digits + ";" + rest, false) == Some([ReadBase(digits, 10) as char] + rest)
  {
    var s := "&#" + digits + ";" + rest;
    assert s[2..] == digits + (";" + rest);
    RunOfDigits(digits, ";" + rest);
    assert s[2..][..|digits|] == digits;
    assert s[2 + |digits|..] == [';'] + rest;
    assert s[2 + |digits| + 1..] == rest;
    NumericUntouched(rest, false);
  }

  lemma {:induction false} RunOfDigits(digits: string, rest: string)
    requires (forall c :: c in digits ==> IsDigit(c)) && (rest != [] ==> !IsDigit(rest[0]))
    ensures DigitRun(digits + rest, false) == |digits|
  {
    if digits == [] {
      assert digits + rest == rest;
    } else {
      assert (digits + rest)[1..] == digits[1..] + rest;
      RunOfDigits(digits[1..], rest);
    }
  }

  /** A predefined reference without its ampersand. */
  ghost predicate Tail(tail: string, c: char) {
    EscapeChar(c) == ['&'] + tail
  }

  lemma TailIsInert(tail: string, c: char)
    requires Tail(tail, c)
    ensures NoCharRef(tail) && forall x :: x in tail ==> x != '&'
  {
    var s := EscapeChar(c);
    assert forall i :: 0 < i < |s| ==> s[i] != '&';
    assert forall i :: 0 <= i < |tail| ==> tail[i] == s[i + 1];
  }

  lemma ThirtyEight()
    ensures ReadBase(['3', '8'], 10) == 38
  {
    var s := ['3', '8'];
    assert s[..1] == ['3'] && ['3'][..0] == [];
    assert ReadBase(['3'], 10) == 3;
  }

  lemma NotHex(head: string, tail: string)
    requires |head| > 2 && head[2] != 'x' && forall i :: 0 < i < |head| ==> head[i] != '&'
    requires forall x :: x in tail ==> x != '&'
    ensures GsubNumeric(head + tail, true) == Some(head + tail)
  {
    var s := head + tail;
    forall i | 0 < i < |s| ensures s[i] != '&' {
      if i >= |head| { assert s[i] in tail; }
    }
    NoHexReference(s);
  }

  lemma DecimalOnly(s: string, t: string)
    requires GsubNumeric(s, true) == Some(s) && GsubNumeric(s, false) == Some(t)
    ensures References(PREDEFINED) && FromXmlString(s) == Some(Decode(t, PREDEFINED))
  {
    PredefinedIsOrderly();
    ChainIsOnePass(t, PREDEFINED);
  }

  lemma DecodeReference(c: char)
    requires References(PREDEFINED)
    ensures Decode(EscapeChar(c), PREDEFINED) == [c]
  {
    assert EscapeChar(c) + [] == EscapeChar(c);
    DecodeEscapedChar(c, []);
  }

  /** Numeric references are outside the one-pass theorem: the ampersand of "&#38;" completes a
      reference and is decoded a second time, where section 4.6 of XML 1.0 stops at the reference. */
  lemma NumericReferenceIsDecodedTwice(tail: string, c: char)
    requires Tail(tail, c)
    ensures FromXmlString("&#" + ['3', '8'] + ";" + tail) == Some([c])
  {
    var digits := ['3', '8'];
    TailIsInert(tail, c);
    NotHex("&#" + digits + ";", tail);
    ThirtyEight();
    DecimalFirst(digits, tail);
    DecimalOnly("&#" + digits + ";" + tail, EscapeChar(c));
    DecodeReference(c);
  }
}
