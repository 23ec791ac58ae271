/** FromXmlString with numeric character references: against a decoder that reads every reference,
    numeric or named, once and from left to right. */
module XmlNumeric {
  import opened Decimal
  import opened Wrappers
  import opened XmlEntities
  import opened XmlPasses

  // ---------------------------------------------------------------- the three kinds

  function Intro(hex: bool): string {
    if hex then "&#x" else "&#"
  }

  predicate IsDigitOf(c: char, hex: bool) {
    if hex then IsHex(c) else IsDigit(c)
  }

  /** Character references (section 4.1 of XML 1.0). */
  function Numeric(text: string, hex: bool): Option<nat> {
    var n := |Intro(hex)|;
    if |text| > n + 1 && Intro(hex) <= text && text[|text| - 1] == ';'
       && forall i :: n <= i < |text| - 1 ==> IsDigitOf(text[i], hex)
    then
      var digits := text[n..|text| - 1];
      assert forall c :: c in digits ==> IsHex(c);
      Some(ReadBase(digits, if hex then 16 else 10))
    else None
  }

  function NumericOf(hex: bool): Meaning {
    t => Numeric(t, hex)
  }

  /** Predefined entities (section 4.6 of XML 1.0). */
  function Named(text: string): Option<nat> {
    var k := Find(text, PREDEFINED);
    if k < |PREDEFINED| && PREDEFINED[k].text == text then Some(PREDEFINED[k].stands as nat) else None
  }

  /** Every reference, in one pass. */
  function OnePass(s: string): Option<string> {
    Pass(s, Both(NumericOf(true), Both(NumericOf(false), Named)))
  }

  // ---------------------------------------------------------------- the substitutions are passes

  lemma IntroShape(hex: bool)
    ensures |Intro(hex)| > 1 && Intro(hex)[0] == '&'
    ensures forall i :: 0 <= i < |Intro(hex)| ==> Intro(hex)[i] != ';' && (i > 0 ==> RefChar(Intro(hex)[i]))
  {
  }

  lemma NumericReads(hex: bool)
    ensures Reads(NumericOf(hex))
  {
    IntroShape(hex);
    forall t | NumericOf(hex)(t).Some? ensures Reference(t) {
      assert forall i :: 0 <= i < |Intro(hex)| ==> t[i] == Intro(hex)[i];
    }
  }

  lemma PredefinedReference(k: nat)
    requires k < |PREDEFINED|
    ensures Reference(PREDEFINED[k].text)
  {
  }

  lemma NamedReads()
    ensures Reads(Named)
  {
    forall t | Named(t).Some? ensures Reference(t) {
      PredefinedReference(Find(t, PREDEFINED));
    }
  }

  lemma BothRead(f: Meaning, g: Meaning)
    requires Reads(f) && Reads(g)
    ensures Reads(Both(f, g))
  {
  }

  lemma {:induction false} RunIs(digits: string, rest: string, hex: bool)
    requires forall i :: 0 <= i < |digits| ==> IsDigitOf(digits[i], hex)
    requires rest != [] && !IsDigitOf(rest[0], hex)
    ensures DigitRun(digits + rest, hex) == |digits|
    decreases |digits|
  {
    if digits == [] {
      assert digits + rest == rest;
    } else {
      assert (digits + rest)[1..] == digits[1..] + rest;
      RunIs(digits[1..], rest, hex);
    }
  }

  lemma {:induction false} RunDigits(s: string, hex: bool)
    ensures forall i :: 0 <= i < DigitRun(s, hex) ==> IsDigitOf(s[i], hex)
  {
    if s != [] && IsDigitOf(s[0], hex) {
      RunDigits(s[1..], hex);
      assert forall i :: 0 < i < DigitRun(s, hex) ==> s[i] == s[1..][i - 1];
    }
  }

  /** A numeric reference that stands at the start is substituted. */
  lemma GsubReference(digits: string, rest: string, hex: bool)
    requires digits != [] && forall i :: 0 <= i < |digits| ==> IsDigitOf(digits[i], hex) && IsHex(digits[i])
    ensures GsubNumeric(Intro(hex) + digits + [';'] + rest, hex)
         == Emit(ReadBase(digits, if hex then 16 else 10), GsubNumeric(rest, hex))
  {
    var i, s := |Intro(hex)|, Intro(hex) + digits + [';'] + rest;
    assert s[i..] == digits + ([';'] + rest);
    RunIs(digits, [';'] + rest, hex);
    assert s[i..][..|digits|] == digits && s[i + |digits|..] == [';'] + rest;
    assert s[i + |digits| + 1..] == rest;
  }

  lemma NumericParts(text: string, hex: bool) returns (digits: string)
    requires Numeric(text, hex).Some?
    ensures digits != [] && forall i :: 0 <= i < |digits| ==> IsDigitOf(digits[i], hex) && IsHex(digits[i])
    ensures text == Intro(hex) + digits + [';'] && Numeric(text, hex) == Some(ReadBase(digits, if hex then 16 else 10))
  {
    var n := |Intro(hex)|;
    digits := text[n..|text| - 1];
    forall i | 0 <= i < |digits| ensures IsDigitOf(digits[i], hex) && IsHex(digits[i]) {
      assert digits[i] == text[n + i];
    }
    assert text == text[..n] + digits + [text[|text| - 1]];
  }

  predicate Matched(s: string, hex: bool) {
    var n := DigitRun(if Intro(hex) <= s then s[|Intro(hex)|..] else [], hex);
    Intro(hex) <= s && n > 0 && [';'] <= s[|Intro(hex)| + n..]
  }

  lemma NumericText(digits: string, hex: bool)
    requires digits != [] && forall i :: 0 <= i < |digits| ==> IsDigitOf(digits[i], hex)
    ensures Numeric(Intro(hex) + digits + [';'], hex).Some?
  {
    var n, text := |Intro(hex)|, Intro(hex) + digits + [';'];
    assert Intro(hex) <= text && forall i :: n <= i < |text| - 1 ==> text[i] == digits[i - n];
  }

  /** Everything the pattern matches is a reference. */
  lemma MatchedIsReference(s: string, hex: bool)
    requires Matched(s, hex)
    ensures Numeric(TextAt(s), hex).Some?
  {
    var i := |Intro(hex)|;
    var n := DigitRun(s[i..], hex);
    var digits := s[i..][..n];
    RunDigits(s[i..], hex);
    NumericText(digits, hex);
    NumericReads(hex);
    assert NumericOf(hex)(Intro(hex) + digits + [';']).Some?;
    assert s[i + n..][0] == ';';
    ThreeParts(s, Intro(hex), n);
    TextIs(Intro(hex) + digits + [';'], s[i + n + 1..]);
  }

  lemma ThreeParts(s: string, intro: string, n: nat)
    requires intro <= s && |intro| + n < |s|
    ensures s == intro + s[|intro|..][..n] + [s[|intro| + n]] + s[|intro| + n + 1..]
  {
  }

  lemma GsubKeeps(s: string, hex: bool)
    requires s != [] && !Matched(s, hex)
    ensures GsubNumeric(s, hex) == Keep(s[0], GsubNumeric(s[1..], hex))
  {
  }

  lemma {:induction false} GsubFirst(text: string, rest: string, hex: bool)
    requires Numeric(text, hex).Some?
    ensures GsubNumeric(text + rest, hex) == Emit(Numeric(text, hex).value, GsubNumeric(rest, hex))
  {
    var digits := NumericParts(text, hex);
    GsubReference(digits, rest, hex);
  }

  lemma {:induction false} GsubElse(s: string, hex: bool)
    requires s != [] && Numeric(TextAt(s), hex).None?
    ensures GsubNumeric(s, hex) == Keep(s[0], GsubNumeric(s[1..], hex))
  {
    if Matched(s, hex) { MatchedIsReference(s, hex); }
    GsubKeeps(s, hex);
  }

  /** A numeric substitution works reference by reference. */
  lemma {:induction false} GsubIsPass(s: string, hex: bool)
    ensures GsubNumeric(s, hex) == Pass(s, NumericOf(hex))
    decreases |s|
  {
    if s != [] {
      var text := TextAt(s);
      if Numeric(text, hex).Some? {
        var rest := s[|text|..];
        assert s == text + rest;
        GsubFirst(text, rest, hex);
        GsubIsPass(rest, hex);
      } else {
        GsubElse(s, hex);
        GsubIsPass(s[1..], hex);
      }
    }
  }

  /** A text at the start that is a predefined reference is the one the string starts with. */
  lemma FindIs(s: string)
    ensures Find(s, PREDEFINED) < |PREDEFINED| ==>
              Named(TextAt(s)).Some? && Find(TextAt(s), PREDEFINED) == Find(s, PREDEFINED)
    ensures Named(TextAt(s)).Some? ==> Find(s, PREDEFINED) < |PREDEFINED|
  {
    var k := Find(s, PREDEFINED);
    if k < |PREDEFINED| {
      var text := PREDEFINED[k].text;
      PredefinedReference(k);
      assert s == text + s[|text|..];
      TextIs(text, s[|text|..]);
      FindSame(s, text, PREDEFINED, k);
    }
  }

  lemma FindSame(s: string, text: string, entities: seq<Entity>, k: nat)
    requires k == Find(s, entities) < |entities| && entities[k].text == text <= s
    ensures Find(text, entities) == k
  {
    var j := Find(text, entities);
    if j < |entities| { assert entities[j].text <= text <= s; }
  }

  lemma {:induction false} DecodeIsPass(s: string)
    requires References(PREDEFINED)
    ensures Pass(s, Named) == Some(Decode(s, PREDEFINED))
    decreases |s|
  {
    if s != [] {
      FindIs(s);
      var k := Find(s, PREDEFINED);
      if k < |PREDEFINED| {
        PredefinedReference(k);
        ByteSized(k);
        DecodeIsPass(s[|TextAt(s)|..]);
      } else {
        DecodeIsPass(s[1..]);
      }
    }
  }

  lemma ByteSized(k: nat)
    requires k < |PREDEFINED|
    ensures PREDEFINED[k].stands as nat < 256
  {
  }

  /** The chain is three passes, and the last one never fails. */
  lemma ChainIsPasses(s: string)
    ensures var t := GsubNumeric(s, true);
            && t == Pass(s, NumericOf(true))
            && FromXmlString(s) == if t.None? then None else Twice(t.value, NumericOf(false), Named)
  {
    GsubIsPass(s, true);
    var t := GsubNumeric(s, true);
    if t.Some? {
      GsubIsPass(t.value, false);
      var u := GsubNumeric(t.value, false);
      if u.Some? {
        PredefinedIsOrderly();
        ChainIsOnePass(u.value, PREDEFINED);
        DecodeIsPass(u.value);
      }
    }
  }

  /** One of the later substitutions reads a text that an earlier numeric one made. */
  predicate MakesReference(s: string) {
    || Makes(s, NumericOf(true), Both(NumericOf(false), Named))
    || (GsubNumeric(s, true).Some? && Makes(GsubNumeric(s, true).value, NumericOf(false), Named))
  }

  /** FromXmlString reads every reference in one pass, named and numeric, for every string, exactly when
      a numeric code is not a byte (and neither gives a result) or no substitution reads a text that an
      earlier one made. */
  lemma FromXmlStringReadsAllIff(s: string)
    ensures FromXmlString(s) == OnePass(s) <==> OnePass(s).None? || !MakesReference(s)
  {
    var hexes, decimals := NumericOf(true), NumericOf(false);
    NumericReads(true);
    NumericReads(false);
    NamedReads();
    BothRead(decimals, Named);
    ChainIsPasses(s);
    TwiceExact(s, hexes, Both(decimals, Named));
    if Pass(s, hexes).Some? {
      TwiceExact(Pass(s, hexes).value, decimals, Named);
    } else {
      NoneStays(s, hexes, Both(decimals, Named));
    }
  }

  /** Every numeric reference, of either kind, stands for a character that neither starts nor completes
      a reference. */
  predicate BenignNumbers(s: string) {
    Benign(s, NumericOf(true)) && Benign(s, NumericOf(false))
  }

  /** In particular when every numeric reference is benign. */
  lemma FromXmlStringReadsAll(s: string)
    requires BenignNumbers(s)
    ensures FromXmlString(s) == OnePass(s)
  {
    var hexes, decimals := NumericOf(true), NumericOf(false);
    NumericReads(true);
    NumericReads(false);
    NamedReads();
    BothRead(decimals, Named);
    GsubIsPass(s, true);
    BenignMakesNothing(s, hexes, Both(decimals, Named));
    StaysBenign(s, hexes, decimals);
    BenignMakesNothing(Pass(s, hexes).value, decimals, Named);
    FromXmlStringReadsAllIff(s);
  }

  lemma NumberOf(digits: string, hex: bool)
    requires digits != [] && forall i :: 0 <= i < |digits| ==> IsDigitOf(digits[i], hex) && IsHex(digits[i])
    ensures Numeric(Intro(hex) + digits + [';'], hex) == Some(ReadBase(digits, if hex then 16 else 10))
  {
    NumericText(digits, hex);
    var text := Intro(hex) + digits + [';'];
    assert text[|Intro(hex)|..|text| - 1] == digits;
  }

  lemma NotHexadecimal(text: string)
    requires |text| > 2 && text[2] != 'x'
    ensures Numeric(text, true) == None
  {
    assert Intro(true)[2] == 'x';
  }

  lemma {:induction false} DecimalRead(digits: string, rest: string)
    requires digits != [] && forall i :: 0 <= i < |digits| ==> IsDigitOf(digits[i], false) && IsHex(digits[i])
    ensures OnePass(Intro(false) + digits + [';'] + rest) == Emit(ReadBase(digits, 10), OnePass(rest))
  {
    var text := Intro(false) + digits + [';'];
    NumberOf(digits, false);
    NumericReads(false);
    assert NumericOf(false)(text).Some?;
    assert text[2] == digits[0];
    NotHexadecimal(text);
    TextIs(text, rest);
    assert (text + rest)[|text|..] == rest;
  }

  lemma {:induction false} HexRead(digits: string, rest: string)
    requires digits != [] && forall i :: 0 <= i < |digits| ==> IsHex(digits[i])
    ensures OnePass(Intro(true) + digits + [';'] + rest) == Emit(ReadBase(digits, 16), OnePass(rest))
  {
    var text := Intro(true) + digits + [';'];
    NumberOf(digits, true);
    NumericReads(true);
    assert NumericOf(true)(text).Some?;
    TextIs(text, rest);
    assert (text + rest)[|text|..] == rest;
  }

  /** A numeric reference stands for the byte with that code, written in decimal or in hexadecimal digits
      of either case, wherever a reference may stand; a code above 255 fails. */
  lemma {:induction false} NumericDenotes(code: nat, upper: bool, rest: string)
    ensures var read := if code < 256 && OnePass(rest).Some? then Some([code as char] + OnePass(rest).value) else None;
            && OnePass("&#" + Digits(code) + [';'] + rest) == read
            && OnePass("&#x" + HexDigits(code, upper) + [';'] + rest) == read
  {
    ReadDigitsInverts(code);
    ReadHexInverts(code, upper);
    DecimalRead(Digits(code), rest);
    HexRead(HexDigits(code, upper), rest);
  }

  /** A numeric ampersand is not benign: one pass stops at the reference it writes, the chain of
      substitutions decodes that reference as well. */
  lemma NumericAmpersand(tail: string, c: char)
    requires Tail(tail, c)
    ensures OnePass(Intro(false) + ['3', '8'] + [';'] + tail) == Some(EscapeChar(c))
    ensures FromXmlString(Intro(false) + ['3', '8'] + [';'] + tail) == Some([c])
  {
    NumericReferenceIsDecodedTwice(tail, c);
    TailIsInert(tail, c);
    ThirtyEight();
    DecimalRead(['3', '8'], tail);
    var none: string := [];
    Copied(tail, none, Both(NumericOf(true), Both(NumericOf(false), Named)));
    assert tail + none == tail;
  }
}
