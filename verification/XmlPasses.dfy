/** Reading references from left to right: when two passes, one kind of reference each, are one pass. */
module XmlPasses {
  import opened Wrappers
  import opened XmlText

  // ---------------------------------------------------------------- reading references

  /** The text of the reference that may start here: from an ampersand to the first semicolon. */
  function TextAt(s: string): (text: string)
    ensures text <= s
  {
    if s == [] || s[0] != '&' || IndexOf(s, ';') == |s| then [] else s[..IndexOf(s, ';') + 1]
  }

  /** The character code of a reference text, for the kinds of references it knows. */
  type Meaning = string -> Option<nat>

  function Emit(code: nat, rest: Option<string>): Option<string> {
    if code < 256 && rest.Some? then Some([code as char] + rest.value) else None
  }

  function Keep(c: char, rest: Option<string>): Option<string> {
    if rest.Some? then Some([c] + rest.value) else None
  }

  /** One pass from left to right; None when a code is not a byte. */
  function Pass(s: string, f: Meaning): Option<string>
    decreases |s|
  {
    if s == [] then Some([])
    else if TextAt(s) != [] && f(TextAt(s)).Some? then Emit(f(TextAt(s)).value, Pass(s[|TextAt(s)|..], f))
    else Keep(s[0], Pass(s[1..], f))
  }

  function Both(f: Meaning, g: Meaning): Meaning {
    t => if f(t).Some? then f(t) else g(t)
  }

  // ---------------------------------------------------------------- fusing two passes

  /** The characters a reference has after its ampersand. */
  predicate RefChar(c: char) {
    IsAlnum(c) || c == '#' || c == ';'
  }

  ghost predicate Reference(text: string) {
    && |text| > 1 && text[0] == '&' && text[|text| - 1] == ';'
    && (forall i :: 0 < i < |text| ==> RefChar(text[i]))
    && (forall i :: 0 <= i < |text| - 1 ==> text[i] != ';')
  }

  ghost predicate Reads(f: Meaning) {
    forall t :: f(t).Some? ==> Reference(t)
  }

  /** A character that neither starts nor completes a reference. */
  predicate BenignCode(code: nat) {
    code < 256 && code as char != '&' && !RefChar(code as char)
  }

  predicate BenignAt(s: string, f: Meaning) {
    f(TextAt(s)).Some? ==> BenignCode(f(TextAt(s)).value)
  }

  /** Every reference that `f` knows stands for a benign character. */
  predicate Benign(s: string, f: Meaning) {
    s == [] || (BenignAt(s, f) && Benign(s[1..], f))
  }

  lemma {:induction false} BenignSuffix(s: string, f: Meaning, k: nat)
    requires k <= |s| && Benign(s, f)
    ensures Benign(s[k..], f)
    decreases k
  {
    if k > 0 {
      assert s[k..] == s[1..][k - 1..];
      BenignSuffix(s[1..], f, k - 1);
    } else {
      assert s[0..] == s;
    }
  }

  lemma {:induction false} FirstIndex(s: string, c: char, k: nat)
    requires k < |s| && s[k] == c && forall i :: 0 <= i < k ==> s[i] != c
    ensures IndexOf(s, c) == k
    decreases k
  {
    if k > 0 {
      assert s[1..][k - 1] == s[k] && forall i :: 0 <= i < k - 1 ==> s[1..][i] == s[i + 1];
      FirstIndex(s[1..], c, k - 1);
    }
  }

  /** A reference is found whatever follows it. */
  lemma {:induction false} TextIs(text: string, rest: string)
    requires Reference(text)
    ensures TextAt(text + rest) == text
  {
    FirstIndex(text + rest, ';', |text| - 1);
  }

  lemma NoTextHere(s: string, f: Meaning)
    requires s != [] && s[0] != '&'
    ensures Pass(s, f) == Keep(s[0], Pass(s[1..], f))
  {
  }

  /** Characters other than ampersands are copied. */
  lemma {:induction false} Copied(q: string, u: string, f: Meaning)
    requires '&' !in q && Pass(u, f).Some?
    ensures Pass(q + u, f) == Some(q + Pass(u, f).value)
    decreases |q|
  {
    if q == [] {
      var v := Pass(u, f).value;
      assert q + u == u && q + v == v;
    } else {
      assert (q + u)[0] == q[0] && (q + u)[1..] == q[1..] + u;
      NoTextHere(q + u, f);
      Copied(q[1..], u, f);
      assert q == [q[0]] + q[1..];
      assert [q[0]] + (q[1..] + Pass(u, f).value) == q + Pass(u, f).value;
    }
  }

  lemma {:induction false} Total(s: string, f: Meaning)
    requires Reads(f) && Benign(s, f)
    ensures Pass(s, f).Some?
    decreases |s|
  {
    if s != [] {
      BenignSuffix(s, f, |TextAt(s)|);
      if TextAt(s) != [] && f(TextAt(s)).Some? {
        Total(s[|TextAt(s)|..], f);
      } else {
        Total(s[1..], f);
      }
    }
  }

  /** A benign pass makes no new text of reference characters. */
  lemma {:induction false} NothingMade(q: string, u: string, f: Meaning)
    requires Reads(f) && Benign(u, f) && Pass(u, f).Some? && q <= Pass(u, f).value
    requires forall i :: 0 <= i < |q| ==> RefChar(q[i])
    ensures q <= u
    decreases |q|
  {
    if q != [] {
      var v := Pass(u, f).value;
      assert q[0] == v[0];
      if TextAt(u) != [] && f(TextAt(u)).Some? {
        assert false;
      } else {
        assert v[0] == u[0] && v[1..] == Pass(u[1..], f).value;
        assert q[1..] <= v[1..];
        NothingMade(q[1..], u[1..], f);
        assert q == [q[0]] + q[1..] && u == [u[0]] + u[1..];
      }
    }
  }

  /** A reference behind a benign pass was there before it. */
  lemma {:induction false} SameReference(c: char, u: string, f: Meaning, g: Meaning)
    requires Reads(f) && Reads(g) && Benign(u, f) && Pass(u, f).Some?
    requires g(TextAt([c] + Pass(u, f).value)).Some?
    ensures TextAt([c] + u) == TextAt([c] + Pass(u, f).value)
  {
    var v := Pass(u, f).value;
    var text := TextAt([c] + v);
    var q := text[1..];
    assert text == [c] + q && q == ([c] + v)[1..|text|] == v[..|q|];
    NothingMade(q, u, f);
    assert [c] + u == text + u[|q|..];
    TextIs(text, u[|q|..]);
  }

  lemma {:induction false} StaysBenign(s: string, f: Meaning, g: Meaning)
    requires Reads(f) && Reads(g) && Benign(s, f) && Benign(s, g)
    ensures Pass(s, f).Some? && Benign(Pass(s, f).value, g)
    decreases |s|
  {
    Total(s, f);
    if s != [] {
      var text, t := TextAt(s), Pass(s, f).value;
      if text != [] && f(text).Some? {
        BenignSuffix(s, f, |text|);
        BenignSuffix(s, g, |text|);
        StaysBenign(s[|text|..], f, g);
        assert t[1..] == Pass(s[|text|..], f).value && BenignAt(s, f);
        assert TextAt(t) == [];
      } else {
        StaysBenign(s[1..], f, g);
        assert t == [s[0]] + Pass(s[1..], f).value && t[1..] == Pass(s[1..], f).value;
        assert s == [s[0]] + s[1..];
        if g(TextAt(t)).Some? {
          SameReference(s[0], s[1..], f, g);
          assert BenignAt(s, g);
        }
      }
    }
  }

  lemma OneAmpersand(text: string)
    requires Reference(text)
    ensures '&' !in text[1..]
  {
    forall i | 0 <= i < |text[1..]| ensures text[1..][i] != '&' {
      assert RefChar(text[i + 1]);
    }
  }

  lemma NotRead(s: string, f: Meaning)
    requires s != [] && f(TextAt(s)).None?
    ensures Pass(s, f) == Keep(s[0], Pass(s[1..], f))
  {
  }

  lemma Regroup(text: string, q: string, v: string)
    requires text != [] && q == text[1..]
    ensures [text[0]] + (q + v) == text + v && (text + v)[1..] == q + v
  {
  }

  /** A reference of another kind passes through. */
  lemma {:induction false} PassesThrough(text: string, r: string, f: Meaning)
    requires Reference(text) && f(text).None? && Pass(r, f).Some?
    ensures Pass(text + r, f) == Some(text + Pass(r, f).value)
  {
    var q := text[1..];
    TextIs(text, r);
    NotRead(text + r, f);
    Regroup(text, q, r);
    Regroup(text, q, Pass(r, f).value);
    OneAmpersand(text);
    Copied(q, r, f);
  }

  // ---------------------------------------------------------------- made references

  /** Here the second pass reads a text that the first one made. */
  predicate MadeHere(s: string, f: Meaning, g: Meaning) {
    && Pass(s, f).Some? && g(TextAt(Pass(s, f).value)).Some?
    && (f(TextAt(s)).Some? || g(TextAt(s)).None?)
  }

  /** Somewhere in the walk of the string it does. */
  predicate Makes(s: string, f: Meaning, g: Meaning)
    decreases |s|
  {
    s != [] && (MadeHere(s, f, g) || Makes(s[Width(s, f, g)..], f, g))
  }

  /** What the walk steps over: a reference or one character. */
  function Width(s: string, f: Meaning, g: Meaning): (n: nat)
    requires s != []
    ensures 0 < n <= |s|
  {
    if TextAt(s) != [] && (f(TextAt(s)).Some? || g(TextAt(s)).Some?) then |TextAt(s)| else 1
  }

  function Prepend(q: string, rest: Option<string>): Option<string> {
    if rest.Some? then Some(q + rest.value) else None
  }

  lemma PrependTwice(c: char, q: string, rest: Option<string>)
    ensures Prepend([c], Prepend(q, rest)) == Prepend([c] + q, rest)
  {
    if rest.Some? { assert [c] + (q + rest.value) == [c] + q + rest.value; }
  }

  /** Anywhere but at a reference of the second kind, both readings take the same character first. */
  lemma {:induction false} FirstStep(s: string, f: Meaning, g: Meaning) returns (u: string)
    requires Reads(f) && Reads(g) && s != [] && Pass(s, f).Some? && (f(TextAt(s)).Some? || g(TextAt(s)).None?)
    ensures u == s[Width(s, f, g)..] && Pass(u, f).Some?
    ensures Pass(s, f).value != [] && Pass(s, f).value[1..] == Pass(u, f).value
    ensures Pass(s, Both(f, g)) == Prepend([Pass(s, f).value[0]], Pass(u, Both(f, g)))
  {
    u := s[Width(s, f, g)..];
    assert Pass(s, f).value == [Pass(s, f).value[0]] + Pass(u, f).value;
  }

  lemma {:induction false} KeptCharacter(u: string, f: Meaning, g: Meaning) returns (t: string)
    requires Reads(f) && Reads(g) && Pass(u, f).Some? && Pass(u, f).value != [] && Pass(u, f).value[0] != '&'
    ensures |t| < |u| && Pass(t, f).Some? && Pass(u, f).value[1..] == Pass(t, f).value
    ensures Pass(u, Both(f, g)) == Prepend([Pass(u, f).value[0]], Pass(t, Both(f, g)))
  {
    if f(TextAt(u)).None? {
      assert u[0] == Pass(u, f).value[0];
      assert TextAt(u) == [];
    }
    t := FirstStep(u, f, g);
  }

  lemma PrependNothing(rest: Option<string>)
    ensures Prepend([], rest) == rest
  {
    if rest.Some? { assert [] + rest.value == rest.value; }
  }

  /** Text without ampersands behind the first pass is there in the one pass as well. */
  lemma {:induction false} KeptText(q: string, u: string, f: Meaning, g: Meaning) returns (r: string)
    requires Reads(f) && Reads(g) && '&' !in q && Pass(u, f).Some? && q <= Pass(u, f).value
    ensures |r| <= |u| && Pass(r, f).Some? && Pass(u, f).value[|q|..] == Pass(r, f).value
    ensures Pass(u, Both(f, g)) == Prepend(q, Pass(r, Both(f, g)))
    decreases |q|
  {
    var v := Pass(u, f).value;
    if q == [] {
      r := u;
      assert v[0..] == v;
      PrependNothing(Pass(r, Both(f, g)));
    } else {
      var t := KeptCharacter(u, f, g);
      assert q[1..] <= v[1..] && q == [q[0]] + q[1..];
      r := KeptText(q[1..], t, f, g);
      assert v[1..][|q[1..]|..] == v[|q|..];
      PrependTwice(q[0], q[1..], Pass(r, Both(f, g)));
    }
  }

  ghost predicate Shorter(a: Option<string>, b: Option<string>) {
    a.Some? ==> b.Some? && |a.value| < |b.value|
  }

  /** A made reference swallows characters that the one pass keeps; without one, the readings agree. */
  lemma {:induction false} FuseExact(s: string, f: Meaning, g: Meaning)
    requires Reads(f) && Reads(g) && Pass(s, f).Some?
    ensures var two, one := Pass(Pass(s, f).value, g), Pass(s, Both(f, g));
            if Makes(s, f, g) then Shorter(two, one) else two == one
    decreases |s|
  {
    if s != [] {
      var v := Pass(s, f).value;
      if f(TextAt(s)).None? && g(TextAt(s)).Some? {
        FuseReference(s, f, g);
        FuseExact(s[|TextAt(s)|..], f, g);
      } else {
        var u := FirstStep(s, f, g);
        assert v == [v[0]] + Pass(u, f).value;
        if MadeHere(s, f, g) {
          var r := FuseMade(s, u, f, g);
          FuseExact(r, f, g);
        } else {
          NotRead(v, g);
          FuseExact(u, f, g);
        }
      }
    }
  }

  /** A reference of the second kind is read by both. */
  lemma {:induction false} FuseReference(s: string, f: Meaning, g: Meaning)
    requires Reads(f) && Reads(g) && s != [] && Pass(s, f).Some? && f(TextAt(s)).None? && g(TextAt(s)).Some?
    ensures var code, r := g(TextAt(s)).value, s[|TextAt(s)|..];
            && Pass(r, f).Some? && !MadeHere(s, f, g) && Width(s, f, g) == |TextAt(s)|
            && Pass(Pass(s, f).value, g) == Emit(code, Pass(Pass(r, f).value, g))
            && Pass(s, Both(f, g)) == Emit(code, Pass(r, Both(f, g)))
  {
    var text := TextAt(s);
    var r := s[|text|..];
    assert s == text + r;
    if Pass(r, f).None? { DroppedText(text, r, f); }
    var v := Pass(r, f).value;
    PassesThrough(text, r, f);
    TextIs(text, v);
    assert (text + v)[|text|..] == v;
  }

  lemma {:induction false} DroppedText(text: string, r: string, f: Meaning)
    requires Reference(text) && f(text).None? && Pass(r, f).None?
    ensures Pass(text + r, f).None?
  {
    var q := text[1..];
    TextIs(text, r);
    NotRead(text + r, f);
    Regroup(text, q, r);
    OneAmpersand(text);
    DroppedCopy(q, r, f);
  }

  lemma {:induction false} DroppedCopy(q: string, u: string, f: Meaning)
    requires '&' !in q && Pass(u, f).None?
    ensures Pass(q + u, f).None?
    decreases |q|
  {
    if q == [] {
      assert q + u == u;
    } else {
      assert (q + u)[0] == q[0] && (q + u)[1..] == q[1..] + u;
      NoTextHere(q + u, f);
      DroppedCopy(q[1..], u, f);
    }
  }

  /** A made reference: what is left of the string behind it, and what either reading makes of it. */
  lemma {:induction false} FuseMade(s: string, u: string, f: Meaning, g: Meaning) returns (r: string)
    requires Reads(f) && Reads(g) && s != [] && MadeHere(s, f, g)
    requires u == s[Width(s, f, g)..] && Pass(u, f).Some?
    requires Pass(s, f).value == [Pass(s, f).value[0]] + Pass(u, f).value
    requires Pass(s, Both(f, g)) == Prepend([Pass(s, f).value[0]], Pass(u, Both(f, g)))
    ensures |r| < |s| && Pass(r, f).Some?
    ensures var v := Pass(s, f).value;
            && |TextAt(v)| > 1
            && Pass(v, g) == Emit(g(TextAt(v)).value, Pass(Pass(r, f).value, g))
            && Pass(s, Both(f, g)) == Prepend(TextAt(v), Pass(r, Both(f, g)))
  {
    var v := Pass(s, f).value;
    var text := TextAt(v);
    var q := text[1..];
    OneAmpersand(text);
    assert text == [v[0]] + q && q == v[1..][..|q|];
    r := KeptText(q, u, f, g);
    PrependTwice(v[0], q, Pass(r, Both(f, g)));
    assert v[|text|..] == v[1..][|q|..];
  }

  /** When the first pass fails on a code that is not a byte, so does the one pass. */
  lemma {:induction false} NoneStays(s: string, f: Meaning, g: Meaning)
    requires Reads(f) && Reads(g) && Pass(s, f).None?
    ensures Pass(s, Both(f, g)).None?
    decreases |s|
  {
    var text := TextAt(s);
    if f(text).None? && g(text).Some? {
      var r := s[|text|..];
      assert s == text + r;
      if Pass(r, f).Some? { PassesThrough(text, r, f); }
      NoneStays(r, f, g);
    } else {
      var u := if f(text).Some? then s[|text|..] else s[1..];
      if Pass(u, f).None? { NoneStays(u, f, g); }
    }
  }

  // ---------------------------------------------------------------- when two passes are one

  function Twice(s: string, f: Meaning, g: Meaning): Option<string> {
    if Pass(s, f).Some? then Pass(Pass(s, f).value, g) else None
  }

  lemma {:induction false} TwiceExact(s: string, f: Meaning, g: Meaning)
    requires Reads(f) && Reads(g)
    ensures var two, one := Twice(s, f, g), Pass(s, Both(f, g));
            if Makes(s, f, g) then Shorter(two, one) else two == one
  {
    if Pass(s, f).Some? {
      FuseExact(s, f, g);
    } else {
      NoneStays(s, f, g);
    }
  }

  /** Reading one kind of reference first and another kind afterwards is reading both in one pass, for
      every string and any two kinds, exactly when the one pass fails or the second pass reads no text
      that the first one made. */
  lemma PassesFuseIff(s: string, f: Meaning, g: Meaning)
    requires Reads(f) && Reads(g)
    ensures Twice(s, f, g) == Pass(s, Both(f, g)) <==> Pass(s, Both(f, g)).None? || !Makes(s, f, g)
  {
    TwiceExact(s, f, g);
  }

  /** References to characters that neither start nor complete a reference make none. */
  lemma {:induction false} BenignMakesNothing(s: string, f: Meaning, g: Meaning)
    requires Reads(f) && Reads(g) && Benign(s, f)
    ensures Pass(s, f).Some? && !Makes(s, f, g)
    decreases |s|
  {
    Total(s, f);
    if s != [] {
      BenignMakesNothingHere(s, f, g);
      BenignSuffix(s, f, Width(s, f, g));
      BenignMakesNothing(s[Width(s, f, g)..], f, g);
    }
  }

  lemma {:induction false} BenignMakesNothingHere(s: string, f: Meaning, g: Meaning)
    requires Reads(f) && Reads(g) && Benign(s, f) && s != [] && Pass(s, f).Some?
    ensures !MadeHere(s, f, g)
  {
    var v := Pass(s, f).value;
    if f(TextAt(s)).Some? {
      assert BenignAt(s, f);
      assert TextAt(v) == [];
    } else if g(TextAt(v)).Some? {
      NotRead(s, f);
      assert v == [s[0]] + Pass(s[1..], f).value && s == [s[0]] + s[1..];
      SameReference(s[0], s[1..], f, g);
    }
  }
}
