/** Decimal rendering ("%d") and reading back. */
module Decimal {
  import opened Wrappers

  function Digit(d: nat): char
    requires d < 10
  {
    '0' + d as char
  }

  predicate IsDigit(c: char) {
    '0' <= c <= '9'
  }

  function Digits(n: nat): (s: string)
    ensures s != [] && forall c :: c in s ==> IsDigit(c)
    ensures s[0] == '0' ==> n == 0 && |s| == 1
  {
    if n < 10 then [Digit(n)] else Digits(n / 10) + [Digit(n % 10)]
  }

  /** "%d": a minus sign, if any, and digits. */
  function Render(n: int): (s: string)
    ensures s != [] && forall c :: c in s ==> IsDigit(c) || c == '-'
  {
    if n < 0 then "-" + Digits(-n) else Digits(n)
  }

  predicate IsHex(c: char) {
    '0' <= c <= '9' || 'a' <= c <= 'f' || 'A' <= c <= 'F'
  }

  function DigitValue(c: char): nat
    requires IsHex(c)
  {
    if c <= '9' then c as nat - '0' as nat
    else if c <= 'F' then c as nat - 'A' as nat + 10
    else c as nat - 'a' as nat + 10
  }

  /** The number that digits of a base up to 16 write. */
  function ReadBase(digits: string, base: nat): nat
    requires forall c :: c in digits ==> IsHex(c)
  {
    if digits == [] then 0 else ReadBase(digits[..|digits| - 1], base) * base + DigitValue(digits[|digits| - 1])
  }

  function Read(s: string): Option<int> {
    if s == [] then None
    else if s[0] == '-' then
      if forall c :: c in s[1..] ==> IsDigit(c) then Some(0 - ReadBase(s[1..], 10)) else None
    else if forall c :: c in s ==> IsDigit(c) then Some(ReadBase(s, 10))
    else None
  }

  lemma {:induction false} ReadDigitsInverts(n: nat)
    ensures ReadBase(Digits(n), 10) == n
  {
    if n >= 10 {
      ReadDigitsInverts(n / 10);
      var s := Digits(n);
      assert s[..|s| - 1] == Digits(n / 10);
    } else {
      assert [Digit(n)][..0] == [];
    }
  }

  lemma {:induction false} ReadPositive(n: nat)
    ensures Read(Digits(n)) == Some(n)
  {
    ReadDigitsInverts(n);
    assert IsDigit(Digits(n)[0]);
  }

  lemma {:induction false} ReadInverts(n: int)
    ensures Read(Render(n)) == Some(n)
  {
    if n < 0 {
      ReadDigitsInverts(-n);
      assert Render(n)[1..] == Digits(-n);
    } else {
      ReadPositive(n);
    }
  }

  // ---------------------------------------------------------------- hexadecimal

  const LOWER := ['0', '1', '2', '3', '4', '5', '6', '7', '8', '9', 'a', 'b', 'c', 'd', 'e', 'f']
  const UPPER := ['0', '1', '2', '3', '4', '5', '6', '7', '8', '9', 'A', 'B', 'C', 'D', 'E', 'F']

  /** Hexadecimal digits, in either case. */
  function HexDigits(n: nat, upper: bool): (s: string)
    ensures s != []
  {
    var digit := [if upper then UPPER[n % 16] else LOWER[n % 16]];
    if n < 16 then digit else HexDigits(n / 16, upper) + digit
  }

  /** The ASCII digits, and no other character. */
  lemma DigitsAre(c: char)
    ensures IsDigit(c) <==> c in "0123456789"
    ensures IsHex(c) <==> c in LOWER || c in UPPER
  {
    if IsHex(c) {
      assert c == LOWER[DigitValue(c)] || c == UPPER[DigitValue(c)];
    }
    if IsDigit(c) {
      assert c == "0123456789"[DigitValue(c)];
    }
  }

  lemma HexDigitValue(d: nat, upper: bool)
    requires d < 16
    ensures var c := if upper then UPPER[d] else LOWER[d]; IsHex(c) && DigitValue(c) == d
  {
  }

  lemma {:induction false} ReadHexInverts(n: nat, upper: bool)
    ensures forall c :: c in HexDigits(n, upper) ==> IsHex(c)
    ensures ReadBase(HexDigits(n, upper), 16) == n
  {
    HexDigitValue(n % 16, upper);
    var s := HexDigits(n, upper);
    if n >= 16 {
      ReadHexInverts(n / 16, upper);
      assert s[..|s| - 1] == HexDigits(n / 16, upper);
    } else {
      assert s[..0] == [];
    }
  }

  // ---------------------------------------------------------------- separators

  /** The index of the last occurrence, or -1. */
  function LastIndex(s: string, c: char): (k: int)
    ensures -1 <= k < |s| && (k >= 0 ==> s[k] == c)
    ensures forall i :: k < i < |s| ==> s[i] != c
  {
    if s == [] then -1 else if s[|s| - 1] == c then |s| - 1 else LastIndex(s[..|s| - 1], c)
  }

  /** A text, a separator, and after the last separator a number. */
  predicate Splits(s: string, sep: char, head: string, n: int) {
    var k := LastIndex(s, sep);
    k >= 0 && s[..k] == head && Read(s[k + 1..]) == Some(n)
  }

  lemma {:induction false} DigitsSplit(head: string, sep: char, n: nat)
    requires !IsDigit(sep)
    ensures Splits(head + [sep] + Digits(n), sep, head, n)
  {
    var s := head + [sep] + Digits(n);
    NoLaterSeparator(head, Digits(n), sep);
    assert LastIndex(s, sep) == |head|;
    assert s[..|head|] == head && s[|head| + 1..] == Digits(n);
    ReadPositive(n);
  }

  lemma NoLaterSeparator(a: string, x: string, sep: char)
    requires sep !in x
    ensures var s := a + [sep] + x;
            s[|a|] == sep && forall i :: |a| < i < |s| ==> s[i] != sep
  {
  }

  /** A separator that neither tail contains splits a string in one way. */
  lemma SplitLast(a: string, b: string, x: string, y: string, sep: char)
    requires a + [sep] + x == b + [sep] + y && sep !in x && sep !in y
    ensures a == b && x == y
  {
    var s := a + [sep] + x;
    NoLaterSeparator(a, x, sep);
    NoLaterSeparator(b, y, sep);
    assert |a| == |b|;
    assert a == s[..|a|] == b;
    assert x == s[|a| + 1..] == y;
  }
}
