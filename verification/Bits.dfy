/** Unsigned 32-bit words and the bitwise operators C applies to them.

    Words are integers in range, so that they can be compared with the decimal numbers
    the daemon parses and prints; `And` and `Or` are defined bit by bit. */
module Bits {
  const WORD := 0x1_0000_0000
  const HALF := 0x1_0000

  type uint32 = x: int | 0 <= x < WORD

  function And(a: nat, b: nat): nat {
    if a == 0 || b == 0 then 0
    else (if a % 2 == 1 && b % 2 == 1 then 1 else 0) + 2 * And(a / 2, b / 2)
  }

  function Or(a: nat, b: nat): nat {
    if a == 0 then b
    else if b == 0 then a
    else (if a % 2 == 1 || b % 2 == 1 then 1 else 0) + 2 * Or(a / 2, b / 2)
  }

  /** `a` shifted left by `k` places, in unbounded arithmetic. */
  function Shift(a: nat, k: nat): nat {
    if k == 0 then a else 2 * Shift(a, k - 1)
  }

  lemma ShiftBy16(a: nat)
    ensures Shift(a, 16) == a * HALF
  {
    assert Shift(a, 4) == 2 * Shift(a, 3) == 4 * Shift(a, 2) == 8 * Shift(a, 1) == 16 * a;
    assert Shift(a, 8) == 2 * Shift(a, 7) == 4 * Shift(a, 6) == 8 * Shift(a, 5) == 16 * Shift(a, 4);
    assert Shift(a, 12) == 2 * Shift(a, 11) == 4 * Shift(a, 10) == 8 * Shift(a, 9) == 16 * Shift(a, 8);
    assert Shift(a, 16) == 2 * Shift(a, 15) == 4 * Shift(a, 14) == 8 * Shift(a, 13) == 16 * Shift(a, 12);
  }

  lemma {:induction false} LastBitAnd(a: nat, b: nat, x: nat, y: nat)
    requires x < 2 && y < 2
    ensures And(2 * a + x, 2 * b + y) == 2 * And(a, b) + And(x, y)
  {
    var p, q := 2 * a + x, 2 * b + y;
    assert p / 2 == a && p % 2 == x && q / 2 == b && q % 2 == y;
    assert And(x, y) == if x == 1 && y == 1 then 1 else 0;
  }

  lemma {:induction false} LastBitOr(a: nat, b: nat, x: nat, y: nat)
    requires x < 2 && y < 2
    ensures Or(2 * a + x, 2 * b + y) == 2 * Or(a, b) + Or(x, y)
  {
    var p, q := 2 * a + x, 2 * b + y;
    assert p / 2 == a && p % 2 == x && q / 2 == b && q % 2 == y;
    assert Or(x, y) == if x == 1 || y == 1 then 1 else 0;
  }

  /** Splitting both operands at bit `k` splits the operators. */
  lemma {:induction false} SplitAnd(k: nat, a: nat, b: nat, x: nat, y: nat)
    requires x < Shift(1, k) && y < Shift(1, k)
    ensures And(Shift(a, k) + x, Shift(b, k) + y) == Shift(And(a, b), k) + And(x, y)
    decreases k
  {
    if k > 0 {
      var u, v, c, d := x / 2, y / 2, x % 2, y % 2;
      var p, q := Shift(a, k - 1) + u, Shift(b, k - 1) + v;
      assert Shift(a, k) + x == 2 * p + c && Shift(b, k) + y == 2 * q + d;
      calc {
        And(2 * p + c, 2 * q + d);
      ==  { LastBitAnd(p, q, c, d); }
        2 * And(p, q) + And(c, d);
      ==  { SplitAnd(k - 1, a, b, u, v); }
        2 * Shift(And(a, b), k - 1) + (2 * And(u, v) + And(c, d));
      ==  { LastBitAnd(u, v, c, d); }
        Shift(And(a, b), k) + And(2 * u + c, 2 * v + d);
      }
    }
  }

  lemma {:induction false} SplitOr(k: nat, a: nat, b: nat, x: nat, y: nat)
    requires x < Shift(1, k) && y < Shift(1, k)
    ensures Or(Shift(a, k) + x, Shift(b, k) + y) == Shift(Or(a, b), k) + Or(x, y)
    decreases k
  {
    if k > 0 {
      var u, v, c, d := x / 2, y / 2, x % 2, y % 2;
      var p, q := Shift(a, k - 1) + u, Shift(b, k - 1) + v;
      assert Shift(a, k) + x == 2 * p + c && Shift(b, k) + y == 2 * q + d;
      calc {
        Or(2 * p + c, 2 * q + d);
      ==  { LastBitOr(p, q, c, d); }
        2 * Or(p, q) + Or(c, d);
      ==  { SplitOr(k - 1, a, b, u, v); }
        2 * Shift(Or(a, b), k - 1) + (2 * Or(u, v) + Or(c, d));
      ==  { LastBitOr(u, v, c, d); }
        Shift(Or(a, b), k) + Or(2 * u + c, 2 * v + d);
      }
    }
  }

  lemma {:induction false} AndOnes(k: nat, a: nat)
    requires a < Shift(1, k)
    ensures And(a, Shift(1, k) - 1) == a
  {
    if k > 0 && a > 0 {
      AndOnes(k - 1, a / 2);
    }
  }

  lemma MaskHalves(p: uint32, ones: nat)
    requires ones == HALF - 1
    ensures And(p, ones) == p % HALF
    ensures And(p, ones * HALF) == p - p % HALF
  {
    var high, low := p / HALF, p % HALF;
    ShiftBy16(0);
    ShiftBy16(1);
    ShiftBy16(high);
    ShiftBy16(ones);
    SplitAnd(16, high, 0, low, ones);
    SplitAnd(16, high, ones, low, 0);
    AndOnes(16, low);
    AndOnes(16, high);
  }

  /** The C masks select the two halves of a word. */
  lemma Halves(p: uint32)
    ensures And(p, 0x0000_FFFF) == p % HALF
    ensures And(p, 0xFFFF_0000) == p - p % HALF
  {
    MaskHalves(p, HALF - 1);
  }

  lemma ShiftedHalf(x: nat)
    ensures x * HALF % WORD == x % HALF * HALF
  {
    assert x * HALF == x / HALF * WORD + x % HALF * HALF;
  }

  /** A union of two words that share no bit is a sum. */
  lemma OrHalves(high: nat, low: nat)
    requires low < HALF
    ensures Or(low, high * HALF) == Or(high * HALF, low) == high * HALF + low
  {
    ShiftBy16(0);
    ShiftBy16(1);
    ShiftBy16(high);
    SplitOr(16, high, 0, 0, low);
    SplitOr(16, 0, high, low, 0);
  }

  /** 0x10000 is a single bit of the high half. */
  lemma OrBit16(high: nat, bit: nat)
    requires bit == HALF
    ensures Or(high * HALF, bit) == (if high % 2 == 1 then high else high + 1) * HALF
  {
    ShiftBy16(1);
    ShiftBy16(high);
    SplitOr(16, high, 1, 0, 0);
    LastBitOr(high / 2, 0, high % 2, 1);
    ShiftBy16(Or(high, 1));
  }
}
