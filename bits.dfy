/**
 * Fixed-width C integers as mathematical integers, and the bitwise
 * operators of C on unsigned values defined bit by bit, with the facts the
 * rest of the model needs about masks and disjoint ORs.
 */
module Bits {

  type uint8 = x: int | 0 <= x < 0x100
  type uint16 = x: int | 0 <= x < 0x1_0000
  type uint32 = x: int | 0 <= x < 0x1_0000_0000
  type uint64 = x: int | 0 <= x < 0x1_0000_0000_0000_0000
  type int32 = x: int | -0x8000_0000 <= x < 0x8000_0000
  type int64 = x: int | -0x8000_0000_0000_0000 <= x < 0x8000_0000_0000_0000

  const INT32_MAX: int := 0x7FFF_FFFF
  const TWO32: nat := 0x1_0000_0000
  const TWO64: nat := 0x1_0000_0000_0000_0000

  function Pow2(k: nat): (r: nat)
    ensures r >= 1
  {
    if k == 0 then 1 else 2 * Pow2(k - 1)
  }

  /** C's `&` on unsigned operands. */
  function And(a: nat, b: nat): nat
  {
    if a == 0 || b == 0 then 0
    else 2 * And(a / 2, b / 2) + (if a % 2 == 1 && b % 2 == 1 then 1 else 0)
  }

  /** C's `|` on unsigned operands. */
  function Or(a: nat, b: nat): nat
  {
    if a == 0 then b
    else if b == 0 then a
    else 2 * Or(a / 2, b / 2) + (if a % 2 == 1 || b % 2 == 1 then 1 else 0)
  }

  /** C's `^` on unsigned operands. */
  function Xor(a: nat, b: nat): nat
  {
    if a == 0 then b
    else if b == 0 then a
    else 2 * Xor(a / 2, b / 2) + (if a % 2 != b % 2 then 1 else 0)
  }

  /** C's `~` on a w-bit unsigned operand. */
  function Not(x: nat, w: nat): nat
    requires x < Pow2(w)
  {
    Pow2(w) - 1 - x
  }

  lemma {:induction false} MulNonNeg(a: int, b: int)
    requires a >= 0 && b >= 0
    ensures a * b >= 0
  {
  }

  /** Quotient and remainder are determined by the division equation. */
  lemma {:induction false} DivModUnique(v: int, d: int, q: int, r: int)
    requires d > 0 && 0 <= r < d && v == q * d + r
    ensures v / d == q && v % d == r
  {
    var q', r' := v / d, v % d;
    assert v == q' * d + r';
    assert (q' - q) * d == r - r';
    if q' > q {
      MulNonNeg(q' - q - 1, d);
    } else if q' < q {
      MulNonNeg(q - q' - 1, d);
    }
  }

  lemma {:induction false} Pow2Add(a: nat, b: nat)
    ensures Pow2(a + b) == Pow2(a) * Pow2(b)
    decreases b
  {
    if b > 0 {
      Pow2Add(a, b - 1);
      assert Pow2(a + b) == 2 * Pow2(a + b - 1);
    }
  }

  lemma {:induction false} Pow2Monotone(k: nat, w: nat)
    requires k <= w
    ensures Pow2(k) <= Pow2(w)
    decreases w
  {
    if k < w {
      Pow2Monotone(k, w - 1);
    }
  }

  /** The step that peels the lowest bit off a remainder modulo 2^k. */
  lemma {:induction false} ModPow2Step(v: nat, k: nat)
    requires k >= 1
    ensures v % Pow2(k) == v % 2 + 2 * ((v / 2) % Pow2(k - 1))
  {
    var p := Pow2(k - 1);
    var q := (v / 2) / p;
    var s := (v / 2) % p;
    assert v / 2 == q * p + s;
    assert v == 2 * (v / 2) + v % 2;
    assert v == q * (2 * p) + (2 * s + v % 2);
    DivModUnique(v, 2 * p, q, 2 * s + v % 2);
  }

  /** Masking with 2^k - 1 keeps the low k bits. */
  lemma {:induction false} AndLowMask(v: nat, k: nat)
    ensures And(v, Pow2(k) - 1) == v % Pow2(k)
    decreases k
  {
    if k == 0 {
    } else if v == 0 {
    } else {
      AndLowMask(v / 2, k - 1);
      ModPow2Step(v, k);
      assert (Pow2(k) - 1) / 2 == Pow2(k - 1) - 1;
    }
  }

  /** Masking a w-bit value with ~(2^k - 1) clears its low k bits. */
  lemma {:induction false} AndHighMask(v: nat, w: nat, k: nat)
    requires k <= w && v < Pow2(w)
    ensures Pow2(k) <= Pow2(w)
    ensures And(v, Pow2(w) - Pow2(k)) == v - v % Pow2(k)
    decreases w
  {
    Pow2Monotone(k, w);
    if k == 0 {
      AndHighMaskNoBits(v, w);
    } else if v == 0 || Pow2(w) == Pow2(k) {
      AndHighMaskNoValue(v, w, k);
    } else {
      AndHighMask(v / 2, w - 1, k - 1);
      AndHighMaskStep(v, w, k);
    }
  }

  lemma {:induction false} AndHighMaskNoValue(v: nat, w: nat, k: nat)
    requires v < Pow2(w) && Pow2(k) <= Pow2(w) && (v == 0 || Pow2(w) == Pow2(k))
    ensures And(v, Pow2(w) - Pow2(k)) == v - v % Pow2(k)
  {
    DivModUnique(v, Pow2(k), 0, v);
  }

  lemma {:induction false} AndHighMaskNoBits(v: nat, w: nat)
    requires v < Pow2(w)
    ensures And(v, Pow2(w) - Pow2(0)) == v - v % Pow2(0)
  {
    AndLowMask(v, w);
    DivModUnique(v, Pow2(w), 0, v);
    DivModUnique(v, 1, v, 0);
  }

  lemma {:induction false} AndHighMaskStep(v: nat, w: nat, k: nat)
    requires 1 <= k <= w && 0 < v < Pow2(w) && Pow2(k) < Pow2(w)
    requires Pow2(k - 1) <= Pow2(w - 1) && v / 2 < Pow2(w - 1)
    requires And(v / 2, Pow2(w - 1) - Pow2(k - 1)) == v / 2 - (v / 2) % Pow2(k - 1)
    ensures And(v, Pow2(w) - Pow2(k)) == v - v % Pow2(k)
  {
    var m' := Pow2(w - 1) - Pow2(k - 1);
    assert Pow2(w) - Pow2(k) == 2 * m';
    AndEven(v, m');
    ModPow2Step(v, k);
    HalfArith(v, v / 2, v % 2, v % Pow2(k), (v / 2) % Pow2(k - 1), And(v / 2, m'));
  }

  /** Masking with an even mask keeps no low bit. */
  lemma {:induction false} AndEven(v: nat, m: nat)
    ensures And(v, 2 * m) == 2 * And(v / 2, m)
  {
    if v != 0 && m != 0 {
      assert (2 * m) / 2 == m && (2 * m) % 2 == 0;
    }
  }

  lemma {:induction false} HalfArith(v: int, half: int, bit: int, modk: int, modk1: int, h: int)
    requires v == 2 * half + bit && modk == bit + 2 * modk1 && h == half - modk1
    ensures 2 * h == v - modk
  {
  }

  /** An OR of a value shifted left by k with a value below 2^k is a sum. */
  lemma {:induction false} OrShifted(a: nat, b: nat, k: nat)
    requires b < Pow2(k)
    ensures Or(a * Pow2(k), b) == a * Pow2(k) + b
    decreases k
  {
    var x := a * Pow2(k);
    if k == 0 || a == 0 || b == 0 {
    } else {
      var y := a * Pow2(k - 1);
      assert x == 2 * y;
      OrShifted(a, b / 2, k - 1);
      assert Or(y, b / 2) == y + b / 2;
      assert x / 2 == y && x % 2 == 0;
      assert Or(x, b) == 2 * Or(y, b / 2) + b % 2;
    }
  }

  lemma {:induction false} OrCommutes(a: nat, b: nat)
    ensures Or(a, b) == Or(b, a)
    decreases a
  {
    if a != 0 && b != 0 {
      OrCommutes(a / 2, b / 2);
    }
  }

  /** XOR never leaves the width of its operands. */
  lemma {:induction false} XorBound(a: nat, b: nat, w: nat)
    requires a < Pow2(w) && b < Pow2(w)
    ensures Xor(a, b) < Pow2(w)
    decreases w
  {
    if a == 0 || b == 0 {
    } else {
      XorBound(a / 2, b / 2, w - 1);
    }
  }

  /** XOR with an even operand keeps the low bit of the other. */
  lemma {:induction false} XorEvenLow(c: nat, d: nat)
    requires c % 2 == 0
    ensures Xor(c, d) % 2 == d % 2
  {
  }

  /** XOR with a multiple of 4 keeps the low two bits of the other. */
  lemma {:induction false} XorLow2(a: nat, b: nat)
    requires a % 4 == 0
    ensures Xor(a, b) % 4 == b % 4
  {
    if a != 0 && b != 0 {
      XorEvenLow(a / 2, b / 2);
    }
  }

  /** C's `>>` on an unsigned operand. */
  function Shr(x: nat, k: nat): nat
  {
    DivNonNeg(x, Pow2(k));
    x / Pow2(k)
  }

  lemma {:induction false} DivNonNeg(x: nat, d: nat)
    requires d > 0
    ensures 0 <= x / d
  {
  }

  /** The number of significant bits of x. */
  function BitLength(x: nat): (r: nat)
    ensures x == 0 <==> r == 0
    ensures x > 0 ==> Pow2(r - 1) <= x < Pow2(r)
  {
    if x == 0 then 0 else 1 + BitLength(x / 2)
  }

  lemma {:induction false} BitLengthBound(x: nat, w: nat)
    requires x < Pow2(w)
    ensures BitLength(x) <= w
    decreases w
  {
    if x > 0 {
      BitLengthBound(x / 2, w - 1);
    }
  }

  predicate IsPowerOfTwo(x: nat)
  {
    x > 0 && x == Pow2(BitLength(x) - 1)
  }

  lemma {:induction false} AndSelf(z: nat)
    ensures And(z, z) == z
    decreases z
  {
    if z != 0 {
      AndSelf(z / 2);
    }
  }

  /** The idiom `(x & (x - 1)) == 0` recognises exactly the powers of two. */
  lemma {:induction false} PowerOfTwoTest(x: nat)
    requires x > 0
    ensures And(x, x - 1) == 0 <==> IsPowerOfTwo(x)
    decreases x
  {
    if x == 1 {
    } else if x % 2 == 0 {
      PowerOfTwoTest(x / 2);
      PowerOfTwoEven(x);
    } else {
      PowerOfTwoOdd(x);
    }
  }

  /** An even x passes or fails both tests exactly as x / 2 does. */
  lemma {:induction false} PowerOfTwoEven(x: nat)
    requires x > 1 && x % 2 == 0
    ensures And(x, x - 1) == 2 * And(x / 2, x / 2 - 1)
    ensures IsPowerOfTwo(x) <==> IsPowerOfTwo(x / 2)
  {
    AndOddMask(x);
    var y := x / 2;
    assert x == 2 * y;
    PowerOfTwoDouble(y);
  }

  lemma {:induction false} AndOddMask(x: nat)
    requires x > 1 && x % 2 == 0
    ensures And(x, x - 1) == 2 * And(x / 2, x / 2 - 1)
  {
    assert (x - 1) / 2 == x / 2 - 1 && (x - 1) % 2 == 1;
  }

  lemma {:induction false} PowerOfTwoDouble(y: nat)
    requires y > 0
    ensures IsPowerOfTwo(2 * y) <==> IsPowerOfTwo(y)
  {
    assert (2 * y) / 2 == y;
    assert BitLength(2 * y) == 1 + BitLength(y);
    assert Pow2(BitLength(2 * y) - 1) == 2 * Pow2(BitLength(y) - 1);
  }

  /** An odd x above 1 fails both tests. */
  lemma {:induction false} PowerOfTwoOdd(x: nat)
    requires x > 1 && x % 2 == 1
    ensures And(x, x - 1) != 0 && !IsPowerOfTwo(x)
  {
    var z := x / 2;
    AndSelf(z);
    assert (x - 1) / 2 == z && (x - 1) % 2 == 0;
    assert And(x, x - 1) == 2 * z;
    assert BitLength(x) == 1 + BitLength(z);
    assert Pow2(BitLength(x) - 1) == 2 * Pow2(BitLength(z) - 1);
  }

  /** C's `/` on a positive divisor: the quotient is truncated toward zero. */
  function CDiv(x: int, d: int): (r: int)
    requires d > 0
    ensures x >= 0 ==> r == x / d
    ensures x < 0 ==> r == -((-x) / d)
  {
    if x >= 0 then x / d else -((-x) / d)
  }

  /** Dividing by p and then by q is dividing by p * q. */
  lemma {:induction false} DivDiv(b: nat, p: nat, q: nat)
    requires p > 0 && q > 0
    ensures b / p / q == b / (p * q)
  {
    var x := b / p;
    var y := x / q;
    assert b == x * p + b % p;
    assert x == y * q + x % q;
    MulLe(p, x % q, q - 1);
    assert b == y * (p * q) + ((x % q) * p + b % p);
    DivModUnique(b, p * q, y, (x % q) * p + b % p);
  }

  lemma {:induction false} MulLe(p: nat, x: nat, y: nat)
    requires x <= y
    ensures p * x <= p * y
  {
  }

  lemma {:induction false} Pow2Values()
    ensures Pow2(8) == 0x100 && Pow2(10) == 0x400 && Pow2(16) == 0x1_0000
    ensures Pow2(32) == TWO32 && Pow2(64) == TWO64
  {
    assert Pow2(8) == 0x100;
    Pow2Add(8, 8);
    Pow2Add(16, 16);
    Pow2Add(32, 32);
  }

  lemma {:induction false} Pow2Of10()
    ensures Pow2(10) == 0x400
  {
  }

  lemma {:induction false} Pow2Of32()
    ensures Pow2(32) == TWO32
  {
    Pow2Values();
  }

  lemma {:induction false} Pow2Of64()
    ensures Pow2(64) == TWO64
  {
    Pow2Values();
  }

  // ---------------------------------------------------------------------
  // Single bits

  /** Bit j of x is set. */
  predicate BitSet(x: nat, j: nat)
  {
    (x / Pow2(j)) % 2 == 1
  }

  /** Bit j of x, for j >= 1, is bit j - 1 of x / 2. */
  lemma {:induction false} BitOfHalf(x: nat, j: nat)
    requires j >= 1
    ensures BitSet(x, j) == BitSet(x / 2, j - 1)
  {
    DivDiv(x, 2, Pow2(j - 1));
  }

  /** x / 2 and x % 2 of a value written as 2 * h + r. */
  lemma {:induction false} HalfOf(x: nat, h: nat, r: nat)
    requires r < 2 && x == 2 * h + r
    ensures x / 2 == h && x % 2 == r
  {
    DivModUnique(x, 2, h, r);
  }

  /** A bit of a & b is set exactly when it is set in both. */
  lemma {:induction false} AndBit(a: nat, b: nat, j: nat)
    ensures BitSet(And(a, b), j) == (BitSet(a, j) && BitSet(b, j))
    decreases j
  {
    if a == 0 || b == 0 {
      assert 0 / Pow2(j) == 0;
    } else {
      var h := And(a / 2, b / 2);
      var r := if a % 2 == 1 && b % 2 == 1 then 1 else 0;
      HalfOf(And(a, b), h, r);
      if j >= 1 {
        BitOfHalf(And(a, b), j);
        BitOfHalf(a, j);
        BitOfHalf(b, j);
        AndBit(a / 2, b / 2, j - 1);
      }
    }
  }

  /** Below bit w, a bit of ~x is set exactly when it is clear in x. */
  lemma {:induction false} NotBit(x: nat, w: nat, j: nat)
    requires x < Pow2(w) && j < w
    ensures BitSet(Not(x, w), j) == !BitSet(x, j)
    decreases w
  {
    var p, h, r := Pow2(w - 1), x / 2, x % 2;
    assert Pow2(w) == 2 * p;
    assert x == 2 * h + r && h < p;
    var n := Not(x, w);
    assert n == 2 * (p - 1 - h) + (1 - r);
    HalfOf(n, p - 1 - h, 1 - r);
    if j == 0 {
      assert n / Pow2(0) == n && x / Pow2(0) == x;
    } else {
      BitOfHalf(n, j);
      BitOfHalf(x, j);
      NotBit(h, w - 1, j - 1);
    }
  }

  /** 2^i has bit i set and no other. */
  lemma {:induction false} Pow2Bit(i: nat, j: nat)
    ensures BitSet(Pow2(i), j) == (i == j)
    decreases i
  {
    if i == 0 {
      if j >= 1 {
        BitOfHalf(1, j);
        assert 0 / Pow2(j - 1) == 0;
      }
    } else {
      HalfOf(Pow2(i), Pow2(i - 1), 0);
      if j >= 1 {
        BitOfHalf(Pow2(i), j);
        Pow2Bit(i - 1, j - 1);
      }
    }
  }

  /** x & ~(1 << i) on w bits: bit i goes off, every other bit stays. */
  lemma {:induction false} ClearBit(x: nat, i: nat, w: nat, j: nat)
    requires i < w && j < w
    ensures Pow2(i) < Pow2(w)
    ensures BitSet(And(x, Not(Pow2(i), w)), j) == (j != i && BitSet(x, j))
  {
    Pow2Monotone(i + 1, w);
    AndBit(x, Not(Pow2(i), w), j);
    NotBit(Pow2(i), w, j);
    Pow2Bit(i, j);
  }

  /** Every bit below w of 2^w - 1, the all-ones w-bit value, is set. */
  lemma {:induction false} AllOnes(w: nat, j: nat)
    requires j < w
    ensures BitSet(Pow2(w) - 1, j)
  {
    NotBit(0, w, j);
    assert 0 / Pow2(j) == 0;
  }
}
