/**
 * Integer helpers of the floating-point conversion code: the integer power
 * a^b in 64-bit arithmetic and floor(a / log2(radix)) for power-of-two
 * radices.
 */
module DtoaInt {
  import opened Bits
  import opened CUtils

  /** a^b over the unbounded naturals. */
  function Pow(a: nat, b: nat): (r: nat)
    ensures a > 0 ==> r > 0
  {
    if b == 0 then 1 else a * Pow(a, b - 1)
  }

  /** pow5_table[k - 1]: the low 32 bits of 5^k for k = 1 .. 17. */
  const POW5_TABLE: seq<uint32> := [
    0x00000005, 0x00000019, 0x0000007d, 0x00000271,
    0x00000c35, 0x00003d09, 0x0001312d, 0x0005f5e1,
    0x001dcd65, 0x009502f9, 0x02e90edd, 0x0e8d4a51,
    0x48c27395, 0x6bcc41e9, 0x1afd498d, 0x86f26fc1,
    0xa2bc2ec5]

  /** pow5h_table[k - 14]: the high 32 bits of 5^k for k = 14 .. 17. */
  const POW5H_TABLE: seq<uint8> := [0x01, 0x07, 0x23, 0xb1]

  /**
   * pow_ui(a, b): a^b in uint64 arithmetic. Small powers of 5 and 10 come
   * from the tables; every other power is computed by left-to-right
   * square-and-multiply over the bits of b.
   */
  method PowUi(a: uint32, b: uint32) returns (r: uint64)
    ensures r == Pow(a, b) % TWO64
  {
    if b == 0 {
      return 1;
    }
    if b == 1 {
      return a;
    }
    if (a == 5 || a == 10) && b <= 17 {
      r := Pow5FromTable(b);
      if a == 10 {
        Pow10Fits(b);
        r := (r * Pow2(b)) % TWO64;
      }
      return;
    }
    r := SquareMultiply(a, b);
  }

  /** The general path of pow_ui, for b >= 2. */
  method SquareMultiply(a: uint32, b: uint32) returns (r: uint64)
    requires b >= 2
    ensures r == Pow(a, b) % TWO64
  {
    r := a;
    var nBits := 32 - Clz32(b);
    TopBit(b, nBits);
    var i := nBits - 2;
    while i >= 0
      invariant -1 <= i <= nBits - 2
      invariant r == Pow(a, Shr(b, i + 1)) % TWO64
    {
      SquareStep(a, b, i, r);
      r := (r * r) % TWO64;
      AndLowMask(Shr(b, i), 1);
      if And(Shr(b, i), 1) == 1 {
        r := (r * a) % TWO64;
      }
      i := i - 1;
    }
  }

  /** Shifting b right by one less than its bit length leaves its top bit. */
  lemma {:induction false} TopBit(b: nat, n: nat)
    requires n >= 1 && Pow2(n - 1) <= b < Pow2(n)
    ensures Shr(b, n - 1) == 1
  {
    DivModUnique(b, Pow2(n - 1), 1, b - Pow2(n - 1));
  }

  /** The table path: the two table words joined give 5^b. */
  function Pow5FromTable(b: nat): (r: uint64)
    requires 1 <= b <= 17
    ensures r == Pow(5, b)
  {
    var lo := POW5_TABLE[b - 1];
    if b >= 14 then
      Pow5Joined(b);
      Or(lo, POW5H_TABLE[b - 14] * TWO32)
    else
      Pow5Low(b);
      lo
  }

  /** Up to 5^13 the low table alone holds the power. */
  lemma {:induction false} Pow5Low(b: nat)
    requires 1 <= b <= 13
    ensures POW5_TABLE[b - 1] == Pow(5, b)
  {
    Pow5Values();
  }

  /** From 5^14 on the high table supplies the bits above 32. */
  lemma {:induction false} Pow5Joined(b: nat)
    requires 14 <= b <= 17
    ensures Or(POW5_TABLE[b - 1], POW5H_TABLE[b - 14] * TWO32) == Pow(5, b) < TWO64
  {
    Pow5Values();
    var hi, lo := POW5H_TABLE[b - 14], POW5_TABLE[b - 1];
    if b == 14 {
      JoinHalves(0x01, 0x6bcc41e9);
    } else if b == 15 {
      JoinHalves(0x07, 0x1afd498d);
    } else if b == 16 {
      JoinHalves(0x23, 0x86f26fc1);
    } else {
      JoinHalves(0xb1, 0xa2bc2ec5);
    }
  }

  /** Or-ing a low word with a value shifted up by 32 bits adds them. */
  lemma {:induction false} JoinHalves(hi: nat, lo: uint32)
    ensures Or(lo, hi * TWO32) == hi * TWO32 + lo
  {
    Pow2Of32();
    OrShifted(hi, lo, 32);
    OrCommutes(hi * TWO32, lo);
  }

  lemma {:induction false} Pow5Values()
    ensures Pow(5, 1) == 0x5 && Pow(5, 2) == 0x19 && Pow(5, 3) == 0x7d
    ensures Pow(5, 4) == 0x271 && Pow(5, 5) == 0xc35 && Pow(5, 6) == 0x3d09
    ensures Pow(5, 7) == 0x1312d && Pow(5, 8) == 0x5f5e1 && Pow(5, 9) == 0x1dcd65
    ensures Pow(5, 10) == 0x9502f9 && Pow(5, 11) == 0x2e90edd && Pow(5, 12) == 0xe8d4a51
    ensures Pow(5, 13) == 0x48c27395 && Pow(5, 14) == 0x1_6bcc41e9
    ensures Pow(5, 15) == 0x7_1afd498d && Pow(5, 16) == 0x23_86f26fc1
    ensures Pow(5, 17) == 0xb1_a2bc2ec5
  {
    assert Pow(5, 4) == 0x271;
    assert Pow(5, 8) == 0x5f5e1;
    assert Pow(5, 12) == 0xe8d4a51;
    assert Pow(5, 16) == 0x23_86f26fc1;
  }

  lemma {:induction false} PowMul(a: nat, c: nat, b: nat)
    ensures Pow(a * c, b) == Pow(a, b) * Pow(c, b)
    decreases b
  {
    if b > 0 {
      PowMul(a, c, b - 1);
      Regroup(a, c, Pow(a, b - 1), Pow(c, b - 1));
    }
  }

  lemma {:induction false} Regroup(a: int, c: int, x: int, y: int)
    ensures (a * c) * (x * y) == (a * x) * (c * y)
  {
  }

  lemma {:induction false} Rotate(a: int, x: int, y: int)
    ensures a * (x * y) == x * (a * y)
  {
  }

  lemma {:induction false} Pow2IsPow(b: nat)
    ensures Pow2(b) == Pow(2, b)
    decreases b
  {
    if b > 0 {
      Pow2IsPow(b - 1);
    }
  }

  lemma {:induction false} PowMonotone(a: nat, m: nat, n: nat)
    requires a >= 1 && m <= n
    ensures Pow(a, m) <= Pow(a, n)
    decreases n
  {
    if m < n {
      PowMonotone(a, m, n - 1);
      MulLe(Pow(a, n - 1), 1, a);
    }
  }

  /** 10^b = 5^b * 2^b, and for b <= 17 it fits in 64 bits. */
  lemma {:induction false} Pow10Fits(b: nat)
    requires b <= 17
    ensures Pow(10, b) == Pow(5, b) * Pow2(b) < TWO64
  {
    PowMul(5, 2, b);
    Pow2IsPow(b);
    PowMonotone(10, b, 17);
    assert Pow(10, 4) == 10000;
    assert Pow(10, 8) == 100000000;
    assert Pow(10, 12) == 1000000000000;
    assert Pow(10, 16) == 10000000000000000;
  }

  lemma {:induction false} PowAdd(a: nat, m: nat, n: nat)
    ensures Pow(a, m + n) == Pow(a, m) * Pow(a, n)
    decreases n
  {
    if n > 0 {
      PowAdd(a, m, n - 1);
      assert Pow(a, m + n) == a * Pow(a, m + n - 1);
      Rotate(a, Pow(a, m), Pow(a, n - 1));
    }
  }

  /** Reducing the factors modulo m does not change the product modulo m. */
  lemma {:induction false} ModMul(x: nat, y: nat, m: nat)
    requires m > 0
    ensures ((x % m) * y) % m == (x * y) % m
  {
    var q := x / m;
    assert x * y == (q * y) * m + (x % m) * y;
    ModAddMultiple((x % m) * y, q * y, m);
  }

  lemma {:induction false} ModAddMultiple(v: nat, k: nat, m: nat)
    requires m > 0
    ensures (k * m + v) % m == v % m
  {
    DivModUnique(k * m + v, m, k + v / m, v % m);
  }

  /**
   * One round of square-and-multiply: with r = a^e mod 2^64 for
   * e = b >> (i + 1), squaring and then multiplying by a when bit i of b
   * is set gives a^(b >> i) mod 2^64.
   */
  lemma {:induction false} SquareStep(a: nat, b: nat, i: nat, r: nat)
    requires r == Pow(a, Shr(b, i + 1)) % TWO64
    ensures var r2 := (r * r) % TWO64; var x := Shr(b, i);
      (x % 2 == 0 ==> r2 == Pow(a, x) % TWO64) &&
      (x % 2 == 1 ==> (r2 * a) % TWO64 == Pow(a, x) % TWO64)
  {
    HalveStep(b, i);
    SquareStepArith(a, Shr(b, i + 1), Shr(b, i), r);
  }

  lemma {:induction false} SquareStepArith(a: nat, e: nat, x: nat, r: nat)
    requires r == Pow(a, e) % TWO64 && x == 2 * e + x % 2
    ensures var r2 := (r * r) % TWO64;
      (x % 2 == 0 ==> r2 == Pow(a, x) % TWO64) &&
      (x % 2 == 1 ==> (r2 * a) % TWO64 == Pow(a, x) % TWO64)
  {
    var p := Pow(a, e);
    SquareMod(p, r, TWO64);
    PowAdd(a, e, e);
    if x % 2 == 1 {
      PowAdd(a, 2 * e, 1);
      ModMul(p * p, a, TWO64);
    }
  }

  lemma {:induction false} SquareMod(p: nat, r: nat, m: nat)
    requires m > 0 && r == p % m
    ensures (r * r) % m == (p * p) % m
  {
    ModMul(p, r, m);
    ModMul(p, p, m);
    assert p * r == r * p;
  }

  lemma {:induction false} HalveStep(b: nat, i: nat)
    ensures Shr(b, i) == 2 * Shr(b, i + 1) + Shr(b, i) % 2
  {
    DivDiv(b, Pow2(i), 2);
    assert Pow2(i) * 2 == Pow2(i + 1);
  }

  /**
   * mul_log2_radix, power-of-two branch: with radix = 2^k, the result is
   * floor(a / k). Negative a is biased by k - 1 first because C's division
   * truncates toward zero.
   */
  function MulLog2Radix(a: int32, radix: uint32): (r: int)
    requires -2048 <= a <= 2047
    requires 2 <= radix <= 36 && And(radix, radix - 1) == 0
    ensures var k := 31 - Clz32(radix);
      1 <= k <= 5 && Pow2(k) == radix && k * r <= a < k * (r + 1)
  {
    var radixBits := 31 - Clz32(radix);
    RadixBits(radix);
    BiasedDivIsFloor(a, radixBits);
    var a' := if a < 0 then a - (radixBits - 1) else a;
    CDiv(a', radixBits)
  }

  /** For a power-of-two radix in 2 .. 36, `31 - clz32(radix)` is its logarithm. */
  lemma {:induction false} RadixBits(radix: uint32)
    requires 2 <= radix <= 36 && And(radix, radix - 1) == 0
    ensures var k := 31 - Clz32(radix);
      1 <= k <= 5 && Pow2(k) == radix
  {
    PowerOfTwoTest(radix);
    var b := BitLength(radix);
    assert 31 - Clz32(radix) == b - 1 && Pow2(b - 1) == radix;
    assert Pow2(6) == 64;
    BitLengthBound(radix, 6);
  }

  /** Truncating division after the bias is floor division. */
  lemma {:induction false} BiasedDivIsFloor(a: int, k: int)
    requires 1 <= k
    ensures var r := CDiv(if a < 0 then a - (k - 1) else a, k);
      k * r <= a < k * (r + 1)
  {
    if a >= 0 {
      var q, m := a / k, a % k;
      assert a == q * k + m && 0 <= m < k;
      FloorBracket(a, k, q, m);
    } else {
      var n := k - 1 - a;
      var q, m := n / k, n % k;
      assert n == q * k + m && 0 <= m < k;
      FloorBracket(a, k, -q, k - 1 - m);
      assert CDiv(a - (k - 1), k) == -q;
    }
  }

  lemma {:induction false} FloorBracket(a: int, k: int, q: int, m: int)
    requires 0 <= m < k && a == q * k + m
    ensures k * q <= a < k * (q + 1)
  {
    assert k * (q + 1) == q * k + k;
  }
}
