/**
 * The portable-type macros of the storage engine: rounding up to a
 * power-of-two boundary, and splitting 64-bit integers into 32-bit halves
 * and joining them again.
 */
module StdTp {
  import opened Bits

  type nat4 = uint32
  type nat8 = uint64
  type int4 = int32
  type int8 = int64

  /**
   * DOALIGN(x, b) on w-bit unsigned operands: `(x + b - 1) & ~(b - 1)`,
   * with the sum wrapping around modulo 2^w as the C expression does.
   */
  function DoAlign(x: nat, b: nat, w: nat): nat
    requires 0 < b <= Pow2(w) && x < Pow2(w)
  {
    And((x + b - 1) % Pow2(w), Not(b - 1, w))
  }

  /**
   * For a power-of-two boundary b and no wrap-around, DOALIGN(x, b) is the
   * least multiple of b that is not below x.
   */
  lemma {:induction false} DoAlignRoundsUp(x: nat, k: nat, w: nat)
    requires k <= w && x + Pow2(k) - 1 < Pow2(w)
    ensures Pow2(k) <= Pow2(w)
    ensures var r := DoAlign(x, Pow2(k), w);
      r % Pow2(k) == 0 && x <= r < x + Pow2(k)
  {
    Pow2Monotone(k, w);
    DoAlignValue(x, k, w);
    RoundDownIsMultiple(x + Pow2(k) - 1, Pow2(k));
  }

  lemma {:induction false} DoAlignValue(x: nat, k: nat, w: nat)
    requires k <= w && x + Pow2(k) - 1 < Pow2(w)
    ensures Pow2(k) <= Pow2(w)
    ensures DoAlign(x, Pow2(k), w) == (x + Pow2(k) - 1) - (x + Pow2(k) - 1) % Pow2(k)
  {
    Pow2Monotone(k, w);
    var b, m := Pow2(k), Pow2(w);
    var v := x + b - 1;
    DivModUnique(v, m, 0, v);
    DoAlignMask(x, b, w, v);
    AndHighMask(v, w, k);
  }

  /** Without wrap-around, DOALIGN masks the plain sum. */
  lemma {:induction false} DoAlignMask(x: nat, b: nat, w: nat, v: nat)
    requires 0 < b <= Pow2(w) && x < Pow2(w) && v == x + b - 1 && v % Pow2(w) == v
    ensures DoAlign(x, b, w) == And(v, Pow2(w) - b)
  {
  }

  lemma {:induction false} RoundDownIsMultiple(v: nat, b: nat)
    requires b > 0
    ensures (v - v % b) % b == 0 && v - b < v - v % b <= v
  {
    var q := v / b;
    assert v == q * b + v % b;
    DivModUnique(v - v % b, b, q, 0);
  }

  /** (db_nat4)(x): the low 32 bits of a 64-bit unsigned value. */
  function Nat8LowPart(x: nat8): nat4
  {
    x % TWO32
  }

  /** (db_nat4)((db_nat8)(x) >> 32). */
  function Nat8HighPart(x: nat8): nat4
  {
    x / TWO32
  }

  /** cons_nat8(hi, lo): `((db_nat8)hi << 32) | (db_nat4)lo`. */
  function ConsNat8(hi: nat4, lo: nat4): (r: nat8)
    ensures Nat8HighPart(r) == hi && Nat8LowPart(r) == lo
  {
    Pow2Values();
    OrShifted(hi, lo, 32);
    DivModUnique(hi * TWO32 + lo, TWO32, hi, lo);
    Or(hi * TWO32, lo)
  }

  /** Joining the two halves of a 64-bit unsigned value gives it back. */
  lemma {:induction false} Nat8RoundTrip(x: nat8)
    ensures ConsNat8(Nat8HighPart(x), Nat8LowPart(x)) == x
  {
    Pow2Values();
    OrShifted(Nat8HighPart(x), Nat8LowPart(x), 32);
  }

  /** (db_int4) of a 32-bit pattern: two's complement reinterpretation. */
  function ToInt4(v: nat4): int4
  {
    if v < 0x8000_0000 then v else v - TWO32
  }

  /** (db_int8) of a 64-bit pattern. */
  function ToInt8(v: nat8): int8
  {
    if v < 0x8000_0000_0000_0000 then v else v - TWO64
  }

  /** int8_low_part(x): `(db_int4)(x)`, the low 32 bits read as signed. */
  function Int8LowPart(x: int8): int4
  {
    ToInt4(x % TWO32)
  }

  /** int8_high_part(x): `(db_int4)((db_int8)(x) >> 32)`, an arithmetic shift. */
  function Int8HighPart(x: int8): int4
  {
    x / TWO32
  }

  /**
   * cons_int8(hi, lo): `((db_int8)hi << 32) | (db_nat4)lo`, evaluated on
   * the 64-bit two's complement patterns.
   */
  function ConsInt8(hi: int4, lo: int4): (r: int8)
    ensures Int8HighPart(r) == hi && Int8LowPart(r) == lo
  {
    var h: nat := hi % TWO32;
    var l: nat := lo % TWO32;
    ConsInt8Value(hi, lo);
    ToInt8(Or((hi * TWO32) % TWO64, l))
  }

  lemma {:induction false} ConsInt8Value(hi: int4, lo: int4)
    ensures (hi * TWO32) % TWO64 == (hi % TWO32) * TWO32
    ensures Or((hi * TWO32) % TWO64, lo % TWO32) == (hi % TWO32) * TWO32 + lo % TWO32
    ensures ToInt8(Or((hi * TWO32) % TWO64, lo % TWO32)) == hi * TWO32 + lo % TWO32
    ensures (hi * TWO32 + lo % TWO32) / TWO32 == hi
    ensures (hi * TWO32 + lo % TWO32) % TWO32 == lo % TWO32
    ensures ToInt4(lo % TWO32) == lo
  {
    var h := hi % TWO32;
    var l := lo % TWO32;
    Pow2Of32();
    if hi >= 0 {
      DivModUnique(hi, TWO32, 0, hi);
      MulLe(TWO32, hi, 0x7FFF_FFFF);
      DivModUnique(hi * TWO32, TWO64, 0, hi * TWO32);
      assert h * TWO32 <= 0x7FFF_FFFF * TWO32;
    } else {
      DivModUnique(hi, TWO32, -1, hi + TWO32);
      MulLe(TWO32, hi + TWO32, TWO32 - 1);
      MulLe(TWO32, 0x8000_0000, hi + TWO32);
      DivModUnique(hi * TWO32, TWO64, -1, h * TWO32);
      assert h * TWO32 == hi * TWO32 + TWO64;
      assert h * TWO32 >= 0x8000_0000 * TWO32;
    }
    if lo >= 0 {
      DivModUnique(lo, TWO32, 0, lo);
    } else {
      DivModUnique(lo, TWO32, -1, lo + TWO32);
    }
    OrShifted(h, l, 32);
    DivModUnique(hi * TWO32 + l, TWO32, hi, l);
  }

  /** Joining the two signed halves of a 64-bit signed value gives it back. */
  lemma {:induction false} Int8RoundTrip(x: int8)
    ensures ConsInt8(Int8HighPart(x), Int8LowPart(x)) == x
  {
    var hi := Int8HighPart(x);
    var lo := Int8LowPart(x);
    ConsInt8Value(hi, lo);
    assert lo % TWO32 == x % TWO32;
  }
}
