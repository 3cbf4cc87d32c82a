/**
 * Inline helpers of the JavaScript engine's C utility header: minimum and
 * maximum, unaligned 32-bit loads and stores, byte swaps, UTF-16 surrogate
 * pairs (Unicode section 3.9, definition D91) and hexadecimal digits.
 */
module CUtils {
  import opened Bits

  function MaxInt(a: int32, b: int32): (r: int32)
    ensures r >= a && r >= b && (r == a || r == b)
  {
    if a > b then a else b
  }

  function MinInt(a: int32, b: int32): (r: int32)
    ensures r <= a && r <= b && (r == a || r == b)
  {
    if a < b then a else b
  }

  /** clz32: the number of leading zero bits of a non-zero 32-bit value. */
  function Clz32(a: uint32): (r: nat)
    requires a != 0
    ensures r <= 31 && Pow2(31 - r) <= a < Pow2(32 - r)
  {
    Pow2Of32();
    BitLengthBound(a, 32);
    32 - BitLength(a)
  }

  /** clz64: the number of leading zero bits of a non-zero 64-bit value. */
  function Clz64(a: uint64): (r: nat)
    requires a != 0
    ensures r <= 63 && Pow2(63 - r) <= a < Pow2(64 - r)
  {
    Pow2Of64();
    BitLengthBound(a, 64);
    64 - BitLength(a)
  }

  // ---------------------------------------------------------------------
  // 32-bit loads and stores. The header goes through a packed struct, so
  // the byte order is the host's; the model fixes it to little-endian.

  /** The four bytes of v, least significant first. */
  function U32Bytes(v: uint32): (s: seq<uint8>)
    ensures |s| == 4
  {
    [v % 0x100, (v / 0x100) % 0x100, (v / 0x1_0000) % 0x100, v / 0x100_0000]
  }

  function GetU32(tab: seq<uint8>, off: nat): (v: uint32)
    requires off + 4 <= |tab|
    ensures U32Bytes(v) == tab[off..off + 4]
  {
    var b0: int, b1: int, b2: int, b3: int := tab[off], tab[off + 1], tab[off + 2], tab[off + 3];
    GetU32Bytes(b0, b1, b2, b3);
    b0 + 0x100 * b1 + 0x1_0000 * b2 + 0x100_0000 * b3
  }

  lemma {:induction false} GetU32Bytes(b0: uint8, b1: uint8, b2: uint8, b3: uint8)
    ensures var v := b0 + 0x100 * b1 + 0x1_0000 * b2 + 0x100_0000 * b3;
      v < TWO32 && U32Bytes(v) == [b0, b1, b2, b3]
  {
    var v: int := b0 + 0x100 * b1 + 0x1_0000 * b2 + 0x100_0000 * b3;
    DivModUnique(v, 0x100, b1 + 0x100 * b2 + 0x1_0000 * b3, b0);
    DivModUnique(v, 0x1_0000, b2 + 0x100 * b3, b0 + 0x100 * b1);
    DivModUnique(v, 0x100_0000, b3, b0 + 0x100 * b1 + 0x1_0000 * b2);
    DivModUnique(b1 + 0x100 * b2 + 0x1_0000 * b3, 0x100, b2 + 0x100 * b3, b1);
    DivModUnique(b2 + 0x100 * b3, 0x100, b3, b2);
  }

  /** Storing v and loading it back gives v. */
  lemma {:induction false} GetPutU32(v: uint32)
    ensures GetU32(U32Bytes(v), 0) == v
  {
    var s := U32Bytes(v);
    var b0, b1, b2, b3 := s[0], s[1], s[2], s[3];
    assert v / 0x100 == b1 + 0x100 * ((v / 0x100) / 0x100);
    assert (v / 0x100) / 0x100 == v / 0x1_0000;
    assert v / 0x1_0000 == b2 + 0x100 * ((v / 0x1_0000) / 0x100);
    assert (v / 0x1_0000) / 0x100 == v / 0x100_0000;
  }

  /** put_u32: overwrites the four bytes at off and nothing else. */
  method PutU32(tab: array<uint8>, off: nat, v: uint32)
    requires off + 4 <= tab.Length
    modifies tab
    ensures tab[..] == old(tab[..off]) + U32Bytes(v) + old(tab[off + 4..])
    ensures GetU32(tab[..], off) == v
  {
    var b := U32Bytes(v);
    tab[off] := b[0];
    tab[off + 1] := b[1];
    tab[off + 2] := b[2];
    tab[off + 3] := b[3];
    assert tab[..] == old(tab[..off]) + b + old(tab[off + 4..]);
    assert tab[..][off..off + 4] == b;
    GetPutU32(v);
  }

  // ---------------------------------------------------------------------
  // Byte swaps.

  // Byte k of a value v is `(v >> 8k) & 0xFF`; the contracts below name
  // each byte with literal shifts. The bswap64 masks `0xff << (k * 8)` are
  // written out as literals.

  function BSwap16(x: bv16): (r: bv16)
    ensures r & 0xFF == x >> 8 && r >> 8 == x & 0xFF
  {
    (x >> 8) | (x << 8)
  }

  function BSwap32(v: bv32): (r: bv32)
    ensures r & 0xFF == v >> 24 && (r >> 8) & 0xFF == (v >> 16) & 0xFF
    ensures (r >> 16) & 0xFF == (v >> 8) & 0xFF && r >> 24 == v & 0xFF
  {
    ((v & 0xff000000) >> 24) | ((v & 0x00ff0000) >> 8) |
    ((v & 0x0000ff00) << 8) | ((v & 0x000000ff) << 24)
  }

  function BSwap64(v: bv64): (r: bv64)
    ensures r & 0xFF == v >> 56 && (r >> 8) & 0xFF == (v >> 48) & 0xFF
    ensures (r >> 16) & 0xFF == (v >> 40) & 0xFF && (r >> 24) & 0xFF == (v >> 32) & 0xFF
    ensures (r >> 32) & 0xFF == (v >> 24) & 0xFF && (r >> 40) & 0xFF == (v >> 16) & 0xFF
    ensures (r >> 48) & 0xFF == (v >> 8) & 0xFF && r >> 56 == v & 0xFF
  {
    ((v & 0xff00_0000_0000_0000) >> 56) |
    ((v & 0x00ff_0000_0000_0000) >> 40) |
    ((v & 0x0000_ff00_0000_0000) >> 24) |
    ((v & 0x0000_00ff_0000_0000) >> 8) |
    ((v & 0x0000_0000_ff00_0000) << 8) |
    ((v & 0x0000_0000_00ff_0000) << 24) |
    ((v & 0x0000_0000_0000_ff00) << 40) |
    ((v & 0x0000_0000_0000_00ff) << 56)
  }

  lemma {:induction false} BSwapInvolutions(a: bv16, b: bv32, c: bv64)
    ensures BSwap16(BSwap16(a)) == a
    ensures BSwap32(BSwap32(b)) == b
    ensures BSwap64(BSwap64(c)) == c
  {
  }

  // ---------------------------------------------------------------------
  // UTF-16 surrogates, on uint32 code units with C's wrap-around.

  // A right shift by k is a division by 2^k, written with its literal value.

  /** is_surrogate: `(c >> 11) == (0xD800 >> 11)`. */
  predicate IsSurrogate(c: uint32)
  {
    c / 0x800 == 0xD800 / 0x800
  }

  /** is_hi_surrogate: `(c >> 10) == (0xD800 >> 10)`. */
  predicate IsHiSurrogate(c: uint32)
  {
    c / 0x400 == 0xD800 / 0x400
  }

  /** is_lo_surrogate: `(c >> 10) == (0xDC00 >> 10)`. */
  predicate IsLoSurrogate(c: uint32)
  {
    c / 0x400 == 0xDC00 / 0x400
  }

  /** The surrogate tests select exactly the ranges their comments name. */
  lemma {:induction false} SurrogateRanges(c: uint32)
    ensures IsSurrogate(c) <==> 0xD800 <= c <= 0xDFFF
    ensures IsHiSurrogate(c) <==> 0xD800 <= c <= 0xDBFF
    ensures IsLoSurrogate(c) <==> 0xDC00 <= c <= 0xDFFF
  {
  }

  /** get_hi_surrogate: `(c >> 10) - (0x10000 >> 10) + 0xD800` in uint32. */
  function GetHiSurrogate(c: uint32): uint32
  {
    (c / 0x400 - 0x10000 / 0x400 + 0xD800) % TWO32
  }

  /** get_lo_surrogate: `(c & 0x3FF) | 0xDC00`. */
  function GetLoSurrogate(c: uint32): uint32
  {
    LoSurrogateValue(c);
    Or(And(c, 0x3FF), 0xDC00)
  }

  lemma {:induction false} LoSurrogateValue(c: uint32)
    ensures Or(And(c, 0x3FF), 0xDC00) == 0xDC00 + c % 0x400
  {
    Pow2Of10();
    AndLowMask(c, 10);
    OrShifted(0x37, c % 0x400, 10);
    OrCommutes(0xDC00, c % 0x400);
  }

  /** from_surrogate: `0x10000 + 0x400 * (hi - 0xD800) + (lo - 0xDC00)` in uint32. */
  function FromSurrogate(hi: uint32, lo: uint32): uint32
  {
    (0x10000 + 0x400 * (hi - 0xD800) + (lo - 0xDC00)) % TWO32
  }

  /** Splitting a supplementary code point and joining the halves gives it back. */
  lemma {:induction false} SurrogateSplitJoin(c: uint32)
    requires 0x10000 <= c <= 0x10FFFF
    ensures IsHiSurrogate(GetHiSurrogate(c)) && IsLoSurrogate(GetLoSurrogate(c))
    ensures FromSurrogate(GetHiSurrogate(c), GetLoSurrogate(c)) == c
  {
    LoSurrogateValue(c);
    var hi := c / 0x400 - 0x40 + 0xD800;
    assert GetHiSurrogate(c) == hi;
    SurrogateRanges(hi);
    SurrogateRanges(GetLoSurrogate(c));
    assert c == 0x400 * (c / 0x400) + c % 0x400;
  }

  /** Joining a high and a low surrogate and splitting the result gives them back. */
  lemma {:induction false} SurrogateJoinSplit(hi: uint32, lo: uint32)
    requires IsHiSurrogate(hi) && IsLoSurrogate(lo)
    ensures 0x10000 <= FromSurrogate(hi, lo) <= 0x10FFFF
    ensures GetHiSurrogate(FromSurrogate(hi, lo)) == hi
    ensures GetLoSurrogate(FromSurrogate(hi, lo)) == lo
  {
    SurrogateRanges(hi);
    SurrogateRanges(lo);
    var c := 0x10000 + 0x400 * (hi - 0xD800) + (lo - 0xDC00);
    assert FromSurrogate(hi, lo) == c;
    JoinedHalves(hi, lo, c);
  }

  lemma {:induction false} JoinedHalves(hi: uint32, lo: uint32, c: uint32)
    requires 0xD800 <= hi <= 0xDBFF && 0xDC00 <= lo <= 0xDFFF
    requires c == 0x10000 + 0x400 * (hi - 0xD800) + (lo - 0xDC00)
    ensures GetHiSurrogate(c) == hi && GetLoSurrogate(c) == lo
  {
    DivModUnique(c, 0x400, 0x40 + hi - 0xD800, lo - 0xDC00);
    LoSurrogateValue(c);
  }

  // ---------------------------------------------------------------------

  const LOWER_HEX_DIGITS: string := "0123456789abcdef"
  const UPPER_HEX_DIGITS: string := "0123456789ABCDEF"

  /** from_hex: the value of a hexadecimal digit in either case, or -1. */
  function FromHex(c: int): (r: int)
    ensures -1 <= r < 16
    ensures r >= 0 ==> c == LOWER_HEX_DIGITS[r] as int || c == UPPER_HEX_DIGITS[r] as int
    ensures forall d | 0 <= d < 16 :: c == LOWER_HEX_DIGITS[d] as int || c == UPPER_HEX_DIGITS[d] as int ==> r == d
  {
    if '0' as int <= c <= '9' as int then c - '0' as int
    else if 'A' as int <= c <= 'F' as int then c - 'A' as int + 10
    else if 'a' as int <= c <= 'f' as int then c - 'a' as int + 10
    else -1
  }
}
