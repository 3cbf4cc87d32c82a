/**
 * Integer-to-text conversion of the floating-point conversion code:
 * u32toa, i32toa, u64toa, u64toa_radix and their fixed-width helpers, and
 * the digit reader to_digit. The converters write into a caller's buffer,
 * so they are methods over an array of characters; what they write is
 * specified by the functions Digits (the digits of n without leading zeros)
 * and Padded (the low len digits of n, zero-filled).
 */
module IntText {
  import opened Bits
  import opened CUtils
  import opened DtoaInt

  /** The character emitted for a digit: `'0' + d` below ten, `'a' + d - 10` from ten on. */
  function DigitChar(d: nat): char
    requires d < 36
  {
    if d < 10 then ('0' as int + d) as char else ('a' as int + d - 10) as char
  }

  predicate IsAlnum(c: int)
  {
    '0' as int <= c <= '9' as int || 'A' as int <= c <= 'Z' as int || 'a' as int <= c <= 'z' as int
  }

  /** to_digit: the value of a digit or letter in either case, and 36 for anything else. */
  function ToDigit(c: int): (r: nat)
    ensures r <= 36 && (r < 36 <==> IsAlnum(c))
    ensures r < 10 ==> c == '0' as int + r
    ensures 10 <= r < 36 ==> c == 'a' as int + r - 10 || c == 'A' as int + r - 10
  {
    if '0' as int <= c <= '9' as int then c - '0' as int
    else if 'A' as int <= c <= 'Z' as int then c - 'A' as int + 10
    else if 'a' as int <= c <= 'z' as int then c - 'a' as int + 10
    else 36
  }

  /** The digits of n in the given radix, most significant first, without leading zeros. */
  function Digits(n: nat, radix: nat): (s: seq<char>)
    requires 2 <= radix <= 36
    ensures |s| >= 1
    decreases n
  {
    if n < radix then [DigitChar(n)]
    else Digits(n / radix, radix) + [DigitChar(n % radix)]
  }

  /** The low len digits of n, most significant first, zero-filled on the left. */
  function Padded(n: nat, radix: nat, len: nat): (s: seq<char>)
    requires 2 <= radix <= 36
    ensures |s| == len
  {
    if len == 0 then [] else Padded(n / radix, radix, len - 1) + [DigitChar(n % radix)]
  }

  /** Reads digits back, most significant first. */
  function ParseDigits(s: seq<char>, radix: nat): nat
  {
    if s == [] then 0 else ParseDigits(s[..|s| - 1], radix) * radix + ToDigit(s[|s| - 1] as int)
  }

  /** n with its k lowest digits in the radix dropped. */
  function Drop(n: nat, radix: nat, k: nat): nat
    requires radix >= 1
  {
    n / Pow(radix, k)
  }

  /** after is before with s written over it from index off on. */
  predicate Spliced(after: seq<char>, before: seq<char>, off: nat, s: seq<char>)
  {
    off + |s| <= |before| && after == before[..off] + s + before[off + |s|..]
  }

  /** i32toa's output: a minus sign before the digits of a negative value. */
  function SignedDigits(n: int): seq<char>
  {
    if n >= 0 then Digits(n, 10) else ['-'] + Digits(-n, 10)
  }

  // ---------------------------------------------------------------------
  // Facts about the digit strings.

  lemma {:induction false} DivMulBack(n: nat, r: nat)
    requires 2 <= r
    ensures (n / r) * r + n % r == n && 0 <= n % r < r && 0 <= n / r
  {
  }

  /** The division facts one step of the digit recursion needs. */
  lemma {:induction false} QuotFacts(n: nat, r: nat)
    requires 2 <= r
    ensures n == r * (n / r) + n % r && 0 <= n % r < r && 0 <= n / r <= n
    ensures n >= r ==> 1 <= n / r < n
    ensures n < r ==> n / r == 0 && n % r == n
  {
    var q, m := n / r, n % r;
    assert n == r * q + m && 0 <= m < r;
    DivNonNeg(n, r);
    QuotBound(n, r, q, m);
  }

  lemma {:induction false} QuotBound(n: int, r: int, q: int, m: int)
    requires 2 <= r && 0 <= q && 0 <= m < r && n == r * q + m
    ensures q <= n && (n >= r ==> 1 <= q < n) && (n < r ==> q == 0)
  {
    MulNonNeg(r - 2, q);
    if q >= 1 {
      MulNonNeg(r, q - 1);
    }
  }

  /** Reading back the digits of n gives n. */
  lemma {:induction false} ParseDigitsInverse(n: nat, radix: nat)
    requires 2 <= radix <= 36
    ensures ParseDigits(Digits(n, radix), radix) == n
    decreases n
  {
    if n < radix {
      DigitRoundTrip(n);
      assert Digits(n, radix)[..0] == [];
    } else {
      QuotFacts(n, radix);
      ParseDigitsInverse(n / radix, radix);
      ParseDigitsRec(n, radix);
    }
  }

  lemma {:induction false} ParseDigitsRec(n: nat, radix: nat)
    requires 2 <= radix <= n && radix <= 36
    requires ParseDigits(Digits(n / radix, radix), radix) == n / radix
    ensures ParseDigits(Digits(n, radix), radix) == n
  {
    DivMulBack(n, radix);
    ParseDigitsStep(Digits(n / radix, radix), radix, n / radix, n % radix);
  }

  lemma {:induction false} ParseDigitsStep(s: seq<char>, radix: nat, q: nat, d: nat)
    requires 2 <= radix <= 36 && d < radix && ParseDigits(s, radix) == q
    ensures ParseDigits(s + [DigitChar(d)], radix) == q * radix + d
  {
    DigitRoundTrip(d);
    assert (s + [DigitChar(d)])[..|s|] == s;
  }

  /** to_digit reads back the character emitted for a digit. */
  lemma {:induction false} DigitRoundTrip(d: nat)
    requires d < 36
    ensures ToDigit(DigitChar(d) as int) == d
  {
  }

  /** The first digit of a non-zero value is not '0'. */
  lemma {:induction false} DigitsNoLeadingZero(n: nat, radix: nat)
    requires 2 <= radix <= 36 && n > 0
    ensures Digits(n, radix)[0] != '0'
    decreases n
  {
    if n >= radix {
      QuotFacts(n, radix);
      DigitsNoLeadingZero(n / radix, radix);
    }
  }

  /** The digit count K of n satisfies radix^(K-1) <= n < radix^K (n < radix when K = 1). */
  lemma {:induction false} DigitsBounds(n: nat, radix: nat)
    requires 2 <= radix <= 36
    ensures var k := |Digits(n, radix)|;
      n < Pow(radix, k) && (k >= 2 ==> Pow(radix, k - 1) <= n)
    decreases n
  {
    if n >= radix {
      QuotFacts(n, radix);
      var k' := |Digits(n / radix, radix)|;
      DigitsBounds(n / radix, radix);
      DivBounds(n, radix, Pow(radix, k'));
      if k' >= 2 {
        DivBounds(n, radix, Pow(radix, k' - 1));
      }
    }
  }

  lemma {:induction false} DivBounds(n: nat, r: nat, p: nat)
    requires r > 0
    ensures n / r < p ==> n < r * p
    ensures p <= n / r ==> r * p <= n
  {
    assert n == r * (n / r) + n % r;
    if n / r < p {
      MulLe(r, n / r + 1, p);
    } else {
      MulLe(r, p, n / r);
    }
  }

  /** A value below radix^w has at most w digits. */
  lemma {:induction false} DigitsFit(n: nat, radix: nat, w: nat)
    requires 2 <= radix <= 36 && w >= 1 && n < Pow(radix, w)
    ensures |Digits(n, radix)| <= w
  {
    var k := |Digits(n, radix)|;
    DigitsBounds(n, radix);
    if k > w && k >= 2 {
      PowMonotone(radix, w, k - 1);
    }
  }

  /** After c >= 1 digits are dropped, nothing is left exactly when n has at most c digits. */
  lemma {:induction false} DropToZero(n: nat, radix: nat, c: nat)
    requires 2 <= radix <= 36 && c >= 1
    ensures Drop(n, radix, c) == 0 <==> |Digits(n, radix)| <= c
  {
    var k := |Digits(n, radix)|;
    DigitsBounds(n, radix);
    if k <= c {
      PowMonotone(radix, k, c);
      DivModUnique(n, Pow(radix, c), 0, n);
    } else {
      PowMonotone(radix, c, k - 1);
      DivBounds(n, Pow(radix, c), 1);
    }
  }

  lemma {:induction false} DropStep(n: nat, radix: nat, t: nat)
    requires radix >= 1
    ensures Drop(n, radix, t) / radix == Drop(n, radix, t + 1)
    ensures Drop(n / radix, radix, t) == Drop(n, radix, t + 1)
  {
    DivDiv(n, Pow(radix, t), radix);
    DivDiv(n, radix, Pow(radix, t));
    assert Pow(radix, t) * radix == radix * Pow(radix, t) == Pow(radix, t + 1);
  }

  lemma {:induction false} DropZero(n: nat, radix: nat)
    requires radix >= 1
    ensures Drop(n, radix, 0) == n
  {
  }

  /** Character i of Padded(n, radix, len) is the digit of weight radix^(len-1-i). */
  lemma {:induction false} PaddedAt(n: nat, radix: nat, len: nat, i: nat)
    requires 2 <= radix <= 36 && i < len
    ensures Padded(n, radix, len)[i] == DigitChar(Drop(n, radix, len - 1 - i) % radix)
    decreases len
  {
    if i == len - 1 {
      DropZero(n, radix);
    } else {
      PaddedAt(n / radix, radix, len - 1, i);
      DropStep(n, radix, len - 2 - i);
    }
  }

  /** With exactly as many places as digits, the padded form is the digit string. */
  lemma {:induction false} DigitsIsPadded(n: nat, radix: nat)
    requires 2 <= radix <= 36
    ensures Digits(n, radix) == Padded(n, radix, |Digits(n, radix)|)
    decreases n
  {
    QuotFacts(n, radix);
    if n >= radix {
      DigitsIsPadded(n / radix, radix);
    }
  }

  /** Writing hi and then the len low digits of lo gives the digits of hi * radix^len + lo. */
  lemma {:induction false} DigitsSplit(n: nat, hi: nat, lo: nat, radix: nat, len: nat)
    requires 2 <= radix <= 36 && hi >= 1 && lo < Pow(radix, len)
    requires n == hi * Pow(radix, len) + lo
    ensures Digits(n, radix) == Digits(hi, radix) + Padded(lo, radix, len)
    decreases len
  {
    if len > 0 {
      QuotFacts(n, radix);
      QuotFacts(lo, radix);
      SplitNumber(hi, lo, radix, len);
      DigitsSplit(n / radix, hi, lo / radix, radix, len - 1);
      DigitsSplitStep(n, radix, lo, len, hi);
    }
  }

  lemma {:induction false} DigitsSplitStep(n: nat, radix: nat, lo: nat, len: nat, hi: nat)
    requires 2 <= radix <= 36 && len >= 1 && n >= radix && n % radix == lo % radix
    requires Digits(n / radix, radix) == Digits(hi, radix) + Padded(lo / radix, radix, len - 1)
    ensures Digits(n, radix) == Digits(hi, radix) + Padded(lo, radix, len)
  {
  }

  /** One digit off hi * radix^len + lo is one digit off lo. */
  lemma {:induction false} SplitNumber(hi: nat, lo: nat, radix: nat, len: nat)
    requires 2 <= radix <= 36 && hi >= 1 && len >= 1 && lo < Pow(radix, len)
    ensures var n := hi * Pow(radix, len) + lo;
      n >= radix && n / radix == hi * Pow(radix, len - 1) + lo / radix && n % radix == lo % radix &&
      lo / radix < Pow(radix, len - 1)
  {
    var p := Pow(radix, len - 1);
    assert Pow(radix, len) == radix * p;
    SplitDivArith(hi, lo, radix, p);
    DivBounds(lo, radix, p);
    PowMonotone(radix, 1, len);
    MulLe(radix * p, 1, hi);
  }

  lemma {:induction false} SplitDivArith(hi: nat, lo: nat, r: nat, p: nat)
    requires r > 0
    ensures (hi * (r * p) + lo) / r == hi * p + lo / r
    ensures (hi * (r * p) + lo) % r == lo % r
  {
    assert hi * (r * p) + lo == (hi * p + lo / r) * r + lo % r;
    DivModUnique(hi * (r * p) + lo, r, hi * p + lo / r, lo % r);
  }

  lemma {:induction false} SplicedPointwise(after: seq<char>, before: seq<char>, off: nat, s: seq<char>)
    requires |after| == |before| && off + |s| <= |before|
    requires forall j | 0 <= j < |after| :: after[j] == (if off <= j < off + |s| then s[j - off] else before[j])
    ensures Spliced(after, before, off, s)
  {
    assert after == before[..off] + s + before[off + |s|..];
  }

  lemma {:induction false} SplicedThen(b0: seq<char>, b1: seq<char>, b2: seq<char>, off: nat, s1: seq<char>, s2: seq<char>)
    requires Spliced(b1, b0, off, s1) && Spliced(b2, b1, off + |s1|, s2)
    ensures Spliced(b2, b0, off, s1 + s2)
  {
    assert b2 == b0[..off] + (s1 + s2) + b0[off + |s1 + s2|..];
  }

  // ---------------------------------------------------------------------
  // The converters.

  /** u32toa_len: the low len decimal digits of n, written right to left. */
  method U32ToaLen(buf: array<char>, off: nat, n: uint32, len: nat)
    requires off + len <= buf.Length
    modifies buf
    ensures Spliced(buf[..], old(buf[..]), off, Padded(n, 10, len))
  {
    ghost var p := Padded(n, 10, len);
    var m: nat := n;
    var i: int := len - 1;
    while i >= 0
      invariant -1 <= i < len
      invariant m == Drop(n, 10, len - 1 - i)
      invariant forall j | 0 <= j < buf.Length ::
        buf[j] == (if off + i < j < off + len then p[j - off] else old(buf[j]))
    {
      PaddedAt(n, 10, len, i);
      DropStep(n, 10, len - 1 - i);
      buf[off + i] := DigitChar(m % 10);
      m := m / 10;
      i := i - 1;
    }
    SplicedPointwise(buf[..], old(buf[..]), off, p);
  }

  /** u64toa_bin_len: the low len digits of n in radix 2^radixBits, by mask and shift. */
  method U64ToaBinLen(buf: array<char>, off: nat, n: uint64, radixBits: nat, len: nat)
    requires 1 <= radixBits <= 5 && off + len <= buf.Length
    modifies buf
    ensures Pow2(radixBits) <= 32
    ensures Spliced(buf[..], old(buf[..]), off, Padded(n, Pow2(radixBits), len))
  {
    assert Pow2(5) == 32;
    Pow2Monotone(radixBits, 5);
    var radix := Pow2(radixBits);
    ghost var p := Padded(n, radix, len);
    var mask := Pow2(radixBits) - 1;
    var m: nat := n;
    var i: int := len - 1;
    while i >= 0
      invariant -1 <= i < len
      invariant m == Drop(n, radix, len - 1 - i)
      invariant forall j | 0 <= j < buf.Length ::
        buf[j] == (if off + i < j < off + len then p[j - off] else old(buf[j]))
    {
      PaddedAt(n, radix, len, i);
      DropStep(n, radix, len - 1 - i);
      AndLowMask(m, radixBits);
      var digit := And(m, mask);
      m := Shr(m, radixBits);
      buf[off + i] := DigitChar(digit);
      i := i - 1;
    }
    SplicedPointwise(buf[..], old(buf[..]), off, p);
  }

  /**
   * The do-while loop shared by u32toa and u64toa_radix: the digits of n,
   * stored right to left so that they end at the end of the scratch buffer.
   */
  method DigitsBackward(buf1: array<char>, n: nat, radix: nat) returns (q: nat)
    requires 2 <= radix <= 36 && |Digits(n, radix)| <= buf1.Length
    modifies buf1
    ensures q + |Digits(n, radix)| == buf1.Length
    ensures forall j | q <= j < buf1.Length :: buf1[j] == Digits(n, radix)[j - q]
  {
    ghost var d := Digits(n, radix);
    ghost var k := |d|;
    ghost var size := buf1.Length;
    DigitsIsPadded(n, radix);
    DropZero(n, radix);
    q := buf1.Length;
    var m: nat := n;
    while true
      invariant size - k <= q <= size
      invariant m == Drop(n, radix, size - q)
      invariant q == size || m != 0
      invariant forall j | q <= j < size :: buf1[j] == d[k - size + j]
      decreases m + q
    {
      if q < size {
        DropToZero(n, radix, size - q);
      }
      PaddedAt(n, radix, k, k - 1 - (size - q));
      DropStep(n, radix, size - q);
      QuotFacts(m, radix);
      var digit := m % radix;
      m := m / radix;
      q := q - 1;
      buf1[q] := DigitChar(digit);
      if m == 0 {
        DropToZero(n, radix, size - q);
        break;
      }
    }
  }

  /** The memcpy that moves the digits built at the tail of the scratch buffer out to buf. */
  method CopyDigits(buf: array<char>, off: nat, src: array<char>, q: nat, len: nat, ghost d: seq<char>)
    requires len == |d| && src != buf && q + len <= src.Length && off + len <= buf.Length
    requires forall j | q <= j < q + |d| :: src[j] == d[j - q]
    modifies buf
    ensures Spliced(buf[..], old(buf[..]), off, d)
  {
    forall j | 0 <= j < len {
      buf[off + j] := src[q + j];
    }
    SplicedPointwise(buf[..], old(buf[..]), off, d);
  }

  /** u32toa: the decimal digits of n, built right to left in a 10-byte scratch buffer. */
  method U32Toa(buf: array<char>, off: nat, n: uint32) returns (len: nat)
    requires off + |Digits(n, 10)| <= buf.Length
    modifies buf
    ensures len == |Digits(n, 10)|
    ensures Spliced(buf[..], old(buf[..]), off, Digits(n, 10))
  {
    ghost var d := Digits(n, 10);
    Pow10Values();
    DigitsFit(n, 10, 10);
    var buf1 := new char[10];
    var q := DigitsBackward(buf1, n, 10);
    len := 10 - q;
    CopyDigits(buf, off, buf1, q, len, d);
  }

  lemma {:induction false} Pow10Values()
    ensures Pow(10, 9) == 1_000_000_000 && Pow(10, 10) == 10_000_000_000
    ensures TWO32 < Pow(10, 10)
  {
    assert Pow(10, 5) == 100_000;
  }

  /** i32toa: a minus sign and the digits of |n|; INT32_MIN goes through unsigned negation. */
  method I32Toa(buf: array<char>, off: nat, n: int32) returns (len: nat)
    requires off + |SignedDigits(n)| <= buf.Length
    modifies buf
    ensures len == |SignedDigits(n)|
    ensures Spliced(buf[..], old(buf[..]), off, SignedDigits(n))
  {
    if n >= 0 {
      len := U32Toa(buf, off, n);
    } else {
      buf[off] := '-';
      ghost var b1 := buf[..];
      assert Spliced(b1, old(buf[..]), off, ['-']);
      var u: uint32 := (TWO32 - (n + TWO32)) % TWO32;
      assert u as int == -(n as int);
      len := U32Toa(buf, off + 1, u);
      SplicedThen(old(buf[..]), b1, buf[..], off, ['-'], Digits(-(n as int), 10));
      len := len + 1;
    }
  }

  /** u64toa: the decimal digits of n, in groups of nine below the leading group. */
  method U64Toa(buf: array<char>, off: nat, n: uint64) returns (len: nat)
    requires off + |Digits(n, 10)| <= buf.Length
    modifies buf
    ensures len == |Digits(n, 10)|
    ensures Spliced(buf[..], old(buf[..]), off, Digits(n, 10))
  {
    if n < TWO32 {
      len := U32Toa(buf, off, n);
      return;
    }
    var n1: nat := n / 1_000_000_000;
    var n0: nat := n % 1_000_000_000;
    NineDigitGroup(n);
    ghost var b0 := buf[..];
    var l: nat;
    if n1 >= TWO32 {
      l := UpperGroups(buf, off, n1);
    } else {
      l := U32Toa(buf, off, n1);
    }
    ghost var b1 := buf[..];
    assert l == |Digits(n1, 10)| && Spliced(b1, b0, off, Digits(n1, 10));
    U32ToaLen(buf, off + l, n0, 9);
    SplicedThen(b0, b1, buf[..], off, Digits(n1, 10), Padded(n0, 10, 9));
    len := l + 9;
  }

  /**
   * The branch of u64toa for n / 10^9 >= 2^32: one or two leading digits,
   * then nine more.
   */
  method UpperGroups(buf: array<char>, off: nat, n1: nat) returns (len: nat)
    requires TWO32 <= n1 && n1 * 1_000_000_000 < TWO64
    requires off + |Digits(n1, 10)| <= buf.Length
    modifies buf
    ensures len == |Digits(n1, 10)|
    ensures Spliced(buf[..], old(buf[..]), off, Digits(n1, 10))
  {
    var n2: nat := n1 / 1_000_000_000;
    var n1': nat := n1 % 1_000_000_000;
    NineDigitGroup(n1);
    LeadingGroup(n2, n1');
    var q := off;
    if n2 >= 10 {
      buf[q] := DigitChar(n2 / 10);
      q := q + 1;
      n2 := n2 % 10;
    }
    buf[q] := DigitChar(n2);
    q := q + 1;
    ghost var b1 := buf[..];
    assert Spliced(b1, old(buf[..]), off, Digits(n1 / 1_000_000_000, 10));
    U32ToaLen(buf, q, n1', 9);
    SplicedThen(old(buf[..]), b1, buf[..], off, Digits(n1 / 1_000_000_000, 10), Padded(n1', 10, 9));
    len := q + 9 - off;
  }

  /** From 10^9 on, the decimal digits end with the nine digits of n mod 10^9. */
  lemma {:induction false} NineDigitGroup(n: nat)
    requires n >= 1_000_000_000
    ensures Digits(n, 10) == Digits(n / 1_000_000_000, 10) + Padded(n % 1_000_000_000, 10, 9)
  {
    Pow10Values();
    DigitsSplit(n, n / 1_000_000_000, n % 1_000_000_000, 10, 9);
  }

  /** The top group of a 64-bit value has one or two digits. */
  lemma {:induction false} LeadingGroup(n2: nat, n1': nat)
    requires n1' < 1_000_000_000
    requires (n2 * 1_000_000_000 + n1') * 1_000_000_000 < TWO64
    requires n2 >= 1
    ensures n2 < 100
    ensures n2 >= 10 ==> Digits(n2, 10) == [DigitChar(n2 / 10), DigitChar(n2 % 10)]
    ensures n2 < 10 ==> Digits(n2, 10) == [DigitChar(n2)]
  {
  }

  /**
   * u64toa_radix: the digits of n in radix 2 .. 36. Radix 10 goes to
   * u64toa, a power of two to u64toa_bin_len with ceil(bitlen / radix_bits)
   * places, and any other radix through a 41-byte scratch buffer.
   */
  method U64ToaRadix(buf: array<char>, off: nat, n: uint64, radix: uint32) returns (len: nat)
    requires 2 <= radix <= 36
    requires off + |Digits(n, radix)| <= buf.Length
    modifies buf
    ensures len == |Digits(n, radix)|
    ensures Spliced(buf[..], old(buf[..]), off, Digits(n, radix))
  {
    if radix == 10 {
      len := U64Toa(buf, off, n);
      return;
    }
    if And(radix, radix - 1) == 0 {
      var radixBits := 31 - Clz32(radix);
      RadixBits(radix);
      var l: int;
      if n == 0 {
        l := 1;
        BinaryDigitCountZero(radixBits);
      } else {
        var bits := 64 - Clz64(n);
        l := (bits + radixBits - 1) / radixBits;
        BinaryDigitCount(n, radixBits, bits, l);
      }
      U64ToaBinLen(buf, off, n, radixBits, l);
      return l;
    }
    len := GeneralRadix(buf, off, n, radix);
  }

  /** The place count u64toa_radix computes for a power-of-two radix is the digit count. */
  lemma {:induction false} BinaryDigitCount(n: uint64, radixBits: nat, bits: int, l: int)
    requires 1 <= radixBits <= 5 && n != 0
    requires bits == 64 - Clz64(n) && l == (bits + radixBits - 1) / radixBits
    ensures l >= 1 && Pow2(radixBits) <= 32
    ensures Digits(n, Pow2(radixBits)) == Padded(n, Pow2(radixBits), l)
  {
    assert Pow2(5) == 32;
    Pow2Monotone(radixBits, 5);
    var radix := Pow2(radixBits);
    DigitsIsPadded(n, radix);
    BitLengthOf64(n);
    BinaryCountArith(BitLength(n), radixBits, l);
    PlacesBound(n, radixBits, l);
    SameDigitCount(n, radix, l);
  }

  /** Zero is written as a single digit. */
  lemma {:induction false} BinaryDigitCountZero(radixBits: nat)
    requires 1 <= radixBits <= 5
    ensures Pow2(radixBits) <= 32
    ensures Digits(0, Pow2(radixBits)) == Padded(0, Pow2(radixBits), 1)
  {
    assert Pow2(5) == 32;
    Pow2Monotone(radixBits, 5);
    DigitsIsPadded(0, Pow2(radixBits));
  }

  lemma {:induction false} BitLengthOf64(n: uint64)
    requires n != 0
    ensures 64 - Clz64(n) == BitLength(n) >= 1
  {
    Pow2Values();
    BitLengthBound(n, 64);
  }

  /** l places of k bits bound a value whose bit length lies in (k(l-1), kl]. */
  lemma {:induction false} PlacesBound(n: nat, k: nat, l: nat)
    requires n > 0 && 1 <= k <= 5 && l >= 1
    requires BitLength(n) <= k * l && (l >= 2 ==> k * (l - 1) <= BitLength(n) - 1)
    ensures n < Pow(Pow2(k), l) && (l >= 2 ==> Pow(Pow2(k), l - 1) <= n)
  {
    var b, kl := BitLength(n), k * l;
    PowOfPow2(k, l);
    Pow2Monotone(b, kl);
    if l >= 2 {
      PlacesLowerBound(n, k, l);
    }
  }

  lemma {:induction false} PlacesLowerBound(n: nat, k: nat, l: nat)
    requires n > 0 && l >= 2 && k * (l - 1) <= BitLength(n) - 1
    ensures Pow(Pow2(k), l - 1) <= n
  {
    var kl1 := k * (l - 1);
    PowOfPow2(k, l - 1);
    Pow2Monotone(kl1, BitLength(n) - 1);
  }

  lemma {:induction false} BinaryCountArith(b: nat, rb: nat, l: int)
    requires 1 <= rb && b >= 1 && l == (b + rb - 1) / rb
    ensures l >= 1 && b <= rb * l && (l >= 2 ==> rb * (l - 1) <= b - 1)
  {
    var x := b + rb - 1;
    assert x == l * rb + x % rb;
  }

  lemma {:induction false} PowOfPow2(k: nat, l: nat)
    ensures Pow(Pow2(k), l) == Pow2(k * l)
    decreases l
  {
    if l > 0 {
      PowOfPow2(k, l - 1);
      Pow2Add(k, k * (l - 1));
      assert k * l == k + k * (l - 1);
    }
  }

  /** A value with radix^(l-1) <= n < radix^l has exactly l digits. */
  lemma {:induction false} SameDigitCount(n: nat, radix: nat, l: nat)
    requires 2 <= radix <= 36 && l >= 1 && n < Pow(radix, l)
    requires l >= 2 ==> Pow(radix, l - 1) <= n
    ensures |Digits(n, radix)| == l
  {
    var k := |Digits(n, radix)|;
    DigitsBounds(n, radix);
    DigitsFit(n, radix, l);
    if k < l {
      PowMonotone(radix, k, l - 1);
    }
  }

  /** The branch of u64toa_radix for a radix that is neither 10 nor a power of two. */
  method GeneralRadix(buf: array<char>, off: nat, n: uint64, radix: uint32) returns (len: nat)
    requires 3 <= radix <= 36
    requires off + |Digits(n, radix)| <= buf.Length
    modifies buf
    ensures len == |Digits(n, radix)|
    ensures Spliced(buf[..], old(buf[..]), off, Digits(n, radix))
  {
    ghost var d := Digits(n, radix);
    Pow3Fits(radix);
    DigitsFit(n, radix, 41);
    var buf1 := new char[41];
    var q := DigitsBackward(buf1, n, radix);
    len := 41 - q;
    CopyDigits(buf, off, buf1, q, len, d);
  }

  /** 41 places suffice for a 64-bit value in any radix from 3 on. */
  lemma {:induction false} Pow3Fits(radix: nat)
    requires radix >= 3
    ensures TWO64 <= Pow(radix, 41)
  {
    assert Pow(3, 10) == 59049;
    assert Pow(3, 20) == 3486784401 by {
      PowAdd(3, 10, 10);
    }
    assert Pow(3, 40) == 12157665459056928801 by {
      PowAdd(3, 20, 20);
    }
    PowBaseMonotone(3, radix, 41);
  }

  lemma {:induction false} PowBaseMonotone(a: nat, c: nat, b: nat)
    requires a <= c
    ensures Pow(a, b) <= Pow(c, b)
    decreases b
  {
    if b > 0 {
      PowBaseMonotone(a, c, b - 1);
      MulLe(a, Pow(a, b - 1), Pow(c, b - 1));
      MulLe(Pow(c, b - 1), a, c);
    }
  }
}
