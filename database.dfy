/**
 * The object store's bookkeeping: the object index with its free list of
 * object identifiers, the allocation bitmap that free clears, the chain of
 * reserved locations, the storage root and the early exit of commit.
 *
 * The object index is held as the sequence of its handle words (the file
 * offset of each object, with flag bits in the low three); the allocation
 * bitmap as one byte array holding the bitmap pages one after the other,
 * so that byte k of bitmap page BITMAP_ID + j is element j * 4096 + k.
 */
module Database {
  import opened Bits
  import Codec

  const ALLOCATION_QUANTUM: nat := 32
  const PAGE_SIZE: nat := 4096
  const BITS_PER_PAGE: nat := 32768
  const HANDLES_PER_PAGE: nat := 1024
  const FREE_HANDLE_FLAG: nat := 4
  const INT_MAX: int := 0x7fff_ffff
  const BITMAP_BYTES: nat := 4096 * 4096

  /** One reserved location: the objects of a transaction being committed must not be placed over it. */
  datatype Location = Location(pos: uint32, size: uint32)

  /** The handle word freeId stores: the old list head shifted past the flag bits, with the free flag. */
  function FreeHandle(next: uint32): (h: uint32)
    ensures h % 8 == FREE_HANDLE_FLAG
    ensures next < 0x2000_0000 ==> h / 8 == next
  {
    FreeHandleFacts(next);
    Or((next * 8) % TWO32, FREE_HANDLE_FLAG)
  }

  lemma {:induction false} FreeHandleFacts(next: uint32)
    ensures var h := Or((next * 8) % TWO32, 4);
      h == (next % 0x2000_0000) * 8 + 4 && h < TWO32 && h % 8 == 4 && h / 8 == next % 0x2000_0000
    ensures next < 0x2000_0000 ==> next % 0x2000_0000 == next
  {
    var low := next % 0x2000_0000;
    ShiftWraps(next, 0x2000_0000);
    assert Pow2(3) == 8;
    OrShifted(low, 4, 3);
    DivModUnique(low * 8 + 4, 8, low, 4);
  }

  lemma {:induction false} ShiftWraps(x: nat, m: nat)
    requires m > 0
    ensures (x * 8) % (m * 8) == (x % m) * 8
  {
    var q := x / m;
    var r := x % m;
    assert x * 8 == q * (m * 8) + r * 8;
    DivModUnique(x * 8, m * 8, q, r * 8);
  }

  /** The free list's next link as allocateId reads it back: the handle word past its flag bits. */
  function NextFree(h: uint32): (r: uint32)
    ensures r <= h
  {
    h / 8
  }

  /** wasReserved's test: the unsigned 32-bit differences from either start fall inside the other range. */
  predicate OverlapsAsWritten(l: Location, pos: uint32, size: uint32)
  {
    (pos - l.pos) % TWO32 < l.size || (l.pos - pos) % TWO32 < size
  }

  /** For ranges that do not wrap past 2^32 and are not empty, the test is interval intersection. */
  lemma {:induction false} OverlapMeansIntersect(l: Location, pos: uint32, size: uint32)
    requires 0 < size && pos + size <= TWO32 && 0 < l.size && l.pos + l.size <= TWO32
    ensures OverlapsAsWritten(l, pos, size) <==> (l.pos < pos + size && pos < l.pos + l.size)
  {
    if pos >= l.pos {
      assert (pos - l.pos) % TWO32 == pos - l.pos;
      assert l.pos < pos ==> (l.pos - pos) % TWO32 == l.pos - pos + TWO32;
    } else {
      assert (l.pos - pos) % TWO32 == l.pos - pos;
      assert (pos - l.pos) % TWO32 == pos - l.pos + TWO32;
    }
  }

  /** The number of bitmap bits an object of size bytes occupies, computed in 32 bits as free does. */
  function BitCount(size: uint32): (n: nat)
    ensures n < 0x800_0000
  {
    ((size + ALLOCATION_QUANTUM - 1) % TWO32) / ALLOCATION_QUANTUM
  }

  /** Away from the 32-bit wrap the count is the size rounded up to whole quanta. */
  lemma {:induction false} BitCountRoundsUp(size: uint32)
    requires size + ALLOCATION_QUANTUM - 1 < TWO32
    ensures BitCount(size) * ALLOCATION_QUANTUM >= size
    ensures BitCount(size) == 0 || (BitCount(size) - 1) * ALLOCATION_QUANTUM < size
  {
  }

  /** (1 << j) - 1 on a byte: the low j bits. */
  function LowMask(j: nat): bv8
    requires j <= 8
  {
    match j
    case 0 => 0x00 case 1 => 0x01 case 2 => 0x03 case 3 => 0x07 case 4 => 0x0F
    case 5 => 0x1F case 6 => 0x3F case 7 => 0x7F case _ => 0xFF
  }

  /** 1 << j on a byte. */
  function BitMask(j: nat): bv8
    requires j < 8
  {
    match j
    case 0 => 0x01 case 1 => 0x02 case 2 => 0x04 case 3 => 0x08
    case 4 => 0x10 case 5 => 0x20 case 6 => 0x40 case _ => 0x80
  }

  function Clamp(x: int): (r: nat)
    ensures r <= 8
  {
    if x < 0 then 0 else if x > 8 then 8 else x
  }

  /** The bits of one byte whose positions, counted from the byte's first bit, lie in [lo, hi). */
  function ByteMask(lo: int, hi: int): bv8
  {
    LowMask(Clamp(hi)) & !LowMask(Clamp(lo))
  }

  /** Byte k of a bitmap once the bits [lo, hi) are clear. */
  function ClearedByte(b: bv8, k: nat, lo: nat, hi: nat): bv8
  {
    b & !ByteMask(lo - 8 * k, hi - 8 * k)
  }

  /** The bitmap s with the bits [lo, hi) cleared, bit i being bit i % 8 of byte i / 8. */
  function Cleared(s: seq<bv8>, lo: nat, hi: nat): (r: seq<bv8>)
    ensures |r| == |s|
  {
    seq(|s|, k requires 0 <= k < |s| => ClearedByte(s[k], k, lo, hi))
  }

  /** Bit i of the bitmap s. */
  function BitOf(s: seq<bv8>, i: nat): bool
    requires i < 8 * |s|
  {
    s[i / 8] & BitMask(i % 8) != 0
  }

  lemma {:induction false} MaskBit(b: bv8, lo: int, hi: int, j: nat)
    requires j < 8
    ensures (b & !ByteMask(lo, hi)) & BitMask(j) != 0 <==> (b & BitMask(j) != 0 && !(lo <= j < hi))
  {
    var cl, ch := Clamp(lo), Clamp(hi);
    assert (lo <= j < hi) <==> (cl <= j < ch);
    LowMaskBit(cl, j);
    LowMaskBit(ch, j);
    var m := BitMask(j);
    assert (b & !(LowMask(ch) & !LowMask(cl))) & m == (b & m) & !((LowMask(ch) & m) & !(LowMask(cl) & m));
    SingleBit(j);
  }

  /** Masking with 1 << j leaves either nothing or that bit. */
  lemma {:induction false} SingleBit(j: nat)
    requires j < 8
    ensures forall x: bv8 {:trigger x & BitMask(j)} :: x & BitMask(j) == 0 || x & BitMask(j) == BitMask(j)
  {
  }

  lemma {:induction false} LowMaskBit(c: nat, j: nat)
    requires c <= 8 && j < 8
    ensures LowMask(c) & BitMask(j) != 0 <==> j < c
  {
  }

  /** Clearing [lo, hi) clears exactly those bits and keeps every other one. */
  lemma {:induction false} ClearedBits(s: seq<bv8>, lo: nat, hi: nat, i: nat)
    requires i < 8 * |s|
    ensures BitOf(Cleared(s, lo, hi), i) <==> (BitOf(s, i) && !(lo <= i < hi))
  {
    var k, j := i / 8, i % 8;
    assert Cleared(s, lo, hi)[k] == ClearedByte(s[k], k, lo, hi);
    MaskBit(s[k], lo - 8 * k, hi - 8 * k, j);
    assert (lo - 8 * k <= j < hi - 8 * k) <==> (lo <= i < hi);
  }

  /** A byte wholly below lo or wholly from hi on keeps its value. */
  lemma {:induction false} ClearedOutside(b: bv8, k: nat, lo: nat, hi: nat)
    requires lo <= hi && (8 * k + 8 <= lo || hi <= 8 * k)
    ensures ClearedByte(b, k, lo, hi) == b
  {
    assert Clamp(lo - 8 * k) == Clamp(hi - 8 * k);
  }

  /** A byte wholly inside [lo, hi) becomes zero. */
  lemma {:induction false} ClearedInside(b: bv8, k: nat, lo: nat, hi: nat)
    requires lo <= 8 * k && 8 * k + 8 <= hi
    ensures ClearedByte(b, k, lo, hi) == 0
  {
    assert Clamp(lo - 8 * k) == 0 && Clamp(hi - 8 * k) == 8;
  }

  /** The first byte of a run that goes on past it keeps only its low bits. */
  lemma {:induction false} ClearedFirst(b: bv8, k: nat, lo: nat, hi: nat)
    requires 8 * k <= lo < 8 * k + 8 < hi
    ensures ClearedByte(b, k, lo, hi) == b & LowMask(lo - 8 * k)
  {
    assert Clamp(hi - 8 * k) == 8 && Clamp(lo - 8 * k) == lo - 8 * k;
  }

  /** The last byte of a run that started before it loses its low bits. */
  lemma {:induction false} ClearedLast(b: bv8, k: nat, lo: nat, hi: nat)
    requires lo < 8 * k < hi <= 8 * k + 8
    ensures ClearedByte(b, k, lo, hi) == b & !LowMask(hi - 8 * k)
  {
    assert Clamp(lo - 8 * k) == 0 && Clamp(hi - 8 * k) == hi - 8 * k;
  }

  /** A run inside one byte: the byte loses ((1 << n) - 1) << offset, the bits [offset, offset + n). */
  lemma {:induction false} ClearedWithin(b: bv8, k: nat, lo: nat, hi: nat)
    requires 8 * k <= lo <= hi <= 8 * k + 8
    ensures ClearedByte(b, k, lo, hi) == b & !ByteMask(lo - 8 * k, hi - 8 * k)
  {
  }

  /** The bitmap pages free touches: those holding a bit of [lo, lo + n), or the first page when n is 0. */
  function LastTouchedPage(lo: nat, n: nat): nat
  {
    if n == 0 then Codec.BITMAP_ID + lo / BITS_PER_PAGE else Codec.BITMAP_ID + (lo + n - 1) / BITS_PER_PAGE
  }

  lemma {:induction false} LastPageOfRun(pageIdx: nat, offs: nat, p: nat, n: int, hi: nat)
    requires p == pageIdx * PAGE_SIZE + offs && offs <= PAGE_SIZE
    requires 8 * p + n == hi && 0 < n + offs * 8 <= BITS_PER_PAGE
    ensures (hi - 1) / BITS_PER_PAGE == pageIdx
  {
    DivModUnique(hi - 1, BITS_PER_PAGE, pageIdx, 8 * offs + n - 1);
  }

  lemma {:induction false} FirstByte(quantNo: nat)
    ensures quantNo / BITS_PER_PAGE * PAGE_SIZE + (quantNo % BITS_PER_PAGE) / 8 == quantNo / 8
    ensures quantNo % 8 == quantNo - 8 * (quantNo / 8)
  {
    var q, r := quantNo / BITS_PER_PAGE, quantNo % BITS_PER_PAGE;
    assert quantNo == q * BITS_PER_PAGE + r;
    DivModUnique(quantNo, 8, q * PAGE_SIZE + r / 8, r % 8);
  }

  /** memset(p, 0, n) on the bitmap bytes [from, to). */
  method ZeroBytes(a: array<bv8>, from: nat, to: nat)
    requires from <= to <= a.Length
    modifies a
    ensures forall k | 0 <= k < a.Length :: a[k] == if from <= k < to then 0 else old(a[k])
  {
    var k := from;
    while k < to
      invariant from <= k <= to
      invariant forall j | 0 <= j < a.Length :: a[j] == if from <= j < k then 0 else old(a[j])
    {
      a[k] := 0;
      k := k + 1;
    }
  }

  /** Every byte outside the run keeps its value, every byte wholly inside it is zero. */
  lemma {:induction false} ClearedBytes(s: seq<bv8>, lo: nat, hi: nat)
    requires lo <= hi
    ensures forall k | 0 <= k < |s| && (8 * k + 8 <= lo || hi <= 8 * k) :: Cleared(s, lo, hi)[k] == s[k]
    ensures forall k | 0 <= k < |s| && lo <= 8 * k && 8 * k + 8 <= hi :: Cleared(s, lo, hi)[k] == 0
  {
    forall k | 0 <= k < |s| && (8 * k + 8 <= lo || hi <= 8 * k)
      ensures Cleared(s, lo, hi)[k] == s[k]
    {
      ClearedOutside(s[k], k, lo, hi);
    }
    forall k | 0 <= k < |s| && lo <= 8 * k && 8 * k + 8 <= hi
      ensures Cleared(s, lo, hi)[k] == 0
    {
      ClearedInside(s[k], k, lo, hi);
    }
  }

  lemma {:induction false} SamePage(x: nat, y: nat)
    requires x / 8 == y / 8
    ensures x / BITS_PER_PAGE == y / BITS_PER_PAGE
  {
    var b := x / 8;
    DivModUnique(x, BITS_PER_PAGE, b / PAGE_SIZE, (b % PAGE_SIZE) * 8 + x % 8);
    DivModUnique(y, BITS_PER_PAGE, b / PAGE_SIZE, (b % PAGE_SIZE) * 8 + y % 8);
  }

  /** after is before with the bits [lo, hi) cleared in the bytes [from, to) and every other byte as it was. */
  ghost predicate ClearedIn(after: seq<bv8>, before: seq<bv8>, from: nat, to: nat, lo: nat, hi: nat)
  {
    |after| == |before| &&
    forall k | 0 <= k < |before| :: after[k] == if from <= k < to then ClearedByte(before[k], k, lo, hi) else before[k]
  }

  lemma {:induction false} ClearedInStep(after: seq<bv8>, before: seq<bv8>, from: nat, p: nat, lo: nat, hi: nat, v: bv8)
    requires ClearedIn(after, before, from, p, lo, hi) && from <= p < |before|
    requires v == ClearedByte(before[p], p, lo, hi)
    ensures ClearedIn(after[p := v], before, from, p + 1, lo, hi)
  {
  }

  lemma {:induction false} ClearedInZeros(mid: seq<bv8>, after: seq<bv8>, before: seq<bv8>,
                                          from: nat, p: nat, q: nat, lo: nat, hi: nat)
    requires ClearedIn(mid, before, from, p, lo, hi) && from <= p <= q <= |before| && |after| == |before|
    requires lo <= 8 * p && 8 * q <= hi
    requires forall k | 0 <= k < |after| :: after[k] == if p <= k < q then 0 else mid[k]
    ensures ClearedIn(after, before, from, q, lo, hi)
  {
    forall k | p <= k < q
      ensures after[k] == ClearedByte(before[k], k, lo, hi)
    {
      ClearedInside(before[k], k, lo, hi);
    }
  }

  /** Once the bytes that hold a bit of [lo, hi) are done, the whole bitmap is the cleared one. */
  lemma {:induction false} ClearedInWhole(after: seq<bv8>, before: seq<bv8>, from: nat, to: nat, lo: nat, hi: nat)
    requires ClearedIn(after, before, from, to, lo, hi) && lo <= hi
    requires 8 * from <= lo && hi <= 8 * to
    ensures after == Cleared(before, lo, hi)
  {
    forall k | 0 <= k < |before| && !(from <= k < to)
      ensures after[k] == Cleared(before, lo, hi)[k]
    {
      ClearedOutside(before[k], k, lo, hi);
    }
  }

  /**
   * The bit-clearing half of free, over the bitmap pages laid end to end:
   * the partial first byte, whole pages while the run goes past the current
   * one, whole bytes, then the partial last byte; every page reached has
   * its free-space hint reset.
   */
  method ClearBitmapRun(bitmap: array<bv8>, space: array<int>, quantNo: nat, n: nat)
    requires bitmap.Length == BITMAP_BYTES && space.Length == Codec.BITMAP_ID + Codec.BITMAP_PAGES
    requires quantNo < 8 * BITMAP_BYTES && quantNo + n <= 8 * BITMAP_BYTES
    modifies bitmap, space
    ensures bitmap[..] == Cleared(old(bitmap[..]), quantNo, quantNo + n)
    ensures forall g | 0 <= g < space.Length ::
      space[g] ==
        if Codec.BITMAP_ID + quantNo / BITS_PER_PAGE <= g <= LastTouchedPage(quantNo, n) then INT_MAX
        else old(space[g])
  {
    ghost var start := bitmap[..];
    var objBitSize: int := n;
    var pageId := Codec.BITMAP_ID + quantNo / BITS_PER_PAGE;
    var offs: nat := (quantNo % BITS_PER_PAGE) / 8;
    FirstByte(quantNo);
    var p: nat := (pageId - Codec.BITMAP_ID) * PAGE_SIZE + offs;
    var bitOffs := quantNo % 8;
    space[pageId] := INT_MAX;
    assert bitmap[..] == start;
    if objBitSize > 8 - bitOffs {
      objBitSize := objBitSize - (8 - bitOffs);
      p, pageId := ClearRunPages(bitmap, space, p, pageId, offs, bitOffs, objBitSize, quantNo, quantNo + n);
    } else {
      if n > 0 {
        SamePage(quantNo, quantNo + n - 1);
      }
      ClearInByte(bitmap, p, bitOffs, objBitSize, quantNo, quantNo + n);
    }
  }

  /** A run inside the byte p: the byte loses ((1 << n) - 1) << bitOffs. */
  method ClearInByte(bitmap: array<bv8>, p: nat, bitOffs: nat, n: nat, ghost lo: nat, ghost hi: nat)
    requires p < bitmap.Length && lo == 8 * p + bitOffs && hi == lo + n && bitOffs + n <= 8
    modifies bitmap
    ensures bitmap[..] == Cleared(old(bitmap[..]), lo, hi)
  {
    ghost var start := bitmap[..];
    ClearedWithin(start[p], p, lo, hi);
    var v := bitmap[p] & !ByteMask(bitOffs, bitOffs + n);
    bitmap[p] := v;
    ClearedInStep(start, start, p, p, lo, hi, v);
    assert start[p := v] == bitmap[..];
    ClearedInWhole(bitmap[..], start, p, p + 1, lo, hi);
  }

  /** A run that goes past its first byte: that byte, then page by page, then byte by byte. */
  method ClearRunPages(bitmap: array<bv8>, space: array<int>, p0: nat, pageId0: nat, offs0: nat, bitOffs: nat,
                       rest: int, ghost lo: nat, ghost hi: nat)
    returns (p: nat, pageId: nat)
    requires bitmap.Length == BITMAP_BYTES && space.Length == Codec.BITMAP_ID + Codec.BITMAP_PAGES
    requires p0 == (pageId0 - Codec.BITMAP_ID) * PAGE_SIZE + offs0 && offs0 < PAGE_SIZE && pageId0 >= Codec.BITMAP_ID
    requires lo == 8 * p0 + bitOffs && bitOffs < 8 && rest > 0 && hi == 8 * p0 + 8 + rest && hi <= 8 * BITMAP_BYTES
    requires space[pageId0] == INT_MAX
    modifies bitmap, space
    ensures bitmap[..] == Cleared(old(bitmap[..]), lo, hi)
    ensures pageId == Codec.BITMAP_ID + (hi - 1) / BITS_PER_PAGE
    ensures forall g | 0 <= g < space.Length ::
      space[g] == if pageId0 <= g <= pageId then INT_MAX else old(space[g])
  {
    ghost var start := bitmap[..];
    ClearedFirst(bitmap[p0], p0, lo, hi);
    bitmap[p0] := bitmap[p0] & LowMask(bitOffs);
    ClearedInStep(start, start, p0, p0, lo, hi, bitmap[p0]);
    assert start[p0 := bitmap[p0]] == bitmap[..];
    p := p0 + 1;
    pageId := pageId0;
    var offs: nat := offs0 + 1;
    var objBitSize := rest;
    while objBitSize + offs * 8 > BITS_PER_PAGE
      invariant p == (pageId - Codec.BITMAP_ID) * PAGE_SIZE + offs && offs <= PAGE_SIZE && pageId >= pageId0
      invariant 8 * p + objBitSize == hi && objBitSize > 0 && p0 < p
      invariant ClearedIn(bitmap[..], start, p0, p, lo, hi)
      invariant forall g | 0 <= g < space.Length ::
        space[g] == if pageId0 <= g <= pageId then INT_MAX else old(space[g])
      decreases objBitSize + offs * 8
    {
      ghost var mid := bitmap[..];
      ZeroBytes(bitmap, p, p + PAGE_SIZE - offs);
      ClearedInZeros(mid, bitmap[..], start, p0, p, p + PAGE_SIZE - offs, lo, hi);
      pageId := pageId + 1;
      p := p + PAGE_SIZE - offs;
      space[pageId] := INT_MAX;
      objBitSize := objBitSize - (PAGE_SIZE - offs) * 8;
      offs := 0;
    }
    LastPageOfRun(pageId - Codec.BITMAP_ID, offs, p, objBitSize, hi);
    p := ClearRunTail(bitmap, p, objBitSize, p0, lo, hi, start);
  }

  /** The bytes of the run's last page: whole bytes, then the last one's low bits. */
  method ClearRunTail(bitmap: array<bv8>, p0: nat, rest: int, ghost from: nat, ghost lo: nat, ghost hi: nat,
                      ghost start: seq<bv8>)
    returns (p: nat)
    requires ClearedIn(bitmap[..], start, from, p0, lo, hi) && 8 * from <= lo < 8 * p0
    requires 8 * p0 + rest == hi && rest > 0 && hi <= 8 * bitmap.Length
    modifies bitmap
    ensures bitmap[..] == Cleared(start, lo, hi)
  {
    p := p0;
    var objBitSize := rest - 8;
    while objBitSize > 0
      invariant 8 * p + objBitSize + 8 == hi && objBitSize > -8 && p0 <= p
      invariant ClearedIn(bitmap[..], start, from, p, lo, hi)
    {
      ghost var mid := bitmap[..];
      ClearedInside(start[p], p, lo, hi);
      bitmap[p] := 0;
      ClearedInStep(mid, start, from, p, lo, hi, 0);
      assert mid[p := 0] == bitmap[..];
      p := p + 1;
      objBitSize := objBitSize - 8;
    }
    ghost var mid := bitmap[..];
    ClearedLast(start[p], p, lo, hi);
    bitmap[p] := bitmap[p] & !LowMask(objBitSize + 8);
    ClearedInStep(mid, start, from, p, lo, hi, bitmap[p]);
    assert mid[p := bitmap[p]] == bitmap[..];
    ClearedInWhole(bitmap[..], start, from, p + 1, lo, hi);
  }

  /**
   * An allocation cursor after freeing bit quantNo: when the freed space is of
   * the cursor's kind and lies on the cursor's page before it, the cursor moves
   * back to the freed byte.
   */
  function CursorAfter(cursor: nat, cursorPage: nat, ofKind: bool, quantNo: nat): (r: nat)
    ensures r <= cursor
    ensures r < cursor <==>
      ofKind && cursorPage == Codec.BITMAP_ID + quantNo / BITS_PER_PAGE && (quantNo % BITS_PER_PAGE) / 8 < cursor
    ensures r < cursor ==> r == (quantNo % BITS_PER_PAGE) / 8
  {
    var offs := (quantNo % BITS_PER_PAGE) / 8;
    if ofKind && cursorPage == Codec.BITMAP_ID + quantNo / BITS_PER_PAGE && offs < cursor then offs else cursor
  }

  /** What commitTransaction does before it writes anything. */
  datatype CommitStart = NotOpened | NothingModified | WritesTransaction

  class Database {
    /** header->curr: the root of the last committed state; work goes to the other one. */
    var curr: nat
    var root: seq<Codec.RootRecord>
    /** The handle words of the working object index. */
    var handles: seq<uint32>
    var currIndexSize: nat
    var modified: bool
    /** header->dirty. */
    var dirty: bool
    var isOpen: bool
    /** The index pages changed in this transaction (the set bits of dirtyPagesMap). */
    var dirtyIndexPages: set<nat>
    const bitmap: array<bv8>
    const availableSpace: array<int>
    var allocatedDelta: int
    var currRBitmapPage: nat
    var currRBitmapOffs: nat
    var currPBitmapPage: nat
    var currPBitmapOffs: nat
    var reserved: seq<Location>

    ghost predicate Valid()
      reads this
    {
      (curr == 0 || curr == 1) && |root| == 2 &&
      |handles| == root[1 - curr].indexSize > 0 &&
      currIndexSize <= |handles| &&
      root[1 - curr].freeList < |handles| &&
      bitmap.Length == BITMAP_BYTES &&
      availableSpace.Length == Codec.BITMAP_ID + Codec.BITMAP_PAGES
    }

    /** The working root record, header->root[1 - curr]. */
    function Work(): (r: Codec.RootRecord)
      reads this
      requires Valid()
      ensures r == root[1 - curr]
    {
      root[1 - curr]
    }

    /** The part of open that resets the in-memory state, over a header and index read from the file. */
    constructor (curr: nat, root: seq<Codec.RootRecord>, handles: seq<uint32>, currIndexSize: nat)
      requires (curr == 0 || curr == 1) && |root| == 2
      requires |handles| == root[1 - curr].indexSize > 0 && currIndexSize <= |handles|
      requires root[1 - curr].freeList < |handles|
      ensures Valid() && fresh(bitmap) && fresh(availableSpace)
      ensures this.curr == curr && this.root == root && this.handles == handles && this.currIndexSize == currIndexSize
      ensures !modified && !dirty && isOpen && dirtyIndexPages == {} && reserved == []
      ensures allocatedDelta == 0
      ensures currRBitmapPage == currPBitmapPage == Codec.BITMAP_ID && currRBitmapOffs == currPBitmapOffs == 0
      ensures forall i | 0 <= i < availableSpace.Length :: availableSpace[i] == INT_MAX
    {
      this.curr := curr;
      this.root := root;
      this.handles := handles;
      this.currIndexSize := currIndexSize;
      modified := false;
      dirty := false;
      isOpen := true;
      dirtyIndexPages := {};
      bitmap := new bv8[BITMAP_BYTES];
      availableSpace := new int[Codec.BITMAP_ID + Codec.BITMAP_PAGES](_ => INT_MAX);
      allocatedDelta := 0;
      currRBitmapPage, currPBitmapPage := Codec.BITMAP_ID, Codec.BITMAP_ID;
      currRBitmapOffs, currPBitmapOffs := 0, 0;
      reserved := [];
    }

    /** getRoot: the root object of the working state. */
    function GetRoot(): (oid: uint32)
      reads this
      requires Valid()
      ensures oid == Work().rootObject
    {
      root[1 - curr].rootObject
    }

    /** setRoot: records the root object in the working state and marks the database modified. */
    method SetRoot(oid: uint32)
      requires Valid()
      modifies this
      ensures Valid() && modified && GetRoot() == oid
      ensures root == old(root)[1 - curr := old(root[1 - curr]).(rootObject := oid)]
      ensures curr == old(curr) && handles == old(handles) && dirty == old(dirty)
      ensures currIndexSize == old(currIndexSize) && dirtyIndexPages == old(dirtyIndexPages)
    {
      root := root[1 - curr := root[1 - curr].(rootObject := oid)];
      modified := true;
    }

    /** setDirty: the transaction is under way; the header write and the page flush go to the file and are not part of this model. */
    method SetDirty()
      modifies this
      ensures modified && dirty
      ensures curr == old(curr) && root == old(root) && handles == old(handles)
      ensures currIndexSize == old(currIndexSize) && dirtyIndexPages == old(dirtyIndexPages)
    {
      modified := true;
      if !dirty {
        dirty := true;
      }
    }

    /**
     * allocateId: pops the free list if it is not empty; otherwise takes the
     * next unused slot of the index, first doubling the index when it is
     * full. newIndex is where the allocator places the doubled index.
     */
    method AllocateId(newIndex: uint32) returns (oid: uint32)
      requires Valid()
      requires Work().freeList != 0 ==> NextFree(handles[Work().freeList]) < |handles|
      requires Work().freeList == 0 && currIndexSize + 1 > |handles| ==> 2 * |handles| < TWO32
      modifies this
      ensures Valid() && modified && dirty && curr == old(curr)
      ensures oid < |handles| && handles[oid] == 0
      ensures old(Work().freeList) != 0 ==>
        oid == old(Work().freeList) &&
        Work() == old(Work()).(freeList := NextFree(old(handles[oid]))) &&
        handles == old(handles)[oid := 0] && currIndexSize == old(currIndexSize) &&
        dirtyIndexPages == old(dirtyIndexPages) + {oid / HANDLES_PER_PAGE}
      ensures old(Work().freeList) == 0 ==>
        oid == old(currIndexSize) && currIndexSize == oid + 1 && Work().indexUsed == currIndexSize &&
        dirtyIndexPages == old(dirtyIndexPages) &&
        handles[..oid] == old(handles[..currIndexSize])
      ensures old(Work().freeList) == 0 && old(currIndexSize) + 1 <= old(|handles|) ==>
        handles == old(handles)[oid := 0] && Work() == old(Work()).(indexUsed := oid + 1)
      ensures old(Work().freeList) == 0 && old(currIndexSize) + 1 > old(|handles|) ==>
        |handles| == 2 * old(|handles|) &&
        Work() == old(Work()).(index := newIndex, indexSize := 2 * old(|handles|), indexUsed := oid + 1)
      ensures root[curr] == old(root[curr])
    {
      var w := 1 - curr;
      SetDirty();
      if root[w].freeList != 0 {
        oid := root[w].freeList;
        root := root[w := root[w].(freeList := NextFree(handles[oid]))];
        dirtyIndexPages := dirtyIndexPages + {oid / HANDLES_PER_PAGE};
      } else {
        if currIndexSize + 1 > root[w].indexSize {
          var oldIndexSize := root[w].indexSize;
          var newIndexSize := oldIndexSize * 2;
          handles := handles[..currIndexSize] + seq(newIndexSize - currIndexSize, _ => 0);
          root := root[w := root[w].(index := newIndex, indexSize := newIndexSize)];
        }
        oid := currIndexSize;
        currIndexSize := currIndexSize + 1;
        root := root[w := root[w].(indexUsed := currIndexSize)];
      }
      handles := handles[oid := 0];
    }

    /** freeId: links oid at the head of the free list, its handle word holding the old head. */
    method FreeId(oid: uint32)
      requires Valid() && oid < |handles|
      modifies this
      ensures Valid() && curr == old(curr) && currIndexSize == old(currIndexSize)
      ensures Work() == old(Work()).(freeList := oid) && root[curr] == old(root[curr])
      ensures handles == old(handles)[oid := FreeHandle(old(Work().freeList))]
      ensures dirtyIndexPages == old(dirtyIndexPages) + {oid / HANDLES_PER_PAGE}
      ensures modified == old(modified) && dirty == old(dirty)
    {
      var w := 1 - curr;
      dirtyIndexPages := dirtyIndexPages + {oid / HANDLES_PER_PAGE};
      handles := handles[oid := FreeHandle(root[w].freeList)];
      root := root[w := root[w].(freeList := oid)];
    }

    /** wasReserved: whether [pos, pos + size) meets a location of the reserved chain, by the unsigned test. */
    method WasReserved(pos: uint32, size: uint32) returns (r: bool)
      ensures r <==> exists i | 0 <= i < |reserved| :: OverlapsAsWritten(reserved[i], pos, size)
    {
      var i := 0;
      while i < |reserved|
        invariant 0 <= i <= |reserved|
        invariant forall j | 0 <= j < i :: !OverlapsAsWritten(reserved[j], pos, size)
      {
        var location := reserved[i];
        if (pos - location.pos) % TWO32 < location.size || (location.pos - pos) % TWO32 < size {
          return true;
        }
        i := i + 1;
      }
      return false;
    }

    /**
     * The early part of commitTransaction: it tells which of its three
     * branches is taken. An unopened database is the dybase_not_opened error
     * and an unmodified one returns at once; in both the state is left as it
     * was, which holds here because the method has no modifies clause, so
     * it can change no field. A modified database goes on to write the
     * transaction, which is not part of this model: this method models only
     * the entry guard of commitTransaction, and its ensures are that guard's
     * three outcomes, not a model of the commit itself.
     */
    method CommitTransaction() returns (r: CommitStart)
      ensures r == NotOpened <==> !isOpen
      ensures r == NothingModified <==> isOpen && !modified
      ensures r == WritesTransaction <==> isOpen && modified
    {
      if !isOpen {
        return NotOpened;
      }
      if !modified {
        return NothingModified;
      }
      return WritesTransaction;
    }

    /**
     * free: clears the bitmap bits of the quanta [pos, pos + size) covers,
     * resets the free-space hint of every bitmap page it touches, and moves
     * the allocation cursor of that page back when the freed space is before it.
     */
    method Free(pos: uint32, size: uint32)
      requires Valid()
      requires pos != 0 && pos % ALLOCATION_QUANTUM == 0
      requires pos / ALLOCATION_QUANTUM + BitCount(size) <= 8 * BITMAP_BYTES
      modifies this, bitmap, availableSpace
      ensures Valid() && unchanged(`curr, `root, `handles, `currIndexSize, `modified, `dirty, `reserved)
      ensures bitmap[..] == Cleared(old(bitmap[..]), pos / 32, pos / 32 + BitCount(size))
      ensures forall g | 0 <= g < availableSpace.Length ::
        availableSpace[g] ==
          if Codec.BITMAP_ID + pos / 32 / BITS_PER_PAGE <= g <= LastTouchedPage(pos / 32, BitCount(size)) then INT_MAX
          else old(availableSpace[g])
      ensures allocatedDelta == old(allocatedDelta) - BitCount(size) * ALLOCATION_QUANTUM
      ensures currPBitmapPage == old(currPBitmapPage) && currRBitmapPage == old(currRBitmapPage)
      ensures var pageAligned := pos % PAGE_SIZE == 0 && size >= PAGE_SIZE;
        currPBitmapOffs == CursorAfter(old(currPBitmapOffs), currPBitmapPage, pageAligned, pos / 32) &&
        currRBitmapOffs == CursorAfter(old(currRBitmapOffs), currRBitmapPage, !pageAligned, pos / 32)
    {
      var quantNo := pos / ALLOCATION_QUANTUM;
      var objBitSize := BitCount(size);
      var pageId := Codec.BITMAP_ID + quantNo / BITS_PER_PAGE;
      var offs := (quantNo % BITS_PER_PAGE) / 8;
      allocatedDelta := allocatedDelta - objBitSize * ALLOCATION_QUANTUM;
      if pos % PAGE_SIZE == 0 && size >= PAGE_SIZE {
        if pageId == currPBitmapPage && offs < currPBitmapOffs {
          currPBitmapOffs := offs;
        }
      } else {
        if pageId == currRBitmapPage && offs < currRBitmapOffs {
          currRBitmapOffs := offs;
        }
      }
      ghost var cursors := (currPBitmapOffs, currRBitmapOffs);
      ClearBitmapRun(bitmap, availableSpace, quantNo, objBitSize);
      assert (currPBitmapOffs, currRBitmapOffs) == cursors;
    }
  }
}
