/**
 * The LZ compressor of jscompress.c and the small helpers of its
 * tokenizer: token pasting, hexadecimal digits, the growable token buffer
 * and the #if nesting mask of the preprocessor.
 *
 * lz_compress writes a 4-byte big-endian length and then tokens: a literal
 * byte below 0x80, a 2-byte short match 10LLLLDD DDDDDDDD (length 3 to 18,
 * distance below 1024) or a 3-byte long match 11LLLLLL DDDDDDDD DDDDDDDD
 * (length 4 to 67, distance below 65536), the distance counting back from
 * the byte before the match. Decompress below is an independent decoder of
 * that format, and the compressor is proved to produce its inverse.
 */
module JsCompress {
  import opened Bits

  datatype Option<T> = None | Some(value: T)

  const HASH_SIZE: nat := 30011
  const MATCH_LEN_MIN: nat := 3
  const MATCH_LEN_MAX: nat := 4 + 63
  const DIST_MAX: nat := 65535

  // ---------------------------------------------------------------------
  // The compressed format

  /** The four bytes of n, most significant first, as `*q++ = src_len >> 24` and so on store them. */
  function SizeHeader(n: nat): (h: seq<uint8>)
    ensures |h| == 4
    ensures n < TWO32 ==> ((h[0] as int * 256 + h[1] as int) * 256 + h[2] as int) * 256 + h[3] as int == n
  {
    var b1 := n / 256;
    var b2 := b1 / 256;
    var b3 := b2 / 256;
    assert n == b1 * 256 + n % 256 && b1 == b2 * 256 + b1 % 256 && b2 == b3 * 256 + b2 % 256;
    [b3 % 256, b2 % 256, b1 % 256, n % 256]
  }

  /** A match replayed: n more bytes, each a copy of the byte dist + 1 places before it. */
  function CopyBack(out: seq<uint8>, dist: nat, n: nat): (r: seq<uint8>)
    requires dist < |out|
    ensures |r| == |out| + n && r[..|out|] == out
    decreases n
  {
    if n == 0 then out
    else
      var r := CopyBack(out + [out[|out| - dist - 1]], dist, n - 1);
      assert r[..|out|] == (out + [out[|out| - dist - 1]])[..|out|];
      r
  }

  /** Each byte a match adds is the byte dist + 1 places before it. */
  lemma {:induction false} CopyBackRepeats(out: seq<uint8>, dist: nat, n: nat, k: nat)
    requires dist < |out| && |out| <= k < |out| + n
    ensures CopyBack(out, dist, n)[k] == CopyBack(out, dist, n)[k - dist - 1]
    decreases n
  {
    var out' := out + [out[|out| - dist - 1]];
    var r := CopyBack(out', dist, n - 1);
    assert r[..|out'|] == out';
    if k == |out| {
      assert r[k] == out'[k] && r[k - dist - 1] == out'[k - dist - 1];
    } else {
      CopyBackRepeats(out', dist, n - 1, k);
    }
  }

  /** One decoded token: how many code bytes it took and the output after it. */
  datatype Decoded = Decoded(size: nat, out: seq<uint8>)

  /** The first token of code after out: None when it is cut short or its distance reaches before the start. */
  function DecodeToken(code: seq<uint8>, out: seq<uint8>): (r: Option<Decoded>)
    requires code != []
    ensures r.Some? ==> 1 <= r.value.size <= |code| && |r.value.out| > |out| && r.value.out[..|out|] == out
    ensures r.Some? ==> r.value.size == if code[0] < 0x80 then 1 else if code[0] < 0xC0 then 2 else 3
  {
    if code[0] < 0x80 then Some(Decoded(1, out + [code[0]]))
    else if code[0] < 0xC0 then
      if |code| < 2 then None
      else
        var v := (code[0] as int - 0x80) * 0x100 + code[1] as int;
        var len, dist := v / 0x400 + 3, v % 0x400;
        if dist >= |out| then None else Some(Decoded(2, CopyBack(out, dist, len)))
    else if |code| < 3 then None
    else
      var v := ((code[0] as int - 0xC0) * 0x100 + code[1] as int) * 0x100 + code[2] as int;
      var len, dist := v / 0x1_0000 + 4, v % 0x1_0000;
      if dist >= |out| then None else Some(Decoded(3, CopyBack(out, dist, len)))
  }

  /** The bytes a token stream stands for after out: None when one of its tokens does not decode. */
  function Decode(code: seq<uint8>, out: seq<uint8>): (r: Option<seq<uint8>>)
    ensures r.Some? ==> |r.value| >= |out| && r.value[..|out|] == out
    decreases |code|
  {
    if code == [] then Some(out)
    else match DecodeToken(code, out) {
      case None => None
      case Some(d) =>
        var r := Decode(code[d.size..], d.out);
        assert r.Some? ==> r.value[..|out|] == r.value[..|d.out|][..|out|];
        r
    }
  }

  /** The source bytes a compressed buffer stands for, when its header gives their number. */
  function Decompress(comp: seq<uint8>): (r: Option<seq<uint8>>)
    ensures r.Some? ==> |comp| >= 4 && comp[..4] == SizeHeader(|r.value|)
  {
    if |comp| < 4 then None
    else match Decode(comp[4..], []) {
      case None => None
      case Some(s) => if SizeHeader(|s|) == comp[..4] then Some(s) else None
    }
  }

  /** A token is read from its own bytes: more code after it does not change it. */
  lemma {:induction false} TokenPrefix(c1: seq<uint8>, c2: seq<uint8>, out: seq<uint8>)
    requires c1 != [] && DecodeToken(c1, out).Some?
    ensures DecodeToken(c1 + c2, out) == DecodeToken(c1, out)
  {
    var c := c1 + c2;
    assert c[0] == c1[0];
    if c1[0] >= 0x80 {
      assert c[1] == c1[1];
    }
    if c1[0] >= 0xC0 {
      assert c[2] == c1[2];
    }
  }

  /** Decoding runs token by token: a stream of whole tokens followed by more code. */
  lemma {:induction false} DecodeAppend(c1: seq<uint8>, c2: seq<uint8>, out: seq<uint8>)
    requires Decode(c1, out).Some?
    ensures Decode(c1 + c2, out) == Decode(c2, Decode(c1, out).value)
    decreases |c1|
  {
    if c1 == [] {
      assert c1 + c2 == c2;
    } else {
      var d := DecodeToken(c1, out).value;
      TokenPrefix(c1, c2, out);
      assert (c1 + c2)[d.size..] == c1[d.size..] + c2;
      DecodeAppend(c1[d.size..], c2, d.out);
    }
  }

  // ---------------------------------------------------------------------
  // The tokens lz_compress writes

  /** v = 0x8000 | ((len - 3) << 10) | dist, the fields in disjoint bits. */
  function ShortWord(len: nat, dist: nat): (v: nat)
    requires 3 <= len <= 3 + 15 && dist < 0x400
    ensures v == 0x8000 + (len - 3) * 0x400 + dist
  {
    Pow2Values();
    OrShifted(1, (len - 3) * 0x400, 15);
    OrShifted(32 + (len - 3), dist, 10);
    Or(Or(0x8000, (len - 3) * Pow2(10)), dist)
  }

  /** v = 0xc00000 | ((len - 4) << 16) | dist, the fields in disjoint bits. */
  function LongWord(len: nat, dist: nat): (v: nat)
    requires 4 <= len <= 4 + 63 && dist < 0x1_0000
    ensures v == 0xC0_0000 + (len - 4) * 0x1_0000 + dist
  {
    Pow2Values();
    Pow2Add(16, 6);
    OrShifted(3, (len - 4) * 0x1_0000, 22);
    OrShifted(0xC0 + (len - 4), dist, 16);
    Or(Or(0xC0_0000, (len - 4) * Pow2(16)), dist)
  }

  /** The bytes of a short match: `*q++ = v >> 8; *q++ = v;`. */
  function ShortCode(len: nat, dist: nat): (t: seq<uint8>)
    requires 3 <= len <= 3 + 15 && dist < 0x400
    ensures |t| == 2
  {
    var v := ShortWord(len, dist);
    [(v / 0x100) % 256, v % 256]
  }

  /** The bytes of a long match: `*q++ = v >> 16; *q++ = v >> 8; *q++ = v;`. */
  function LongCode(len: nat, dist: nat): (t: seq<uint8>)
    requires 4 <= len <= 4 + 63 && dist < 0x1_0000
    ensures |t| == 3
  {
    var v := LongWord(len, dist);
    [(v / 0x1_0000) % 256, (v / 0x100) % 256, v % 256]
  }

  /** The bytes of a short match: the length and the distance's top two bits, then its low byte. */
  lemma {:induction false} ShortBytes(len: nat, dist: nat)
    requires 3 <= len <= 3 + 15 && dist < 0x400
    ensures ShortCode(len, dist) == [0x80 + (len - 3) * 4 + dist / 0x100, dist % 0x100]
  {
    var v := ShortWord(len, dist);
    var b0, b1 := 0x80 + (len - 3) * 4 + dist / 0x100, dist % 0x100;
    DivModUnique(dist, 0x100, dist / 0x100, b1);
    DivModUnique(v, 0x100, b0, b1);
    DivModUnique(b0, 256, 0, b0);
    DivModUnique(v, 256, b0, b1);
  }

  /** The bytes of a long match: the length, then the distance's two bytes. */
  lemma {:induction false} LongBytes(len: nat, dist: nat)
    requires 4 <= len <= 4 + 63 && dist < 0x1_0000
    ensures LongCode(len, dist) == [0xC0 + (len - 4), dist / 0x100, dist % 0x100]
  {
    var v := LongWord(len, dist);
    var b0, b1, b2 := 0xC0 + (len - 4), dist / 0x100, dist % 0x100;
    DivModUnique(dist, 0x100, b1, b2);
    DivModUnique(v, 0x1_0000, b0, dist);
    DivModUnique(b0, 256, 0, b0);
    DivModUnique(v, 0x100, b0 * 0x100 + b1, b2);
    DivModUnique(b0 * 0x100 + b1, 256, b0, b1);
    DivModUnique(v, 256, b0 * 0x100 + b1, b2);
  }

  /** A literal decodes to itself. */
  lemma {:induction false} DecodeLiteral(b: uint8, out: seq<uint8>)
    requires b < 0x80
    ensures Decode([b], out) == Some(out + [b])
  {
    assert DecodeToken([b], out) == Some(Decoded(1, out + [b]));
    assert [b][1..] == [];
  }

  /** Two bytes 10LLLLDD DDDDDDDD decode to a match of length LLLL + 3 at distance DD DDDDDDDD. */
  lemma {:induction false} ShortToken(code: seq<uint8>, out: seq<uint8>, len: nat, dist: nat)
    requires |code| == 2 && 0x80 <= code[0] < 0xC0
    requires var v := (code[0] as int - 0x80) * 0x100 + code[1] as int; v / 0x400 + 3 == len && v % 0x400 == dist
    requires dist < |out|
    ensures Decode(code, out) == Some(CopyBack(out, dist, len))
  {
    assert DecodeToken(code, out) == Some(Decoded(2, CopyBack(out, dist, len)));
    assert code[2..] == [];
  }

  /** Three bytes 11LLLLLL and two distance bytes decode to a match of length LLLLLL + 4. */
  lemma {:induction false} LongToken(code: seq<uint8>, out: seq<uint8>, len: nat, dist: nat)
    requires |code| == 3 && 0xC0 <= code[0]
    requires var v := ((code[0] as int - 0xC0) * 0x100 + code[1] as int) * 0x100 + code[2] as int;
      v / 0x1_0000 + 4 == len && v % 0x1_0000 == dist
    requires dist < |out|
    ensures Decode(code, out) == Some(CopyBack(out, dist, len))
  {
    assert DecodeToken(code, out) == Some(Decoded(3, CopyBack(out, dist, len)));
    assert code[3..] == [];
  }

  /** A short match decodes to the match it stands for. */
  lemma {:induction false} DecodeShort(len: nat, dist: nat, out: seq<uint8>)
    requires 3 <= len <= 3 + 15 && dist < 0x400 && dist < |out|
    ensures Decode(ShortCode(len, dist), out) == Some(CopyBack(out, dist, len))
  {
    var t := ShortCode(len, dist);
    ShortBytes(len, dist);
    var hi, lo := dist / 0x100, dist % 0x100;
    DivModUnique(dist, 0x100, hi, lo);
    assert hi < 4;
    var w := (len - 3) * 0x400 + dist;
    assert w == (t[0] as int - 0x80) * 0x100 + t[1] as int;
    DivModUnique(w, 0x400, len - 3, dist);
    ShortToken(t, out, len, dist);
  }

  /** A long match decodes to the match it stands for. */
  lemma {:induction false} DecodeLong(len: nat, dist: nat, out: seq<uint8>)
    requires 4 <= len <= 4 + 63 && dist < 0x1_0000 && dist < |out|
    ensures Decode(LongCode(len, dist), out) == Some(CopyBack(out, dist, len))
  {
    var t := LongCode(len, dist);
    LongBytes(len, dist);
    var hi, lo := dist / 0x100, dist % 0x100;
    DivModUnique(dist, 0x100, hi, lo);
    var w := (len - 4) * 0x1_0000 + dist;
    assert w == ((t[0] as int - 0xC0) * 0x100 + t[1] as int) * 0x100 + t[2] as int;
    DivModUnique(w, 0x1_0000, len - 4, dist);
    LongToken(t, out, len, dist);
  }

  // ---------------------------------------------------------------------
  // Matches

  /** The n bytes from a agree with the n bytes from b. */
  ghost predicate Agree(src: seq<uint8>, a: int, b: int, n: nat)
  {
    0 <= a && 0 <= b && a + n <= |src| && b + n <= |src| &&
    forall j | a <= j < a + n :: src[j] == src[b + (j - a)]
  }

  /** Bytes that agree over n agree over any shorter run. */
  lemma {:induction false} AgreeShorter(src: seq<uint8>, a: int, b: int, n: nat, m: nat)
    ensures Agree(src, a, b, n) && m <= n ==> Agree(src, a, b, m)
  {
  }

  /** A match copying earlier bytes replays the source: the copy of src[..cur] extended by it is a longer prefix of src. */
  lemma {:induction false} CopyBackMatch(src: seq<uint8>, cur: nat, dist: nat, len: nat)
    requires dist < cur && Agree(src, cur, cur - dist - 1, len)
    ensures CopyBack(src[..cur], dist, len) == src[..cur + len]
    decreases len
  {
    if len > 0 {
      assert src[..cur] + [src[..cur][cur - dist - 1]] == src[..cur + 1];
      assert src[cur] == src[cur - dist - 1];
      CopyBackMatch(src, cur + 1, dist, len - 1);
    }
  }

  /** Every byte of src is below 0x80. */
  ghost predicate Ascii(src: seq<uint8>)
  {
    forall j | 0 <= j < |src| :: src[j] < 0x80
  }

  /** A match copies bytes that are already known to be below 0x80. */
  lemma {:induction false} MatchAscii(src: seq<uint8>, cur: nat, p: nat, len: nat)
    requires p < cur && Agree(src, cur, p, len)
    requires forall j | 0 <= j < cur :: src[j] < 0x80
    ensures forall j | 0 <= j < cur + len :: src[j] < 0x80
    decreases len
  {
    if len > 0 {
      assert src[cur] == src[p];
      MatchAscii(src, cur + 1, p + 1, len - 1);
    }
  }

  // ---------------------------------------------------------------------
  // The hash chains

  /** The hash of the three bytes at i: the shifted bytes do not overlap, so their OR is a sum. */
  function Hash3(src: seq<uint8>, i: nat): (h: nat)
    requires i + 3 <= |src|
    ensures h < HASH_SIZE
  {
    (src[i] as int * 0x1_0000 + src[i + 1] as int * 0x100 + src[i + 2] as int) % HASH_SIZE
  }

  /** The last position before i whose three bytes hash to h, or -1. */
  function LastWith(src: seq<uint8>, h: nat, i: nat): (r: int)
    requires i <= |src|
    ensures -1 <= r < i
    ensures r >= 0 ==> r + 3 <= |src| && Hash3(src, r) == h
    ensures forall j | r < j < i && j + 3 <= |src| :: Hash3(src, j) != h
    decreases i
  {
    if i == 0 then -1
    else if i - 1 + 3 <= |src| && Hash3(src, i - 1) == h then i - 1
    else LastWith(src, h, i - 1)
  }

  /** hash_next[i]: the previous position with the same hash as the three bytes at i, -1 for none or within two bytes of the end. */
  function PrevSame(src: seq<uint8>, i: nat): (r: int)
    requires i < |src|
    ensures -1 <= r < i
  {
    if i + 3 <= |src| then LastWith(src, Hash3(src, i), i) else -1
  }

  /** Every link of a chain leads to an earlier position, or to -1. */
  ghost predicate ChainOk(nx: seq<int>)
  {
    forall i | 0 <= i < |nx| :: -1 <= nx[i] < i
  }

  /** The positions find_longest_match visits: the chain from pos down while at or above pmin. */
  ghost function ChainFrom(nx: seq<int>, pos: int, pmin: nat): (c: seq<int>)
    requires ChainOk(nx) && -1 <= pos < |nx|
    ensures forall p | p in c :: pmin <= p <= pos
    decreases pos + 1
  {
    if pos < pmin then [] else [pos] + ChainFrom(nx, nx[pos], pmin)
  }

  /** Every element of a set to v, as the initialising loops of lz_compress do. */
  method Fill(a: array<int>, v: int)
    modifies a
    ensures forall i | 0 <= i < a.Length :: a[i] == v
  {
    var i := 0;
    while i < a.Length
      invariant 0 <= i <= a.Length
      invariant forall j | 0 <= j < i :: a[j] == v
    {
      a[i] := v;
      i := i + 1;
    }
  }

  /**
   * The hashing loop of lz_compress: each position with three bytes left
   * links to the previous one with its hash, and the table holds the last.
   */
  method LinkChains(src: seq<uint8>, hashTable: array<int>, hashNext: array<int>) returns (i: nat)
    requires hashTable.Length == HASH_SIZE && hashNext.Length == |src| && hashTable != hashNext
    requires forall h | 0 <= h < HASH_SIZE :: hashTable[h] == -1
    modifies hashTable, hashNext
    ensures i == if |src| < MATCH_LEN_MIN then 0 else |src| - MATCH_LEN_MIN + 1
    ensures forall h | 0 <= h < HASH_SIZE :: hashTable[h] == LastWith(src, h, i)
    ensures forall j | 0 <= j < i :: hashNext[j] == PrevSame(src, j)
  {
    i := 0;
    while i < |src| - MATCH_LEN_MIN + 1
      invariant 0 <= i && (i <= |src| - MATCH_LEN_MIN + 1 || i == 0)
      invariant forall h | 0 <= h < HASH_SIZE :: hashTable[h] == LastWith(src, h, i)
      invariant forall j | 0 <= j < i :: hashNext[j] == PrevSame(src, j)
    {
      var h := Hash3(src, i);
      hashNext[i] := hashTable[h];
      hashTable[h] := i;
      i := i + 1;
    }
  }

  /** The hash table and hash_next of lz_compress: the chains of positions with the same hash, latest first. */
  method HashChains(src: seq<uint8>) returns (hashNext: array<int>)
    ensures hashNext.Length == |src|
    ensures forall i | 0 <= i < |src| :: hashNext[i] == PrevSame(src, i)
    ensures ChainOk(hashNext[..])
  {
    var hashTable := new int[HASH_SIZE];
    Fill(hashTable, -1);
    hashNext := new int[|src|];
    Fill(hashNext, -1);
    var i := LinkChains(src, hashTable, hashNext);
    while i < |src|
      modifies hashNext
      invariant 0 <= i <= |src| && |src| < i + MATCH_LEN_MIN
      invariant forall j | 0 <= j < i :: hashNext[j] == PrevSame(src, j)
    {
      hashNext[i] := -1;
      i := i + 1;
    }
    forall j | 0 <= j < |src|
      ensures -1 <= hashNext[j] < j
    {
      assert hashNext[j] == PrevSame(src, j);
    }
  }

  /** The inner loop of find_longest_match: how many bytes from pos agree with those from cur, up to lenMax. */
  method MatchLength(src: seq<uint8>, cur: nat, pos: nat, lenMax: nat) returns (i: nat)
    requires pos < cur && cur + lenMax <= |src|
    ensures i <= lenMax && Agree(src, cur, pos, i)
    ensures i == lenMax || !Agree(src, cur, pos, i + 1)
  {
    i := 0;
    while i < lenMax && src[cur + i] == src[pos + i]
      invariant 0 <= i <= lenMax
      invariant Agree(src, cur, pos, i)
    {
      i := i + 1;
    }
    if i < lenMax {
      assert src[cur + i] != src[pos + (cur + i - cur)];
    }
  }

  /**
   * The best match among the chain positions seen so far, all of them
   * above below: len bytes from at agree with those from cur, no position
   * seen agrees over len + 1 bytes (unless len is already lenMax), and no
   * nearer one agrees over len.
   */
  ghost predicate Best(src: seq<uint8>, cur: nat, lenMax: nat, posMin: nat, seen: seq<int>, below: int, len: nat, at: int)
  {
    len <= lenMax &&
    (forall p | p in seen :: below < p && (len == lenMax || !Agree(src, cur, p, len + 1))) &&
    (len > 0 ==> at in seen && posMin <= at < cur && Agree(src, cur, at, len)) &&
    (len > 0 ==> forall p | p in seen && p > at :: !Agree(src, cur, p, len)) &&
    (len == 0 ==> at == 0)
  }

  /** Position pos agrees with cur over i bytes: it becomes the best match when i beats it. */
  lemma {:induction false} BestStep(src: seq<uint8>, cur: nat, lenMax: nat, posMin: nat, seen: seq<int>, pos: int, next: int,
                                    len: nat, at: int, i: nat)
    requires Best(src, cur, lenMax, posMin, seen, pos, len, at)
    requires posMin <= pos < cur && next < pos
    requires i <= lenMax && Agree(src, cur, pos, i) && (i == lenMax || !Agree(src, cur, pos, i + 1))
    ensures Best(src, cur, lenMax, posMin, seen + [pos], next, if i > len then i else len, if i > len then pos else at)
  {
    if i > len {
      forall p | p in seen
        ensures !Agree(src, cur, p, i)
      {
        AgreeShorter(src, cur, p, i, len + 1);
      }
    } else {
      AgreeShorter(src, cur, pos, len + 1, i + 1);
    }
  }

  /** The earliest position find_longest_match looks at: at most DIST_MAX + 1 bytes back. */
  function PosMin(cur: nat): (m: nat)
    ensures m <= cur && (cur - m - 1 <= DIST_MAX || m == cur)
  {
    if cur > DIST_MAX + 1 then cur - DIST_MAX - 1 else 0
  }

  /** The longest match find_longest_match tries at cur: MATCH_LEN_MAX, or what is left of src. */
  function LenMax(src: seq<uint8>, cur: nat): (m: nat)
    requires cur <= |src|
    ensures m <= MATCH_LEN_MAX && m <= |src| - cur && (m == MATCH_LEN_MAX || m == |src| - cur)
  {
    if |src| - cur < MATCH_LEN_MAX then |src| - cur else MATCH_LEN_MAX
  }

  /** What the best match over the whole chain means for find_longest_match's result. */
  lemma {:induction false} BestResult(src: seq<uint8>, cur: nat, chain: seq<int>, below: int, len: nat, at: int)
    requires cur < |src| && Best(src, cur, LenMax(src, cur), PosMin(cur), chain, below, len, at)
    ensures len <= |src| - cur && len <= MATCH_LEN_MAX && (len == 0 ==> at == 0)
    ensures len > 0 ==> 0 <= at < cur && cur - at - 1 <= DIST_MAX && Agree(src, cur, at, len) && at in chain
    ensures forall p | p in chain ::
              (len == MATCH_LEN_MAX || len == |src| - cur || !Agree(src, cur, p, len + 1)) &&
              (len > 0 && p > at ==> !Agree(src, cur, p, len))
  {
  }

  /** Walking one link of the chain. */
  lemma {:induction false} ChainStep(nx: seq<int>, root: int, posMin: nat, seen: seq<int>, pos: int)
    requires ChainOk(nx) && -1 <= root < |nx| && 0 <= pos < |nx| && pos >= posMin
    requires ChainFrom(nx, root, posMin) == seen + ChainFrom(nx, pos, posMin)
    ensures ChainFrom(nx, root, posMin) == (seen + [pos]) + ChainFrom(nx, nx[pos], posMin)
  {
    assert ChainFrom(nx, pos, posMin) == [pos] + ChainFrom(nx, nx[pos], posMin);
    AppendAssoc(seen, [pos], ChainFrom(nx, nx[pos], posMin));
  }

  /**
   * find_longest_match: the longest match, up to 67 bytes and the end of
   * src, for the bytes at cur among the chain positions at most DIST_MAX + 1
   * back, the nearest such position on a tie. dist is cur - 1 when nothing
   * matches.
   */
  method FindLongestMatch(src: seq<uint8>, hashNext: array<int>, cur: nat) returns (len: nat, dist: int)
    requires hashNext.Length == |src| && ChainOk(hashNext[..]) && cur < |src|
    ensures len <= |src| - cur && len <= MATCH_LEN_MAX
    ensures len == 0 ==> dist == cur - 1
    ensures len > 0 ==> 0 <= dist < cur && dist <= DIST_MAX && Agree(src, cur, cur - dist - 1, len)
    ensures len > 0 ==> cur - dist - 1 in ChainFrom(hashNext[..], hashNext[cur], PosMin(cur))
    ensures forall p | p in ChainFrom(hashNext[..], hashNext[cur], PosMin(cur)) ::
              (len == MATCH_LEN_MAX || len == |src| - cur || !Agree(src, cur, p, len + 1)) &&
              (len > 0 && p > cur - dist - 1 ==> !Agree(src, cur, p, len))
  {
    ghost var nx := hashNext[..];
    var lenMax := LenMax(src, cur);
    var matchLen, matchPos := 0, 0;
    var posMin := PosMin(cur);
    var pos := hashNext[cur];
    ghost var seen: seq<int> := [];
    while pos >= posMin
      invariant -1 <= pos < cur
      invariant ChainFrom(nx, nx[cur], posMin) == seen + ChainFrom(nx, pos, posMin)
      invariant Best(src, cur, lenMax, posMin, seen, pos, matchLen, matchPos)
      decreases pos + 1
    {
      var i := MatchLength(src, cur, pos, lenMax);
      BestStep(src, cur, lenMax, posMin, seen, pos, nx[pos], matchLen, matchPos, i);
      ChainStep(nx, nx[cur], posMin, seen, pos);
      if i > matchLen {
        matchLen, matchPos := i, pos;
      }
      seen := seen + [pos];
      pos := hashNext[pos];
    }
    assert ChainFrom(nx, pos, posMin) == [];
    assert seen == ChainFrom(nx, nx[cur], posMin);
    BestResult(src, cur, seen, pos, matchLen, matchPos);
    dist := cur - matchPos - 1;
    len := matchLen;
  }

  // ---------------------------------------------------------------------
  // lz_compress

  /** The bytes of dst from 4 + its first q: the tokens written so far. */
  method PutBytes(dst: array<uint8>, q: nat, t: seq<uint8>)
    requires q + |t| <= dst.Length
    modifies dst
    ensures dst[..] == old(dst[..q]) + t + old(dst[q + |t|..])
    ensures dst[..q + |t|] == old(dst[..q]) + t
  {
    var k := 0;
    while k < |t|
      invariant 0 <= k <= |t|
      invariant forall j | 0 <= j < dst.Length :: dst[j] == if q <= j < q + k then t[j - q] else old(dst[j])
    {
      dst[q + k] := t[k];
      k := k + 1;
    }
  }

  lemma {:induction false} AppendAssoc<T>(a: seq<T>, b: seq<T>, c: seq<T>)
    ensures (a + b) + c == a + (b + c)
  {
  }

  /** The token stream code decodes to s from the start. */
  ghost predicate Encodes(code: seq<uint8>, s: seq<uint8>)
  {
    Decode(code, []) == Some(s)
  }

  /** The tokens so far followed by one more decode to the source so far replayed by it. */
  lemma {:induction false} TokenStep(code: seq<uint8>, t: seq<uint8>, done: seq<uint8>, next: seq<uint8>)
    requires Encodes(code, done) && Decode(t, done) == Some(next)
    ensures Encodes(code + t, next)
  {
    DecodeAppend(code, t, []);
  }

  /**
   * One step of lz_compress at i: the token it writes and how many source
   * bytes the token stands for. A match of at least MATCH_LEN_MIN bytes is
   * taken unless a longer one starts at the next byte; it is written short
   * when its length and distance fit, long when they fit, and as a literal
   * otherwise.
   */
  method NextToken(src: seq<uint8>, hashNext: array<int>, i: nat) returns (t: seq<uint8>, len: nat)
    requires hashNext.Length == |src| && ChainOk(hashNext[..]) && i < |src|
    requires forall j | 0 <= j <= i :: src[j] < 0x80
    ensures 1 <= |t| <= len <= |src| - i
    ensures Decode(t, src[..i]) == Some(src[..i + len])
    ensures forall j | 0 <= j < i + len :: src[j] < 0x80
  {
    var dist;
    len, dist := FindLongestMatch(src, hashNext, i);
    var literal := len < MATCH_LEN_MIN;
    if !literal {
      // heuristic: see if a better length starts at the next byte
      var len1, dist1 := FindLongestMatch(src, hashNext, i + 1);
      literal := len1 > len;
    }
    if !literal && len <= 3 + 15 && dist < 0x400 {
      t := ShortCode(len, dist);
      DecodeShort(len, dist, src[..i]);
    } else if !literal && len >= 4 && dist < 0x1_0000 {
      t := LongCode(len, dist);
      DecodeLong(len, dist, src[..i]);
    } else {
      t, len := [src[i]], 1;
      DecodeLiteral(src[i], src[..i]);
      assert src[..i] + [src[i]] == src[..i + 1];
    }
    if len > 1 {
      CopyBackMatch(src, i, dist, len);
      MatchAscii(src, i, i - dist - 1, len);
    }
  }

  /**
   * lz_compress: -1 exactly when src holds a byte of 0x80 or more;
   * otherwise n bytes of dst, no more than |src| + 4, that Decompress
   * turns back into src.
   */
  method LzCompress(src: seq<uint8>) returns (n: int, dst: array<uint8>)
    requires |src| <= INT32_MAX
    ensures n == -1 <==> !Ascii(src)
    ensures n != -1 ==> 4 <= n <= |src| + 4 && n <= dst.Length && Decompress(dst[..n]) == Some(src)
  {
    var hashNext := HashChains(src);
    dst := new uint8[|src| + 4];
    PutBytes(dst, 0, SizeHeader(|src|));
    var q := 4;
    var i := 0;
    ghost var code: seq<uint8> := [];
    while i < |src|
      modifies dst
      invariant 0 <= i <= |src| && q == 4 + |code| && q <= i + 4
      invariant dst[..q] == SizeHeader(|src|) + code
      invariant Encodes(code, src[..i])
      invariant forall j | 0 <= j < i :: src[j] < 0x80
      decreases |src| - i
    {
      if src[i] >= 0x80 {
        return -1, dst;
      }
      q, i, code := Emit(src, hashNext, dst, q, i, code);
    }
    Finish(dst[..q], code, src);
    n := q;
  }

  /** One token of lz_compress written at q, for the source from i on. */
  method Emit(src: seq<uint8>, hashNext: array<int>, dst: array<uint8>, q: nat, i: nat, ghost code: seq<uint8>)
    returns (q': nat, i': nat, ghost code': seq<uint8>)
    requires hashNext.Length == |src| && ChainOk(hashNext[..]) && i < |src| && dst.Length == |src| + 4
    requires q == 4 + |code| && q <= i + 4 && dst[..q] == SizeHeader(|src|) + code
    requires Encodes(code, src[..i]) && forall j | 0 <= j <= i :: src[j] < 0x80
    modifies dst
    ensures i < i' <= |src| && q' == 4 + |code'| && q' <= i' + 4 && dst[..q'] == SizeHeader(|src|) + code'
    ensures Encodes(code', src[..i']) && forall j | 0 <= j < i' :: src[j] < 0x80
  {
    var t, len := NextToken(src, hashNext, i);
    ghost var written := dst[..q];
    PutBytes(dst, q, t);
    assert dst[..q + |t|] == written + t;
    TokenStep(code, t, src[..i], src[..i + len]);
    AppendAssoc(SizeHeader(|src|), code, t);
    q', i', code' := q + |t|, i + len, code + t;
  }

  /** The whole source written: the header and the tokens are its compressed form. */
  lemma {:induction false} Finish(d: seq<uint8>, code: seq<uint8>, src: seq<uint8>)
    requires d == SizeHeader(|src|) + code && Encodes(code, src[..|src|])
    ensures Decompress(d) == Some(src)
  {
    assert src[..|src|] == src;
    assert d[..4] == SizeHeader(|src|) && d[4..] == code;
  }

  // ---------------------------------------------------------------------
  // Token pasting

  const TOK_EOF: int := 256
  const TOK_IDENT: int := 257
  const TOK_STR1: int := 258
  const TOK_STR2: int := 259
  const TOK_STR3: int := 260
  const TOK_NUM: int := 261
  const TOK_COM: int := 262
  const TOK_LCOM: int := 263

  /** strchr(s, c): c converted to a char is one of s or the terminating NUL. */
  predicate StrChr(s: string, c: int)
  {
    var ch := c % 256;
    ch == 0 || (exists k | 0 <= k < |s| :: s[k] as int == ch)
  }

  /** compat_token: whether c2 may follow c1 without a space between them. */
  function CompatToken(c1: int, c2: int): (r: bool)
  {
    if (c1 == TOK_IDENT || c1 == TOK_NUM) && (c2 == TOK_IDENT || c2 == TOK_NUM) then false
    else if (c1 == c2 && StrChr("+-<>&|=*/.", c1))
         || (c2 == '=' as int && StrChr("+-<>&|!*/^%", c1))
         || (c1 == '=' as int && c2 == '>' as int)
         || (c1 == '/' as int && c2 == '*' as int)
         || (c1 == '.' as int && c2 == TOK_NUM)
         || (c1 == TOK_NUM && c2 == '.' as int) then false
    else true
  }

  /**
   * The pairs of characters that read as one JavaScript token or
   * start a comment, or, for "..", a step towards the spread operator.
   */
  const PASTED: set<(char, char)> := {
    ('+', '+'), ('-', '-'), ('<', '<'), ('>', '>'), ('&', '&'), ('|', '|'), ('=', '='), ('*', '*'),
    ('/', '/'), ('.', '.'), ('+', '='), ('-', '='), ('<', '='), ('>', '='), ('&', '='), ('|', '='),
    ('!', '='), ('*', '='), ('/', '='), ('^', '='), ('%', '='), ('=', '>'), ('/', '*')}

  /** A one-character token that is neither NUL nor a letter, digit, quote or space. */
  predicate Punct(c: int)
  {
    33 <= c < 127 && !('0' as int <= c <= '9' as int) && !('A' as int <= c <= 'Z' as int) &&
    !('a' as int <= c <= 'z' as int) && c != '_' as int && c != '$' as int && c != '"' as int && c != '\'' as int
  }

  /** strchr on a character other than NUL is membership in the string. */
  lemma {:induction false} StrChrIn(s: string, c: int)
    requires 0 < c < 256
    ensures StrChr(s, c) <==> c as char in s
  {
    if c as char in s {
      var k :| 0 <= k < |s| && s[k] == c as char;
    }
  }

  /** PASTED, pair by pair: the cases compat_token refuses. */
  lemma {:induction false} PastedCases(a: char, b: char)
    ensures (a, b) in PASTED <==>
      (a == b && a in "+-<>&|=*/.") || (b == '=' && a in "+-<>&|!*/^%") || (a == '=' && b == '>') || (a == '/' && b == '*')
  {
  }

  /** Between two punctuation tokens a space is kept exactly when dropping it would paste them into a longer token. */
  lemma {:induction false} CompatPunct(c1: int, c2: int)
    requires Punct(c1) && Punct(c2)
    ensures CompatToken(c1, c2) <==> (c1 as char, c2 as char) !in PASTED
  {
    StrChrIn("+-<>&|=*/.", c1);
    StrChrIn("+-<>&|!*/^%", c1);
    PastedCases(c1 as char, c2 as char);
  }

  /** An identifier or number next to an identifier or number always needs a space, and a number is never pasted to a dot. */
  lemma {:induction false} CompatWords(c1: int, c2: int)
    ensures (c1 == TOK_IDENT || c1 == TOK_NUM) && (c2 == TOK_IDENT || c2 == TOK_NUM) ==> !CompatToken(c1, c2)
    ensures (c1 == '.' as int && c2 == TOK_NUM) || (c1 == TOK_NUM && c2 == '.' as int) ==> !CompatToken(c1, c2)
    ensures (c1 == TOK_IDENT || c1 == TOK_NUM) && Punct(c2) && c2 != '.' as int ==> CompatToken(c1, c2)
  {
  }

  // ---------------------------------------------------------------------
  // hex_to_num

  const LOWER_DIGITS: string := "0123456789abcdef"
  const UPPER_DIGITS: string := "0123456789ABCDEF"

  /** hex_to_num: the value of a hexadecimal digit of either case, -1 for any other character. */
  function HexToNum(ch: int): (r: int)
    ensures -1 <= r < 16
  {
    if 'a' as int <= ch <= 'f' as int then ch - 'a' as int + 10
    else if 'A' as int <= ch <= 'F' as int then ch - 'A' as int + 10
    else if '0' as int <= ch <= '9' as int then ch - '0' as int
    else -1
  }

  /** hex_to_num reads back both spellings of every digit, and gives -1 for everything else. */
  lemma {:induction false} HexToNumInverse(ch: int)
    ensures forall d | 0 <= d < 16 :: HexToNum(LOWER_DIGITS[d] as int) == d && HexToNum(UPPER_DIGITS[d] as int) == d
    ensures HexToNum(ch) == -1 <==> forall d | 0 <= d < 16 :: ch != LOWER_DIGITS[d] as int && ch != UPPER_DIGITS[d] as int
  {
    if HexToNum(ch) != -1 {
      var d := HexToNum(ch);
      assert ch == LOWER_DIGITS[d] as int || ch == UPPER_DIGITS[d] as int;
    }
  }

  // ---------------------------------------------------------------------
  // The token buffer

  /** JSToken's text: buf inside the token, moved to the heap once it outgrows it. */
  class Token {
    /** The 20 characters inside the token. */
    const buf: array<uint8>
    /** Where the text lives: buf, or a heap block. */
    var str: array<uint8>
    var len: nat
    var size: nat

    ghost predicate Valid()
      reads this
    {
      buf.Length == 20 && str.Length == size && len <= size && size >= 1 && (str == buf ==> size == 20)
    }

    function Text(): seq<uint8>
      reads this, str
      requires Valid()
    {
      str[..len]
    }

    /** A token after tok_reset. */
    constructor ()
      ensures Valid() && Text() == [] && str == buf && size == 20
    {
      buf := new uint8[20];
      new;
      str := buf;
      len := 0;
      size := 20;
    }

    /** tok_reset: back to the inline buffer, empty. */
    method Reset()
      requires Valid()
      modifies this
      ensures Valid() && Text() == [] && str == buf && size == 20
    {
      if str != buf {
        str := buf;
        size := 20;
      }
      len := 0;
    }

    /**
     * tok_add_ch: the text gains c, stored as a char (its low 8 bits);
     * when full the capacity doubles and the text moves to a new block.
     */
    method AddCh(c: int)
      requires Valid()
      modifies this, str
      ensures Valid()
      ensures Text() == old(Text()) + [c % 256]
      ensures size == if old(len) + 1 > old(size) then 2 * old(size) else old(size)
      ensures old(len) + 1 <= old(size) ==> str == old(str)
    {
      if len + 1 > size {
        var a := new uint8[size * 2];
        var k := 0;
        while k < len
          modifies a
          invariant 0 <= k <= len
          invariant forall j | 0 <= j < k :: a[j] == str[j]
        {
          a[k] := str[k];
          k := k + 1;
        }
        assert a[..len] == str[..len];
        str, size := a, size * 2;
      }
      str[len] := c % 256;
      len := len + 1;
    }
  }

  // ---------------------------------------------------------------------
  // The #if nesting of parse_directive

  /** The parsed directive of a preprocessing line. */
  datatype Directive = Define(name: string) | Undef(name: string) | IfDef(name: string) | IfNDef(name: string) | Else | EndIf | Unsupported

  /**
   * skip_mask as a stack of 2-bit frames, the innermost #if last: bit 1
   * marks an open #if, bit 0 says that its lines are skipped.
   */
  function Frames(mask: nat): (s: seq<nat>)
    ensures forall k | 0 <= k < |s| :: s[k] < 4
    decreases mask
  {
    if mask == 0 then [] else Frames(mask / 4) + [mask % 4]
  }

  /** Every frame of the mask is an open #if. */
  ghost predicate Nesting(mask: nat)
  {
    forall k | 0 <= k < |Frames(mask)| :: Frames(mask)[k] >= 2
  }

  /** mask & 2: bit 1 of the mask. */
  function Bit1(mask: nat): (r: bool)
    ensures r <==> And(mask, 2) != 0
  {
    assert And(mask, 2) == 2 * And(mask / 2, 1);
    assert And(mask / 2, 1) == (if (mask / 2) % 2 == 1 then 1 else 0);
    (mask / 2) % 2 == 1
  }

  /** mask ^ 1: bit 0 flipped. */
  function Flip(mask: nat): (r: nat)
    ensures r == Xor(mask, 1)
  {
    assert mask != 0 ==> Xor(mask, 1) == 2 * Xor(mask / 2, 0) + (if mask % 2 != 1 then 1 else 0);
    if mask % 2 == 1 then mask - 1 else mask + 1
  }

  /** The preprocessor's skip_mask. */
  class Preprocessor {
    var skipMask: nat

    constructor ()
      ensures skipMask == 0
    {
      skipMask := 0;
    }

    /**
     * The skip_mask update of parse_directive for directive d, defined
     * telling whether its symbol is defined. An #else or #endif without an
     * open #if and an unsupported directive are errors, after which the
     * mask stays at the 0 the line was parsed with.
     */
    method ParseDirective(d: Directive, defined: bool) returns (ok: bool)
      modifies this
      ensures ok <==> !(d.Unsupported? || ((d.Else? || d.EndIf?) && !Bit1(old(skipMask))))
      ensures !ok ==> skipMask == 0
      ensures ok && (d.IfDef? || d.IfNDef?) ==> skipMask == old(skipMask) * 4 + 2 + (if d.IfDef? == defined then 0 else 1)
      ensures ok && d.Else? ==> skipMask == Flip(old(skipMask))
      ensures ok && d.EndIf? ==> skipMask == old(skipMask) / 4
      ensures ok && (d.Define? || d.Undef?) ==> skipMask == old(skipMask)
    {
      var mask := skipMask;
      skipMask := 0;
      match d {
        case Define(_) =>
        case Undef(_) =>
        case IfDef(_) =>
          mask := mask * 4 + 2 + 1;
          if defined {
            mask := Flip(mask);
          }
        case IfNDef(_) =>
          mask := mask * 4 + 2 + 0;
          if defined {
            mask := Flip(mask);
          }
        case Else =>
          if !Bit1(mask) {
            return false;
          }
          mask := Flip(mask);
        case EndIf =>
          if !Bit1(mask) {
            return false;
          }
          mask := mask / 4;
        case Unsupported =>
          return false;
      }
      skipMask := mask;
      ok := true;
    }
  }

  /** #ifdef and #ifndef push a frame that skips unless the test holds. */
  lemma {:induction false} IfPushes(mask: nat, ifdef: bool, defined: bool)
    ensures Frames(mask * 4 + 2 + (if ifdef == defined then 0 else 1)) == Frames(mask) + [2 + (if ifdef == defined then 0 else 1)]
  {
    var m := mask * 4 + 2 + (if ifdef == defined then 0 else 1);
    assert m / 4 == mask && m % 4 == 2 + (if ifdef == defined then 0 else 1);
  }

  /** In a mask of open #ifs, bit 1 is set exactly when some #if is open. */
  lemma {:induction false} OpenIf(mask: nat)
    requires Nesting(mask)
    ensures Bit1(mask) <==> Frames(mask) != []
  {
    if mask != 0 {
      assert Frames(mask)[|Frames(mask)| - 1] == mask % 4;
    }
  }

  /**
   * #endif pops the innermost #if: the frames of a mask with an open #if
   * are those of the outer #ifs, which stay, then the innermost.
   */
  lemma {:induction false} EndIfPops(mask: nat)
    requires Nesting(mask) && Bit1(mask)
    ensures mask != 0 && Frames(mask) == Frames(mask / 4) + [mask % 4]
    ensures Frames(mask / 4) == Frames(mask)[..|Frames(mask)| - 1] && Nesting(mask / 4)
  {
    var f := Frames(mask);
    assert mask != 0;
    assert f[..|f| - 1] == Frames(mask / 4);
    forall k | 0 <= k < |Frames(mask / 4)|
      ensures Frames(mask / 4)[k] >= 2
    {
      assert Frames(mask / 4)[k] == f[k];
    }
  }

  /** #else flips whether the innermost #if skips; the frames below stay. */
  lemma {:induction false} ElseFlips(mask: nat)
    requires Nesting(mask) && Bit1(mask)
    ensures Frames(Flip(mask)) == Frames(mask)[..|Frames(mask)| - 1] + [Flip(mask % 4)] && Nesting(Flip(mask))
  {
    EndIfPops(mask);
    var g := Flip(mask);
    assert g / 4 == mask / 4 && g % 4 == Flip(mask % 4);
    assert Frames(g) == Frames(mask / 4) + [Flip(mask % 4)];
  }
}
