/**
 * The page cache of the object store. Frames 1..poolSize hold one 4096-byte
 * page each; frame 0 is the sentinel of the doubly linked LRU list of
 * unpinned frames (its next is the most recently released frame, its prev
 * the least recently released one). Frames caching a page are reached
 * through a hash table of collision chains; frames never used form the free
 * list; frames written since the last flush are queued in dirtyPages.
 *
 * The page headers are held as parallel arrays, one per header field, and
 * the page state keeps only its dirty bit (the raw bit is set and cleared
 * inside one read, the wait bit is never set by this code). The file is a
 * map from page address to page bytes; a page it does not hold reads as
 * end of file.
 */
module PagePool {
  import opened Bits

  const PAGE_SIZE: nat := 4096
  const MIN_HASH_SIZE: nat := 16 * 1024

  /** The linked lists of the pool, as sequences of frame numbers, first element first. */
  function Head(l: seq<int>): int
  {
    if |l| == 0 then 0 else l[0]
  }

  function Last(l: seq<int>): int
  {
    if |l| == 0 then 0 else l[|l| - 1]
  }

  function After(l: seq<int>, k: nat): int
    requires k < |l|
  {
    if k + 1 < |l| then l[k + 1] else 0
  }

  function Before(l: seq<int>, k: nat): int
    requires k < |l|
  {
    if k > 0 then l[k - 1] else 0
  }

  ghost predicate Distinct(l: seq<int>)
  {
    forall k, k' | 0 <= k < k' < |l| :: l[k] != l[k']
  }

  /** Every element of l is a frame whose link names the element after it (0 after the last). */
  ghost predicate Linked(link: seq<int>, l: seq<int>)
  {
    InRange(l, |link|) && forall k {:trigger link[l[k]]} | 0 <= k < |l| :: link[l[k]] == After(l, k)
  }

  /** Every element of l is a frame number below n other than the sentinel. */
  ghost predicate InRange(l: seq<int>, n: int)
  {
    forall k | 0 <= k < |l| :: 0 < l[k] < n
  }

  /** Every element of l is a frame whose link names the element before it (0 before the first). */
  ghost predicate BackLinked(link: seq<int>, l: seq<int>)
  {
    InRange(l, |link|) && forall k {:trigger link[l[k]]} | 0 <= k < |l| :: link[l[k]] == Before(l, k)
  }

  /** The LRU list l, threaded through next and prev and closed by the sentinel frame 0. */
  ghost predicate IsList(next: seq<int>, prev: seq<int>, l: seq<int>)
  {
    |next| == |prev| > 0 && Linked(next, l) && BackLinked(prev, l) &&
    next[0] == Head(l) && prev[0] == Last(l)
  }

  /** A collision chain l starting at head and linked through link. */
  ghost predicate IsChain(head: int, link: seq<int>, l: seq<int>)
  {
    Linked(link, l) && head == Head(l)
  }

  /** A list linked through link and ended by 0 never repeats a frame: a repeat would make it go on for ever. */
  lemma {:induction false} LinkedNoRepeat(link: seq<int>, l: seq<int>, k: nat, k': nat)
    requires Linked(link, l) && k < k' < |l|
    ensures l[k] != l[k']
    decreases |l| - k'
  {
    assert link[l[k]] == After(l, k) && link[l[k']] == After(l, k');
    if k' + 1 < |l| {
      LinkedNoRepeat(link, l, k + 1, k' + 1);
    }
  }

  lemma {:induction false} LinkedDistinct(link: seq<int>, l: seq<int>)
    requires Linked(link, l)
    ensures Distinct(l)
  {
    forall k, k' | 0 <= k < k' < |l|
      ensures l[k] != l[k']
    {
      LinkedNoRepeat(link, l, k, k');
    }
  }

  lemma {:induction false} LinkedUnchanged(link: seq<int>, link': seq<int>, l: seq<int>)
    requires Linked(link, l) && |link'| == |link|
    requires forall k | 0 <= k < |l| :: link'[l[k]] == link[l[k]]
    ensures Linked(link', l)
  {
  }

  lemma {:induction false} BackLinkedUnchanged(link: seq<int>, link': seq<int>, l: seq<int>)
    requires BackLinked(link, l) && |link'| == |link|
    requires forall k | 0 <= k < |l| :: link'[l[k]] == link[l[k]]
    ensures BackLinked(link', l)
  {
  }

  lemma {:induction false} LinkedPrepend(link: seq<int>, l: seq<int>, i: int)
    requires Linked(link, l) && 0 < i < |link| && i !in l
    ensures Linked(link[i := Head(l)], [i] + l)
  {
    var link', l' := link[i := Head(l)], [i] + l;
    forall k | 0 <= k < |l'|
      ensures 0 < l'[k] < |link'|
    {
      if k > 0 {
        assert l'[k] == l[k - 1];
      }
    }
    forall k | 0 <= k < |l'|
      ensures link'[l'[k]] == After(l', k)
    {
      if k > 0 {
        assert l'[k] == l[k - 1];
        assert link[l[k - 1]] == After(l, k - 1);
      }
    }
  }

  lemma {:induction false} BackLinkedPrepend(link: seq<int>, l: seq<int>, i: int)
    requires BackLinked(link, l) && Distinct(l) && 0 < i < |link| && i !in l
    ensures BackLinked(link[i := 0][Head(l) := i], [i] + l)
  {
    var link', l' := link[i := 0][Head(l) := i], [i] + l;
    forall k | 0 <= k < |l'|
      ensures 0 < l'[k] < |link'|
    {
      if k > 0 {
        assert l'[k] == l[k - 1];
      }
    }
    forall k | 0 <= k < |l'|
      ensures link'[l'[k]] == Before(l', k)
    {
      if k == 1 {
        assert l'[k] == Head(l);
      } else if k > 1 {
        assert l'[k] == l[k - 1] != l[0];
        assert link[l[k - 1]] == Before(l, k - 1);
      }
    }
  }

  lemma {:induction false} LinkedRemove(link: seq<int>, l: seq<int>, k: nat)
    requires Linked(link, l) && Distinct(l) && k < |l| && |link| > 0
    ensures Linked(link[Before(l, k) := After(l, k)], l[..k] + l[k + 1..])
  {
    var link', l' := link[Before(l, k) := After(l, k)], l[..k] + l[k + 1..];
    assert forall j | 0 <= j < |l'| :: l'[j] == if j < k then l[j] else l[j + 1];
    forall j | 0 <= j < |l'|
      ensures link'[l'[j]] == After(l', j)
    {
      if j < k - 1 {
        assert l[j] != l[k - 1];
        assert link[l[j]] == After(l, j);
      } else if j == k - 1 {
      } else {
        assert j >= k;
        assert link[l[j + 1]] == After(l, j + 1);
        if k > 0 {
          assert l[j + 1] != l[k - 1];
        }
      }
    }
  }

  lemma {:induction false} BackLinkedRemove(link: seq<int>, l: seq<int>, k: nat)
    requires BackLinked(link, l) && Distinct(l) && k < |l| && |link| > 0
    ensures BackLinked(link[After(l, k) := Before(l, k)], l[..k] + l[k + 1..])
  {
    var link', l' := link[After(l, k) := Before(l, k)], l[..k] + l[k + 1..];
    assert forall j | 0 <= j < |l'| :: l'[j] == if j < k then l[j] else l[j + 1];
    forall j | 0 <= j < |l'|
      ensures link'[l'[j]] == Before(l', j)
    {
      if j < k {
        assert link[l[j]] == Before(l, j);
        if k + 1 < |l| {
          assert l[j] != l[k + 1];
        }
      } else if j == k {
        assert link[l[j + 1]] == Before(l, j + 1);
      } else {
        assert link[l[j + 1]] == Before(l, j + 1);
        assert l[j + 1] != l[k + 1];
      }
    }
  }

  /** unfix: a frame released for the last time goes to the head of the LRU list. */
  lemma {:induction false} ListPushFront(next: seq<int>, prev: seq<int>, l: seq<int>, i: int)
    requires IsList(next, prev, l) && 0 < i < |next| && i !in l
    ensures var h := next[0];
      IsList(next[i := h][0 := i], prev[i := 0][h := i], [i] + l)
  {
    var h := next[0];
    LinkedDistinct(next, l);
    LinkedPrepend(next, l, i);
    LinkedUnchanged(next[i := h], next[i := h][0 := i], [i] + l);
    BackLinkedPrepend(prev, l, i);
  }

  /** A hit on an unpinned frame, an eviction and flush take the frame l[k] out of the LRU list. */
  lemma {:induction false} ListUnlink(next: seq<int>, prev: seq<int>, l: seq<int>, k: nat)
    requires IsList(next, prev, l) && k < |l|
    ensures var i := l[k];
      IsList(next[prev[i] := next[i]], prev[next[i] := prev[i]], l[..k] + l[k + 1..])
  {
    var i := l[k];
    assert prev[i] == Before(l, k) && next[i] == After(l, k);
    LinkedDistinct(next, l);
    LinkedRemove(next, l, k);
    BackLinkedRemove(prev, l, k);
    var l' := l[..k] + l[k + 1..];
    if k > 0 {
      assert l'[0] == l[0];
    } else if |l'| > 0 {
      assert l'[0] == l[1];
    }
    if k < |l| - 1 {
      assert l'[|l'| - 1] == l[|l| - 1];
    } else if |l'| > 0 {
      assert l'[|l'| - 1] == l[k - 1];
    }
  }

  /** A frame put in service goes to the head of its collision chain. */
  lemma {:induction false} ChainPush(head: int, link: seq<int>, l: seq<int>, i: int)
    requires IsChain(head, link, l) && 0 < i < |link| && i !in l
    ensures IsChain(i, link[i := head], [i] + l)
  {
    LinkedPrepend(link, l, i);
  }

  /** Unhooking the first element of a chain: the head moves to its successor. */
  lemma {:induction false} ChainRemoveFirst(head: int, link: seq<int>, l: seq<int>)
    requires IsChain(head, link, l) && |l| > 0
    ensures IsChain(link[l[0]], link, l[1..])
  {
    assert forall j | 0 <= j < |l| - 1 :: l[1..][j] == l[j + 1];
    assert link[l[0]] == After(l, 0);
  }

  /** Unhooking element k > 0 of a chain: its predecessor's link skips it. */
  lemma {:induction false} ChainRemoveLater(head: int, link: seq<int>, l: seq<int>, k: nat)
    requires IsChain(head, link, l) && 0 < k < |l|
    ensures IsChain(head, link[l[k - 1] := link[l[k]]], l[..k] + l[k + 1..])
  {
    assert link[l[k]] == After(l, k);
    LinkedDistinct(link, l);
    LinkedRemove(link, l, k);
    assert (l[..k] + l[k + 1..])[0] == l[0];
  }

  /** Distinct frame numbers in 1..m: at most m of them. */
  lemma {:induction false} Pigeonhole(s: seq<int>, m: nat)
    requires Distinct(s) && forall k | 0 <= k < |s| :: 1 <= s[k] <= m
    ensures |s| <= m
    decreases |s|
  {
    if |s| > 0 {
      var n := |s| - 1;
      var x := s[n];
      var t := seq(n, k requires 0 <= k < n => if s[k] == m then x else s[k]);
      forall k | 0 <= k < n
        ensures 1 <= t[k] <= m - 1
      {
        assert s[k] != x;
      }
      forall k, k' | 0 <= k < k' < n
        ensures t[k] != t[k']
      {
        assert s[k] != s[k'] && s[k] != x && s[k'] != x;
      }
      Pigeonhole(t, m - 1);
    }
  }

  /** Distinct frame numbers in 1..m that leave out one of them: fewer than m. */
  lemma {:induction false} PigeonholeMissing(s: seq<int>, m: nat, x: int)
    requires Distinct(s) && forall k | 0 <= k < |s| :: 1 <= s[k] <= m && s[k] != x
    requires 1 <= x <= m
    ensures |s| < m
  {
    var s' := seq(|s|, k requires 0 <= k < |s| => if s[k] == m then x else s[k]);
    forall k, k' | 0 <= k < k' < |s'|
      ensures s'[k] != s'[k']
    {
      assert s[k] != s[k'];
    }
    Pigeonhole(s', m - 1);
  }

  /** l without its element at position k. */
  function Del(l: seq<int>, k: nat): (r: seq<int>)
    requires k < |l|
    ensures |r| == |l| - 1
  {
    if k == 0 then l[1..] else [l[0]] + Del(l[1..], k - 1)
  }

  lemma {:induction false} DelIsSlices(l: seq<int>, k: nat)
    requires k < |l|
    ensures Del(l, k) == l[..k] + l[k + 1..]
  {
    if k > 0 {
      DelIsSlices(l[1..], k - 1);
      assert l[1..][..k - 1] == l[1..k];
      assert l[1..][k..] == l[k + 1..];
    }
  }

  /** An element other than the one removed stays in the list. */
  lemma {:induction false} StillIn(l: seq<int>, k: nat, f: int)
    requires k < |l| && f in l && f != l[k]
    ensures f in l[..k] + l[k + 1..]
  {
    var j :| 0 <= j < |l| && l[j] == f;
    var l' := l[..k] + l[k + 1..];
    if j < k {
      assert l'[j] == f;
    } else {
      assert l'[j - 1] == f;
    }
  }

  /** C's `&` never exceeds its second operand. */
  lemma {:induction false} AndAtMost(a: nat, b: nat)
    ensures And(a, b) <= b
    decreases b
  {
    if a != 0 && b != 0 {
      AndAtMost(a / 2, b / 2);
    }
  }

  /** The hash bucket of a page address: its page number masked with hashBits. */
  function Bucket(addr: uint32, hashBits: nat): (b: nat)
    ensures b <= hashBits
  {
    AndAtMost(addr / PAGE_SIZE, hashBits);
    And(addr / PAGE_SIZE, hashBits)
  }

  /** With 2^k buckets the bucket is the page number modulo the table size. */
  lemma {:induction false} BucketIsPageModulo(addr: uint32, k: nat)
    ensures Bucket(addr, Pow2(k) - 1) == (addr / PAGE_SIZE) % Pow2(k)
  {
    AndLowMask(addr / PAGE_SIZE, k);
  }

  /** A page of zero bytes: what a page past the end of the file reads as. */
  function Zeros(): (z: seq<uint8>)
    ensures |z| == PAGE_SIZE && forall j | 0 <= j < |z| :: z[j] == 0
  {
    seq(PAGE_SIZE, _ => 0)
  }

  /** The bytes a page read of address a yields: the file's page when it lies before fileSize, zeros otherwise. */
  function FilePage(file: map<int, seq<uint8>>, fileSize: nat, a: int): (r: seq<uint8>)
  {
    if a < fileSize && a in file then file[a] else Zeros()
  }

  /** The page at address a as seen through the pool: the bytes of its frame when cached, the file's otherwise. */
  ghost function PageOf(cached: map<int, int>, buffer: seq<seq<uint8>>, file: map<int, seq<uint8>>, fileSize: nat, a: int): seq<uint8>
  {
    if a in cached && 1 <= cached[a] <= |buffer| then buffer[cached[a] - 1] else FilePage(file, fileSize, a)
  }

  /** A write of a cached page's address changes no page seen through the pool. */
  lemma {:induction false} WriteKeepsView(cached: map<int, int>, buffer: seq<seq<uint8>>, file: map<int, seq<uint8>>, fileSize: nat,
                                          file': map<int, seq<uint8>>, fileSize': nat, x: int)
    requires x in cached && 1 <= cached[x] <= |buffer|
    requires forall b | b != x :: FilePage(file', fileSize', b) == FilePage(file, fileSize, b)
    ensures forall a :: PageOf(cached, buffer, file', fileSize', a) == PageOf(cached, buffer, file, fileSize, a)
  {
    forall a
      ensures PageOf(cached, buffer, file', fileSize', a) == PageOf(cached, buffer, file, fileSize, a)
    {
      if a == x {
        assert PageOf(cached, buffer, file', fileSize', a) == buffer[cached[x] - 1];
      }
    }
  }

  /** Dropping a cached address whose frame holds what the file holds for it changes no page seen through the pool. */
  lemma {:induction false} DropKeepsView(cached: map<int, int>, buffer: seq<seq<uint8>>, file: map<int, seq<uint8>>, fileSize: nat, x: int)
    requires x in cached && 1 <= cached[x] <= |buffer| && buffer[cached[x] - 1] == FilePage(file, fileSize, x)
    ensures forall a :: PageOf(cached - {x}, buffer, file, fileSize, a) == PageOf(cached, buffer, file, fileSize, a)
  {
  }

  /** Placing page x in frame i, which caches nothing, with the bytes the file holds for x changes no page seen through the pool. */
  lemma {:induction false} PlaceKeepsView(cached: map<int, int>, buffer: seq<seq<uint8>>, file: map<int, seq<uint8>>, fileSize: nat,
                                          i: int, x: int)
    requires x !in cached && 1 <= i <= |buffer| && forall a | Cached(cached, a) :: cached[a] != i
    ensures forall a :: PageOf(cached[x := i], buffer[i - 1 := FilePage(file, fileSize, x)], file, fileSize, a) ==
                        PageOf(cached, buffer, file, fileSize, a)
  {
    forall a
      ensures PageOf(cached[x := i], buffer[i - 1 := FilePage(file, fileSize, x)], file, fileSize, a) ==
              PageOf(cached, buffer, file, fileSize, a)
    {
      if a != x && a in cached {
        assert Cached(cached, a);
      }
    }
  }

  /** memcpy of data into a page at offset offs: those bytes are replaced, the others kept. */
  function Patch(page: seq<uint8>, offs: nat, data: seq<uint8>): (r: seq<uint8>)
    requires offs + |data| <= |page|
    ensures |r| == |page|
  {
    page[..offs] + data + page[offs + |data|..]
  }

  /** Byte j of the patched page comes from data where data covers it, from the page otherwise. */
  lemma {:induction false} PatchBytes(page: seq<uint8>, offs: nat, data: seq<uint8>)
    requires offs + |data| <= |page|
    ensures forall j | 0 <= j < |page| :: Patch(page, offs, data)[j] == if offs <= j < offs + |data| then data[j - offs] else page[j]
  {
    var r := Patch(page, offs, data);
    forall j | 0 <= j < |page|
      ensures r[j] == if offs <= j < offs + |data| then data[j - offs] else page[j]
    {
      if j < offs {
        assert r[j] == page[..offs][j];
      } else if j < offs + |data| {
        assert r[j] == (page[..offs] + data)[j];
      }
    }
  }

  /**
   * The page at address a once obj is stored from address pos on: the part
   * of obj that falls inside the page replaces those bytes. Only page-aligned
   * addresses name pages.
   */
  ghost function Overlay(page: seq<uint8>, a: int, pos: int, obj: seq<uint8>): (r: seq<uint8>)
    ensures |r| == |page|
  {
    var lo := if pos < a then a else pos;
    var hi := if pos + |obj| < a + |page| then pos + |obj| else a + |page|;
    if a % PAGE_SIZE != 0 || lo >= hi then page else Patch(page, lo - a, obj[lo - pos..hi - pos])
  }

  /** Byte j of an aligned page after the store comes from obj where obj covers it, from the page otherwise. */
  lemma {:induction false} OverlayBytes(page: seq<uint8>, a: int, pos: int, obj: seq<uint8>)
    requires a % PAGE_SIZE == 0
    ensures forall j | 0 <= j < |page| ::
      Overlay(page, a, pos, obj)[j] == if pos <= a + j < pos + |obj| then obj[a + j - pos] else page[j]
  {
    var lo := if pos < a then a else pos;
    var hi := if pos + |obj| < a + |page| then pos + |obj| else a + |page|;
    if lo < hi {
      PatchBytes(page, lo - a, obj[lo - pos..hi - pos]);
    }
  }

  /** Storing the next piece of obj, which lies inside page p at offset offs, extends the stored prefix by that piece. */
  lemma {:induction false} OverlayStep(page: seq<uint8>, a: int, pos: int, obj: seq<uint8>, done: nat, p: int, offs: nat, n: nat)
    requires |page| == PAGE_SIZE && done + n <= |obj| && offs + n <= PAGE_SIZE && pos + done == p + offs
    requires p % PAGE_SIZE == 0
    ensures a == p ==> Overlay(page, a, pos, obj[..done + n]) == Patch(Overlay(page, a, pos, obj[..done]), offs, obj[done..done + n])
    ensures a != p ==> Overlay(page, a, pos, obj[..done + n]) == Overlay(page, a, pos, obj[..done])
  {
    if a % PAGE_SIZE == 0 {
      var o, o' := obj[..done], obj[..done + n];
      OverlayBytes(page, a, pos, o);
      OverlayBytes(page, a, pos, o');
      var r, r' := Overlay(page, a, pos, o), Overlay(page, a, pos, o');
      if a == p {
        var q := Patch(r, offs, obj[done..done + n]);
        PatchBytes(r, offs, obj[done..done + n]);
        forall j | 0 <= j < PAGE_SIZE
          ensures r'[j] == q[j]
        {
          if pos <= a + j < pos + done + n {
            assert o'[a + j - pos] == obj[a + j - pos];
            if a + j < pos + done {
              assert o[a + j - pos] == obj[a + j - pos];
            }
          }
        }
      } else {
        forall j | 0 <= j < PAGE_SIZE
          ensures r'[j] == r[j]
        {
          if pos <= a + j < pos + done + n {
            assert o'[a + j - pos] == obj[a + j - pos];
            OtherPage(a + j, p, a);
            assert o[a + j - pos] == obj[a + j - pos];
          }
        }
      }
    }
  }

  /** A byte of the aligned page at a lies outside every other aligned page p. */
  lemma {:induction false} OtherPage(x: int, p: int, a: int)
    requires p % PAGE_SIZE == 0 && a % PAGE_SIZE == 0 && a != p && a <= x < a + PAGE_SIZE
    ensures x < p || p + PAGE_SIZE <= x
  {
    var k, q := a / PAGE_SIZE, p / PAGE_SIZE;
    assert a == k * PAGE_SIZE && p == q * PAGE_SIZE;
    if k < q {
      assert k + 1 <= q;
      assert a + PAGE_SIZE <= p;
    } else {
      assert q + 1 <= k;
      assert p + PAGE_SIZE <= a;
    }
  }

  /**
   * Pages v2 after storing the piece of obj from done to done + n at offset
   * offs of page p, from pages v1 holding obj up to done over pages view0:
   * v2 holds obj up to done + n.
   */
  lemma {:induction false} PieceStep(view0: imap<int, seq<uint8>>, v1: imap<int, seq<uint8>>, v2: imap<int, seq<uint8>>,
                                     pos: int, obj: seq<uint8>, done: nat, p: int, offs: nat, n: nat)
    requires done + n <= |obj| && offs + n <= PAGE_SIZE && pos + done == p + offs && p % PAGE_SIZE == 0
    requires forall a :: a in view0 && a in v1 && a in v2 && |view0[a]| == |v1[a]| == PAGE_SIZE
    requires forall a :: v1[a] == Overlay(view0[a], a, pos, obj[..done])
    requires forall a :: v2[a] == if a == p then Patch(v1[a], offs, obj[done..done + n]) else v1[a]
    ensures forall a :: v2[a] == Overlay(view0[a], a, pos, obj[..done + n])
  {
    forall a
      ensures v2[a] == Overlay(view0[a], a, pos, obj[..done + n])
    {
      OverlayStep(view0[a], a, pos, obj, done, p, offs, n);
    }
  }

  /** The page after an aligned page is aligned. */
  lemma {:induction false} NextPageAligned(p: int)
    requires p % PAGE_SIZE == 0
    ensures (p + PAGE_SIZE) % PAGE_SIZE == 0
  {
  }

  /**
   * copy, after k words from src to dst: the next word is read at offset
   * srcOffs of the aligned page srcPage and stored at offset dstOffs of dstPage.
   */
  ghost predicate CopyPlaces(dst: int, src: int, k: nat, dstPage: int, dstOffs: nat, srcPage: int, srcOffs: nat)
  {
    dstOffs <= PAGE_SIZE && dstOffs % 4 == 0 && 0 <= dstPage && dstPage % PAGE_SIZE == 0 &&
    srcOffs <= PAGE_SIZE && srcOffs % 4 == 0 && 0 <= srcPage && srcPage % PAGE_SIZE == 0 &&
    dstPage + dstOffs == dst + 4 * k && srcPage + srcOffs == src + 4 * k
  }

  /**
   * copy: where the next word goes, given the page and the offset in it
   * reached so far; at the end of the page the word goes to the next page.
   */
  function WordPlace(page: int, offs: nat): (int, nat)
    requires 0 <= page && page % PAGE_SIZE == 0 && offs <= PAGE_SIZE && offs % 4 == 0
  {
    if offs == PAGE_SIZE then (page + PAGE_SIZE, 0) else (page, offs)
  }

  /** WordPlace names the same address, on an aligned page, with room for a word. */
  lemma {:induction false} WordPlaceFits(page: int, offs: nat)
    requires 0 <= page && page % PAGE_SIZE == 0 && offs <= PAGE_SIZE && offs % 4 == 0
    ensures var (p, o) := WordPlace(page, offs); 0 <= p && p % PAGE_SIZE == 0 && o + 4 <= PAGE_SIZE && o % 4 == 0 && p + o == page + offs
  {
    DivModUnique(offs, 4, offs / 4, 0);
  }

  /** An offset that is a multiple of 4 stays one 4 bytes on. */
  lemma {:induction false} WordAfter(offs: int)
    requires offs % 4 == 0
    ensures (offs + 4) % 4 == 0
  {
    DivModUnique(offs + 4, 4, offs / 4 + 1, 0);
  }

  /** A frame's new bytes change what the pool holds for its page, and for no other address. */
  lemma {:induction false} PatchKeepsOthers(table: seq<int>, link: seq<int>, offs: seq<uint32>, chains: seq<seq<int>>,
                                            cached: map<int, int>, used: int, hashBits: nat,
                                            buffer: seq<seq<uint8>>, file: map<int, seq<uint8>>, fileSize: nat,
                                            x: int, page: seq<uint8>)
    requires ChainInv(table, link, offs, chains, cached, used, 0, hashBits) && used <= |buffer| + 1
    requires x in cached && 1 <= cached[x] <= |buffer|
    ensures forall a :: PageOf(cached, buffer[cached[x] - 1 := page], file, fileSize, a) ==
                        if a == x then page else PageOf(cached, buffer, file, fileSize, a)
  {
    assert Cached(cached, x);
    forall a
      ensures PageOf(cached, buffer[cached[x] - 1 := page], file, fileSize, a) ==
              if a == x then page else PageOf(cached, buffer, file, fileSize, a)
    {
      if a != x && a in cached {
        assert Cached(cached, a);
      }
    }
  }

  /** The file holds whole pages, all before fileSize. */
  ghost predicate FileInv(file: map<int, seq<uint8>>, fileSize: nat)
  {
    forall a | a in file :: 0 <= a < fileSize && |file[a]| == PAGE_SIZE
  }

  /** Writing a page and extending fileSize past it changes what no other address reads. */
  lemma {:induction false} WriteKeepsOthers(file: map<int, seq<uint8>>, fileSize: nat, a: int, page: seq<uint8>, fileSize': nat, b: int)
    requires FileInv(file, fileSize) && fileSize' >= fileSize && a < fileSize' && b != a
    ensures FilePage(file[a := page], fileSize', b) == FilePage(file, fileSize, b)
  {
  }

  /**
   * The hash chains: bucket b holds the frames caching the pages of that
   * bucket, and cached maps each cached page address to its frame. The frames
   * in use are 1..used-1; frame d, when not 0, is detached from all of it.
   */
  ghost predicate ChainInv(table: seq<int>, link: seq<int>, offs: seq<uint32>, chains: seq<seq<int>>,
                           cached: map<int, int>, used: int, d: int, hashBits: nat)
  {
    |chains| == |table| == hashBits + 1 && 1 <= used <= |link| && |link| == |offs| &&
    ChainsLinked(table, link, chains) && ChainMembers(chains, offs, used, d, hashBits) &&
    CachedInChains(cached, offs, chains, used, d, hashBits) && FramesCached(cached, offs, used, d)
  }

  /** Bucket b's chain starts at table[b] and follows link. */
  ghost predicate ChainsLinked(table: seq<int>, link: seq<int>, chains: seq<seq<int>>)
    requires |chains| == |table|
  {
    forall b | 0 <= b < |table| :: IsChain(table[b], link, chains[b])
  }

  /** Bucket b's chain holds frames in use, other than d, whose pages fall in bucket b. */
  ghost predicate ChainMembers(chains: seq<seq<int>>, offs: seq<uint32>, used: int, d: int, hashBits: nat)
    requires used <= |offs|
  {
    forall b, k | 0 <= b < |chains| && 0 <= k < |chains[b]| ::
      1 <= chains[b][k] < used && chains[b][k] != d && Bucket(offs[chains[b][k]], hashBits) == b
  }

  /** Address a is cached; the name the hash chain facts about a are found by. */
  ghost predicate Cached(cached: map<int, int>, a: int)
  {
    a in cached
  }

  /** A cached address is page aligned and names a frame in use, other than d, holding it and found in its bucket. */
  ghost predicate CachedInChains(cached: map<int, int>, offs: seq<uint32>, chains: seq<seq<int>>, used: int, d: int, hashBits: nat)
    requires used <= |offs| && |chains| == hashBits + 1
  {
    forall a {:trigger Cached(cached, a)} | Cached(cached, a) ::
      a % PAGE_SIZE == 0 && 1 <= cached[a] < used && cached[a] != d && offs[cached[a]] == a &&
      cached[a] in chains[Bucket(offs[cached[a]], hashBits)]
  }

  /** Every frame in use other than d is the one cached for its address. */
  ghost predicate FramesCached(cached: map<int, int>, offs: seq<uint32>, used: int, d: int)
    requires used <= |offs|
  {
    forall f {:trigger offs[f] in cached} {:trigger cached[offs[f]]} | 1 <= f < used && f != d :: offs[f] in cached && cached[offs[f]] == f
  }

  /** The LRU list holds exactly the frames in use that nobody pins. */
  ghost predicate LruInv(next: seq<int>, prev: seq<int>, count: seq<int>, lru: seq<int>, used: int, d: int)
  {
    1 <= used <= |next| == |count| && IsList(next, prev, lru) &&
    (forall k | 0 <= k < |lru| :: lru[k] < used && lru[k] != d && count[lru[k]] == 0) &&
    (forall f | 1 <= f < used && f != d :: count[f] >= 0 && (count[f] == 0 ==> f in lru))
  }

  /** Queue entries 0..n-1 are the dirty frames in use, each knowing its position. */
  ghost predicate QueueInv(queue: seq<int>, n: int, qpos: seq<int>, dirty: seq<bool>, used: int, d: int)
  {
    0 <= n <= |queue| && 1 <= used <= |qpos| == |dirty| &&
    (forall q | 0 <= q < n :: 1 <= queue[q] < used && queue[q] != d && qpos[queue[q]] == q && dirty[queue[q]]) &&
    (forall f | 1 <= f < used && f != d && dirty[f] :: 0 <= qpos[f] < n && queue[qpos[f]] == f)
  }

  /** A clean frame in use holds what the file holds for its page. */
  ghost predicate ContentInv(buffer: seq<seq<uint8>>, dirty: seq<bool>, offs: seq<uint32>,
                             file: map<int, seq<uint8>>, fileSize: nat, used: int, d: int)
  {
    |buffer| + 1 == |dirty| == |offs| && 1 <= used <= |dirty| &&
    (forall j | 0 <= j < |buffer| :: |buffer[j]| == PAGE_SIZE) &&
    (forall f {:trigger dirty[f]} | 1 <= f < used && f != d && !dirty[f] :: buffer[f - 1] == FilePage(file, fileSize, offs[f]))
  }

  /** Frames from used on were never handed out and still form the free list. */
  ghost predicate FreeInv(next: seq<int>, used: int, poolSize: nat)
  {
    |next| == poolSize + 1 && 1 <= used <= poolSize + 1 &&
    forall f | used <= f <= poolSize :: next[f] == if f < poolSize then f + 1 else 0
  }

  /** The queue of dirty frames holds distinct frames other than the clean frame x, so it has room for x. */
  lemma {:induction false} QueueHasRoom(queue: seq<int>, n: int, qpos: seq<int>, dirty: seq<bool>, used: int, x: int, poolSize: nat)
    requires QueueInv(queue, n, qpos, dirty, used, 0) && used <= poolSize + 1
    requires 1 <= x < used && !dirty[x]
    ensures n < poolSize
  {
    var s := queue[..n];
    forall k, k' | 0 <= k < k' < |s|
      ensures s[k] != s[k']
    {
      assert qpos[s[k]] == k && qpos[s[k']] == k';
    }
    PigeonholeMissing(s, poolSize, x);
  }

  /** modify of a clean frame: it joins the dirty queue at the end, and no clean frame is left out of step with the file. */
  lemma {:induction false} EnqueueInv(queue: seq<int>, n: int, qpos: seq<int>, dirty: seq<bool>, used: int, poolSize: nat,
                                      i: int, buffer: seq<seq<uint8>>, offs: seq<uint32>, file: map<int, seq<uint8>>, fileSize: nat)
    requires QueueInv(queue, n, qpos, dirty, used, 0) && ContentInv(buffer, dirty, offs, file, fileSize, used, 0)
    requires used <= poolSize + 1 && |queue| == poolSize && 1 <= i < used && !dirty[i]
    ensures n < |queue|
    ensures QueueInv(queue[n := i], n + 1, qpos[i := n], dirty[i := true], used, 0)
    ensures ContentInv(buffer, dirty[i := true], offs, file, fileSize, used, 0)
  {
    QueueHasRoom(queue, n, qpos, dirty, used, i, poolSize);
    var queue', qpos', dirty' := queue[n := i], qpos[i := n], dirty[i := true];
    forall q | 0 <= q < n + 1
      ensures 1 <= queue'[q] < used && queue'[q] != 0 && qpos'[queue'[q]] == q && dirty'[queue'[q]]
    {
      if q < n {
        assert queue'[q] == queue[q] && queue[q] != i;
      }
    }
  }

  /** find taking the head of the free list: frame used is handed out but not yet placed. */
  lemma {:induction false} TakeFreeInv(next: seq<int>, prev: seq<int>, count: seq<int>, lru: seq<int>,
                                       table: seq<int>, chain: seq<int>, offs: seq<uint32>, chains: seq<seq<int>>,
                                       cached: map<int, int>, queue: seq<int>, n: int, qpos: seq<int>, dirty: seq<bool>,
                                       buffer: seq<seq<uint8>>, file: map<int, seq<uint8>>, fileSize: nat,
                                       hashBits: nat, poolSize: nat, used: int)
    requires FreeInv(next, used, poolSize) && used <= poolSize && |chain| == |qpos| == |dirty| == poolSize + 1
    requires LruInv(next, prev, count, lru, used, 0)
    requires ChainInv(table, chain, offs, chains, cached, used, 0, hashBits)
    requires QueueInv(queue, n, qpos, dirty, used, 0)
    requires ContentInv(buffer, dirty, offs, file, fileSize, used, 0)
    ensures next[used] == if used < poolSize then used + 1 else 0
    ensures FreeInv(next, used + 1, poolSize)
    ensures LruInv(next, prev, count, lru, used + 1, used)
    ensures ChainInv(table, chain, offs, chains, cached, used + 1, used, hashBits)
    ensures QueueInv(queue, n, qpos, dirty, used + 1, used)
    ensures ContentInv(buffer, dirty, offs, file, fileSize, used + 1, used)
  {
  }

  /** Writing back dirty frame i: the file then holds its bytes at its address and no clean frame falls out of step. */
  lemma {:induction false} WriteInv(buffer: seq<seq<uint8>>, dirty: seq<bool>, offs: seq<uint32>,
                                    file: map<int, seq<uint8>>, fileSize: nat, file': map<int, seq<uint8>>, fileSize': nat,
                                    used: int, table: seq<int>, chain: seq<int>, chains: seq<seq<int>>, cached: map<int, int>,
                                    hashBits: nat, i: int)
    requires ContentInv(buffer, dirty, offs, file, fileSize, used, 0) && FileInv(file, fileSize)
    requires ChainInv(table, chain, offs, chains, cached, used, 0, hashBits)
    requires 1 <= i < used && dirty[i]
    requires file' == file[offs[i] as int := buffer[i - 1]]
    requires fileSize' == if offs[i] >= fileSize then offs[i] + PAGE_SIZE else fileSize
    ensures offs[i] in cached && cached[offs[i] as int] == i
    ensures FileInv(file', fileSize') && ContentInv(buffer, dirty, offs, file', fileSize', used, 0)
    ensures FilePage(file', fileSize', offs[i]) == buffer[i - 1]
    ensures forall b | b != offs[i] as int :: FilePage(file', fileSize', b) == FilePage(file, fileSize, b)
  {
    var a := offs[i];
    forall f | 1 <= f < used && f != 0 && !dirty[f]
      ensures buffer[f - 1] == FilePage(file', fileSize', offs[f])
    {
      assert cached[offs[f] as int] == f && cached[a as int] == i;
    }
  }

  /** The dirty frame i leaves the queue: the last entry takes its place. */
  lemma {:induction false} DequeueInv(queue: seq<int>, n: int, qpos: seq<int>, dirty: seq<bool>, used: int, i: int)
    requires QueueInv(queue, n, qpos, dirty, used, 0) && 1 <= i < used && dirty[i]
    ensures 0 <= qpos[i] < n && 1 <= queue[n - 1] < |qpos|
    ensures var q, last := qpos[i], queue[n - 1];
      QueueInv(queue[q := last], n - 1, qpos[last := q], dirty, used, i)
  {
    var q, last := qpos[i], queue[n - 1];
    var queue', qpos' := queue[q := last], qpos[last := q];
    forall j | 0 <= j < n - 1
      ensures 1 <= queue'[j] < used && queue'[j] != i && qpos'[queue'[j]] == j && dirty[queue'[j]]
    {
      if j == q {
        assert qpos[last] == n - 1;
      } else {
        assert qpos[queue[j]] == j;
      }
    }
    forall f | 1 <= f < used && f != i && dirty[f]
      ensures 0 <= qpos'[f] < n - 1 && queue'[qpos'[f]] == f
    {
      assert queue[qpos[f]] == f && qpos[last] == n - 1;
    }
  }

  /** A clean frame is in no queue entry, so the queue's invariant holds with it detached. */
  lemma {:induction false} QueueDetachClean(queue: seq<int>, n: int, qpos: seq<int>, dirty: seq<bool>, used: int, i: int)
    requires QueueInv(queue, n, qpos, dirty, used, 0) && 1 <= i < used && !dirty[i]
    ensures QueueInv(queue, n, qpos, dirty, used, i)
  {
    forall q | 0 <= q < n
      ensures queue[q] != i
    {
      assert dirty[queue[q]];
    }
  }

  /** A frame in use sits in the chain of its page's bucket. */
  lemma {:induction false} ChainOf(table: seq<int>, link: seq<int>, offs: seq<uint32>, chains: seq<seq<int>>,
                                   cached: map<int, int>, used: int, hashBits: nat, i: int)
    requires ChainInv(table, link, offs, chains, cached, used, 0, hashBits) && 1 <= i < used
    ensures offs[i] as int in cached && cached[offs[i] as int] == i
    ensures var h := Bucket(offs[i], hashBits); h < |table| && IsChain(table[h], link, chains[h]) && i in chains[h]
  {
    var h := Bucket(offs[i], hashBits);
    assert offs[i] in cached && cached[offs[i] as int] == i && Cached(cached, offs[i] as int);
  }

  /** Unhooking frame i at position k of bucket h's chain, after p (0: the head slot), keeps every chain linked. */
  lemma {:induction false} UnhookLinked(table: seq<int>, link: seq<int>, offs: seq<uint32>, chains: seq<seq<int>>,
                                        used: int, hashBits: nat, h: nat, i: int, k: nat, p: int)
    requires |chains| == |table| == hashBits + 1 && used <= |link| == |offs| && h < |chains|
    requires ChainsLinked(table, link, chains) && ChainMembers(chains, offs, used, 0, hashBits)
    requires k < |chains[h]| && chains[h][k] == i && p == (if k == 0 then 0 else chains[h][k - 1])
    ensures var table', link' := if p == 0 then table[h := link[i]] else table, if p == 0 then link else link[p := link[i]];
      ChainsLinked(table', link', chains[h := Del(chains[h], k)])
  {
    var l := chains[h];
    var table', link' := if p == 0 then table[h := link[i]] else table, if p == 0 then link else link[p := link[i]];
    var chains' := chains[h := Del(l, k)];
    DelIsSlices(l, k);
    assert IsChain(table[h], link, l);
    if k == 0 {
      ChainRemoveFirst(table[h], link, l);
    } else {
      ChainRemoveLater(table[h], link, l, k);
    }
    forall b | 0 <= b < |table'| && b != h
      ensures IsChain(table'[b], link', chains'[b])
    {
      assert IsChain(table[b], link, chains[b]);
      forall j | 0 <= j < |chains[b]|
        ensures link'[chains[b][j]] == link[chains[b][j]]
      {
        if k > 0 {
          assert Bucket(offs[l[k - 1]], hashBits) == h;
        }
      }
      LinkedUnchanged(link, link', chains[b]);
    }
  }

  /** With frame i gone from its chain, no chain holds it. */
  lemma {:induction false} UnhookMembers(chains: seq<seq<int>>, offs: seq<uint32>, used: int, hashBits: nat, h: nat, i: int, k: nat)
    requires used <= |offs| && h < |chains| && ChainMembers(chains, offs, used, 0, hashBits)
    requires k < |chains[h]| && chains[h][k] == i && Distinct(chains[h]) && Bucket(offs[i], hashBits) == h
    ensures ChainMembers(chains[h := Del(chains[h], k)], offs, used, i, hashBits)
  {
    var l := chains[h];
    var chains' := chains[h := Del(l, k)];
    DelIsSlices(l, k);
    forall b, j | 0 <= b < |chains'| && 0 <= j < |chains'[b]|
      ensures 1 <= chains'[b][j] < used && chains'[b][j] != i && Bucket(offs[chains'[b][j]], hashBits) == b
    {
      if b == h {
        var j0 := if j < k then j else j + 1;
        assert chains'[b][j] == l[j0];
      }
    }
  }

  /** With frame i unhooked, its address is no longer cached and every other cached address still is. */
  lemma {:induction false} UnhookCached(cached: map<int, int>, offs: seq<uint32>, chains: seq<seq<int>>,
                                        used: int, hashBits: nat, h: nat, i: int, k: nat)
    requires used <= |offs| && |chains| == hashBits + 1 && 1 <= i < used && h == Bucket(offs[i], hashBits)
    requires CachedInChains(cached, offs, chains, used, 0, hashBits) && FramesCached(cached, offs, used, 0)
    requires k < |chains[h]| && chains[h][k] == i
    ensures var chains', cached' := chains[h := Del(chains[h], k)], cached - {offs[i] as int};
      CachedInChains(cached', offs, chains', used, i, hashBits) && FramesCached(cached', offs, used, i)
  {
    var l := chains[h];
    var chains', cached' := chains[h := Del(l, k)], cached - {offs[i] as int};
    DelIsSlices(l, k);
    forall a | Cached(cached', a)
      ensures a % PAGE_SIZE == 0 && 1 <= cached'[a] < used && cached'[a] != i && offs[cached'[a]] == a
      ensures cached'[a] in chains'[Bucket(offs[cached'[a]], hashBits)]
    {
      assert Cached(cached, a);
      if Bucket(offs[cached[a]], hashBits) == h {
        StillIn(l, k, cached[a]);
      }
    }
    forall f | 1 <= f < used && f != i
      ensures offs[f] in cached' && cached'[offs[f]] == f
    {
      assert cached[offs[f]] == f && cached[offs[i]] == i;
    }
  }

  /** Frame i, at position k of its bucket's chain after p (0: the head slot), is unhooked: its page is no longer cached. */
  lemma {:induction false} ChainUnhookInv(table: seq<int>, link: seq<int>, offs: seq<uint32>, chains: seq<seq<int>>,
                                          cached: map<int, int>, used: int, hashBits: nat, i: int, k: nat, p: int,
                                          table': seq<int>, link': seq<int>, chains': seq<seq<int>>, cached': map<int, int>)
    requires ChainInv(table, link, offs, chains, cached, used, 0, hashBits) && 1 <= i < used
    requires var l := chains[Bucket(offs[i], hashBits)]; k < |l| && l[k] == i && p == (if k == 0 then 0 else l[k - 1])
    requires var h := Bucket(offs[i], hashBits);
      table' == (if p == 0 then table[h := link[i]] else table) && link' == (if p == 0 then link else link[p := link[i]]) &&
      chains' == chains[h := Del(chains[h], k)] && cached' == cached - {offs[i] as int}
    ensures ChainInv(table', link', offs, chains', cached', used, i, hashBits)
  {
    var h := Bucket(offs[i], hashBits);
    assert IsChain(table[h], link, chains[h]);
    LinkedDistinct(link, chains[h]);
    UnhookLinked(table, link, offs, chains, used, hashBits, h, i, k, p);
    UnhookMembers(chains, offs, used, hashBits, h, i, k);
    UnhookCached(cached, offs, chains, used, hashBits, h, i, k);
  }

  /** Eviction takes the tail of the LRU list out of it; with every frame handed out the free list is empty. */
  lemma {:induction false} EvictLruInv(next: seq<int>, prev: seq<int>, count: seq<int>, lru: seq<int>, used: int, poolSize: nat)
    requires LruInv(next, prev, count, lru, used, 0) && FreeInv(next, used, poolSize) && used == poolSize + 1 && lru != []
    ensures var i := prev[0];
      i == lru[|lru| - 1] && 1 <= i < used && count[i] == 0 && 0 <= next[i] < |next| && 0 <= prev[i] < |next|
    ensures var i := prev[0]; var next', prev' := next[prev[i] := next[i]], prev[next[i] := prev[i]];
      LruInv(next', prev', count, Del(lru, |lru| - 1), used, i) && FreeInv(next', used, poolSize)
  {
    var k := |lru| - 1;
    var i := lru[k];
    LinkedDistinct(next, lru);
    ListUnlink(next, prev, lru, k);
    DelIsSlices(lru, k);
    var l' := Del(lru, k);
    assert next[i] == After(lru, k) && prev[i] == Before(lru, k);
    forall j | 0 <= j < |l'|
      ensures l'[j] != i
    {
      assert l'[j] == lru[j];
    }
    forall f | 1 <= f < used && f != i && count[f] == 0
      ensures f in l'
    {
      StillIn(lru, k, f);
    }
  }

  /** Pushing detached frame i onto bucket h's chain keeps every chain linked. */
  lemma {:induction false} AttachLinked(table: seq<int>, chain: seq<int>, chains: seq<seq<int>>, offs: seq<uint32>,
                                        used: int, hashBits: nat, h: nat, i: int)
    requires |chains| == |table| == hashBits + 1 && used <= |chain| == |offs| && h < |chains| && 1 <= i < used
    requires ChainsLinked(table, chain, chains) && ChainMembers(chains, offs, used, i, hashBits)
    ensures ChainsLinked(table[h := i], chain[i := table[h]], chains[h := [i] + chains[h]])
  {
    var table', chain', chains' := table[h := i], chain[i := table[h]], chains[h := [i] + chains[h]];
    assert IsChain(table[h], chain, chains[h]);
    assert i !in chains[h] by {
      assert forall j | 0 <= j < |chains[h]| :: chains[h][j] != i;
    }
    ChainPush(table[h], chain, chains[h], i);
    forall b | 0 <= b < |table'| && b != h
      ensures IsChain(table'[b], chain', chains'[b])
    {
      assert IsChain(table[b], chain, chains[b]);
      assert forall j | 0 <= j < |chains[b]| :: chains[b][j] != i;
      LinkedUnchanged(chain, chain', chains[b]);
    }
  }

  /** Frame i, now caching addr, belongs to addr's bucket. */
  lemma {:induction false} AttachMembers(chains: seq<seq<int>>, offs: seq<uint32>, used: int, hashBits: nat, i: int, addr: uint32)
    requires used <= |offs| && Bucket(addr, hashBits) < |chains| && 1 <= i < used
    requires ChainMembers(chains, offs, used, i, hashBits)
    ensures var h := Bucket(addr, hashBits); ChainMembers(chains[h := [i] + chains[h]], offs[i := addr], used, 0, hashBits)
  {
    var h := Bucket(addr, hashBits);
    var chains', offs' := chains[h := [i] + chains[h]], offs[i := addr];
    forall b, j | 0 <= b < |chains'| && 0 <= j < |chains'[b]|
      ensures 1 <= chains'[b][j] < used && Bucket(offs'[chains'[b][j]], hashBits) == b
    {
      if b == h && j > 0 {
        assert chains'[b][j] == chains[h][j - 1];
      }
    }
  }

  /** addr, cached in frame i, joins the cached addresses; the others keep their frames. */
  lemma {:induction false} AttachCached(cached: map<int, int>, offs: seq<uint32>, chains: seq<seq<int>>,
                                        used: int, hashBits: nat, i: int, addr: uint32)
    requires used <= |offs| && |chains| == hashBits + 1 && 1 <= i < used && addr % PAGE_SIZE == 0 && addr !in cached
    requires CachedInChains(cached, offs, chains, used, i, hashBits) && FramesCached(cached, offs, used, i)
    ensures var h := Bucket(addr, hashBits); var chains', offs', cached' := chains[h := [i] + chains[h]], offs[i := addr], cached[addr := i];
      CachedInChains(cached', offs', chains', used, 0, hashBits) && FramesCached(cached', offs', used, 0)
  {
    var h := Bucket(addr, hashBits);
    var chains', offs', cached' := chains[h := [i] + chains[h]], offs[i := addr], cached[addr := i];
    forall a | Cached(cached', a)
      ensures a % PAGE_SIZE == 0 && 1 <= cached'[a] < used && offs'[cached'[a]] == a && cached'[a] in chains'[Bucket(offs'[cached'[a]], hashBits)]
    {
      if a != addr {
        assert Cached(cached, a);
        assert cached[a] != i;
        assert cached[a] in chains[Bucket(offs[cached[a]], hashBits)];
      } else {
        assert chains'[h][0] == i;
      }
    }
    forall f | 1 <= f < used && f != 0
      ensures offs'[f] in cached' && cached'[offs'[f]] == f
    {
      if f != i {
        assert offs[f] in cached && offs[f] != addr;
      }
    }
  }

  /** find installing page addr in detached frame i: the frame heads its bucket's chain, pinned once and clean. */
  lemma {:induction false} AttachInv(next: seq<int>, prev: seq<int>, count: seq<int>, lru: seq<int>,
                                     table: seq<int>, chain: seq<int>, offs: seq<uint32>, chains: seq<seq<int>>,
                                     cached: map<int, int>, queue: seq<int>, n: int, qpos: seq<int>, dirty: seq<bool>,
                                     buffer: seq<seq<uint8>>, file: map<int, seq<uint8>>, fileSize: nat,
                                     hashBits: nat, used: int, i: int, addr: uint32)
    requires LruInv(next, prev, count, lru, used, i)
    requires ChainInv(table, chain, offs, chains, cached, used, i, hashBits)
    requires QueueInv(queue, n, qpos, dirty, used, i)
    requires ContentInv(buffer, dirty, offs, file, fileSize, used, i)
    requires 1 <= i < used && addr % PAGE_SIZE == 0 && addr !in cached
    ensures var h := Bucket(addr, hashBits);
      LruInv(next, prev, count[i := 1], lru, used, 0) &&
      ChainInv(table[h := i], chain[i := table[h]], offs[i := addr], chains[h := [i] + chains[h]], cached[addr := i], used, 0, hashBits) &&
      QueueInv(queue, n, qpos, dirty[i := false], used, 0) &&
      ContentInv(buffer, dirty[i := false], offs[i := addr], file, fileSize, used, i)
  {
    var h := Bucket(addr, hashBits);
    AttachLinked(table, chain, chains, offs, used, hashBits, h, i);
    AttachMembers(chains, offs, used, hashBits, i, addr);
    AttachCached(cached, offs, chains, used, hashBits, i, addr);
    forall k | 0 <= k < |lru|
      ensures count[i := 1][lru[k]] == 0
    {
      assert lru[k] != i;
    }
  }

  /** open: the hash table size, the least power of two from MIN_HASH_SIZE on that is at least poolSize. */
  method HashSizeFor(poolSize: nat) returns (hashSize: nat)
    requires poolSize <= 0x8000_0000
    ensures hashSize >= MIN_HASH_SIZE && hashSize >= poolSize
    ensures hashSize == MIN_HASH_SIZE || hashSize < 2 * poolSize
    ensures exists k: nat :: hashSize == Pow2(k)
  {
    hashSize := MIN_HASH_SIZE;
    ghost var k: nat := 14;
    Pow2Add(10, 4);
    Pow2Of10();
    while hashSize < poolSize
      invariant hashSize == Pow2(k) && hashSize >= MIN_HASH_SIZE
      invariant hashSize == MIN_HASH_SIZE || hashSize < 2 * poolSize
      decreases poolSize - hashSize
    {
      hashSize := hashSize * 2;
      k := k + 1;
    }
  }

  /** A frame whose last pin is released joins the LRU list at the head. */
  lemma {:induction false} LruAfterRelease(next0: seq<int>, prev0: seq<int>, next: seq<int>, prev: seq<int>,
                                           count: seq<int>, count': seq<int>, lru: seq<int>, used: int, i: int)
    requires LruInv(next0, prev0, count, lru, used, 0) && |next| == |count| && IsList(next, prev, [i] + lru)
    requires 1 <= i < used && count[i] == 1 && count' == count[i := 0]
    ensures LruInv(next, prev, count', [i] + lru, used, 0)
  {
    var l' := [i] + lru;
    forall k | 0 <= k < |l'|
      ensures l'[k] < used && l'[k] != 0 && count'[l'[k]] == 0
    {
      if k > 0 {
        assert l'[k] == lru[k - 1] && count[lru[k - 1]] == 0;
      }
    }
    forall f | 1 <= f < used && f != 0
      ensures count'[f] >= 0 && (count'[f] == 0 ==> f in l')
    {
      if f != i && count'[f] == 0 {
        assert f in lru;
      }
    }
  }

  /** unfix of the last pin: the frame joins the LRU list at the head, and the free list is untouched. */
  lemma {:induction false} ReleaseInv(next: seq<int>, prev: seq<int>, count: seq<int>, lru: seq<int>,
                                      used: int, poolSize: nat, i: int,
                                      next': seq<int>, prev': seq<int>, count': seq<int>, lru': seq<int>)
    requires LruInv(next, prev, count, lru, used, 0) && FreeInv(next, used, poolSize)
    requires 1 <= i < used && count[i] == 1
    requires next' == next[i := next[0]][0 := i] && prev' == prev[i := 0][next[0] := i]
    requires count' == count[i := 0] && lru' == [i] + lru
    ensures LruInv(next', prev', count', lru', used, 0) && FreeInv(next', used, poolSize)
  {
    assert i !in lru by {
      assert forall k | 0 <= k < |lru| :: count[lru[k]] == 0;
    }
    ListPushFront(next, prev, lru, i);
    LruAfterRelease(next, prev, next', prev', count, count', lru, used, i);
  }

  /** A frame that stays pinned stays out of the LRU list. */
  lemma {:induction false} LruAfterUnpin(next: seq<int>, prev: seq<int>, count: seq<int>, count': seq<int>,
                                         lru: seq<int>, used: int, i: int)
    requires LruInv(next, prev, count, lru, used, 0)
    requires 1 <= i < used && count[i] > 1 && count' == count[i := count[i] - 1]
    ensures LruInv(next, prev, count', lru, used, 0)
  {
    forall k | 0 <= k < |lru|
      ensures count'[lru[k]] == 0
    {
      assert count[lru[k]] == 0;
    }
  }

  /** A frame taken out of the LRU list and pinned once: the list holds exactly the unpinned frames again. */
  lemma {:induction false} LruAfterAcquire(next: seq<int>, prev: seq<int>, next': seq<int>, prev': seq<int>,
                                           count: seq<int>, lru: seq<int>, used: int, k: nat)
    requires LruInv(next, prev, count, lru, used, 0) && k < |lru| && Distinct(lru)
    requires |next'| == |next| && IsList(next', prev', Del(lru, k))
    ensures LruInv(next', prev', count[lru[k] := 1], Del(lru, k), used, 0)
  {
    DelIsSlices(lru, k);
    var i := lru[k];
    var count' := count[i := 1];
    var l' := Del(lru, k);
    forall j | 0 <= j < |l'|
      ensures l'[j] < used && l'[j] != 0 && count'[l'[j]] == 0
    {
      var j0 := if j < k then j else j + 1;
      assert l'[j] == lru[j0] && lru[j0] != i;
    }
    forall f | 1 <= f < used && f != 0 && count'[f] == 0
      ensures f in l'
    {
      StillIn(lru, k, f);
    }
  }

  /** find on a cached frame nobody pinned: it leaves the LRU list, and the free list is untouched. */
  lemma {:induction false} AcquireInv(next: seq<int>, prev: seq<int>, count: seq<int>, lru: seq<int>,
                                      used: int, poolSize: nat, i: int, k: nat)
    requires LruInv(next, prev, count, lru, used, 0) && FreeInv(next, used, poolSize)
    requires k < |lru| && lru[k] == i
    ensures 0 <= next[i] < |next| && 0 <= prev[i] < |next|
    ensures var next', prev' := next[prev[i] := next[i]], prev[next[i] := prev[i]];
      LruInv(next', prev', count[i := 1], Del(lru, k), used, 0) && FreeInv(next', used, poolSize)
  {
    DelIsSlices(lru, k);
    LinkedDistinct(next, lru);
    ListUnlink(next, prev, lru, k);
    assert prev[i] == Before(lru, k) && next[i] == After(lru, k);
    if k > 0 {
      assert lru[k - 1] < used;
    }
    LruAfterAcquire(next, prev, next[prev[i] := next[i]], prev[next[i] := prev[i]], count, lru, used, k);
  }

  /** A frame already pinned gains a pin and stays out of the LRU list. */
  lemma {:induction false} LruAfterPin(next: seq<int>, prev: seq<int>, count: seq<int>, count': seq<int>,
                                       lru: seq<int>, used: int, i: int)
    requires LruInv(next, prev, count, lru, used, 0)
    requires 1 <= i < used && count[i] > 0 && count' == count[i := count[i] + 1]
    ensures LruInv(next, prev, count', lru, used, 0)
  {
    forall k | 0 <= k < |lru|
      ensures count'[lru[k]] == 0
    {
      assert count[lru[k]] == 0;
    }
  }

  /**
   * open: the page headers of frames 0..poolSize, one array per header field,
   * with frames 1..poolSize chained into the free list and every state clean.
   */
  method NewHeaders(poolSize: nat) returns (next: array<int>, prev: array<int>, chain: array<int>,
                                            count: array<int>, qpos: array<int>, offs: array<uint32>, dirty: array<bool>)
    requires poolSize >= 1
    ensures fresh(next) && fresh(prev) && fresh(chain) && fresh(count) && fresh(qpos) && fresh(offs) && fresh(dirty)
    ensures next != prev && next != chain && next != count && next != qpos
    ensures prev != chain && prev != count && prev != qpos && chain != count && chain != qpos && count != qpos
    ensures next.Length == prev.Length == chain.Length == count.Length == qpos.Length == offs.Length == dirty.Length == poolSize + 1
    ensures next[0] == 0 && prev[0] == 0
    ensures forall f | 1 <= f <= poolSize :: next[f] == if f < poolSize then f + 1 else 0
    ensures forall f | 0 <= f <= poolSize :: !dirty[f]
  {
    next := new int[poolSize + 1](_ => 0);
    prev := new int[poolSize + 1](_ => 0);
    chain := new int[poolSize + 1](_ => 0);
    count := new int[poolSize + 1](_ => 0);
    qpos := new int[poolSize + 1](_ => 0);
    offs := new uint32[poolSize + 1](_ => 0);
    dirty := new bool[poolSize + 1](_ => true);
    var i := poolSize;
    while i != 0
      invariant 0 <= i <= poolSize && next[0] == 0
      invariant forall f | i < f <= poolSize :: next[f] == f + 1
      invariant forall f | i < f <= poolSize :: !dirty[f]
      modifies next, dirty
    {
      dirty[i] := false;
      next[i] := i + 1;
      i := i - 1;
    }
    next[poolSize] := 0;
    dirty[0] := false;
  }

  /** open: an empty hash table, room for every frame in the dirty queue, and the frames' bytes. */
  method NewTables(hashSize: nat, poolSize: nat) returns (hashTable: array<int>, dirtyPages: array<int>, buffer: seq<seq<uint8>>)
    ensures fresh(hashTable) && fresh(dirtyPages) && hashTable != dirtyPages
    ensures hashTable.Length == hashSize && dirtyPages.Length == poolSize && |buffer| == poolSize
    ensures forall b | 0 <= b < hashSize :: hashTable[b] == 0
    ensures forall j | 0 <= j < poolSize :: |buffer[j]| == PAGE_SIZE
  {
    hashTable := new int[hashSize](_ => 0);
    dirtyPages := new int[poolSize](_ => 0);
    buffer := seq(poolSize, _ => Zeros());
  }

  /** The state open leaves behind satisfies the pool's invariant. */
  lemma {:induction false} OpenInv(next: seq<int>, prev: seq<int>, count: seq<int>, chain: seq<int>, offs: seq<uint32>,
                                   qpos: seq<int>, dirty: seq<bool>, table: seq<int>, queue: seq<int>, buffer: seq<seq<uint8>>,
                                   file: map<int, seq<uint8>>, fileSize: nat, poolSize: nat, hashSize: nat)
    requires poolSize >= 1 && hashSize >= 1
    requires |next| == |prev| == |count| == |chain| == |offs| == |qpos| == |dirty| == poolSize + 1
    requires |table| == hashSize && |queue| == |buffer| == poolSize
    requires next[0] == 0 && prev[0] == 0
    requires forall f | 1 <= f <= poolSize :: next[f] == if f < poolSize then f + 1 else 0
    requires forall b | 0 <= b < hashSize :: table[b] == 0
    requires forall j | 0 <= j < poolSize :: |buffer[j]| == PAGE_SIZE
    ensures FreeInv(next, 1, poolSize)
    ensures LruInv(next, prev, count, [], 1, 0)
    ensures ChainInv(table, chain, offs, seq(hashSize, _ => []), map[], 1, 0, hashSize - 1)
    ensures QueueInv(queue, 0, qpos, dirty, 1, 0)
    ensures ContentInv(buffer, dirty, offs, file, fileSize, 1, 0)
  {
    assert IsList(next, prev, []);
    var chains: seq<seq<int>> := seq(hashSize, _ => []);
    forall b | 0 <= b < hashSize
      ensures IsChain(table[b], chain, chains[b])
    {
      assert table[b] == 0 && chains[b] == [];
    }
  }

  /** Every element of q is a frame number below n. */
  predicate FramesIn(q: seq<int>, n: int)
  {
    forall j | 0 <= j < |q| :: 0 <= q[j] < n
  }

  /** flush: frames of q in ascending order of their pages' addresses, as compareOffs orders them. */
  predicate ByAddress(q: seq<int>, offs: seq<uint32>)
    requires FramesIn(q, |offs|)
  {
    forall j, j' | 0 <= j < j' < |q| :: offs[q[j]] <= offs[q[j']]
  }

  /** x goes in before the first frame of s whose page lies at or after x's. */
  function InsertByAddress(x: int, s: seq<int>, offs: seq<uint32>): (r: seq<int>)
    requires 0 <= x < |offs| && FramesIn(s, |offs|)
    ensures |r| == |s| + 1 && multiset(r) == multiset(s) + multiset{x}
    ensures (forall f :: f in r <==> f == x || f in s) && FramesIn(r, |offs|)
    ensures ByAddress(s, offs) ==> ByAddress(r, offs)
    ensures Distinct(s) && x !in s ==> Distinct(r)
    decreases |s|
  {
    if s == [] || offs[x] <= offs[s[0]] then InsertFront(x, s, offs); [x] + s
    else
      var rest := InsertByAddress(x, s[1..], offs);
      assert s == [s[0]] + s[1..];
      InsertBehind(x, s, rest, offs);
      [s[0]] + rest
  }

  /** insertion in front of s, whose first page does not come before x's: order and distinctness carry over. */
  lemma {:induction false} InsertFront(x: int, s: seq<int>, offs: seq<uint32>)
    requires 0 <= x < |offs| && FramesIn(s, |offs|) && (s == [] || offs[x] <= offs[s[0]])
    ensures FramesIn([x] + s, |offs|)
    ensures ByAddress(s, offs) ==> ByAddress([x] + s, offs)
    ensures Distinct(s) && x !in s ==> Distinct([x] + s)
  {
    var r := [x] + s;
    assert forall j | 0 <= j < |s| :: r[j + 1] == s[j];
    if ByAddress(s, offs) {
      forall j, j' | 0 <= j < j' < |r|
        ensures offs[r[j]] <= offs[r[j']]
      {
        if j == 0 && j' > 1 {
          assert offs[s[0]] <= offs[s[j' - 1]];
        }
      }
    }
  }

  /** insertion behind the first frame of s, whose page comes before x's: order and distinctness carry over. */
  lemma {:induction false} InsertBehind(x: int, s: seq<int>, rest: seq<int>, offs: seq<uint32>)
    requires |s| > 0 && 0 <= x < |offs| && FramesIn(s, |offs|) && FramesIn(rest, |offs|) && offs[s[0]] < offs[x]
    requires forall f :: f in rest <==> f == x || f in s[1..]
    requires ByAddress(s[1..], offs) ==> ByAddress(rest, offs)
    requires Distinct(s[1..]) && x !in s[1..] ==> Distinct(rest)
    ensures FramesIn([s[0]] + rest, |offs|)
    ensures ByAddress(s, offs) ==> ByAddress([s[0]] + rest, offs)
    ensures Distinct(s) && x !in s ==> Distinct([s[0]] + rest)
  {
    var r := [s[0]] + rest;
    assert forall j | 0 <= j < |rest| :: r[j + 1] == rest[j];
    if ByAddress(s, offs) {
      assert ByAddress(s[1..], offs) by {
        var t := s[1..];
        assert forall j | 0 <= j < |t| :: t[j] == s[j + 1];
      }
      BehindOrder(x, s, rest, offs);
    }
    if Distinct(s) && x !in s {
      assert Distinct(s[1..]) by {
        var t := s[1..];
        assert forall j | 0 <= j < |t| :: t[j] == s[j + 1];
      }
      BehindDistinct(x, s, rest);
    }
  }

  /** InsertBehind, the order: s's first page comes before every page of rest. */
  lemma {:induction false} BehindOrder(x: int, s: seq<int>, rest: seq<int>, offs: seq<uint32>)
    requires |s| > 0 && 0 <= x < |offs| && FramesIn(s, |offs|) && FramesIn(rest, |offs|) && offs[s[0]] < offs[x]
    requires forall f :: f in rest <==> f == x || f in s[1..]
    requires ByAddress(s, offs) && ByAddress(rest, offs)
    ensures FramesIn([s[0]] + rest, |offs|) && ByAddress([s[0]] + rest, offs)
  {
    var t, r := s[1..], [s[0]] + rest;
    assert forall j | 0 <= j < |t| :: t[j] == s[j + 1];
    assert forall j | 0 <= j < |rest| :: r[j + 1] == rest[j];
    forall j, j' | 0 <= j < j' < |r|
      ensures offs[r[j]] <= offs[r[j']]
    {
      if j == 0 {
        assert r[j'] in rest;
        if r[j'] != x {
          var m :| 0 <= m < |t| && t[m] == r[j'];
          assert s[m + 1] == r[j'];
        }
      } else {
        assert r[j] == rest[j - 1] && r[j'] == rest[j' - 1];
      }
    }
  }

  /** InsertBehind, distinctness: s's first frame is neither x nor in rest. */
  lemma {:induction false} BehindDistinct(x: int, s: seq<int>, rest: seq<int>)
    requires |s| > 0 && (forall f :: f in rest <==> f == x || f in s[1..])
    requires Distinct(s) && x !in s && Distinct(rest)
    ensures Distinct([s[0]] + rest)
  {
    var t, r := s[1..], [s[0]] + rest;
    assert forall j | 0 <= j < |t| :: t[j] == s[j + 1];
    assert forall j | 0 <= j < |rest| :: r[j + 1] == rest[j];
    assert s[0] !in t;
    forall j, j' | 0 <= j < j' < |r|
      ensures r[j] != r[j']
    {
      if j == 0 {
        assert r[j'] in rest;
      } else {
        assert r[j] == rest[j - 1] && r[j'] == rest[j' - 1];
      }
    }
  }

  /** flush's qsort of the dirty queue: the same frames, in ascending order of their pages' addresses. */
  function SortByAddress(q: seq<int>, offs: seq<uint32>): (r: seq<int>)
    requires FramesIn(q, |offs|)
    ensures |r| == |q| && multiset(r) == multiset(q) && (forall f :: f in r <==> f in q) && FramesIn(r, |offs|)
    ensures ByAddress(r, offs)
    ensures Distinct(q) ==> Distinct(r)
    decreases |q|
  {
    if q == [] then []
    else
      var init := q[..|q| - 1];
      assert q == init + [q[|q| - 1]];
      InsertByAddress(q[|q| - 1], SortByAddress(init, offs), offs)
  }

  /** The page addresses of the frames of q, in order. */
  function Addresses(q: seq<int>, offs: seq<uint32>): (r: seq<int>)
    requires FramesIn(q, |offs|)
    ensures |r| == |q| && forall j | 0 <= j < |q| :: r[j] == offs[q[j]] as int
  {
    seq(|q|, j requires 0 <= j < |q| => offs[q[j]] as int)
  }

  /** The dirty queue holds each dirty frame in use once, and nothing else. */
  lemma {:induction false} QueueFrames(queue: seq<int>, n: int, qpos: seq<int>, dirty: seq<bool>, used: int)
    requires QueueInv(queue, n, qpos, dirty, used, 0)
    ensures Distinct(queue[..n])
    ensures forall f | f in queue[..n] :: 1 <= f < used && dirty[f]
    ensures forall j | 0 <= j < n :: 1 <= queue[..n][j] < used
    ensures forall f | 1 <= f < used && dirty[f] :: f in queue[..n]
  {
    forall f | 1 <= f < used && dirty[f]
      ensures f in queue[..n]
    {
      assert queue[..n][qpos[f]] == f;
    }
  }

  /** The sorted dirty queue: each dirty frame in use once, and nothing else. */
  lemma {:induction false} QueueSorted(q: seq<int>, offs: seq<uint32>, dirty: seq<bool>, used: int)
    requires used <= |offs| && used <= |dirty| && Distinct(q)
    requires forall f | f in q :: 1 <= f < used && dirty[f]
    requires forall f | 1 <= f < used && dirty[f] :: f in q
    ensures FramesIn(q, |offs|)
    ensures var r := SortByAddress(q, offs);
      Distinct(r) && (forall j | 0 <= j < |r| :: 1 <= r[j] < used && dirty[r[j]]) &&
      (forall f | 1 <= f < used && dirty[f] :: f in r)
  {
    assert forall j | 0 <= j < |q| :: q[j] in q;
    var r := SortByAddress(q, offs);
    assert forall j | 0 <= j < |r| :: r[j] in r;
  }

  /** With no frame dirty the queue is empty. */
  lemma {:induction false} QueueClean(queue: seq<int>, qpos: seq<int>, dirty: seq<bool>, used: int)
    requires 1 <= used <= |qpos| == |dirty| && forall f | 1 <= f < used :: !dirty[f]
    ensures QueueInv(queue, 0, qpos, dirty, used, 0)
  {
  }

  /** A dirty frame whose bytes the file now holds may be marked clean. */
  lemma {:induction false} CleanInv(buffer: seq<seq<uint8>>, dirty: seq<bool>, offs: seq<uint32>,
                                    file: map<int, seq<uint8>>, fileSize: nat, used: int, i: int)
    requires ContentInv(buffer, dirty, offs, file, fileSize, used, 0) && 1 <= i < used
    requires buffer[i - 1] == FilePage(file, fileSize, offs[i])
    ensures ContentInv(buffer, dirty[i := false], offs, file, fileSize, used, 0)
  {
    var dirty' := dirty[i := false];
    forall f | 1 <= f < used && !dirty'[f]
      ensures buffer[f - 1] == FilePage(file, fileSize, offs[f])
    {
      if f != i {
        assert !dirty[f];
      }
    }
  }

  /** Frames in use cache distinct pages. */
  lemma {:induction false} FramesDistinct(table: seq<int>, link: seq<int>, offs: seq<uint32>, chains: seq<seq<int>>,
                                          cached: map<int, int>, used: int, hashBits: nat, f: int, g: int)
    requires ChainInv(table, link, offs, chains, cached, used, 0, hashBits)
    requires 1 <= f < used && 1 <= g < used && f != g
    ensures offs[f] != offs[g]
  {
    assert cached[offs[f] as int] == f && cached[offs[g] as int] == g;
  }

  /** copy: size bytes rounded up to whole 4-byte words. */
  function Words(size: nat): (w: nat)
    ensures size <= 4 * w < size + 4
  {
    (size + 3) / 4
  }

  /**
   * copy's word count as written: size + 3 and the shift are 32-bit, and the
   * do-while copies a word before it tests --size != 0, so a count of 0
   * runs on until the counter wraps round.
   */
  function CopyWordsAsWritten(size: uint32): (w: nat)
    ensures 1 <= w <= TWO32
    ensures 0 < size < TWO32 - 3 ==> w == Words(size)
  {
    var n := ((size + 3) % TWO32) / 4;
    if n == 0 then TWO32 else n
  }

  /** copy as written moves 2^32 words, 16 GiB, for a request of 0 bytes and for the three largest sizes. */
  lemma {:induction false} CopyZeroWraps(size: uint32)
    requires size == 0 || size >= TWO32 - 3
    ensures CopyWordsAsWritten(size) == TWO32 && 4 * CopyWordsAsWritten(size) > size + 4
    ensures Words(size) < CopyWordsAsWritten(size)
  {
    assert (size + 3) % TWO32 < 4 by {
      if size >= TWO32 - 3 {
        DivModUnique(size + 3, TWO32, 1, size + 3 - TWO32);
      }
    }
  }

  /** Byte x of the pages of view. */
  ghost function ByteAt(view: imap<int, seq<uint8>>, x: int): uint8
  {
    var p := x - x % PAGE_SIZE;
    if p in view && x % PAGE_SIZE < |view[p]| then view[p][x % PAGE_SIZE] else 0
  }

  /** n bytes of the pages of view from address pos on. */
  ghost function BytesAt(view: imap<int, seq<uint8>>, pos: int, n: nat): (r: seq<uint8>)
    ensures |r| == n && forall j | 0 <= j < n :: r[j] == ByteAt(view, pos + j)
  {
    if n == 0 then [] else BytesAt(view, pos, n - 1) + [ByteAt(view, pos + n - 1)]
  }

  /** Offset r of the aligned page p is the byte p + r. */
  lemma {:induction false} InPage(p: int, r: int)
    requires p % PAGE_SIZE == 0 && 0 <= r < PAGE_SIZE
    ensures (p + r) % PAGE_SIZE == r
  {
    DivModUnique(p + r, PAGE_SIZE, p / PAGE_SIZE, r);
  }

  /** A 4-aligned address lies at a 4-aligned offset of its page. */
  lemma {:induction false} WordOffset(x: int)
    requires x % 4 == 0
    ensures (x % PAGE_SIZE) % 4 == 0
  {
    var q, m := x / PAGE_SIZE, x / 4;
    assert x % PAGE_SIZE == 4 * (m - 1024 * q) + 0;
    DivModUnique(x % PAGE_SIZE, 4, m - 1024 * q, 0);
  }

  /**
   * copy, one word: where the bytes stored from dst on so far do not reach,
   * the pages v still hold view0's bytes.
   */
  lemma {:induction false} CopyReadsOld(view0: imap<int, seq<uint8>>, v: imap<int, seq<uint8>>, dst: int, got: seq<uint8>,
                                        p: int, offs: nat, n: nat)
    requires p % PAGE_SIZE == 0 && offs + n <= PAGE_SIZE
    requires forall a :: a in view0 && a in v && |view0[a]| == |v[a]| == PAGE_SIZE && v[a] == Overlay(view0[a], a, dst, got)
    requires p + offs + n <= dst || dst + |got| <= p + offs
    ensures |v[p]| == PAGE_SIZE && v[p][offs..offs + n] == BytesAt(view0, p + offs, n)
  {
    assert v[p] == Overlay(view0[p], p, dst, got);
    SliceUntouched(view0[p], v[p], p, dst, got, offs, n);
    PageBytes(view0, p, offs, n);
  }

  /** Bytes of an aligned page that a store does not cover keep their value. */
  lemma {:induction false} SliceUntouched(page0: seq<uint8>, page: seq<uint8>, p: int, dst: int, got: seq<uint8>,
                                          offs: nat, n: nat)
    requires p % PAGE_SIZE == 0 && offs + n <= |page0| && page == Overlay(page0, p, dst, got)
    requires p + offs + n <= dst || dst + |got| <= p + offs
    ensures page[offs..offs + n] == page0[offs..offs + n]
  {
    OverlayBytes(page0, p, dst, got);
    var have, want := page[offs..offs + n], page0[offs..offs + n];
    forall j | 0 <= j < n
      ensures have[j] == want[j]
    {
      assert have[j] == page[offs + j];
    }
  }

  /** n bytes of a view from p + offs on, inside the aligned page p, are that page's slice. */
  lemma {:induction false} PageBytes(view: imap<int, seq<uint8>>, p: int, offs: nat, n: nat)
    requires p % PAGE_SIZE == 0 && offs + n <= PAGE_SIZE && p in view && |view[p]| == PAGE_SIZE
    ensures BytesAt(view, p + offs, n) == view[p][offs..offs + n]
  {
    var have, want := BytesAt(view, p + offs, n), view[p][offs..offs + n];
    forall j | 0 <= j < n
      ensures have[j] == want[j]
    {
      ByteInPage(view, p, offs + j);
    }
  }

  /** A word read from the source's still untouched bytes extends the bytes copied so far. */
  lemma {:induction false} ReadStep(view0: imap<int, seq<uint8>>, v: imap<int, seq<uint8>>, dst: int, src: int,
                                    got: seq<uint8>, w: seq<uint8>, p: int, offs: nat)
    requires p % PAGE_SIZE == 0 && offs + 4 <= PAGE_SIZE && p + offs == src + |got|
    requires forall a :: a in view0 && a in v && |view0[a]| == |v[a]| == PAGE_SIZE && v[a] == Overlay(view0[a], a, dst, got)
    requires src + |got| + 4 <= dst || dst + |got| <= src + |got|
    requires got == BytesAt(view0, src, |got|) && w == v[p][offs..offs + 4]
    ensures got + w == BytesAt(view0, src, |got| + 4)
  {
    CopyReadsOld(view0, v, dst, got, p, offs, 4);
    BytesExtend(view0, src, got, w);
  }

  /** Byte p + r of a view is byte r of its aligned page p. */
  lemma {:induction false} ByteInPage(view: imap<int, seq<uint8>>, p: int, r: int)
    requires p % PAGE_SIZE == 0 && 0 <= r < PAGE_SIZE && p in view && |view[p]| == PAGE_SIZE
    ensures ByteAt(view, p + r) == view[p][r]
  {
    InPage(p, r);
  }

  /** Bytes read from pos on, followed by the bytes read right after them, are the longer read. */
  lemma {:induction false} BytesExtend(view: imap<int, seq<uint8>>, pos: int, got: seq<uint8>, w: seq<uint8>)
    requires got == BytesAt(view, pos, |got|) && w == BytesAt(view, pos + |got|, |w|)
    ensures got + w == BytesAt(view, pos, |got| + |w|)
  {
    var all, want := got + w, BytesAt(view, pos, |got| + |w|);
    forall j | 0 <= j < |all|
      ensures all[j] == want[j]
    {
      if j >= |got| {
        assert all[j] == w[j - |got|];
      }
    }
  }

  /** A store of the word w at p + offs extends the overlay of got by w. */
  lemma {:induction false} WordStep(view0: imap<int, seq<uint8>>, v1: imap<int, seq<uint8>>, v2: imap<int, seq<uint8>>,
                                    pos: int, got: seq<uint8>, w: seq<uint8>, p: int, offs: nat)
    requires |w| == 4 && offs + 4 <= PAGE_SIZE && pos + |got| == p + offs && p % PAGE_SIZE == 0
    requires forall a :: a in view0 && a in v1 && a in v2 && |view0[a]| == |v1[a]| == PAGE_SIZE
    requires forall a :: v1[a] == Overlay(view0[a], a, pos, got)
    requires forall a :: v2[a] == if a == p then Patch(v1[a], offs, w) else v1[a]
    ensures forall a :: v2[a] == Overlay(view0[a], a, pos, got + w)
  {
    var obj := got + w;
    assert obj[..|got|] == got && obj[|got|..|got| + 4] == w && obj[..|got| + 4] == obj;
    PieceStep(view0, v1, v2, pos, obj, |got|, p, offs, 4);
  }

  /**
   * The pool. Header field f of frame i is f[i]; frame i's bytes are
   * buffer[i - 1]. The ghost state names the LRU list, the hash chains, the
   * page each cached address sits in, and the addresses written to the file
   * in order.
   */
  class Pool {
    const poolSize: nat
    const hashSize: nat
    const hashBits: nat
    const next: array<int>
    const prev: array<int>
    const collisionChain: array<int>
    const accessCount: array<int>
    const offs: array<uint32>
    const writeQueueIndex: array<int>
    const dirty: array<bool>
    const hashTable: array<int>
    const dirtyPages: array<int>
    var buffer: seq<seq<uint8>>
    var freePages: int
    var nPages: int
    var nDirtyPages: int
    var fileSize: nat
    var file: map<int, seq<uint8>>
    var flushing: bool
    ghost var lru: seq<int>
    ghost var chains: seq<seq<int>>
    ghost var cached: map<int, int>
    ghost var writes: seq<int>

    /** Frames 1..Bound()-1 have been handed out; the rest are on the free list. */
    function Bound(): int
      reads this`freePages
    {
      if freePages == 0 then poolSize + 1 else freePages
    }

    /** The sizes fixed at open, and the header arrays kept apart. */
    ghost predicate Shape()
    {
      poolSize >= 1 && next.Length == poolSize + 1 && prev.Length == poolSize + 1 &&
      collisionChain.Length == poolSize + 1 && accessCount.Length == poolSize + 1 &&
      offs.Length == poolSize + 1 && writeQueueIndex.Length == poolSize + 1 && dirty.Length == poolSize + 1 &&
      dirtyPages.Length == poolSize &&
      hashSize >= MIN_HASH_SIZE && hashBits == hashSize - 1 && hashTable.Length == hashSize && Separate()
    }

    /** The integer arrays are seven distinct arrays. */
    predicate Separate()
    {
      next != prev && next != collisionChain && next != accessCount && next != writeQueueIndex &&
      prev != collisionChain && prev != accessCount && prev != writeQueueIndex &&
      collisionChain != accessCount && collisionChain != writeQueueIndex && accessCount != writeQueueIndex &&
      hashTable != next && hashTable != prev && hashTable != collisionChain && hashTable != accessCount &&
      hashTable != writeQueueIndex && hashTable != dirtyPages &&
      dirtyPages != next && dirtyPages != prev && dirtyPages != collisionChain && dirtyPages != accessCount &&
      dirtyPages != writeQueueIndex
    }

    ghost predicate FreeOk()
      reads this`freePages, this`nPages, next
    {
      0 <= freePages <= poolSize && nPages == (if Bound() == 1 then 0 else Bound()) && FreeInv(next[..], Bound(), poolSize)
    }

    ghost predicate LruOk(d: int)
      reads this`freePages, this`lru, next, prev, accessCount
    {
      LruInv(next[..], prev[..], accessCount[..], lru, Bound(), d)
    }

    ghost predicate ChainsOk(d: int)
      reads this`freePages, this`chains, this`cached, hashTable, collisionChain, offs
    {
      ChainInv(hashTable[..], collisionChain[..], offs[..], chains, cached, Bound(), d, hashBits)
    }

    ghost predicate QueueOk(d: int)
      reads this`freePages, this`nDirtyPages, dirtyPages, writeQueueIndex, dirty
    {
      QueueInv(dirtyPages[..], nDirtyPages, writeQueueIndex[..], dirty[..], Bound(), d)
    }

    ghost predicate ContentOk(d: int)
      reads this`freePages, this`file, this`fileSize, this`buffer, dirty, offs
    {
      |buffer| == poolSize && FileInv(file, fileSize) && ContentInv(buffer, dirty[..], offs[..], file, fileSize, Bound(), d)
    }

    /** Everything but the dirty queue, with frame d (0: none) handed out but not yet placed. */
    ghost predicate Core(d: int)
      reads this`freePages, this`nPages, this`chains, this`file, this`fileSize, this`lru, this`cached, this`buffer
      reads next, prev, collisionChain, accessCount, offs, dirty, hashTable
    {
      Shape() && FreeOk() && LruOk(d) && ChainsOk(d) && ContentOk(d)
    }

    /** The pool's invariant with frame d (0: none) handed out but not yet placed. */
    ghost predicate Inv(d: int)
      reads this, next, prev, collisionChain, accessCount, offs, writeQueueIndex, dirty, hashTable, dirtyPages
    {
      Core(d) && QueueOk(d) && !flushing
    }

    ghost predicate Valid()
      reads this, next, prev, collisionChain, accessCount, offs, writeQueueIndex, dirty, hashTable, dirtyPages
    {
      Inv(0)
    }

    /** What the page at address a holds as seen through the pool: its frame when cached, the file otherwise. */
    ghost function PageAt(a: int): seq<uint8>
      reads this`cached, this`file, this`fileSize, this`buffer
    {
      PageOf(cached, buffer, file, fileSize, a)
    }

    /** Frames a miss may still take: the free ones and the unpinned ones. */
    ghost function Available(): int
      reads this`freePages, this`lru
    {
      poolSize + 1 - Bound() + |lru|
    }

    /** dbPagePool(size) followed by open(file, fileSize). */
    constructor Open(poolSize: nat, file: map<int, seq<uint8>>, fileSize: nat)
      requires 1 <= poolSize <= 0x8000_0000 && FileInv(file, fileSize)
      ensures Valid() && this.poolSize == poolSize && this.file == file && this.fileSize == fileSize
      ensures hashSize >= MIN_HASH_SIZE && hashSize >= poolSize && (hashSize == MIN_HASH_SIZE || hashSize < 2 * poolSize)
      ensures exists k: nat :: hashSize == Pow2(k)
      ensures freePages == 1 && nPages == 0 && nDirtyPages == 0 && lru == [] && cached == map[]
      ensures forall f | 1 <= f <= poolSize :: next[f] == if f < poolSize then f + 1 else 0
      ensures forall a :: PageAt(a) == FilePage(file, fileSize, a)
    {
      var hs := HashSizeFor(poolSize);
      this.poolSize := poolSize;
      hashSize := hs;
      hashBits := hs - 1;
      var n0, p0, c0, a0, q0, o0, d0 := NewHeaders(poolSize);
      next, prev, collisionChain, accessCount, writeQueueIndex, offs, dirty := n0, p0, c0, a0, q0, o0, d0;
      var t0, dp0, b0 := NewTables(hs, poolSize);
      hashTable, dirtyPages, buffer := t0, dp0, b0;
      this.file := file;
      this.fileSize := fileSize;
      freePages := 1;
      flushing := false;
      nPages := 0;
      nDirtyPages := 0;
      lru := [];
      chains := seq(hs, _ => []);
      cached := map[];
      writes := [];
      new;
      OpenInv(next[..], prev[..], accessCount[..], collisionChain[..], offs[..], writeQueueIndex[..], dirty[..],
              hashTable[..], dirtyPages[..], buffer, file, fileSize, poolSize, hs);
    }

    /** find, first loop: the frame caching the page at addr, or 0 when none does. */
    method FindCached(addr: uint32) returns (i: int)
      requires Valid() && addr % PAGE_SIZE == 0
      ensures i != 0 <==> addr in cached
      ensures addr in cached ==> i == cached[addr] && 1 <= i < Bound()
    {
      var h := Bucket(addr, hashBits);
      ghost var l := chains[h];
      assert IsChain(hashTable[..][h], collisionChain[..], l) && (Cached(cached, addr as int) <==> addr in cached);
      i := hashTable[h];
      ghost var k := 0;
      while i != 0
        invariant 0 <= k <= |l| && i == (if k < |l| then l[k] else 0)
        invariant forall j | 0 <= j < k :: offs[l[j]] != addr
        decreases |l| - k
      {
        assert collisionChain[..][l[k]] == After(l, k);
        if offs[i] == addr {
          return;
        }
        i := collisionChain[i];
        k := k + 1;
      }
      assert forall j | 0 <= j < |l| :: offs[l[j]] != addr;
    }

    /** unfix: one pin less; a frame nobody pins any more goes to the head of the LRU list. */
    method Unfix(i: int)
      requires Shape() && FreeOk() && LruOk(0) && 1 <= i < Bound() && accessCount[i] > 0
      modifies this`lru, next, prev, accessCount
      ensures FreeOk() && LruOk(0)
      ensures accessCount[..] == old(accessCount[..])[i := old(accessCount[i]) - 1]
      ensures old(accessCount[i]) == 1 ==> lru == [i] + old(lru)
      ensures old(accessCount[i]) > 1 ==> lru == old(lru) && next[..] == old(next[..]) && prev[..] == old(prev[..])
    {
      ghost var c0, n0, p0 := accessCount[..], next[..], prev[..];
      accessCount[i] := accessCount[i] - 1;
      if accessCount[i] == 0 {
        assert accessCount[..] == c0[i := 0];
        LinkFront(i);
        ghost var l0 := lru;
        lru := [i] + lru;
        ReleaseInv(n0, p0, c0, l0, Bound(), poolSize, i, next[..], prev[..], accessCount[..], lru);
      } else {
        LruAfterUnpin(n0, p0, c0, accessCount[..], lru, Bound(), i);
      }
    }

    /** Takes frame i out of the doubly linked list through next and prev. */
    method Unlink(i: int)
      requires next != prev && 0 <= i < next.Length == prev.Length
      requires 0 <= next[i] < next.Length && 0 <= prev[i] < next.Length
      modifies next, prev
      ensures next[..] == old(next[..])[old(prev[i]) := old(next[i])]
      ensures prev[..] == old(prev[..])[old(next[i]) := old(prev[i])]
    {
      var nx, pv := next[i], prev[i];
      prev[nx] := pv;
      next[pv] := nx;
    }

    /** Puts frame i at the head of the doubly linked list through next and prev. */
    method LinkFront(i: int)
      requires next != prev && 0 <= i < next.Length == prev.Length && 0 <= next[0] < next.Length
      modifies next, prev
      ensures next[..] == old(next[..])[i := old(next[0])][0 := i]
      ensures prev[..] == old(prev[..])[i := 0][old(next[0]) := i]
    {
      var h := next[0];
      next[i] := h;
      prev[i] := 0;
      prev[h] := i;
      next[0] := i;
    }

    /** find on a cached frame: one pin more; a frame nobody pinned leaves the LRU list, from position k. */
    method Pin(i: int) returns (ghost k: nat)
      requires Shape() && FreeOk() && LruOk(0) && 1 <= i < Bound()
      modifies this`lru, next, prev, accessCount
      ensures FreeOk() && LruOk(0)
      ensures accessCount[..] == old(accessCount[..])[i := old(accessCount[i]) + 1]
      ensures old(accessCount[i]) == 0 ==> k < |old(lru)| && old(lru)[k] == i && lru == Del(old(lru), k)
      ensures old(accessCount[i]) > 0 ==> lru == old(lru) && next[..] == old(next[..]) && prev[..] == old(prev[..])
    {
      ghost var c0, n0, p0 := accessCount[..], next[..], prev[..];
      k := 0;
      if accessCount[i] == 0 {
        k :| k < |lru| && lru[k] == i;
        AcquireInv(n0, p0, c0, lru, Bound(), poolSize, i, k);
        Unlink(i);
        accessCount[i] := 1;
        assert accessCount[..] == c0[i := 1];
        lru := Del(lru, k);
      } else {
        accessCount[i] := accessCount[i] + 1;
        assert accessCount[..] == c0[i := c0[i] + 1];
        LruAfterPin(n0, p0, c0, accessCount[..], lru, Bound(), i);
      }
    }

    /** modify: a frame that was clean becomes dirty and joins the end of the dirty queue. */
    method Modify(i: int)
      requires Shape() && QueueOk(0) && ContentOk(0) && 1 <= i < Bound() && accessCount[i] != 0
      modifies this`nDirtyPages, dirty, dirtyPages, writeQueueIndex
      ensures QueueOk(0) && ContentOk(0)
      ensures dirty[..] == old(dirty[..])[i := true]
      ensures old(dirty[i]) ==> (nDirtyPages == old(nDirtyPages) &&
        dirtyPages[..] == old(dirtyPages[..]) && writeQueueIndex[..] == old(writeQueueIndex[..]))
      ensures !old(dirty[i]) ==> (nDirtyPages == old(nDirtyPages) + 1 &&
        dirtyPages[..] == old(dirtyPages[..])[old(nDirtyPages) := i] &&
        writeQueueIndex[..] == old(writeQueueIndex[..])[i := old(nDirtyPages)])
    {
      if !dirty[i] {
        ghost var q0, w0, d0 := dirtyPages[..], writeQueueIndex[..], dirty[..];
        EnqueueInv(q0, nDirtyPages, w0, d0, Bound(), poolSize, i, buffer, offs[..], file, fileSize);
        dirty[i] := true;
        dirtyPages[nDirtyPages] := i;
        writeQueueIndex[i] := nDirtyPages;
        nDirtyPages := nDirtyPages + 1;
        assert dirty[..] == d0[i := true];
        assert dirtyPages[..] == q0[nDirtyPages - 1 := i];
        assert writeQueueIndex[..] == w0[i := nDirtyPages - 1];
      }
    }

    /** find, when a frame is free: the head of the free list is taken, and the frames in use now reach it. */
    method TakeFree() returns (i: int)
      requires Valid() && freePages != 0
      modifies this`freePages, this`nPages
      ensures i == old(freePages) && Bound() == i + 1 && Inv(i)
    {
      i := freePages;
      TakeFreeInv(next[..], prev[..], accessCount[..], lru, hashTable[..], collisionChain[..], offs[..], chains, cached,
                  dirtyPages[..], nDirtyPages, writeQueueIndex[..], dirty[..], buffer, file, fileSize, hashBits, poolSize, i);
      freePages := next[i];
      if i >= nPages {
        nPages := i + 1;
      }
    }

    /** The write of dirty frame i's bytes to the file at its address; the file grows to cover the page. */
    method WriteFrame(i: int)
      requires Core(0) && 1 <= i < Bound() && dirty[i]
      modifies this`file, this`fileSize, this`writes
      ensures Core(0)
      ensures file == old(file)[offs[i] as int := buffer[i - 1]] && writes == old(writes) + [offs[i] as int]
      ensures fileSize == if offs[i] >= old(fileSize) then offs[i] + PAGE_SIZE else old(fileSize)
      ensures FilePage(file, fileSize, offs[i]) == buffer[i - 1]
      ensures forall b | b != offs[i] as int :: FilePage(file, fileSize, b) == FilePage(old(file), old(fileSize), b)
      ensures forall a :: PageAt(a) == old(PageAt(a))
    {
      var a := offs[i];
      var page := buffer[i - 1];
      var size' := if a >= fileSize then a + PAGE_SIZE else fileSize;
      WriteInv(buffer, dirty[..], offs[..], file, fileSize, file[a := page], size', Bound(),
               hashTable[..], collisionChain[..], chains, cached, hashBits, i);
      WriteKeepsView(cached, buffer, file, fileSize, file[a := page], size', a);
      file, fileSize, writes := file[a := page], size', writes + [a];
    }

    /** find, evicting dirty frame i: it leaves the dirty queue, whose last entry takes its place. */
    method Dequeue(i: int)
      requires Inv(0) && 1 <= i < Bound() && dirty[i]
      modifies this`nDirtyPages, dirtyPages, writeQueueIndex
      ensures Core(0) && QueueOk(i) && !flushing && nDirtyPages == old(nDirtyPages) - 1
      ensures forall a :: PageAt(a) == old(PageAt(a))
      ensures var q := old(writeQueueIndex[i]); var last := old(dirtyPages[nDirtyPages - 1]);
        dirtyPages[..] == old(dirtyPages[..])[q := last] && writeQueueIndex[..] == old(writeQueueIndex[..])[last := q]
    {
      ghost var q0, w0 := dirtyPages[..], writeQueueIndex[..];
      DequeueInv(q0, nDirtyPages, w0, dirty[..], Bound(), i);
      var q := writeQueueIndex[i];
      nDirtyPages := nDirtyPages - 1;
      dirtyPages[q] := dirtyPages[nDirtyPages];
      writeQueueIndex[dirtyPages[q]] := q;
      assert dirtyPages[..] == q0[q := q0[nDirtyPages]];
      assert writeQueueIndex[..] == w0[q0[nDirtyPages] := q];
    }

    /** find, evicting frame i: a dirty frame is written back and leaves the dirty queue. */
    method WriteBack(i: int)
      requires Inv(0) && 1 <= i < Bound()
      modifies this`file, this`fileSize, this`writes, this`nDirtyPages, dirtyPages, writeQueueIndex
      ensures Core(0) && QueueOk(i) && !flushing && FilePage(file, fileSize, offs[i]) == buffer[i - 1]
      ensures forall a :: PageAt(a) == old(PageAt(a))
      ensures dirty[i] ==> file == old(file)[offs[i] as int := buffer[i - 1]] && writes == old(writes) + [offs[i] as int]
      ensures !dirty[i] ==> file == old(file) && fileSize == old(fileSize) && writes == old(writes)
    {
      if dirty[i] {
        WriteFrame(i);
        if !flushing {
          Dequeue(i);
        }
      } else {
        QueueDetachClean(dirtyPages[..], nDirtyPages, writeQueueIndex[..], dirty[..], Bound(), i);
      }
    }

    /** find, evicting frame i: the frame whose collision link leads to i in chain l of bucket h (0: the head slot), at position k - 1 of l. */
    method ChainPred(i: int, h: int, ghost l: seq<int>) returns (p: int, ghost k: nat)
      requires 0 <= h < hashTable.Length && IsChain(hashTable[h], collisionChain[..], l) && i in l
      ensures k < |l| && l[k] == i && p == (if k == 0 then 0 else l[k - 1])
    {
      ghost var ki :| 0 <= ki < |l| && l[ki] == i;
      p := 0;
      var cur := hashTable[h];
      k := 0;
      while cur != i
        invariant k <= ki && cur == l[k] && p == (if k == 0 then 0 else l[k - 1])
        decreases ki - k
      {
        assert collisionChain[..][l[k]] == After(l, k);
        p := cur;
        cur := collisionChain[cur];
        k := k + 1;
      }
    }

    /** The link held in bucket h's head slot (p = 0) or in frame p's collision link becomes nx. */
    method SkipLink(h: int, p: int, nx: int)
      requires hashTable != collisionChain && 0 <= h < hashTable.Length && 0 <= p < collisionChain.Length
      modifies hashTable, collisionChain
      ensures hashTable[..] == if p == 0 then old(hashTable[..])[h := nx] else old(hashTable[..])
      ensures collisionChain[..] == if p == 0 then old(collisionChain[..]) else old(collisionChain[..])[p := nx]
    {
      if p == 0 {
        hashTable[h] := nx;
      } else {
        collisionChain[p] := nx;
      }
    }

    /**
     * find, evicting frame i, whose frame holds what the file holds for its
     * page: the link leading to i in its chain now skips it, and its page is
     * no longer cached.
     */
    method ChainUnhook(i: int)
      requires Shape() && ChainsOk(0) && 1 <= i < Bound() && i <= |buffer| == poolSize && FilePage(file, fileSize, offs[i]) == buffer[i - 1]
      modifies hashTable, collisionChain, this`chains, this`cached
      ensures ChainsOk(i) && cached == old(cached) - {offs[i] as int}
      ensures forall a :: PageAt(a) == old(PageAt(a))
    {
      ghost var t0, c0, ch0, ca0 := hashTable[..], collisionChain[..], chains, cached;
      ChainOf(t0, c0, offs[..], ch0, ca0, Bound(), hashBits, i);
      DropKeepsView(ca0, buffer, file, fileSize, offs[i] as int);
      var h := Bucket(offs[i], hashBits);
      var p, k := ChainPred(i, h, chains[h]);
      SkipLink(h, p, collisionChain[i]);
      chains, cached := chains[h := Del(chains[h], k)], cached - {offs[i] as int};
      ChainUnhookInv(t0, c0, offs[..], ch0, ca0, Bound(), hashBits, i, k, p, hashTable[..], collisionChain[..], chains, cached);
    }

    /** find, evicting frame i: with every frame handed out, the tail of the LRU list leaves it. */
    method LruDrop(i: int)
      requires Shape() && FreeOk() && LruOk(0) && freePages == 0 && lru != [] && i == prev[0]
      modifies next, prev, this`lru
      ensures FreeOk() && LruOk(i) && i == old(lru[|lru| - 1]) && lru == Del(old(lru), |old(lru)| - 1)
    {
      EvictLruInv(next[..], prev[..], accessCount[..], lru, Bound(), poolSize);
      Unlink(i);
      lru := Del(lru, |lru| - 1);
    }

    /**
     * find, when no frame is free: the frame at the tail of the LRU list is
     * written back when dirty, leaves the dirty queue, its chain and the LRU
     * list, and is handed out detached.
     */
    method Evict() returns (i: int)
      requires Valid() && freePages == 0 && lru != []
      modifies this`file, this`fileSize, this`writes, this`nDirtyPages, dirtyPages, writeQueueIndex
      modifies hashTable, collisionChain, this`chains, this`cached, next, prev, this`lru
      ensures Inv(i) && i == old(lru[|lru| - 1]) && lru == Del(old(lru), |old(lru)| - 1)
      ensures cached == old(cached) - {offs[i] as int}
      ensures forall a :: PageAt(a) == old(PageAt(a))
      ensures old(dirty[i]) ==> file == old(file)[offs[i] as int := buffer[i - 1]] && writes == old(writes) + [offs[i] as int]
      ensures !old(dirty[i]) ==> file == old(file) && writes == old(writes)
    {
      i := prev[0];
      WriteBack(i);
      Unhook(i);
    }

    /**
     * find, evicting frame i, the tail of the LRU list, once its page is in
     * the file: it leaves its chain and the LRU list.
     */
    method Unhook(i: int)
      requires Core(0) && QueueOk(i) && !flushing && freePages == 0 && lru != [] && i == prev[0]
      requires FilePage(file, fileSize, offs[i]) == buffer[i - 1]
      modifies hashTable, collisionChain, this`chains, this`cached, next, prev, this`lru
      ensures Inv(i) && i == old(lru[|lru| - 1]) && lru == Del(old(lru), |old(lru)| - 1)
      ensures cached == old(cached) - {offs[i] as int}
      ensures forall a :: PageAt(a) == old(PageAt(a))
    {
      ChainUnhook(i);
      LruDrop(i);
    }

    /**
     * find, placing page addr in detached frame i: one pin, clean, at the head
     * of the bucket's chain.
     */
    method Attach(i: int, addr: uint32)
      requires Inv(i) && 1 <= i < Bound() && addr % PAGE_SIZE == 0 && addr !in cached
      modifies accessCount, dirty, offs, collisionChain, hashTable, this`chains, this`cached
      ensures FreeOk() && LruOk(0) && ChainsOk(0) && QueueOk(0) && ContentOk(i) && !dirty[i]
      ensures cached == old(cached)[addr as int := i] && offs[..] == old(offs[..])[i := addr]
      ensures accessCount[..] == old(accessCount[..])[i := 1] && dirty[..] == old(dirty[..])[i := false]
    {
      var h := Bucket(addr, hashBits);
      AttachInv(next[..], prev[..], accessCount[..], lru, hashTable[..], collisionChain[..], offs[..], chains, cached,
                dirtyPages[..], nDirtyPages, writeQueueIndex[..], dirty[..], buffer, file, fileSize, hashBits, Bound(), i, addr);
      ghost var a0, d0, o0, c0, t0 := accessCount[..], dirty[..], offs[..], collisionChain[..], hashTable[..];
      accessCount[i] := 1;
      dirty[i] := false;
      offs[i] := addr;
      collisionChain[i] := hashTable[h];
      hashTable[h] := i;
      chains := chains[h := [i] + chains[h]];
      cached := cached[addr as int := i];
      assert accessCount[..] == a0[i := 1] && dirty[..] == d0[i := false] && offs[..] == o0[i := addr];
      assert collisionChain[..] == c0[i := t0[h]] && hashTable[..] == t0[h := i];
    }

    /** find, after placing a page in frame i: its bytes are read from the file, or zeroed past the file's end. */
    method ReadFrame(i: int)
      requires Shape() && ContentOk(i) && 1 <= i < Bound() && !dirty[i]
      modifies this`buffer
      ensures ContentOk(0)
      ensures buffer == old(buffer)[i - 1 := FilePage(file, fileSize, offs[i])]
    {
      var page: seq<uint8>;
      if offs[i] < fileSize {
        page := if offs[i] in file then file[offs[i] as int] else Zeros();
      } else {
        page := Zeros();
      }
      buffer := buffer[i - 1 := page];
    }

    /** find on a cached frame i: one pin more, and dirty from now on when the caller asks so. */
    method FindHit(i: int, wantDirty: bool)
      requires Valid() && 1 <= i < Bound()
      modifies this`lru, next, prev, accessCount, this`nDirtyPages, dirty, dirtyPages, writeQueueIndex
      ensures Valid() && accessCount[i] == old(accessCount[i]) + 1 >= 1 && dirty[i] == (old(dirty[i]) || wantDirty)
      ensures Available() == old(Available()) - (if old(accessCount[i]) == 0 then 1 else 0)
    {
      ghost var k := Pin(i);
      if wantDirty {
        Modify(i);
      }
    }

    /** find on a miss: a free frame when there is one, else the tail of the LRU list, handed out detached. */
    method Claim() returns (i: int)
      requires Valid() && (freePages != 0 || lru != [])
      modifies this`freePages, this`nPages
      modifies this`file, this`fileSize, this`writes, this`nDirtyPages, dirtyPages, writeQueueIndex
      modifies hashTable, collisionChain, this`chains, this`cached, next, prev, this`lru
      ensures Inv(i) && 1 <= i < Bound() && Available() == old(Available()) - 1
      ensures cached.Keys <= old(cached).Keys
      ensures forall a :: PageAt(a) == old(PageAt(a))
    {
      if freePages == 0 {
        i := Evict();
      } else {
        i := TakeFree();
      }
    }

    /**
     * find on a miss: page addr goes into detached frame i, pinned once, with
     * the bytes the file holds for it, and dirty when the caller asks so.
     */
    method Place(i: int, addr: uint32, wantDirty: bool)
      requires Inv(i) && 1 <= i < Bound() && addr % PAGE_SIZE == 0 && addr !in cached
      modifies accessCount, dirty, offs, collisionChain, hashTable, this`chains, this`cached, this`buffer
      modifies this`nDirtyPages, dirtyPages, writeQueueIndex
      ensures Valid() && cached == old(cached)[addr as int := i] && accessCount[i] == 1 && dirty[i] == wantDirty
      ensures forall a :: PageAt(a) == old(PageAt(a))
    {
      Install(i, addr);
      if wantDirty {
        Modify(i);
      }
    }

    /** find on a miss: page addr goes into detached frame i, pinned once and clean, with the bytes the file holds for it. */
    method Install(i: int, addr: uint32)
      requires Inv(i) && 1 <= i < Bound() && addr % PAGE_SIZE == 0 && addr !in cached
      modifies accessCount, dirty, offs, collisionChain, hashTable, this`chains, this`cached, this`buffer
      ensures Valid() && cached == old(cached)[addr as int := i] && accessCount[i] == 1 && !dirty[i]
      ensures forall a :: PageAt(a) == old(PageAt(a))
    {
      PlaceKeepsView(cached, buffer, file, fileSize, i, addr as int);
      Attach(i, addr);
      ReadFrame(i);
    }

    /** find on a miss: the page is placed in a frame of its own, dirty when the caller asks so. */
    method FindMiss(addr: uint32, wantDirty: bool) returns (i: int)
      requires Valid() && addr % PAGE_SIZE == 0 && addr !in cached && (freePages != 0 || lru != [])
      modifies this`freePages, this`nPages, this`buffer, accessCount, offs, dirty
      modifies this`file, this`fileSize, this`writes, this`nDirtyPages, dirtyPages, writeQueueIndex
      modifies hashTable, collisionChain, this`chains, this`cached, next, prev, this`lru
      ensures Valid() && addr as int in cached && cached[addr as int] == i && 1 <= i < Bound()
      ensures accessCount[i] == 1 && dirty[i] == wantDirty && Available() == old(Available()) - 1
      ensures forall a :: PageAt(a) == old(PageAt(a))
    {
      i := Claim();
      Place(i, addr, wantDirty);
    }

    /**
     * find: the frame holding the page at addr, pinned once more and marked
     * dirty when the caller asks so. No page seen through the pool changes;
     * a miss takes a free frame or evicts an unpinned one.
     */
    method Find(addr: uint32, wantDirty: bool) returns (i: int)
      requires Valid() && addr % PAGE_SIZE == 0 && (addr in cached || freePages != 0 || lru != [])
      modifies this`freePages, this`nPages, this`buffer, accessCount, offs, dirty
      modifies this`file, this`fileSize, this`writes, this`nDirtyPages, dirtyPages, writeQueueIndex
      modifies hashTable, collisionChain, this`chains, this`cached, next, prev, this`lru
      ensures Valid() && addr as int in cached && cached[addr as int] == i && 1 <= i < Bound() && accessCount[i] >= 1
      ensures forall a :: PageAt(a) == old(PageAt(a))
      ensures buffer[i - 1] == old(PageAt(addr as int))
      ensures old(addr in cached) ==>
                i == old(cached[addr as int]) && accessCount[i] == old(accessCount[i]) + 1 &&
                dirty[i] == (old(dirty[i]) || wantDirty) &&
                Available() == old(Available()) - (if old(accessCount[i]) == 0 then 1 else 0)
      ensures old(addr !in cached) ==> accessCount[i] == 1 && dirty[i] == wantDirty && Available() == old(Available()) - 1
    {
      i := FindCached(addr);
      if i != 0 {
        FindHit(i, wantDirty);
      } else {
        i := FindMiss(addr, wantDirty);
      }
    }

    /** memcpy into dirty frame i at offset start. */
    method Write(i: int, start: nat, data: seq<uint8>)
      requires Shape() && ContentOk(0) && 1 <= i < Bound() && dirty[i] && start + |data| <= PAGE_SIZE
      modifies this`buffer
      ensures ContentOk(0) && buffer == old(buffer)[i - 1 := Patch(old(buffer[i - 1]), start, data)]
    {
      buffer := buffer[i - 1 := Patch(buffer[i - 1], start, data)];
    }

    /**
     * put, one page: the page at addr is found dirty, data is copied into it
     * at offset start, and it is unfixed. Only that page changes, and the
     * frames a miss may take are as many as before.
     */
    method PatchPage(addr: uint32, start: nat, data: seq<uint8>)
      requires Valid() && addr % PAGE_SIZE == 0 && start + |data| <= PAGE_SIZE && (addr in cached || Available() >= 1)
      modifies this`freePages, this`nPages, this`buffer, accessCount, offs, dirty
      modifies this`file, this`fileSize, this`writes, this`nDirtyPages, dirtyPages, writeQueueIndex
      modifies hashTable, collisionChain, this`chains, this`cached, next, prev, this`lru
      ensures Valid() && Available() == old(Available())
      ensures forall a :: PageAt(a) == if a == addr as int then Patch(old(PageAt(a)), start, data) else old(PageAt(a))
    {
      var i := Find(addr, true);
      Store(i, addr, start, data);
    }

    /** put, one page: data goes into frame i, which holds the page at addr dirty and pinned, and the frame is unfixed. */
    method Store(i: int, addr: uint32, start: nat, data: seq<uint8>)
      requires Valid() && addr as int in cached && cached[addr as int] == i && 1 <= i < Bound()
      requires accessCount[i] >= 1 && dirty[i] && start + |data| <= PAGE_SIZE
      modifies this`buffer, this`lru, next, prev, accessCount
      ensures Valid() && Available() == old(Available()) + (if old(accessCount[i]) == 1 then 1 else 0)
      ensures forall a :: PageAt(a) == if a == addr as int then Patch(old(PageAt(a)), start, data) else old(PageAt(a))
    {
      PatchKeepsOthers(hashTable[..], collisionChain[..], offs[..], chains, cached, Bound(), hashBits,
                       buffer, file, fileSize, addr as int, Patch(buffer[i - 1], start, data));
      Write(i, start, data);
      Unfix(i);
    }

    /** Every page seen through the pool is a whole page. */
    lemma PageLengths()
      requires Valid()
      ensures forall a :: |PageAt(a)| == PAGE_SIZE
    {
      forall a
        ensures |PageAt(a)| == PAGE_SIZE
      {
        if a in cached && 1 <= cached[a] <= |buffer| {
          assert |buffer[cached[a] - 1]| == PAGE_SIZE;
        }
      }
    }

    /**
     * put, one piece: n bytes of obj from done on go into the page at page
     * from offset offs on, where they belong. view0 is what the pool held
     * before the put began.
     */
    method PutPiece(pos: int, obj: seq<uint8>, done: nat, page: int, start: nat, n: nat, ghost view0: imap<int, seq<uint8>>)
      returns (done': nat, page': int, start': nat)
      requires Valid() && Available() >= 1 && 0 <= page < 0x1_0000_0000 && page % PAGE_SIZE == 0
      requires start + n <= PAGE_SIZE && done + n <= |obj| && page + start == pos + done
      requires forall a :: a in view0 && |view0[a]| == PAGE_SIZE
      requires forall a :: PageAt(a) == Overlay(view0[a], a, pos, obj[..done])
      modifies this`freePages, this`nPages, this`buffer, accessCount, offs, dirty
      modifies this`file, this`fileSize, this`writes, this`nDirtyPages, dirtyPages, writeQueueIndex
      modifies hashTable, collisionChain, this`chains, this`cached, next, prev, this`lru
      ensures Valid() && Available() == old(Available())
      ensures done' == done + n <= |obj| && page' == page + PAGE_SIZE && start' == 0
      ensures page' % PAGE_SIZE == 0 && (start + n == PAGE_SIZE ==> page' + start' == pos + done')
      ensures forall a :: PageAt(a) == Overlay(view0[a], a, pos, obj[..done'])
    {
      ghost var v1 := imap a: int :: PageAt(a);
      PatchPage(page as uint32, start, obj[done..done + n]);
      ghost var v2 := imap a: int :: PageAt(a);
      PieceStep(view0, v1, v2, pos, obj, done, page, start, n);
      NextPageAligned(page);
      done', page', start' := done + n, page + PAGE_SIZE, 0;
    }

    /**
     * put: obj is stored from address pos on, one page at a time. Every page
     * seen through the pool afterwards holds obj's bytes where obj covers it.
     */
    method Put(pos: uint32, obj: seq<uint8>)
      requires Valid() && Available() >= 1 && pos as int + |obj| <= 0x1_0000_0000
      modifies this`freePages, this`nPages, this`buffer, accessCount, offs, dirty
      modifies this`file, this`fileSize, this`writes, this`nDirtyPages, dirtyPages, writeQueueIndex
      modifies hashTable, collisionChain, this`chains, this`cached, next, prev, this`lru
      ensures Valid() && Available() == old(Available())
      ensures forall a :: PageAt(a) == Overlay(old(PageAt(a)), a, pos as int, obj)
    {
      PageLengths();
      ghost var view0 := imap a: int :: PageAt(a);
      var offs: nat := pos as int % PAGE_SIZE;
      var page: int := pos as int - offs;
      var done: nat := 0;
      assert obj[..done] == [];
      while |obj| - done > PAGE_SIZE - offs
        invariant Valid() && Available() == old(Available())
        invariant done <= |obj| && offs < PAGE_SIZE && 0 <= page < 0x1_0000_0000 && page % PAGE_SIZE == 0
        invariant page + offs == pos as int + done
        invariant forall a :: PageAt(a) == Overlay(view0[a], a, pos as int, obj[..done])
        decreases |obj| - done
      {
        done, page, offs := PutPiece(pos as int, obj, done, page, offs, PAGE_SIZE - offs, view0);
      }
      done, page, offs := PutPiece(pos as int, obj, done, page, offs, |obj| - done, view0);
      assert obj[..done] == obj;
    }

    /** find, then n bytes of the page at addr from offset start on, then unfix. */
    method Read(addr: uint32, start: nat, n: nat) returns (data: seq<uint8>)
      requires Valid() && addr % PAGE_SIZE == 0 && start + n <= PAGE_SIZE && (addr in cached || Available() >= 1)
      modifies this`freePages, this`nPages, this`buffer, accessCount, offs, dirty
      modifies this`file, this`fileSize, this`writes, this`nDirtyPages, dirtyPages, writeQueueIndex
      modifies hashTable, collisionChain, this`chains, this`cached, next, prev, this`lru
      ensures Valid() && Available() == old(Available())
      ensures forall a :: PageAt(a) == old(PageAt(a))
      ensures data == old(PageAt(addr as int))[start..start + n]
    {
      var i := Find(addr, false);
      data := buffer[i - 1][start..start + n];
      Unfix(i);
    }

    /**
     * copy: size bytes, rounded up to whole 4-byte words, go word by word from
     * address src on to address dst on. copied is what arrives, and it is the
     * bytes found from src on unless the destination lies above the source
     * and overlaps it. A request of 0 bytes copies nothing.
     */
    method Copy(dst: uint32, src: uint32, size: nat) returns (ghost copied: seq<uint8>)
      requires Valid() && Available() >= 1 && dst % 4 == 0 && src % 4 == 0
      requires dst + 4 * Words(size) <= TWO32 && src + 4 * Words(size) <= TWO32
      modifies this`freePages, this`nPages, this`buffer, accessCount, offs, dirty
      modifies this`file, this`fileSize, this`writes, this`nDirtyPages, dirtyPages, writeQueueIndex
      modifies hashTable, collisionChain, this`chains, this`cached, next, prev, this`lru
      ensures Valid() && Available() == old(Available()) && |copied| == 4 * Words(size)
      ensures forall a :: PageAt(a) == Overlay(old(PageAt(a)), a, dst, copied)
      ensures dst <= src || src + 4 * Words(size) <= dst ==>
                copied == BytesAt(old(imap a: int :: PageAt(a)), src, 4 * Words(size))
    {
      PageLengths();
      ghost var view0 := imap a: int :: PageAt(a);
      ghost var apart := dst <= src || src + 4 * Words(size) <= dst;
      WordOffset(dst);
      WordOffset(src);
      var dstOffs: nat := dst % PAGE_SIZE;
      var srcOffs: nat := src % PAGE_SIZE;
      var dstPage: int := dst - dstOffs;
      var srcPage: int := src - srcOffs;
      CopyStart(dst as int, src as int, size, dstPage, dstOffs, srcPage, srcOffs, view0, apart);
      copied := CopyWords(dst as int, src as int, size, dstPage, dstOffs, srcPage, srcOffs, view0, apart, old(Available()));
    }

    /** copy, before the first word: nothing is copied yet, so every page holds its bytes in view0. */
    lemma CopyStart(dst: int, src: int, size: nat, dstPage: int, dstOffs: nat, srcPage: int, srcOffs: nat,
                    view0: imap<int, seq<uint8>>, apart: bool)
      requires Valid() && (forall a :: a in view0 && view0[a] == PageAt(a)) && (forall a :: |PageAt(a)| == PAGE_SIZE)
      requires CopyPlaces(dst, src, 0, dstPage, dstOffs, srcPage, srcOffs)
      ensures Copying(dst, src, size, [], 0, dstPage, dstOffs, srcPage, srcOffs, view0, apart, Available())
    {
    }

    /** copy, the loop: the words of the block are copied one after another. */
    method CopyWords(dst: int, src: int, size: nat, dstPage: int, dstOffs: nat, srcPage: int, srcOffs: nat,
                     ghost view0: imap<int, seq<uint8>>, ghost apart: bool, ghost avail: int)
      returns (ghost copied: seq<uint8>)
      requires Copying(dst, src, size, [], 0, dstPage, dstOffs, srcPage, srcOffs, view0, apart, avail)
      requires avail >= 1 && dst + 4 * Words(size) <= TWO32 && src + 4 * Words(size) <= TWO32
      requires apart == (dst <= src || src + 4 * Words(size) <= dst)
      modifies this`freePages, this`nPages, this`buffer, accessCount, offs, dirty
      modifies this`file, this`fileSize, this`writes, this`nDirtyPages, dirtyPages, writeQueueIndex
      modifies hashTable, collisionChain, this`chains, this`cached, next, prev, this`lru
      ensures Valid() && Available() == avail && |copied| == 4 * Words(size)
      ensures forall a :: PageAt(a) == Overlay(view0[a], a, dst, copied)
      ensures apart ==> copied == BytesAt(view0, src, 4 * Words(size))
    {
      var words := Words(size);
      var dp, doffs, sp, soffs := dstPage, dstOffs, srcPage, srcOffs;
      ghost var k: nat := 0;
      copied := [];
      while words != 0
        invariant k + words == Words(size)
        invariant Copying(dst, src, size, copied, k, dp, doffs, sp, soffs, view0, apart, avail)
        decreases words
      {
        copied, dp, doffs, sp, soffs := CopyStep(dst, src, size, copied, k, dp, doffs, sp, soffs, view0, apart, avail);
        words, k := words - 1, k + 1;
      }
    }

    /**
     * copy, after k words: the pool is valid with avail frames to spare, the
     * next word goes from srcPage + srcOffs to dstPage + dstOffs, every page
     * holds its bytes in view0 overlaid with the bytes copied so far, and
     * these are the source's bytes when source and destination do not overlap.
     */
    ghost predicate Copying(dst: int, src: int, size: nat, copied: seq<uint8>, k: nat, dstPage: int, dstOffs: nat,
                            srcPage: int, srcOffs: nat, view0: imap<int, seq<uint8>>, apart: bool, avail: int)
      reads this, next, prev, collisionChain, accessCount, offs, writeQueueIndex, dirty, hashTable, dirtyPages
    {
      Valid() && Available() == avail && |copied| == 4 * k &&
      CopyPlaces(dst, src, k, dstPage, dstOffs, srcPage, srcOffs) &&
      (forall a :: a in view0 && |view0[a]| == PAGE_SIZE) &&
      (forall a :: PageAt(a) == Overlay(view0[a], a, dst, copied)) &&
      (apart ==> copied == BytesAt(view0, src, 4 * k))
    }

    /**
     * copy, one turn of the loop: the pages move on where an offset reached
     * a page's end, and the next word is read and stored.
     */
    method CopyStep(dst: int, src: int, size: nat, ghost copied: seq<uint8>, ghost k: nat, dstPage: int, dstOffs: nat,
                    srcPage: int, srcOffs: nat, ghost view0: imap<int, seq<uint8>>, ghost apart: bool, ghost avail: int)
      returns (ghost copied': seq<uint8>, dstPage': int, dstOffs': nat, srcPage': int, srcOffs': nat)
      requires Copying(dst, src, size, copied, k, dstPage, dstOffs, srcPage, srcOffs, view0, apart, avail)
      requires avail >= 1 && k < Words(size) && dst + 4 * Words(size) <= TWO32 && src + 4 * Words(size) <= TWO32
      requires apart == (dst <= src || src + 4 * Words(size) <= dst)
      modifies this`freePages, this`nPages, this`buffer, accessCount, offs, dirty
      modifies this`file, this`fileSize, this`writes, this`nDirtyPages, dirtyPages, writeQueueIndex
      modifies hashTable, collisionChain, this`chains, this`cached, next, prev, this`lru
      ensures Copying(dst, src, size, copied', k + 1, dstPage', dstOffs', srcPage', srcOffs', view0, apart, avail)
    {
      WordPlaceFits(dstPage, dstOffs);
      WordPlaceFits(srcPage, srcOffs);
      var (dp, doffs) := WordPlace(dstPage, dstOffs);
      var (sp, soffs) := WordPlace(srcPage, srcOffs);
      var w := ReadWord(dst, src, copied, sp, soffs, view0, apart);
      StoreWord(dst, copied, w, dp, doffs, view0);
      copied' := copied + w;
      WordAfter(doffs);
      WordAfter(soffs);
      dstPage', dstOffs', srcPage', srcOffs' := dp, doffs + 4, sp, soffs + 4;
    }

    /**
     * copy, the read of one word: the 4 bytes at srcPage + srcOffs, which
     * are the source's own bytes (copied so far holds those before them)
     * when the copy does not overlap them.
     */
    method ReadWord(dst: int, src: int, ghost copied: seq<uint8>, srcPage: int, srcOffs: nat,
                    ghost view0: imap<int, seq<uint8>>, ghost apart: bool) returns (w: seq<uint8>)
      requires Valid() && Available() >= 1
      requires 0 <= srcPage < TWO32 && srcPage % PAGE_SIZE == 0 && srcOffs + 4 <= PAGE_SIZE && srcPage + srcOffs == src + |copied|
      requires forall a :: a in view0 && |view0[a]| == PAGE_SIZE
      requires forall a :: PageAt(a) == Overlay(view0[a], a, dst, copied)
      requires apart ==> (src + |copied| + 4 <= dst || dst + |copied| <= src + |copied|) && copied == BytesAt(view0, src, |copied|)
      modifies this`freePages, this`nPages, this`buffer, accessCount, offs, dirty
      modifies this`file, this`fileSize, this`writes, this`nDirtyPages, dirtyPages, writeQueueIndex
      modifies hashTable, collisionChain, this`chains, this`cached, next, prev, this`lru
      ensures Valid() && Available() == old(Available()) && |w| == 4
      ensures forall a :: PageAt(a) == Overlay(view0[a], a, dst, copied)
      ensures apart ==> copied + w == BytesAt(view0, src, |copied| + 4)
    {
      PageLengths();
      ghost var v0 := imap a: int :: PageAt(a);
      w := Read(srcPage as uint32, srcOffs, 4);
      if apart {
        ReadStep(view0, v0, dst, src, copied, w, srcPage, srcOffs);
      }
    }

    /** copy, the store of one word: w goes to dstPage + dstOffs, right after the bytes copied so far. */
    method StoreWord(dst: int, ghost copied: seq<uint8>, w: seq<uint8>, dstPage: int, dstOffs: nat,
                     ghost view0: imap<int, seq<uint8>>)
      requires Valid() && Available() >= 1 && |w| == 4
      requires 0 <= dstPage < TWO32 && dstPage % PAGE_SIZE == 0 && dstOffs + 4 <= PAGE_SIZE && dstPage + dstOffs == dst + |copied|
      requires forall a :: a in view0 && |view0[a]| == PAGE_SIZE
      requires forall a :: PageAt(a) == Overlay(view0[a], a, dst, copied)
      modifies this`freePages, this`nPages, this`buffer, accessCount, offs, dirty
      modifies this`file, this`fileSize, this`writes, this`nDirtyPages, dirtyPages, writeQueueIndex
      modifies hashTable, collisionChain, this`chains, this`cached, next, prev, this`lru
      ensures Valid() && Available() == old(Available())
      ensures forall a :: PageAt(a) == Overlay(view0[a], a, dst, copied + w)
    {
      PageLengths();
      ghost var v1 := imap a: int :: PageAt(a);
      PatchPage(dstPage as uint32, dstOffs, w);
      ghost var v2 := imap a: int :: PageAt(a);
      WordStep(view0, v1, v2, dst, copied, w, dstPage, dstOffs);
    }

    /** flush, one frame: pinned while written if dirty, marked clean, and unpinned again. */
    method FlushFrame(i: int)
      requires Core(0) && 1 <= i < Bound()
      modifies this`file, this`fileSize, this`writes, this`lru, next, prev, accessCount, dirty
      ensures Core(0) && Available() == old(Available()) && accessCount[..] == old(accessCount[..])
      ensures dirty[..] == old(dirty[..])[i := false]
      ensures writes == old(writes) + if old(dirty[i]) then [offs[i] as int] else []
      ensures fileSize == if old(dirty[i]) && offs[i] >= old(fileSize) then offs[i] + PAGE_SIZE else old(fileSize)
      ensures FilePage(file, fileSize, offs[i]) == buffer[i - 1]
      ensures forall b | b != offs[i] as int :: FilePage(file, fileSize, b) == FilePage(old(file), old(fileSize), b)
      ensures forall a :: PageAt(a) == old(PageAt(a))
    {
      if dirty[i] {
        CleanFrame(i);
      } else {
        assert dirty[..] == old(dirty[..])[i := false];
      }
      Touch(i);
    }

    /**
     * The pin and unpin around a flushed frame. The write in between touches
     * neither the LRU list nor the access counts, so they are done together here.
     */
    method Touch(i: int)
      requires Core(0) && 1 <= i < Bound()
      modifies this`lru, next, prev, accessCount
      ensures Core(0) && accessCount[..] == old(accessCount[..])
      ensures old(accessCount[i]) == 0 ==> lru[0] == i && |lru| == |old(lru)|
      ensures old(accessCount[i]) > 0 ==> lru == old(lru)
    {
      ghost var c0 := accessCount[..];
      var k := Pin(i);
      Unfix(i);
      assert accessCount[..] == c0;
    }

    /** flush, a dirty frame: it is written to the file and marked clean. */
    method CleanFrame(i: int)
      requires Core(0) && 1 <= i < Bound() && dirty[i]
      modifies this`file, this`fileSize, this`writes, dirty
      ensures Core(0) && dirty[..] == old(dirty[..])[i := false]
      ensures writes == old(writes) + [offs[i] as int]
      ensures fileSize == if offs[i] >= old(fileSize) then offs[i] + PAGE_SIZE else old(fileSize)
      ensures FilePage(file, fileSize, offs[i]) == buffer[i - 1]
      ensures forall b | b != offs[i] as int :: FilePage(file, fileSize, b) == FilePage(old(file), old(fileSize), b)
      ensures forall a :: PageAt(a) == old(PageAt(a))
    {
      WriteFrame(i);
      CleanInv(buffer, dirty[..], offs[..], file, fileSize, Bound(), i);
      dirty[i] := false;
    }

    /** flush after k frames of sorted: those are written and clean, the rest still dirty, and the pool shows view0. */
    ghost predicate FlushedUpTo(sorted: seq<int>, k: int, writes0: seq<int>, file0: map<int, seq<uint8>>, size0: nat,
                                view0: imap<int, seq<uint8>>)
      reads this, next, prev, collisionChain, accessCount, offs, dirty, hashTable
    {
      0 <= k <= |sorted| && Core(0) && Distinct(sorted) && (forall j | 0 <= j < |sorted| :: 1 <= sorted[j] < Bound()) &&
      (forall j | k <= j < |sorted| :: dirty[sorted[j]]) &&
      (forall f | 1 <= f < Bound() && dirty[f] :: f in sorted[k..]) &&
      writes == writes0 + Addresses(sorted[..k], offs[..]) && fileSize >= size0 &&
      (forall j | 0 <= j < k :: offs[sorted[j]] < fileSize && FilePage(file, fileSize, offs[sorted[j]]) == buffer[sorted[j] - 1]) &&
      (forall b | b !in Addresses(sorted[..k], offs[..]) :: FilePage(file, fileSize, b) == FilePage(file0, size0, b)) &&
      forall a :: a in view0 && PageAt(a) == view0[a]
    }

    /** Before the step at k: the frame's address is no other sorted frame's, and it is the next write. */
    lemma StepReady(sorted: seq<int>, k: nat, writes0: seq<int>, file0: map<int, seq<uint8>>, size0: nat,
                    view0: imap<int, seq<uint8>>)
      requires FlushedUpTo(sorted, k, writes0, file0, size0, view0) && k < |sorted|
      ensures forall j | 0 <= j < |sorted| && j != k :: offs[sorted[j]] != offs[sorted[k]]
      ensures Addresses(sorted[..k + 1], offs[..]) == Addresses(sorted[..k], offs[..]) + [offs[sorted[k]] as int]
    {
      forall j | 0 <= j < |sorted| && j != k
        ensures offs[sorted[j]] != offs[sorted[k]]
      {
        FramesDistinct(hashTable[..], collisionChain[..], offs[..], chains, cached, Bound(), hashBits, sorted[j], sorted[k]);
      }
      assert Addresses(sorted[..k + 1], offs[..]) == Addresses(sorted[..k], offs[..]) + [offs[sorted[k]] as int];
    }

    /** FlushedUpTo, from its conjuncts. */
    lemma UpTo(sorted: seq<int>, k: int, writes0: seq<int>, file0: map<int, seq<uint8>>, size0: nat,
               view0: imap<int, seq<uint8>>)
      requires 0 <= k <= |sorted| && Core(0) && Distinct(sorted) && (forall j | 0 <= j < |sorted| :: 1 <= sorted[j] < Bound())
      requires (forall j | k <= j < |sorted| :: dirty[sorted[j]]) && (forall f | 1 <= f < Bound() && dirty[f] :: f in sorted[k..])
      requires writes == writes0 + Addresses(sorted[..k], offs[..]) && fileSize >= size0
      requires forall j | 0 <= j < k :: offs[sorted[j]] < fileSize && FilePage(file, fileSize, offs[sorted[j]]) == buffer[sorted[j] - 1]
      requires forall b | b !in Addresses(sorted[..k], offs[..]) :: FilePage(file, fileSize, b) == FilePage(file0, size0, b)
      requires forall a :: a in view0 && PageAt(a) == view0[a]
      ensures FlushedUpTo(sorted, k, writes0, file0, size0, view0)
    {
    }

    /** flush, the frame at position k of the sorted queue. */
    method FlushStep(sorted: seq<int>, k: nat, ghost writes0: seq<int>, ghost file0: map<int, seq<uint8>>, ghost size0: nat,
                     ghost view0: imap<int, seq<uint8>>)
      requires FlushedUpTo(sorted, k, writes0, file0, size0, view0) && k < |sorted|
      modifies this`file, this`fileSize, this`writes, this`lru, next, prev, accessCount, dirty
      ensures FlushedUpTo(sorted, k + 1, writes0, file0, size0, view0) && Available() == old(Available())
    {
      var i := sorted[k];
      StepReady(sorted, k, writes0, file0, size0, view0);
      FlushFrame(i);
      forall f | 1 <= f < Bound() && dirty[f]
        ensures f in sorted[k + 1..]
      {
        assert f in sorted[k..] && f != i;
      }
      UpTo(sorted, k + 1, writes0, file0, size0, view0);
    }

    /**
     * What flush leaves once it wrote the frames of order over the file
     * file0 of size size0 after the writes writes0: no frame dirty, the
     * writes made in that order, each frame's page in the file, the file
     * grown to cover it, and every other address as it was.
     */
    ghost predicate Flushed(order: seq<int>, writes0: seq<int>, file0: map<int, seq<uint8>>, size0: nat)
      reads this`freePages, this`writes, this`file, this`fileSize, this`buffer, offs, dirty
    {
      Shape() && |buffer| == poolSize && 1 <= Bound() <= poolSize + 1 && (forall j | 0 <= j < |order| :: 1 <= order[j] < Bound()) &&
      (forall f | 1 <= f < Bound() :: !dirty[f]) &&
      writes == writes0 + Addresses(order, offs[..]) && fileSize >= size0 &&
      (forall j | 0 <= j < |order| :: offs[order[j]] < fileSize && FilePage(file, fileSize, offs[order[j]]) == buffer[order[j] - 1]) &&
      (forall b | b !in Addresses(order, offs[..]) :: FilePage(file, fileSize, b) == FilePage(file0, size0, b))
    }

    /** flush, the loop: the frames of sorted, all dirty, are written in turn, and no frame stays dirty. */
    method FlushLoop(sorted: seq<int>)
      requires Core(0) && Distinct(sorted) && forall j | 0 <= j < |sorted| :: 1 <= sorted[j] < Bound() && dirty[sorted[j]]
      requires forall f | 1 <= f < Bound() && dirty[f] :: f in sorted
      modifies this`file, this`fileSize, this`writes, this`lru, next, prev, accessCount, dirty
      ensures Core(0) && Available() == old(Available()) && Flushed(sorted, old(writes), old(file), old(fileSize))
      ensures forall a :: PageAt(a) == old(PageAt(a))
    {
      ghost var view0 := imap a: int :: PageAt(a);
      var k := 0;
      assert sorted[k..] == sorted && sorted[..k] == [];
      while k < |sorted|
        invariant FlushedUpTo(sorted, k, old(writes), old(file), old(fileSize), view0) && Available() == old(Available())
      {
        FlushStep(sorted, k, old(writes), old(file), old(fileSize), view0);
        k := k + 1;
      }
      assert sorted[..k] == sorted;
    }

    /**
     * flush, with dirty frames: while flushing, the frames of sorted, all
     * dirty, are written in turn; then no frame is dirty and the queue is empty.
     */
    method FlushAll(sorted: seq<int>)
      requires Valid() && Distinct(sorted) && forall j | 0 <= j < |sorted| :: 1 <= sorted[j] < Bound() && dirty[sorted[j]]
      requires forall f | 1 <= f < Bound() && dirty[f] :: f in sorted
      modifies this`file, this`fileSize, this`writes, this`nDirtyPages, this`flushing, this`lru
      modifies next, prev, accessCount, dirty
      ensures Valid() && Available() == old(Available()) && nDirtyPages == 0
      ensures Flushed(sorted, old(writes), old(file), old(fileSize))
      ensures forall a :: PageAt(a) == old(PageAt(a))
    {
      BeginFlush();
      FlushLoop(sorted);
      EndFlush();
    }

    /** flush, before the loop: the dirty queue, sorted, holds each dirty frame once and nothing else. */
    lemma SortedQueue()
      requires Valid()
      ensures FramesIn(dirtyPages[..nDirtyPages], offs.Length)
      ensures var r := SortByAddress(dirtyPages[..nDirtyPages], offs[..]);
        Distinct(r) && (forall j | 0 <= j < |r| :: 1 <= r[j] < Bound() && dirty[r[j]]) &&
        (forall f | 1 <= f < Bound() && dirty[f] :: f in r)
    {
      QueueFrames(dirtyPages[..], nDirtyPages, writeQueueIndex[..], dirty[..], Bound());
      assert dirtyPages[..][..nDirtyPages] == dirtyPages[..nDirtyPages];
      QueueSorted(dirtyPages[..nDirtyPages], offs[..], dirty[..], Bound());
    }

    /** flush with an empty dirty queue: nothing to write. */
    lemma NothingDirty()
      requires Valid() && nDirtyPages == 0
      ensures Flushed([], writes, file, fileSize)
    {
      assert writes + Addresses([], offs[..]) == writes;
    }

    /** flush, before the loop: flushing begins. */
    method BeginFlush()
      requires Valid()
      modifies this`flushing
      ensures Core(0) && flushing && Available() == old(Available())
      ensures forall a :: PageAt(a) == old(PageAt(a))
    {
      flushing := true;
    }

    /** flush, after the loop: with no frame dirty the queue is empty and flushing is over. */
    method EndFlush()
      requires Core(0) && forall f | 1 <= f < Bound() :: !dirty[f]
      modifies this`flushing, this`nDirtyPages
      ensures Valid() && nDirtyPages == 0 && Available() == old(Available())
      ensures forall a :: PageAt(a) == old(PageAt(a))
    {
      flushing := false;
      nDirtyPages := 0;
      QueueClean(dirtyPages[..], writeQueueIndex[..], dirty[..], Bound());
    }

    /**
     * flush: the dirty frames are written to the file in ascending order of
     * their pages' addresses (order), each once, and none stays dirty; the
     * file grows to cover every page written. Nothing seen through the pool
     * changes.
     */
    method Flush() returns (ghost order: seq<int>)
      requires Valid()
      modifies this`file, this`fileSize, this`writes, this`nDirtyPages, this`flushing, this`lru
      modifies next, prev, accessCount, dirty
      ensures Valid() && Available() == old(Available()) && nDirtyPages == 0
      ensures order == SortByAddress(old(dirtyPages[..nDirtyPages]), offs[..])
      ensures Flushed(order, old(writes), old(file), old(fileSize))
      ensures forall a :: PageAt(a) == old(PageAt(a))
    {
      SortedQueue();
      var sorted := SortByAddress(dirtyPages[..nDirtyPages], offs[..]);
      order := sorted;
      if nDirtyPages != 0 {
        FlushAll(sorted);
      } else {
        NothingDirty();
      }
    }
  }
}
