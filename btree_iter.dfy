// dbBtreeIterator over scalar keys in ascending order
// (storage/dybase/src/btree.cpp): a stack of (page, position) frames from
// the root to the current leaf item. The constructor descends to the first
// item at or after the lower bound, next() hands out the current oid and
// moves to the following item, climbing to the first ancestor with a child
// left and descending to that child's leftmost leaf, and an item past the
// upper bound ends the iteration.

module BtreeIter {
  import opened Bits
  import opened Codec
  import opened BtreeKey
  import opened BtreeNode
  import opened BtreeShape
  import opened BtreeFind
  import opened BtreeIndex

  // ---------------------------------------------------------------------
  // dbBtreeIterator::compare as written

  /** A difference as a 32-bit int: the result of subtracting two int keys, or two oids converted to int. */
  function Wrap32(x: int): (r: int32)
    ensures (r - x) % TWO32 == 0
    ensures -0x8000_0000 <= x < 0x8000_0000 ==> r == x
  {
    (x + 0x8000_0000) % TWO32 - 0x8000_0000
  }

  /**
   * compare(key, type, pg, pos) on the numeric values a (the bound) and b
   * (the page's key): bool keys are subtracted as promoted ints, int keys
   * and references are subtracted in 32 bits, date, long and real keys are
   * compared. The sign is right whenever the difference fits in an int.
   */
  function CompareAsWritten(t: nat, a: int, b: int): (r: int)
    ensures IsScalar(t) && -0x8000_0000 <= a - b < 0x8000_0000 ==>
      (r < 0 <==> a < b) && (r == 0 <==> a == b) && (r > 0 <==> a > b)
  {
    if t == BOOL_TYPE then a - b
    else if t == INT_TYPE || t <= INDEX_REF_TYPE then Wrap32(a - b)
    else if t == DATE_TYPE || t == LONG_TYPE || t == REAL_TYPE then (if a < b then -1 else if a == b then 0 else 1)
    else 0
  }

  /**
   * Two int keys two thousand million apart: the 32-bit difference wraps,
   * so the iterator's binary search takes -2000000000 to lie after the
   * lower bound 2000000000 and an iteration from 2000000000 starts at it.
   */
  lemma {:induction false} CompareWraps()
    ensures CompareAsWritten(INT_TYPE, 2000000000, -2000000000) < 0
    ensures CompareAsWritten(OBJECT_REF_TYPE, 0x8000_0001, 1) < 0
    ensures Cmp(Num(2000000000), Num(-2000000000)) > 0 && Cmp(Num(0x8000_0001), Num(1)) > 0
  {
  }

  /**
   * The upper-bound test of the constructor and of gotoNextItem as
   * written, -compare(till, type, pg, pos) >= tillInclusion, on the bound
   * value till and the page's key value key: true ends the iteration.
   */
  function TillStopsAsWritten(t: nat, till: int, inclusive: bool, key: int): (r: bool)
    ensures IsScalar(t) && -0x8000_0000 <= till - key < 0x8000_0000 ==>
      (r <==> key > till || (!inclusive && key == till))
  {
    -CompareAsWritten(t, till, key) >= (if inclusive then 1 else 0)
  }

  /**
   * An int tree whose only leaf holds -2000000000 and 5, iterated up to
   * 2000000000 inclusive: both keys lie within the bound, but the test
   * as written stops at the first item, so dbBtreeIterator hands out
   * nothing. The iterator below uses the ordered comparison and hands out
   * both oids.
   */
  lemma {:induction false} TillWraps()
    ensures TillStopsAsWritten(INT_TYPE, 2000000000, true, -2000000000)
    ensures !PastBound(Num(-2000000000), Bound(Num(2000000000), true))
    ensures Select([Item(Num(-2000000000), 1), Item(Num(5), 2)], None, Some(Bound(Num(2000000000), true))) == [1, 2]
  {
    var E := [Item(Num(-2000000000), 1), Item(Num(5), 2)];
    var hi := Some(Bound(Num(2000000000), true));
    assert !PastBound(Num(5), hi.value);
    assert SelectPrefix(E, 1, None, hi) == [1];
  }

  // ---------------------------------------------------------------------
  // The shape of the pages on the stack

  /** A page of height g as the iterator relies on it: nonempty leaves at height 1, one child more than keys above. */
  ghost predicate Struct(p: Page, g: int)
    decreases p
  {
    match p
    case Leaf(items) => g == 1 && |items| > 0
    case Inner(keys, kids) => g > 1 && |kids| == |keys| + 1 && forall i | 0 <= i < |kids| :: Struct(kids[i], g - 1)
  }

  lemma {:induction false} KidStruct(p: Page, h: int, lo: Option<Key>, hi: Option<Key>, c: Conf)
    requires Kid(p, h, lo, hi, c)
    ensures Struct(p, h)
    decreases p
  {
    if p.Inner? {
      InnerFacts(p.keys, p.kids, h, lo, hi, c);
      forall i | 0 <= i < |p.kids|
        ensures Struct(p.kids[i], h - 1)
      {
        KidAt(p.keys, p.kids, h, lo, hi, c, i);
        KidStruct(p.kids[i], h - 1, LoOf(p.keys, lo, i), HiOf(p.keys, hi, i), c);
      }
    }
  }

  lemma {:induction false} StructEntries(p: Page, g: int)
    requires Struct(p, g)
    ensures Entries(p) != []
    decreases p
  {
    if p.Inner? {
      var n := |p.kids|;
      StructEntries(p.kids[n - 1], g - 1);
      assert Entries(p) == Flatten(p.kids[..n - 1]) + Entries(p.kids[n - 1]);
    }
  }

  /** The entries of the pages from i on: those of page i, then the rest. */
  lemma {:induction false} FlattenFrom(ks: seq<Page>, i: nat)
    requires i < |ks|
    ensures Flatten(ks[i..]) == Entries(ks[i]) + Flatten(ks[i + 1..])
  {
    assert ks[i..] == [ks[i]] + ks[i + 1..];
    FlattenAppend([ks[i]], ks[i + 1..]);
    FlattenOne(ks[i]);
  }

  // ---------------------------------------------------------------------
  // The order of a tree's entries

  /** Entry i of E comes no later than entry j in the key order. */
  ghost predicate InOrder(E: seq<Item>, i: int, j: int)
  {
    0 <= i < |E| && 0 <= j < |E| ==> Le(E[i].key, E[j].key)
  }

  /** The entries are in key order (each pair is consulted only when named). */
  ghost predicate Sorted(E: seq<Item>)
  {
    forall i, j {:trigger InOrder(E, i, j)} | 0 <= i < j < |E| :: InOrder(E, i, j)
  }

  lemma {:induction false} SortedJoin(A: seq<Item>, B: seq<Item>, unique: bool, k: Key)
    requires Sorted(A) && Sorted(B)
    requires EntriesIn(A, unique, None, Some(k)) && EntriesIn(B, unique, Some(k), None)
    ensures Sorted(A + B)
  {
    forall i, j | 0 <= i < j < |A + B|
      ensures InOrder(A + B, i, j)
    {
      if j < |A| {
        assert (A + B)[i] == A[i] && (A + B)[j] == A[j];
        assert InOrder(A, i, j);
      } else if i >= |A| {
        assert (A + B)[i] == B[i - |A|] && (A + B)[j] == B[j - |A|];
        assert InOrder(B, i - |A|, j - |A|);
      } else {
        assert (A + B)[i] == A[i] && (A + B)[j] == B[j - |A|];
        RelLe(unique, k, B[j - |A|].key);
        LeTrans(A[i].key, k, B[j - |A|].key);
      }
    }
  }

  lemma {:induction false} SortedSuffix(A: seq<Item>, B: seq<Item>)
    requires Sorted(A + B)
    ensures Sorted(B)
  {
    forall i, j | 0 <= i < j < |B|
      ensures InOrder(B, i, j)
    {
      assert (A + B)[|A| + i] == B[i] && (A + B)[|A| + j] == B[j];
      assert InOrder(A + B, |A| + i, |A| + j);
    }
  }

  /** The entries of a well-formed page are in key order. */
  lemma {:induction false} EntriesSorted(p: Page, h: int, lo: Option<Key>, hi: Option<Key>, c: Conf)
    requires Node(p, h, lo, hi, c)
    ensures Sorted(Entries(p))
    decreases p, 0
  {
    match p
    case Leaf(items) =>
      forall i, j | 0 <= i < j < |items|
        ensures InOrder(items, i, j)
      {
        RelLe(c.unique, items[i].key, items[j].key);
      }
    case Inner(keys, kids) =>
      InnerFacts(keys, kids, h, lo, hi, c);
      KidsSorted(keys, kids, |kids|, h, lo, hi, c);
      assert kids[..|kids|] == kids;
  }

  /** The first n children hold their entries in order, all at most the n-th child's upper bound. */
  lemma {:induction false} KidsSorted(keys: seq<Key>, kids: seq<Page>, n: nat, h: int, lo: Option<Key>, hi: Option<Key>, c: Conf)
    requires InnerShape(keys, kids, h, lo, hi, c) && 1 <= n <= |kids|
    ensures Sorted(Flatten(kids[..n]))
    ensures EntriesIn(Flatten(kids[..n]), c.unique, None, HiOf(keys, hi, n - 1))
    decreases kids, n
  {
    var i := n - 1;
    KidAt(keys, kids, h, lo, hi, c, i);
    EntriesSorted(kids[i], h - 1, LoOf(keys, lo, i), HiOf(keys, hi, i), c);
    NodeEntriesIn(kids[i], h - 1, LoOf(keys, lo, i), HiOf(keys, hi, i), c);
    var B := Entries(kids[i]);
    assert Flatten(kids[..n]) == Flatten(kids[..i]) + B by {
      assert kids[..n][..i] == kids[..i];
    }
    forall j | 0 <= j < |B|
      ensures BelowHi(HiOf(keys, hi, i), B[j].key)
    {
    }
    if i == 0 {
      assert kids[..0] == [];
      assert Flatten(kids[..n]) == B;
    } else {
      KidsSorted(keys, kids, i, h, lo, hi, c);
      var A := Flatten(kids[..i]);
      var k := keys[i - 1];
      forall j | 0 <= j < |B|
        ensures AboveLo(c.unique, Some(k), B[j].key) && BelowHi(None, B[j].key)
      {
      }
      SortedJoin(A, B, c.unique, k);
      var up := HiOf(keys, hi, i);
      forall j | 0 <= j < |A|
        ensures BelowHi(up, A[j].key)
      {
        if up.Some? {
          if i < |keys| {
            assert Rel(c.unique, keys[i - 1], keys[i]);
          } else {
            assert SepBelowHi(c.unique, hi, keys[i - 1]);
          }
          RelLe(c.unique, k, up.value);
          LeTrans(A[j].key, k, up.value);
        }
      }
      EntriesInAppend(A, B, c.unique, None, up);
    }
  }

  // ---------------------------------------------------------------------
  // The stack

  /** What a frame still has to give: the items of a leaf from pos on, the children of an inner page after pos. */
  ghost function After(p: Page, pos: int): seq<Item>
  {
    if p.Leaf? then (if 0 <= pos <= |p.items| then p.items[pos..] else [])
    else (if 0 <= pos < |p.kids| then Flatten(p.kids[pos + 1..]) else [])
  }

  /** The entries the first n frames still have to give, the deepest frame's first. */
  ghost function Tail(ps: seq<Page>, qs: seq<int>, n: nat): seq<Item>
    requires n <= |ps| && n <= |qs|
    decreases n
  {
    if n == 0 then [] else After(ps[n - 1], qs[n - 1]) + Tail(ps, qs, n - 1)
  }

  /** pageStack and posStack of a tree of height h, the first n frames in use: frame i a page of height h - i and a position within it. */
  ghost predicate Frames(ps: seq<Page>, qs: seq<int>, n: nat, h: nat)
    decreases n
  {
    |ps| == h && |qs| == h && n <= h &&
    (n > 0 ==> Frames(ps, qs, n - 1, h) && Struct(ps[n - 1], h - (n - 1)) && 0 <= qs[n - 1] < Count(ps[n - 1]))
  }

  /** Frames depend only on the frames in use. */
  lemma {:induction false} FramesSame(ps: seq<Page>, qs: seq<int>, ps': seq<Page>, qs': seq<int>, n: nat, h: nat)
    requires Frames(ps, qs, n, h) && |ps'| == h && |qs'| == h
    requires n <= h && ps[..n] == ps'[..n] && qs[..n] == qs'[..n]
    ensures Frames(ps', qs', n, h)
    decreases n
  {
    if n > 0 {
      assert ps[n - 1] == ps[..n][n - 1] && ps'[n - 1] == ps'[..n][n - 1];
      assert qs[n - 1] == qs[..n][n - 1] && qs'[n - 1] == qs'[..n][n - 1];
      assert ps[..n - 1] == ps[..n][..n - 1] && ps'[..n - 1] == ps'[..n][..n - 1];
      assert qs[..n - 1] == qs[..n][..n - 1] && qs'[..n - 1] == qs'[..n][..n - 1];
      FramesSame(ps, qs, ps', qs', n - 1, h);
    }
  }

  /** The entries the first n frames have to give depend on those frames only. */
  lemma {:induction false} TailSame(ps: seq<Page>, qs: seq<int>, ps': seq<Page>, qs': seq<int>, n: nat)
    requires n <= |ps| && n <= |qs| && n <= |ps'| && n <= |qs'|
    requires ps[..n] == ps'[..n] && qs[..n] == qs'[..n]
    ensures Tail(ps, qs, n) == Tail(ps', qs', n)
    decreases n
  {
    if n > 0 {
      assert ps[n - 1] == ps[..n][n - 1] && ps'[n - 1] == ps'[..n][n - 1];
      assert qs[n - 1] == qs[..n][n - 1] && qs'[n - 1] == qs'[..n][n - 1];
      assert ps[..n - 1] == ps[..n][..n - 1] && ps'[..n - 1] == ps'[..n][..n - 1];
      assert qs[..n - 1] == qs[..n][..n - 1] && qs'[..n - 1] == qs'[..n][..n - 1];
      TailSame(ps, qs, ps', qs', n - 1);
    }
  }

  /** Moving an inner frame one child on: the child it passes is what the frame gave up. */
  lemma {:induction false} AfterStep(p: Page, q: int)
    requires p.Inner? && 0 < q < |p.kids|
    ensures After(p, q - 1) == Entries(p.kids[q]) + After(p, q)
  {
    FlattenFrom(p.kids, q);
  }

  /** A leftmost frame: the first child, then everything after it. */
  lemma {:induction false} AfterFirst(p: Page)
    requires p.Inner? && 0 < |p.kids|
    ensures Entries(p) == Entries(p.kids[0]) + After(p, 0)
  {
    assert p.kids[0..] == p.kids;
    FlattenFrom(p.kids, 0);
  }

  lemma {:induction false} Assoc3(a: seq<Item>, b: seq<Item>, c: seq<Item>)
    ensures (a + b) + c == a + (b + c)
  {
  }

  // ---------------------------------------------------------------------
  // Selection facts

  /** A lower-bound fact carries upwards in the key order. */
  lemma {:induction false} FromLowUp(low: Option<Bound>, k: Key, k': Key)
    requires FromLow(low, k) && Le(k, k')
    ensures FromLow(low, k')
  {
    if low.Some? && k != k' {
      if Lt(low.value.key, k) {
        LeTrans(low.value.key, k, k');
      } else {
        assert k == low.value.key;
      }
    }
  }

  /** A sorted run whose first entry lies past the upper bound selects nothing. */
  lemma {:induction false} SelectAllPast(R: seq<Item>, low: Option<Bound>, high: Bound)
    requires Sorted(R) && R != [] && Past(high, R[0].key)
    ensures Select(R, low, Some(high)) == []
  {
    forall i | 0 <= i < |R|
      ensures !InRange(low, Some(high), R[i].key)
    {
      if i > 0 {
        assert InOrder(R, 0, i);
        PastUp(high, R[0].key, R[i].key);
      }
    }
    SelectNone(R, low, Some(high));
  }

  /** A run whose first entry is in range selects that entry's oid first. */
  lemma {:induction false} SelectHead(R: seq<Item>, low: Option<Bound>, high: Option<Bound>)
    requires R != [] && InRange(low, high, R[0].key)
    ensures Select(R, low, high) == [R[0].oid] + Select(R[1..], low, high)
  {
    assert R == [R[0]] + R[1..];
    SelectAppend([R[0]], R[1..], low, high);
    assert SelectPrefix([R[0]], 0, low, high) == [];
  }

  lemma {:induction false} SortedRest(R: seq<Item>)
    requires Sorted(R) && R != []
    ensures Sorted(R[1..])
  {
    assert R == [R[0]] + R[1..];
    SortedSuffix([R[0]], R[1..]);
  }

  /** The entry after the current one R[0]: R's selection is R[0]'s oid and then the rest's, which is sorted and starts at or after the lower bound. */
  lemma {:induction false} NextRun(R: seq<Item>, low: Option<Bound>, high: Option<Bound>)
    requires Sorted(R) && R != [] && InRange(low, high, R[0].key)
    ensures Select(R, low, high) == [R[0].oid] + Select(R[1..], low, high)
    ensures Sorted(R[1..]) && (R[1..] == [] || FromLow(low, R[1..][0].key))
  {
    SelectHead(R, low, high);
    SortedRest(R);
    if |R| > 1 {
      assert InOrder(R, 0, 1);
      FromLowUp(low, R[0].key, R[1].key);
    }
  }

  // ---------------------------------------------------------------------
  // The descent from the root

  /** One inner level of the descent: the children before position r hold nothing at or after the lower bound. */
  lemma {:induction false} LevelStep(E: seq<Item>, Pre: seq<Item>, keys: seq<Key>, kids: seq<Page>, g: int,
                                     lo: Option<Key>, hi: Option<Key>, c: Conf, r: nat, T: seq<Item>,
                                     from: Option<Bound>, till: Option<Bound>)
    requires Kid(Inner(keys, kids), g, lo, hi, c) && r <= |keys|
    requires E == Pre + Entries(Inner(keys, kids)) + T
    requires Select(Pre, from, till) == []
    requires from.None? ==> r == 0
    requires from.Some? ==> forall i | 0 <= i < r :: Before(KeyAt(Inner(keys, kids), i), from.value.key, !from.value.inclusive)
    ensures r < |kids| && Kid(kids[r], g - 1, LoOf(keys, lo, r), HiOf(keys, hi, r), c)
    ensures E == (Pre + Flatten(kids[..r])) + Entries(kids[r]) + (After(Inner(keys, kids), r) + T)
    ensures Select(Pre + Flatten(kids[..r]), from, till) == []
  {
    InnerFacts(keys, kids, g, lo, hi, c);
    KidAt(keys, kids, g, lo, hi, c, r);
    FlattenAt(kids, r);
    var A, B := Flatten(kids[..r]), Flatten(kids[r + 1..]);
    assert After(Inner(keys, kids), r) == B;
    assert E == Pre + (A + Entries(kids[r]) + B) + T;
    assert E == (Pre + A) + Entries(kids[r]) + (B + T);
    SelectFlatten(kids, r, from, till);
    if from.Some? {
      InnerStart(keys, kids, g, lo, hi, c, r, from.value, till);
    } else {
      assert kids[..r] == [];
    }
    SelectAppend(Pre, A, from, till);
  }

  /** The first entry after child r of an inner page lies at or after the lower bound when separator r does. */
  lemma {:induction false} LevelNext(keys: seq<Key>, kids: seq<Page>, g: int, lo: Option<Key>, hi: Option<Key>, c: Conf,
                                     r: nat, T: seq<Item>, from: Option<Bound>)
    requires Kid(Inner(keys, kids), g, lo, hi, c) && r <= |keys|
    requires T == [] || FromLow(from, T[0].key)
    requires from.Some? ==> forall i | r <= i < |keys| :: !Before(KeyAt(Inner(keys, kids), i), from.value.key, !from.value.inclusive)
    ensures After(Inner(keys, kids), r) + T == [] || FromLow(from, (After(Inner(keys, kids), r) + T)[0].key)
  {
    InnerFacts(keys, kids, g, lo, hi, c);
    if r < |keys| {
      var q := kids[r + 1];
      KidAt(keys, kids, g, lo, hi, c, r + 1);
      assert LoOf(keys, lo, r + 1) == Some(keys[r]);
      KidStruct(q, g - 1, Some(keys[r]), HiOf(keys, hi, r + 1), c);
      StructEntries(q, g - 1);
      NodeEntriesIn(q, g - 1, Some(keys[r]), HiOf(keys, hi, r + 1), c);
      FlattenFrom(kids, r + 1);
      var x := Entries(q)[0];
      assert (After(Inner(keys, kids), r) + T)[0] == x;
      if from.Some? {
        assert KeyAt(Inner(keys, kids), r) == keys[r];
        NotBeforeFrom(from.value, keys[r]);
        RelLe(c.unique, keys[r], x.key);
        FromLowUp(from, keys[r], x.key);
      }
    } else {
      assert kids[r + 1..] == [];
    }
  }

  /** The leaf level of the descent: the items before position r hold nothing at or after the lower bound. */
  lemma {:induction false} LeafLevel(E: seq<Item>, Pre: seq<Item>, items: seq<Item>, r: nat, T: seq<Item>,
                                     from: Option<Bound>, till: Option<Bound>)
    requires r <= |items|
    requires E == Pre + items + T
    requires Select(Pre, from, till) == []
    requires from.None? ==> r == 0
    requires from.Some? ==> forall i | 0 <= i < r :: Before(KeyAt(Leaf(items), i), from.value.key, !from.value.inclusive)
    ensures E == (Pre + items[..r]) + (items[r..] + T)
    ensures Select(E, from, till) == Select(items[r..] + T, from, till)
  {
    LeafSplit(E, Pre, items, r, T);
    if from.Some? {
      LeafStart(items, r, from.value, till);
    }
    SelectPrefixAppend(items[..r], items[r..], r, from, till);
    SelectAppend(Pre, items[..r], from, till);
    SelectAppend(Pre + items[..r], items[r..] + T, from, till);
  }

  /** The entries split at position r of a leaf. */
  lemma {:induction false} LeafSplit(E: seq<Item>, Pre: seq<Item>, items: seq<Item>, r: nat, T: seq<Item>)
    requires r <= |items| && E == Pre + items + T
    ensures items == items[..r] + items[r..]
    ensures E == (Pre + items[..r]) + (items[r..] + T)
  {
    assert items == items[..r] + items[r..];
  }

  // ---------------------------------------------------------------------
  // Stack steps

  /** An inner page of height above 1 on the stack: one child more than keys, each child of the height below. */
  lemma {:induction false} StructKid(p: Page, g: int, i: int)
    requires Struct(p, g) && p.Inner? && 0 <= i < |p.kids|
    ensures g > 1 && |p.kids| == |p.keys| + 1 && Struct(p.kids[i], g - 1)
  {
  }

  /** Pushing frame n: the frames below it are untouched and it gives what follows position q first. */
  lemma {:induction false} Push(ps: seq<Page>, qs: seq<int>, n: nat, h: nat, p: Page, q: int)
    requires Frames(ps, qs, n, h) && n < h && Struct(p, h - n) && 0 <= q < Count(p)
    ensures Frames(ps[n := p], qs[n := q], n + 1, h)
    ensures Tail(ps[n := p], qs[n := q], n) == Tail(ps, qs, n)
    ensures Tail(ps[n := p], qs[n := q], n + 1) == After(p, q) + Tail(ps, qs, n)
  {
    assert ps[n := p][..n] == ps[..n] && qs[n := q][..n] == qs[..n];
    TailSame(ps[n := p], qs[n := q], ps, qs, n);
    FramesSame(ps, qs, ps[n := p], qs[n := q], n, h);
  }

  /** Moving the top frame to position q. */
  lemma {:induction false} Move(ps: seq<Page>, qs: seq<int>, n: nat, h: nat, q: int)
    requires Frames(ps, qs, n, h) && n >= 1 && 0 <= q < Count(ps[n - 1])
    ensures Frames(ps, qs[n - 1 := q], n, h)
    ensures Tail(ps, qs[n - 1 := q], n) == After(ps[n - 1], q) + Tail(ps, qs, n - 1)
  {
    assert qs[n - 1 := q][..n - 1] == qs[..n - 1];
    TailSame(ps, qs[n - 1 := q], ps, qs, n - 1);
    FramesSame(ps, qs, ps, qs[n - 1 := q], n - 1, h);
  }

  /** Popping the top frame. */
  lemma {:induction false} Pop(ps: seq<Page>, qs: seq<int>, n: nat, h: nat)
    requires Frames(ps, qs, n, h) && n >= 1
    ensures Frames(ps, qs, n - 1, h)
    ensures Struct(ps[n - 1], h - (n - 1)) && 0 <= qs[n - 1] < Count(ps[n - 1])
    ensures Tail(ps, qs, n) == After(ps[n - 1], qs[n - 1]) + Tail(ps, qs, n - 1)
  {
    assert 0 <= n - 1 < n;
  }

  /** The first entry still to come on a full stack is the current item of the leaf on top. */
  lemma {:induction false} TopItem(ps: seq<Page>, qs: seq<int>, h: nat)
    requires Frames(ps, qs, h, h) && h >= 1 && ps[h - 1].Leaf?
    ensures 0 <= qs[h - 1] < |ps[h - 1].items|
    ensures Tail(ps, qs, h) == ps[h - 1].items[qs[h - 1]..] + Tail(ps, qs, h - 1)
    ensures Tail(ps, qs, h)[0] == ps[h - 1].items[qs[h - 1]]
    ensures Tail(ps, qs, h)[1..] == ps[h - 1].items[qs[h - 1] + 1..] + Tail(ps, qs, h - 1)
  {
    Pop(ps, qs, h, h);
    var items, q := ps[h - 1].items, qs[h - 1];
    assert After(ps[h - 1], q) == items[q..];
    HeadRest(items, q, Tail(ps, qs, h - 1));
  }

  /** The head and the rest of a leaf's items from q on followed by T. */
  lemma {:induction false} HeadRest(items: seq<Item>, q: nat, T: seq<Item>)
    requires q < |items|
    ensures (items[q..] + T)[0] == items[q]
    ensures (items[q..] + T)[1..] == items[q + 1..] + T
  {
    assert items[q..] == [items[q]] + items[q + 1..];
  }

  /** The next item of the same leaf. */
  lemma {:induction false} LeafMove(ps: seq<Page>, qs: seq<int>, h: nat, pos: int)
    requires Frames(ps, qs, h, h) && h >= 1 && ps[h - 1].Leaf? && qs[h - 1] == pos && pos + 1 < |ps[h - 1].items|
    ensures Frames(ps, qs[h - 1 := pos + 1], h, h)
    ensures Tail(ps, qs[h - 1 := pos + 1], h) == ps[h - 1].items[pos + 1..] + Tail(ps, qs, h - 1)
  {
    Pop(ps, qs, h, h);
    Move(ps, qs, h, h, pos + 1);
  }

  /**
   * gotoNextItem at item pos of leaf pg on top of a full stack: G, the
   * entries after it, runs in order from at or after the lower bound.
   */
  ghost predicate Stepping(ps: seq<Page>, qs: seq<int>, h: nat, pg: Page, pos: int, end: nat, G: seq<Item>, from: Option<Bound>)
  {
    h >= 1 && Frames(ps, qs, h, h) && ps[h - 1] == pg && qs[h - 1] == pos && pg.Leaf? && end == |pg.items| &&
    G == pg.items[pos + 1..] + Tail(ps, qs, h - 1) && Sorted(G) && (G == [] || FromLow(from, G[0].key))
  }

  /** The climb at frame n: the frames in use still have G to give, which runs in order from at or after the lower bound. */
  ghost predicate Climbed(ps: seq<Page>, qs: seq<int>, n: nat, h: nat, G: seq<Item>, from: Option<Bound>)
  {
    n < h && Frames(ps, qs, n, h) && Tail(ps, qs, n) == G && Sorted(G) && (G == [] || FromLow(from, G[0].key))
  }

  /** The climb moved frame n - 1, inner page p, to child q: that child's entries and then the frames' give G. */
  ghost predicate Turned(ps: seq<Page>, qs: seq<int>, n: nat, h: nat, p: Page, q: int, G: seq<Item>, from: Option<Bound>)
  {
    1 <= n < h && Frames(ps, qs, n, h) && ps[n - 1] == p && qs[n - 1] == q && p.Inner? && 0 <= q < |p.kids| &&
    Entries(p.kids[q]) + Tail(ps, qs, n) == G && Sorted(G) && (G == [] || FromLow(from, G[0].key))
  }

  /** Past the last item of the leaf: its frame goes and nothing of it is left. */
  lemma {:induction false} LeafDone(ps: seq<Page>, qs: seq<int>, h: nat, pg: Page, pos: int, end: nat, G: seq<Item>, from: Option<Bound>)
    requires Stepping(ps, qs, h, pg, pos, end, G, from) && pos + 1 == end
    ensures Climbed(ps, qs, h - 1, h, G, from)
  {
    Pop(ps, qs, h, h);
    assert pg.items[pos + 1..] == [];
    assert G == Tail(ps, qs, h - 1);
  }

  /** An inner frame below the leaf: it has one child more than keys. */
  lemma {:induction false} InnerFrame(ps: seq<Page>, qs: seq<int>, n: nat, h: nat)
    requires Frames(ps, qs, n, h) && 1 <= n < h
    ensures ps[n - 1].Inner? && 0 <= qs[n - 1] < |ps[n - 1].kids| == |ps[n - 1].keys| + 1
  {
    Pop(ps, qs, n, h);
  }

  /** The climb moves an inner frame to its next child: that child's entries come first. */
  lemma {:induction false} ClimbMove(ps: seq<Page>, qs: seq<int>, n: nat, h: nat, q: int, G: seq<Item>, from: Option<Bound>)
    requires Climbed(ps, qs, n, h, G, from) && n >= 1 && q == qs[n - 1] + 1 && q <= NKeys(ps[n - 1])
    ensures Turned(ps, qs[n - 1 := q], n, h, ps[n - 1], q, G, from)
  {
    var p := ps[n - 1];
    InnerFrame(ps, qs, n, h);
    Pop(ps, qs, n, h);
    Move(ps, qs, n, h, q);
    AfterStep(p, q);
    Assoc3(Entries(p.kids[q]), After(p, q), Tail(ps, qs, n - 1));
  }

  /** The climb leaves an inner frame past its last child: nothing of it is left. */
  lemma {:induction false} ClimbPop(ps: seq<Page>, qs: seq<int>, n: nat, h: nat, G: seq<Item>, from: Option<Bound>)
    requires Climbed(ps, qs, n, h, G, from) && n >= 1 && qs[n - 1] + 1 > NKeys(ps[n - 1])
    ensures Climbed(ps, qs, n - 1, h, G, from)
  {
    var p := ps[n - 1];
    Pop(ps, qs, n, h);
    InnerFrame(ps, qs, n, h);
    assert p.kids[qs[n - 1] + 1..] == [];
  }

  /** The do-while at level n: the leftmost path pushed down to page pg at frame n - 1, whose entries and then the frames below give X. */
  ghost predicate Diving(ps: seq<Page>, qs: seq<int>, n: nat, h: nat, pg: Page, X: seq<Item>)
  {
    1 <= n <= h && Frames(ps, qs, n, h) && ps[n - 1] == pg && qs[n - 1] == 0 &&
    Entries(pg) + Tail(ps, qs, n - 1) == X
  }

  /** The first page the do-while pushes: child q of the inner frame on top. */
  lemma {:induction false} DiveStart(ps: seq<Page>, qs: seq<int>, n: nat, h: nat, p: Page, q: int, G: seq<Item>, from: Option<Bound>)
    requires Turned(ps, qs, n, h, p, q, G, from)
    ensures Diving(ps[n := p.kids[q]], qs[n := 0], n + 1, h, p.kids[q], G)
  {
    DivePush(ps, qs, n, h, p, q);
  }

  /** Pushing child q of the inner frame on top leaves the frames below as they were. */
  lemma {:induction false} DivePush(ps: seq<Page>, qs: seq<int>, n: nat, h: nat, p: Page, q: int)
    requires Frames(ps, qs, n, h) && 1 <= n < h && ps[n - 1] == p && qs[n - 1] == q
    ensures p.Inner? && 0 <= q < |p.kids|
    ensures Frames(ps[n := p.kids[q]], qs[n := 0], n + 1, h)
    ensures Tail(ps[n := p.kids[q]], qs[n := 0], n) == Tail(ps, qs, n)
  {
    InnerFrame(ps, qs, n, h);
    Pop(ps, qs, n, h);
    StructKid(p, h - (n - 1), q);
    Push(ps, qs, n, h, p.kids[q], 0);
  }

  /** One more level of the do-while: the leftmost child of the page on top. */
  lemma {:induction false} DiveStep(ps: seq<Page>, qs: seq<int>, n: nat, h: nat, pg: Page, X: seq<Item>)
    requires Diving(ps, qs, n, h, pg, X) && n < h
    ensures pg.Inner? && 0 < |pg.kids|
    ensures Diving(ps[n := pg.kids[0]], qs[n := 0], n + 1, h, pg.kids[0], X)
  {
    DivePush(ps, qs, n, h, pg, 0);
    Pop(ps, qs, n, h);
    LeftmostEntries(pg, Tail(ps, qs, n - 1), X);
  }

  /** The entries of an inner page start with those of its first child. */
  lemma {:induction false} LeftmostEntries(pg: Page, T: seq<Item>, X: seq<Item>)
    requires pg.Inner? && 0 < |pg.kids| && Entries(pg) + T == X
    ensures Entries(pg.kids[0]) + (After(pg, 0) + T) == X
  {
    AfterFirst(pg);
    Assoc3(Entries(pg.kids[0]), After(pg, 0), T);
  }

  /** The do-while reaches a leaf: the stack stands on its first item, from which X follows. */
  lemma {:induction false} DiveEnd(ps: seq<Page>, qs: seq<int>, h: nat, pg: Page, X: seq<Item>,
                                   from: Option<Bound>, till: Option<Bound>)
    requires Diving(ps, qs, h, h, pg, X) && Sorted(X) && (X == [] || FromLow(from, X[0].key))
    ensures pg.Leaf? && LeadsTo(ps, qs, h, h, |pg.items|, from, till, X)
  {
    Pop(ps, qs, h, h);
    StructEntries(pg, 1);
    assert pg.items[0..] == pg.items;
    assert Tail(ps, qs, h) == X;
  }

  /**
   * The do-while of gotoNextItem on the stack values: from child q of the
   * inner frame p on top of the n frames ps, qs, push the leftmost path
   * down to a leaf pg, whose first item the stack then stands on.
   */
  method DiveDown(ps: seq<Page>, qs: seq<int>, n: nat, h: nat, p: Page, q: int, ghost G: seq<Item>,
                  from: Option<Bound>, till: Option<Bound>) returns (ps': seq<Page>, qs': seq<int>, pg: Page)
    requires Turned(ps, qs, n, h, p, q, G, from)
    ensures pg.Leaf? && LeadsTo(ps', qs', h, h, |pg.items|, from, till, G)
  {
    DiveStart(ps, qs, n, h, p, q, G, from);
    pg := p.kids[q];
    var m: nat;
    ps', qs', m := ps[n := pg], qs[n := 0], n + 1;
    while m < h
      invariant Diving(ps', qs', m, h, pg, G)
      decreases h - m
    {
      DiveStep(ps', qs', m, h, pg, G);
      var child := pg.kids[0];
      ps', qs', m := ps'[m := child], qs'[m := 0], m + 1;
      pg := child;
    }
    DiveEnd(ps', qs', h, pg, G, from, till);
  }

  /** An inner page on the way down from the root. */
  lemma {:induction false} KidInner(p: Page, h: int, lo: Option<Key>, hi: Option<Key>, c: Conf)
    requires Kid(p, h, lo, hi, c) && h > 1
    ensures p.Inner? && KeysSorted(p)
  {
    NodeKeysSorted(p, h, lo, hi, c);
  }

  /** The leaf at the bottom of the way down. */
  lemma {:induction false} KidLeaf(p: Page, lo: Option<Key>, hi: Option<Key>, c: Conf)
    requires Kid(p, 1, lo, hi, c)
    ensures p.Leaf? && Struct(p, 1) && KeysSorted(p)
  {
    KidStruct(p, 1, lo, hi, c);
    NodeKeysSorted(p, 1, lo, hi, c);
  }

  /** Position r of page p is the first whose key is not before the lower bound; 0 without one. */
  ghost predicate Searched(p: Page, r: nat, from: Option<Bound>)
  {
    r <= NKeys(p) && (from.None? ==> r == 0) &&
    (from.Some? ==> forall i | 0 <= i < r :: Before(KeyAt(p, i), from.value.key, !from.value.inclusive)) &&
    (from.Some? ==> forall i | r <= i < NKeys(p) :: !Before(KeyAt(p, i), from.value.key, !from.value.inclusive))
  }

  /**
   * The descent at level n below the root: frames 0 to n - 1 pushed and p
   * the page of level n with bounds lo and hi; the tree's entries E are
   * those left of the path (none of them selected), then p's, then what
   * the frames still have to give, which starts at or after the lower bound.
   */
  ghost predicate Descent(E: seq<Item>, Pre: seq<Item>, ps: seq<Page>, qs: seq<int>, n: nat, h: nat, p: Page,
                          lo: Option<Key>, hi: Option<Key>, c: Conf, from: Option<Bound>, till: Option<Bound>)
  {
    n < h && Frames(ps, qs, n, h) && Kid(p, h - n, lo, hi, c) &&
    E == Pre + Entries(p) + Tail(ps, qs, n) && Select(Pre, from, till) == [] &&
    (Tail(ps, qs, n) == [] || FromLow(from, Tail(ps, qs, n)[0].key))
  }

  /** The descent starts at the root with no frame pushed. */
  lemma {:induction false} DescentStart(E: seq<Item>, ps: seq<Page>, qs: seq<int>, h: nat, root: Page, c: Conf,
                                        from: Option<Bound>, till: Option<Bound>)
    requires |ps| == h && |qs| == h && h >= 1 && Kid(root, h, None, None, c) && E == Entries(root)
    ensures Descent(E, [], ps, qs, 0, h, root, None, None, c, from, till)
  {
    assert E == [] + Entries(root) + Tail(ps, qs, 0);
    SelectNone([], from, till);
  }

  /** Above the leaf level the page reached is an inner page with its keys in order. */
  lemma {:induction false} DescentInner(E: seq<Item>, Pre: seq<Item>, ps: seq<Page>, qs: seq<int>, n: nat, h: nat, p: Page,
                                        lo: Option<Key>, hi: Option<Key>, c: Conf, from: Option<Bound>, till: Option<Bound>)
    requires Descent(E, Pre, ps, qs, n, h, p, lo, hi, c, from, till) && n + 1 < h
    ensures p.Inner? && KeysSorted(p)
  {
    KidInner(p, h - n, lo, hi, c);
  }

  /** At the leaf level the page reached is a nonempty leaf with its keys in order. */
  lemma {:induction false} DescentLeaf(E: seq<Item>, Pre: seq<Item>, ps: seq<Page>, qs: seq<int>, n: nat, h: nat, p: Page,
                                       lo: Option<Key>, hi: Option<Key>, c: Conf, from: Option<Bound>, till: Option<Bound>)
    requires Descent(E, Pre, ps, qs, n, h, p, lo, hi, c, from, till) && n + 1 == h
    ensures p.Leaf? && Struct(p, 1) && KeysSorted(p)
  {
    KidLeaf(p, lo, hi, c);
  }

  /**
   * One inner level of the descent: the frame for page p at position r,
   * the children before r holding nothing selected, the next page child r.
   */
  lemma {:induction false} DescendStep(E: seq<Item>, Pre: seq<Item>, ps: seq<Page>, qs: seq<int>, n: nat, h: nat, p: Page,
                                       lo: Option<Key>, hi: Option<Key>, c: Conf, r: nat,
                                       from: Option<Bound>, till: Option<Bound>)
    requires Descent(E, Pre, ps, qs, n, h, p, lo, hi, c, from, till) && n + 1 < h
    requires p.Inner? && Searched(p, r, from)
    ensures r < |p.kids|
    ensures Descent(E, Pre + Flatten(p.kids[..r]), ps[n := p], qs[n := r], n + 1, h, p.kids[r],
                    LoOf(p.keys, lo, r), HiOf(p.keys, hi, r), c, from, till)
  {
    assert p == Inner(p.keys, p.kids);
    var T := Tail(ps, qs, n);
    KidStruct(p, h - n, lo, hi, c);
    LevelStep(E, Pre, p.keys, p.kids, h - n, lo, hi, c, r, T, from, till);
    LevelNext(p.keys, p.kids, h - n, lo, hi, c, r, T, from);
    Push(ps, qs, n, h, p, r);
  }

  /** A sorted run that is empty or starts past the upper bound selects nothing. */
  lemma {:induction false} NoneLeft(T: seq<Item>, from: Option<Bound>, till: Option<Bound>)
    requires Sorted(T) && (T == [] || (till.Some? && Past(till.value, T[0].key)))
    ensures Select(T, from, till) == []
  {
    if T != [] {
      SelectAllPast(T, from, till.value);
    } else {
      SelectNone(T, from, till);
    }
  }

  /** The leaf level of the descent with a position r in the leaf: the run from there holds the whole selection. */
  lemma {:induction false} LeafAt(E: seq<Item>, Pre: seq<Item>, ps: seq<Page>, qs: seq<int>, h: nat, p: Page,
                                  lo: Option<Key>, hi: Option<Key>, c: Conf, r: nat,
                                  from: Option<Bound>, till: Option<Bound>)
    requires h >= 1 && Descent(E, Pre, ps, qs, h - 1, h, p, lo, hi, c, from, till) && Sorted(E)
    requires p.Leaf? && Searched(p, r, from) && r < |p.items|
    ensures LeadsTo(ps[h - 1 := p], qs[h - 1 := r], h, h, |p.items|, from, till, E)
  {
    DescentLeaf(E, Pre, ps, qs, h - 1, h, p, lo, hi, c, from, till);
    Push(ps, qs, h - 1, h, p, r);
    assert p == Leaf(p.items);
    assert from.Some? ==> KeyAt(p, r) == p.items[r].key;
    LeafRun(E, Pre, p.items, r, Tail(ps, qs, h - 1), from, till);
  }

  /** Item r of a leaf the descent reached is the first not before the lower bound: the run from it holds the selection. */
  lemma {:induction false} LeafRun(E: seq<Item>, Pre: seq<Item>, items: seq<Item>, r: nat, T: seq<Item>,
                                   from: Option<Bound>, till: Option<Bound>)
    requires r < |items| && Sorted(E) && E == Pre + items + T && Select(Pre, from, till) == []
    requires from.None? ==> r == 0
    requires from.Some? ==> forall i | 0 <= i < r :: Before(KeyAt(Leaf(items), i), from.value.key, !from.value.inclusive)
    requires from.Some? ==> !Before(items[r].key, from.value.key, !from.value.inclusive)
    ensures Sorted(items[r..] + T) && (items[r..] + T)[0] == items[r] && FromLow(from, items[r].key)
    ensures Select(E, from, till) == Select(items[r..] + T, from, till)
  {
    LeafLevel(E, Pre, items, r, T, from, till);
    SortedSuffix(Pre + items[..r], items[r..] + T);
    if from.Some? {
      NotBeforeFrom(from.value, items[r].key);
    }
  }

  /**
   * The leaf level of the descent when every item of the leaf is before
   * the lower bound: the frame stands on the leaf's last item and the run
   * after the leaf holds the selection.
   */
  lemma {:induction false} LeafAllBefore(E: seq<Item>, Pre: seq<Item>, ps: seq<Page>, qs: seq<int>, h: nat, p: Page,
                                         lo: Option<Key>, hi: Option<Key>, c: Conf, r: nat,
                                         from: Option<Bound>, till: Option<Bound>)
    requires h >= 1 && Descent(E, Pre, ps, qs, h - 1, h, p, lo, hi, c, from, till) && Sorted(E)
    requires p.Leaf? && Searched(p, r, from) && r == |p.items|
    ensures r >= 1 && Stepping(ps[h - 1 := p], qs[h - 1 := r - 1], h, p, r - 1, r, Tail(ps, qs, h - 1), from)
    ensures Select(E, from, till) == Select(Tail(ps, qs, h - 1), from, till)
  {
    DescentLeaf(E, Pre, ps, qs, h - 1, h, p, lo, hi, c, from, till);
    StructEntries(p, 1);
    var T := Tail(ps, qs, h - 1);
    LeafLevel(E, Pre, p.items, r, T, from, till);
    SortedSuffix(Pre + p.items[..r], p.items[r..] + T);
    Push(ps, qs, h - 1, h, p, r - 1);
    assert p.items[r..] == [];
    assert p.items[r..] + T == T;
  }

  /** The position the descent takes in page p: the first whose key is not before the lower bound, 0 without one. */
  method FirstFrom(p: Page, from: Option<Bound>) returns (r: nat)
    requires KeysSorted(p)
    ensures Searched(p, r, from)
  {
    r := 0;
    if from.Some? {
      r := Search(p, from.value.key, !from.value.inclusive);
    }
  }

  // ---------------------------------------------------------------------
  // The iterator's state as values

  /** pageStack and posStack as the iterator keeps them: a full stack whose top frame is a position of a leaf of end items, or an empty one. */
  ghost predicate StackOk(ps: seq<Page>, qs: seq<int>, sp: nat, h: nat, end: nat)
  {
    Frames(ps, qs, sp, h) && (sp == 0 || sp == h) &&
    (sp != 0 ==> ps[sp - 1].Leaf? && end == |ps[sp - 1].items|)
  }

  /**
   * A stack positioned at a run whose selection is that of E: at an item
   * at or after the lower bound from which the entries run in order, or
   * empty with nothing of E selected.
   */
  ghost predicate LeadsTo(ps: seq<Page>, qs: seq<int>, sp: nat, h: nat, end: nat,
                          from: Option<Bound>, till: Option<Bound>, E: seq<Item>)
  {
    StackOk(ps, qs, sp, h, end) &&
    (sp != 0 ==> Sorted(Tail(ps, qs, sp)) && Tail(ps, qs, sp) != [] && FromLow(from, Tail(ps, qs, sp)[0].key) &&
                 Select(E, from, till) == Select(Tail(ps, qs, sp), from, till)) &&
    (sp == 0 ==> Select(E, from, till) == [])
  }

  /** A stack at an item within the bounds from which the entries run in order, or an empty one. */
  ghost predicate Current(ps: seq<Page>, qs: seq<int>, sp: nat, h: nat, end: nat,
                          from: Option<Bound>, till: Option<Bound>)
  {
    StackOk(ps, qs, sp, h, end) &&
    (sp != 0 ==> Sorted(Tail(ps, qs, sp)) && Tail(ps, qs, sp) != [] && InRange(from, till, Tail(ps, qs, sp)[0].key))
  }

  /** The next item of the same leaf. */
  lemma {:induction false} LeafNext(ps: seq<Page>, qs: seq<int>, h: nat, pg: Page, pos: int, end: nat,
                                    from: Option<Bound>, till: Option<Bound>, G: seq<Item>)
    requires Stepping(ps, qs, h, pg, pos, end, G, from) && pos + 1 < end
    ensures LeadsTo(ps, qs[h - 1 := pos + 1], h, h, end, from, till, G)
  {
    LeafMove(ps, qs, h, pos);
  }

  /** The climb found no ancestor with a child left: the stack is empty and nothing is left. */
  lemma {:induction false} ClimbEnd(ps: seq<Page>, qs: seq<int>, h: nat, end: nat,
                                    from: Option<Bound>, till: Option<Bound>, G: seq<Item>)
    requires |ps| == h && |qs| == h && G == []
    ensures LeadsTo(ps, qs, 0, h, end, from, till, G)
  {
    SelectNone(G, from, till);
  }

  /** The first entry still to come lies past the upper bound: nothing more is selected. */
  lemma {:induction false} StopAt(ps: seq<Page>, qs: seq<int>, sp: nat, h: nat, end: nat,
                                  from: Option<Bound>, till: Option<Bound>, E: seq<Item>)
    requires LeadsTo(ps, qs, sp, h, end, from, till, E) && sp != 0
    requires till.Some? && Past(till.value, Tail(ps, qs, sp)[0].key)
    ensures Current(ps, qs, 0, h, end, from, till) && Select(E, from, till) == []
  {
    SelectAllPast(Tail(ps, qs, sp), from, till.value);
  }

  /** On a nonempty stack the first entry still to come is the current item of the leaf on top. */
  lemma {:induction false} CurrentItem(ps: seq<Page>, qs: seq<int>, sp: nat, h: nat, end: nat,
                                       from: Option<Bound>, till: Option<Bound>, E: seq<Item>)
    requires LeadsTo(ps, qs, sp, h, end, from, till, E) && sp != 0
    ensures sp == h && 1 <= h <= |ps| && h <= |qs| && ps[h - 1].Leaf? && 0 <= qs[h - 1] < |ps[h - 1].items|
    ensures Tail(ps, qs, sp)[0] == ps[h - 1].items[qs[h - 1]]
  {
    TopItem(ps, qs, h);
  }

  /**
   * The upper-bound test of the current item, the first entry still to
   * come: stop when it lies past the bound; otherwise it is within the
   * bounds and the selection goes on from it.
   */
  method TillTest(ps: seq<Page>, qs: seq<int>, sp: nat, h: nat, end: nat,
                  from: Option<Bound>, till: Option<Bound>, ghost E: seq<Item>) returns (stop: bool)
    requires LeadsTo(ps, qs, sp, h, end, from, till, E)
    ensures stop <==> sp != 0 && till.Some? && Past(till.value, Tail(ps, qs, sp)[0].key)
    ensures Current(ps, qs, if stop then 0 else sp, h, end, from, till)
    ensures Select(E, from, till) == if stop || sp == 0 then [] else Select(Tail(ps, qs, sp), from, till)
  {
    stop := false;
    if sp != 0 && till.Some? {
      CurrentItem(ps, qs, sp, h, end, from, till, E);
      stop := PastBound(ps[sp - 1].items[qs[sp - 1]].key, till.value);
    }
    if stop {
      StopAt(ps, qs, sp, h, end, from, till, E);
    } else {
      GoOn(ps, qs, sp, h, end, from, till, E);
    }
  }

  /** The first entry still to come is not past the upper bound: it is the current one. */
  lemma {:induction false} GoOn(ps: seq<Page>, qs: seq<int>, sp: nat, h: nat, end: nat,
                                from: Option<Bound>, till: Option<Bound>, E: seq<Item>)
    requires LeadsTo(ps, qs, sp, h, end, from, till, E)
    requires sp != 0 ==> till.None? || !Past(till.value, Tail(ps, qs, sp)[0].key)
    ensures Current(ps, qs, sp, h, end, from, till)
    ensures Select(E, from, till) == if sp == 0 then [] else Select(Tail(ps, qs, sp), from, till)
  {
  }

  /** The current item is item qs[h - 1] of the leaf on top, and the entries after it lead to the rest of the selection. */
  lemma {:induction false} NextAt(ps: seq<Page>, qs: seq<int>, h: nat, end: nat, from: Option<Bound>, till: Option<Bound>)
    requires Current(ps, qs, h, h, end, from, till) && h >= 1
    ensures Stepping(ps, qs, h, ps[h - 1], qs[h - 1], end, Tail(ps, qs, h)[1..], from) && 0 <= qs[h - 1] < end
    ensures Tail(ps, qs, h)[0] == ps[h - 1].items[qs[h - 1]]
    ensures Select(Tail(ps, qs, h), from, till) == [Tail(ps, qs, h)[0].oid] + Select(Tail(ps, qs, h)[1..], from, till)
  {
    TopItem(ps, qs, h);
    NextRun(Tail(ps, qs, h), from, till);
  }

  // ---------------------------------------------------------------------
  // The iterator

  class Iterator {
    /** The tree's height: the number of frames of a full stack. */
    const height: nat
    /** dbBtreeIterator::type: the tree's key type. */
    const keyType: nat
    /** The lower bound (from, fromInclusion), None for a null from. */
    const from: Option<Bound>
    /** The upper bound (till, tillInclusion), None for a null till. */
    const till: Option<Bound>
    /** The pages from the root to the current leaf. */
    var pageStack: seq<Page>
    /** The position within each page on the stack: a child of an inner page, an item of the leaf. */
    var posStack: seq<int>
    /** The frames in use: 0 once the iteration is over. */
    var sp: nat
    /** The number of items of the current leaf. */
    var end: nat

    /** The entries from the current one on, in key order. */
    ghost function Rem(): seq<Item>
      reads this
    {
      if sp <= |pageStack| && sp <= |posStack| then Tail(pageStack, posStack, sp) else []
    }

    /** A full stack whose top frame is a position of a leaf, the leaf whose items end counts; or an empty one. */
    ghost predicate AtLeaf()
      reads this
    {
      StackOk(pageStack, posStack, sp, height, end)
    }

    /**
     * A full stack down to an item of a leaf, the entries from it on in
     * order and the current one within the bounds; or an empty stack.
     */
    ghost predicate Valid()
      reads this
    {
      Current(pageStack, posStack, sp, height, end, from, till)
    }

    /** Positioned at a run whose selection is that of E. */
    ghost predicate Leads(E: seq<Item>)
      reads this
    {
      LeadsTo(pageStack, posStack, sp, height, end, from, till, E)
    }

    /** The oids next() is still to hand out, in order. */
    ghost function Pending(): seq<Oid>
      reads this
    {
      if sp == 0 then [] else Select(Rem(), from, till)
    }

    /**
     * The constructor of dbBtreeIterator for a key type the tree accepts:
     * on an empty tree the stack is empty; otherwise the descent picks at
     * each level the first position not before the lower bound (the first
     * one without a bound) and the iteration starts at the first item of
     * the tree within the bounds.
     */
    constructor (tree: Btree, t: nat, from: Option<Bound>, till: Option<Bound>)
      requires tree.Valid()
      ensures Valid()
      ensures Pending() == Select(tree.Contents(), from, till)
      ensures this.from == from && this.till == till && height == tree.height
      ensures keyType == if tree.height == 0 then t else tree.keyType
    {
      height := tree.height;
      keyType := if tree.height == 0 then t else tree.keyType;
      this.from := from;
      this.till := till;
      pageStack := seq(tree.height, _ => Leaf([]));
      posStack := seq(tree.height, _ => 0);
      sp := 0;
      end := 0;
      new;
      if tree.height != 0 {
        var root := tree.root.value;
        EntriesSorted(root, height, None, None, tree.C());
        var pg, Pre, lo, hi := DescendInner(root, tree.C());
        EnterLeaf(pg, Entries(root), Pre, lo, hi, tree.C());
      }
    }

    /**
     * The descent through the inner pages: at each level the frame for
     * the page with the first position whose separator is not before the
     * lower bound, and the child there.
     */
    method DescendInner(root: Page, ghost c: Conf) returns (pg: Page, ghost Pre: seq<Item>, ghost lo: Option<Key>, ghost hi: Option<Key>)
      requires height >= 1 && sp == 0 && |pageStack| == height && |posStack| == height
      requires Kid(root, height, None, None, c)
      modifies this
      ensures sp == height - 1
      ensures Descent(Entries(root), Pre, pageStack, posStack, sp, height, pg, lo, hi, c, from, till)
    {
      var ps, qs, n := pageStack, posStack, 0;
      pg, Pre, lo, hi := root, [], None, None;
      ghost var E := Entries(root);
      DescentStart(E, ps, qs, height, root, c, from, till);
      while n < height - 1
        invariant n <= height - 1
        invariant Descent(E, Pre, ps, qs, n, height, pg, lo, hi, c, from, till)
        decreases height - n
      {
        DescentInner(E, Pre, ps, qs, n, height, pg, lo, hi, c, from, till);
        var r := FirstFrom(pg, from);
        DescendStep(E, Pre, ps, qs, n, height, pg, lo, hi, c, r, from, till);
        ps, qs, Pre := ps[n := pg], qs[n := r], Pre + Flatten(pg.kids[..r]);
        lo, hi := LoOf(pg.keys, lo, r), HiOf(pg.keys, hi, r);
        pg, n := pg.kids[r], n + 1;
      }
      pageStack, posStack, sp := ps, qs, n;
    }

    /**
     * The leaf level of the descent: the first item not before the lower
     * bound; when every item of the leaf is before it, gotoNextItem moves
     * on from the leaf's last item. The item reached is checked against
     * the upper bound.
     */
    method EnterLeaf(pg: Page, ghost E: seq<Item>, ghost Pre: seq<Item>, ghost lo: Option<Key>, ghost hi: Option<Key>, ghost c: Conf)
      requires height >= 1 && sp == height - 1 && Sorted(E)
      requires Descent(E, Pre, pageStack, posStack, sp, height, pg, lo, hi, c, from, till)
      modifies this
      ensures Valid() && Pending() == Select(E, from, till)
    {
      ghost var ps, qs, h := pageStack, posStack, height;
      DescentLeaf(E, Pre, ps, qs, sp, h, pg, lo, hi, c, from, till);
      var r := FirstFrom(pg, from);
      if r == |pg.items| {
        LeafAllBefore(E, Pre, ps, qs, h, pg, lo, hi, c, r, from, till);
        SkipLeaf(pg, r, E, Tail(ps, qs, h - 1));
      } else {
        LeafAt(E, Pre, ps, qs, h, pg, lo, hi, c, r, from, till);
        StartLeaf(pg, r, E);
      }
    }

    /**
     * Every item of leaf pg is before the lower bound: gotoNextItem moves
     * on from its last item, r - 1, to the run T after the leaf, which
     * holds the selection of E.
     */
    method SkipLeaf(pg: Page, r: nat, ghost E: seq<Item>, ghost T: seq<Item>)
      requires height >= 1 && sp == height - 1 && |pageStack| == height && |posStack| == height && r >= 1 && pg.Leaf? && r == |pg.items|
      requires Stepping(pageStack[height - 1 := pg], posStack[height - 1 := r - 1], height, pg, r - 1, r, T, from)
      requires Select(E, from, till) == Select(T, from, till)
      modifies this
      ensures Valid() && Pending() == Select(E, from, till)
    {
      pageStack, posStack, sp, end := pageStack[height - 1 := pg], posStack[height - 1 := r - 1], height, r;
      GotoNextItem(pg, r - 1, T);
    }

    /** Item r of leaf pg is the first not before the lower bound: the stack takes it, and it is checked against the upper bound. */
    method StartLeaf(pg: Page, r: nat, ghost E: seq<Item>)
      requires height >= 1 && |pageStack| == height && |posStack| == height
      requires pg.Leaf? && LeadsTo(pageStack[height - 1 := pg], posStack[height - 1 := r], height, height, |pg.items|, from, till, E)
      modifies this
      ensures Valid() && Pending() == Select(E, from, till)
    {
      pageStack, posStack, sp, end := pageStack[height - 1 := pg], posStack[height - 1 := r], height, |pg.items|;
      CheckTill(E);
    }

    /**
     * The current item, the first entry still to come, lies past the upper
     * bound: the iteration ends. Otherwise it is within the bounds.
     */
    method CheckTill(ghost E: seq<Item>)
      requires Leads(E)
      modifies this
      ensures Valid() && Pending() == Select(E, from, till)
      ensures pageStack == old(pageStack) && posStack == old(posStack) && end == old(end)
      ensures sp == if old(sp) != 0 && till.Some? && Past(till.value, old(Rem())[0].key) then 0 else old(sp)
    {
      var stop := TillTest(pageStack, posStack, sp, height, end, from, till, E);
      if stop {
        sp := 0;
      }
    }

    /**
     * dbBtreeIterator::next: 0 once the iteration is over; otherwise the
     * oid of the current item, and the iteration moves on to the next item
     * within the bounds.
     */
    method Next() returns (oid: Oid)
      requires Valid()
      modifies this
      ensures Valid()
      ensures old(Pending()) == [] ==> oid == 0 && Pending() == []
      ensures old(Pending()) != [] ==> oid == old(Pending())[0] && Pending() == old(Pending())[1..]
    {
      if sp == 0 {
        return 0;
      }
      NextAt(pageStack, posStack, height, end, from, till);
      var pos := posStack[sp - 1];
      var pg := pageStack[sp - 1];
      oid := pg.items[pos].oid;
      GotoNextItem(pg, pos, Tail(pageStack, posStack, sp)[1..]);
    }

    /**
     * dbBtreeIterator::gotoNextItem from item pos of the current leaf pg,
     * G being the entries after it: the next item of the leaf, or, past
     * its last one, the first item of the leftmost leaf under the next
     * child of the deepest ancestor with a child left; the iteration ends
     * when there is none or when the item reached lies past the upper bound.
     */
    method GotoNextItem(pg: Page, pos: int, ghost G: seq<Item>)
      requires sp == height && Stepping(pageStack, posStack, height, pg, pos, end, G, from)
      modifies this
      ensures Valid() && Pending() == Select(G, from, till)
    {
      var q := pos + 1;
      if q == end {
        LeafDone(pageStack, posStack, height, pg, pos, end, G, from);
        sp := sp - 1;
        Climb(G);
      } else {
        LeafNext(pageStack, posStack, height, pg, pos, end, from, till, G);
        posStack := posStack[sp - 1 := q];
      }
      CheckTill(G);
    }

    /**
     * The climb of gotoNextItem: pop frames whose page has no child left;
     * at the first one that has, move to its next child and descend to the
     * leftmost leaf below it. G is what the frames in use still have to give.
     */
    method Climb(ghost G: seq<Item>)
      requires Climbed(pageStack, posStack, sp, height, G, from)
      modifies this
      ensures Leads(G)
    {
      var ps, qs := pageStack, posStack;
      var n: nat := sp;
      while n != 0 && qs[n - 1] + 1 > NKeys(ps[n - 1])
        invariant Climbed(ps, qs, n, height, G, from)
        invariant |pageStack| == height && |posStack| == height
        decreases n
      {
        ClimbPop(ps, qs, n, height, G, from);
        n := n - 1;
      }
      if n == 0 {
        ClimbEnd(pageStack, posStack, height, end, from, till, G);
        sp := 0;
      } else {
        var p := ps[n - 1];
        var q := qs[n - 1] + 1;
        ClimbMove(ps, qs, n, height, q, G, from);
        pageStack, posStack, sp := ps, qs[n - 1 := q], n;
        Dive(p, q, G);
      }
    }

    /** The do-while of gotoNextItem: push the leftmost path from child q of p down to a leaf. */
    method Dive(p: Page, q: int, ghost G: seq<Item>)
      requires Turned(pageStack, posStack, sp, height, p, q, G, from)
      modifies this
      ensures Leads(G) && sp == height
    {
      var ps, qs, pg := DiveDown(pageStack, posStack, sp, height, p, q, G, from, till);
      pageStack, posStack, sp, end := ps, qs, height, |pg.items|;
    }
  }

  /**
   * The constructor's type check: a key type other than the tree's is an
   * error (null) when a bound is given; an empty tree gives an iterator
   * whatever the type.
   */
  method Open(tree: Btree, t: nat, from: Option<Bound>, till: Option<Bound>) returns (it: Iterator?)
    requires tree.Valid()
    ensures it == null <==> tree.height != 0 && t != tree.keyType && (from.Some? || till.Some?)
    ensures it != null ==> fresh(it) && it.Valid() && it.Pending() == Select(tree.Contents(), from, till)
  {
    if tree.height != 0 && t != tree.keyType && (from.Some? || till.Some?) {
      return null;
    }
    it := new Iterator(tree, t, from, till);
  }
}
