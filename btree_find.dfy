// dbBtreePage::find and the FIND macro (storage/dybase/src/btree.cpp): a
// range search that appends to the search context's selection the oids of
// all items whose keys lie between the low and the high bound, in key
// order, and stops as soon as it meets a key past the high bound.

module BtreeFind {
  import opened Codec
  import opened BtreeKey
  import opened BtreeNode
  import opened BtreeShape

  /** A bound of a key range: the key and whether the range includes it. */
  datatype Bound = Bound(key: Key, inclusive: bool)

  /** dbSearchContext: the optional bounds, the key type and the selection the search fills. */
  class SearchContext {
    const low: Option<Bound>
    const high: Option<Bound>
    var keyType: nat
    var selection: seq<Oid>

    constructor (keyType: nat, low: Option<Bound>, high: Option<Bound>)
      ensures this.keyType == keyType && this.low == low && this.high == high && selection == []
    {
      this.keyType := keyType;
      this.low := low;
      this.high := high;
      selection := [];
    }
  }

  /** k lies past the upper bound b: CHECK(k, high, highInclusive). */
  ghost predicate Past(b: Bound, k: Key)
  {
    Lt(b.key, k) || (!b.inclusive && k == b.key)
  }

  /** k does not lie before the lower bound. */
  ghost predicate FromLow(low: Option<Bound>, k: Key)
  {
    low.None? || Lt(low.value.key, k) || (low.value.inclusive && k == low.value.key)
  }

  ghost predicate InRange(low: Option<Bound>, high: Option<Bound>, k: Key)
  {
    FromLow(low, k) && (high.None? || !Past(high.value, k))
  }

  /** The oid of an entry when its key is in range. */
  ghost function Picked(e: Item, low: Option<Bound>, high: Option<Bound>): seq<Oid>
  {
    if InRange(low, high, e.key) then [e.oid] else []
  }

  /** The oids of the first n entries in range, in order. */
  ghost function SelectPrefix(E: seq<Item>, n: nat, low: Option<Bound>, high: Option<Bound>): seq<Oid>
    requires n <= |E|
    decreases n
  {
    if n == 0 then [] else SelectPrefix(E, n - 1, low, high) + Picked(E[n - 1], low, high)
  }

  /** The oids of the entries in range, in order. */
  ghost function Select(E: seq<Item>, low: Option<Bound>, high: Option<Bound>): seq<Oid>
  {
    SelectPrefix(E, |E|, low, high)
  }

  // ---------------------------------------------------------------------
  // Selection lemmas

  lemma {:induction false} Assoc(a: seq<Oid>, b: seq<Oid>, c: seq<Oid>)
    ensures (a + b) + c == a + (b + c)
  {
  }

  /** Appending entries leaves the selection of a prefix unchanged. */
  lemma {:induction false} SelectPrefixAppend(A: seq<Item>, B: seq<Item>, n: nat, low: Option<Bound>, high: Option<Bound>)
    requires n <= |A|
    ensures SelectPrefix(A + B, n, low, high) == SelectPrefix(A, n, low, high)
    decreases n
  {
    if n > 0 {
      assert (A + B)[n - 1] == A[n - 1];
      SelectPrefixAppend(A, B, n - 1, low, high);
    }
  }

  lemma {:induction false} SelectAppendAt(A: seq<Item>, B: seq<Item>, m: nat, low: Option<Bound>, high: Option<Bound>)
    requires m <= |B|
    ensures SelectPrefix(A + B, |A| + m, low, high) == Select(A, low, high) + SelectPrefix(B, m, low, high)
    decreases m
  {
    if m == 0 {
      SelectPrefixAppend(A, B, |A|, low, high);
    } else {
      assert (A + B)[|A| + m - 1] == B[m - 1];
      SelectAppendAt(A, B, m - 1, low, high);
      Assoc(Select(A, low, high), SelectPrefix(B, m - 1, low, high), Picked(B[m - 1], low, high));
    }
  }

  lemma {:induction false} SelectAppend(A: seq<Item>, B: seq<Item>, low: Option<Bound>, high: Option<Bound>)
    ensures Select(A + B, low, high) == Select(A, low, high) + Select(B, low, high)
  {
    SelectAppendAt(A, B, |B|, low, high);
  }

  /** Entries out of range before position n: nothing of the first n is selected. */
  lemma {:induction false} SelectPrefixNone(E: seq<Item>, n: nat, low: Option<Bound>, high: Option<Bound>)
    requires n <= |E|
    requires forall i | 0 <= i < n :: !InRange(low, high, E[i].key)
    ensures SelectPrefix(E, n, low, high) == []
    decreases n
  {
    if n > 0 {
      SelectPrefixNone(E, n - 1, low, high);
    }
  }

  /** Entries out of range from position n on: the first n hold the whole selection. */
  lemma {:induction false} SelectPrefixRest(E: seq<Item>, n: nat, m: nat, low: Option<Bound>, high: Option<Bound>)
    requires n <= m <= |E|
    requires forall i | n <= i < |E| :: !InRange(low, high, E[i].key)
    ensures SelectPrefix(E, m, low, high) == SelectPrefix(E, n, low, high)
    decreases m
  {
    if m > n {
      SelectPrefixRest(E, n, m - 1, low, high);
    }
  }

  lemma {:induction false} SelectNone(E: seq<Item>, low: Option<Bound>, high: Option<Bound>)
    requires forall i | 0 <= i < |E| :: !InRange(low, high, E[i].key)
    ensures Select(E, low, high) == []
  {
    SelectPrefixNone(E, |E|, low, high);
  }

  /** Past the bound is preserved upwards in the key order. */
  lemma {:induction false} PastUp(b: Bound, k: Key, k': Key)
    requires Past(b, k) && Le(k, k')
    ensures Past(b, k')
  {
    if Lt(b.key, k) {
      LeTrans(b.key, k, k');
    } else if k != k' {
      assert Lt(b.key, k');
    }
  }

  /** Before the low bound is preserved downwards. */
  lemma {:induction false} BeforeLowDown(low: Bound, k: Key, k': Key)
    requires Before(k, low.key, !low.inclusive) && Le(k', k)
    ensures !FromLow(Some(low), k')
  {
    BeforeDown(k', k, low.key, !low.inclusive);
    LtAsym(k', low.key);
    if !low.inclusive && k' == low.key {
      LtIrreflexive(k');
    }
  }

  // ---------------------------------------------------------------------
  // Leaves

  /** The items before the search's position are below the low bound. */
  lemma {:induction false} LeafStart(items: seq<Item>, l: nat, low: Bound, high: Option<Bound>)
    requires l <= |items|
    requires forall i | 0 <= i < l :: Before(KeyAt(Leaf(items), i), low.key, !low.inclusive)
    ensures SelectPrefix(items, l, Some(low), high) == []
  {
    forall i | 0 <= i < l
      ensures !InRange(Some(low), high, items[i].key)
    {
      assert KeyAt(Leaf(items), i) == items[i].key;
      BeforeLowDown(low, items[i].key, items[i].key);
    }
    SelectPrefixNone(items, l, Some(low), high);
  }

  /** Every key of the page is at most hi. */
  ghost predicate KeysBelow(p: Page, hi: Option<Key>)
  {
    forall i | 0 <= i < NKeys(p) :: BelowHi(hi, KeyAt(p, i))
  }

  /** What the leaf search needs of a well-formed leaf: its keys in order and below its upper bound. */
  lemma {:induction false} LeafKeysFacts(items: seq<Item>, c: Conf, lo: Option<Key>, hi: Option<Key>)
    requires Kid(Leaf(items), 1, lo, hi, c)
    ensures KeysSorted(Leaf(items)) && KeysBelow(Leaf(items), hi)
  {
    NodeKeysSorted(Leaf(items), 1, lo, hi, c);
  }

  /** From an item past the high bound on, nothing of a sorted leaf is selected, nor anything after the leaf. */
  lemma {:induction false} LeafPast(items: seq<Item>, hi: Option<Key>, l: nat, low: Option<Bound>, high: Bound)
    requires KeysSorted(Leaf(items)) && KeysBelow(Leaf(items), hi)
    requires l < |items| && Past(high, items[l].key)
    ensures Select(items, low, Some(high)) == SelectPrefix(items, l, low, Some(high))
    ensures hi.None? || Past(high, hi.value)
  {
    var p := Leaf(items);
    assert KeyAt(p, l) == items[l].key;
    forall i | l <= i < |items|
      ensures !InRange(low, Some(high), items[i].key)
    {
      if i > l {
        assert KeyAt(p, i) == items[i].key;
        PastUp(high, items[l].key, items[i].key);
      }
    }
    SelectPrefixRest(items, l, |items|, low, Some(high));
    if hi.Some? {
      PastUp(high, items[l].key, hi.value);
    }
  }

  /** An item at or after the search's position for the low bound is not below it. */
  lemma {:induction false} NotBeforeFrom(low: Bound, k: Key)
    requires !Before(k, low.key, !low.inclusive)
    ensures FromLow(Some(low), k)
  {
    NotLt(k, low.key);
  }

  /** CHECK(k, high, highInclusive) on the three-way comparison: k lies past the bound. */
  function PastBound(k: Key, b: Bound): (r: bool)
    ensures r <==> Past(b, k)
  {
    CmpOrder(k, b.key);
    Cmp(k, b.key) > 0 || (Cmp(k, b.key) == 0 && !b.inclusive)
  }

  /** The position the low bound leads to: nothing before it is selected, everything from it on is not below the bound. */
  method LowStart(p: Page, sc: SearchContext) returns (l: nat)
    requires KeysSorted(p)
    ensures l <= NKeys(p)
    ensures sc.low.Some? ==> forall i | 0 <= i < l :: Before(KeyAt(p, i), sc.low.value.key, !sc.low.value.inclusive)
    ensures forall i | l <= i < NKeys(p) :: FromLow(sc.low, KeyAt(p, i))
    ensures sc.low.None? ==> l == 0
  {
    l := 0;
    if sc.low.Some? {
      var b := sc.low.value;
      l := Search(p, b.key, !b.inclusive);
      forall i | l <= i < NKeys(p)
        ensures FromLow(sc.low, KeyAt(p, i))
      {
        NotBeforeFrom(b, KeyAt(p, i));
      }
    }
  }

  /** Adding the oid of an item in range extends the selection by one more item. */
  lemma {:induction false} LeafStep(base: seq<Oid>, sel: seq<Oid>, items: seq<Item>, l0: nat, l: nat,
                                    low: Option<Bound>, high: Option<Bound>)
    requires l0 <= l < |items| && sel == base + SelectPrefix(items, l, low, high)
    requires forall i | l0 <= i < NKeys(Leaf(items)) :: FromLow(low, KeyAt(Leaf(items), i))
    requires high.None? || !Past(high.value, items[l].key)
    ensures sel + [items[l].oid] == base + SelectPrefix(items, l + 1, low, high)
  {
    assert KeyAt(Leaf(items), l) == items[l].key;
    Assoc(base, SelectPrefix(items, l, low, high), [items[l].oid]);
  }

  method FindLeaf(items: seq<Item>, sc: SearchContext, ghost hi: Option<Key>)
    returns (more: bool)
    requires KeysSorted(Leaf(items)) && KeysBelow(Leaf(items), hi)
    modifies sc
    ensures sc.keyType == old(sc.keyType)
    ensures sc.selection == old(sc.selection) + Select(items, sc.low, sc.high)
    ensures !more ==> sc.high.Some? && (hi.None? || Past(sc.high.value, hi.value))
  {
    var p := Leaf(items);
    var l := LowStart(p, sc);
    if sc.low.Some? {
      LeafStart(items, l, sc.low.value, sc.high);
    }
    ghost var base, l0 := old(sc.selection), l;
    while l < |items|
      invariant l0 <= l <= |items|
      invariant sc.keyType == old(sc.keyType)
      invariant sc.selection == base + SelectPrefix(items, l, sc.low, sc.high)
      decreases |items| - l
    {
      if sc.high.Some? && PastBound(items[l].key, sc.high.value) {
        LeafPast(items, hi, l, sc.low, sc.high.value);
        return false;
      }
      LeafStep(base, sc.selection, items, l0, l, sc.low, sc.high);
      sc.selection := sc.selection + [items[l].oid];
      l := l + 1;
    }
    more := true;
  }

  // ---------------------------------------------------------------------
  // Inner pages

  /** The oids in range of the first n children, in order. */
  ghost function SelectKids(kids: seq<Page>, n: nat, low: Option<Bound>, high: Option<Bound>): seq<Oid>
    requires n <= |kids|
    decreases n
  {
    if n == 0 then [] else SelectKids(kids, n - 1, low, high) + Select(Entries(kids[n - 1]), low, high)
  }

  /** Child by child, the selection of a page's entries. */
  lemma {:induction false} SelectFlatten(kids: seq<Page>, n: nat, low: Option<Bound>, high: Option<Bound>)
    requires n <= |kids|
    ensures Select(Flatten(kids[..n]), low, high) == SelectKids(kids, n, low, high)
    decreases n
  {
    if n == 0 {
      assert kids[..n] == [];
    } else {
      assert kids[..n][..n - 1] == kids[..n - 1];
      SelectAppend(Flatten(kids[..n - 1]), Entries(kids[n - 1]), low, high);
      SelectFlatten(kids, n - 1, low, high);
    }
  }

  lemma {:induction false} SelectAll(kids: seq<Page>, low: Option<Bound>, high: Option<Bound>)
    ensures Select(Flatten(kids), low, high) == SelectKids(kids, |kids|, low, high)
  {
    assert kids[..|kids|] == kids;
    SelectFlatten(kids, |kids|, low, high);
  }

  lemma {:induction false} KidsNone(kids: seq<Page>, n: nat, low: Option<Bound>, high: Option<Bound>)
    requires n <= |kids|
    requires forall i | 0 <= i < n :: Select(Entries(kids[i]), low, high) == []
    ensures SelectKids(kids, n, low, high) == []
    decreases n
  {
    if n > 0 {
      KidsNone(kids, n - 1, low, high);
    }
  }

  lemma {:induction false} KidsRest(kids: seq<Page>, n: nat, m: nat, low: Option<Bound>, high: Option<Bound>)
    requires n <= m <= |kids|
    requires forall i | n <= i < |kids| :: Select(Entries(kids[i]), low, high) == []
    ensures SelectKids(kids, m, low, high) == SelectKids(kids, n, low, high)
    decreases m
  {
    if m > n {
      KidsRest(kids, n, m - 1, low, high);
    }
  }

  /** The selection after visiting child l, given the selection before it. */
  lemma {:induction false} KidStep(base: seq<Oid>, before: seq<Oid>, after: seq<Oid>, kids: seq<Page>, l: nat,
                                   low: Option<Bound>, high: Option<Bound>)
    requires l < |kids|
    requires before == base + SelectKids(kids, l, low, high)
    requires after == before + Select(Entries(kids[l]), low, high)
    ensures after == base + SelectKids(kids, l + 1, low, high)
  {
    Assoc(base, SelectKids(kids, l, low, high), Select(Entries(kids[l]), low, high));
  }

  /** Once the first n children hold the whole selection, the search of the page is complete. */
  lemma {:induction false} Finish(base: seq<Oid>, sel: seq<Oid>, kids: seq<Page>, n: nat, low: Option<Bound>, high: Option<Bound>)
    requires n <= |kids|
    requires sel == base + SelectKids(kids, n, low, high)
    requires SelectKids(kids, |kids|, low, high) == SelectKids(kids, n, low, high)
    ensures sel == base + Select(Flatten(kids), low, high)
  {
    SelectAll(kids, low, high);
  }

  /** A child left of a separator before the low bound holds nothing in range. */
  lemma {:induction false} KidBelow(keys: seq<Key>, kids: seq<Page>, h: int, lo: Option<Key>, hi: Option<Key>, c: Conf,
                                    i: nat, low: Bound, high: Option<Bound>)
    requires InnerShape(keys, kids, h, lo, hi, c) && i < |keys|
    requires Before(keys[i], low.key, !low.inclusive)
    ensures Select(Entries(kids[i]), Some(low), high) == []
  {
    KidAt(keys, kids, h, lo, hi, c, i);
    NodeEntriesIn(kids[i], h - 1, LoOf(keys, lo, i), HiOf(keys, hi, i), c);
    var E := Entries(kids[i]);
    forall j | 0 <= j < |E|
      ensures !InRange(Some(low), high, E[j].key)
    {
      BeforeLowDown(low, keys[i], E[j].key);
    }
    SelectNone(E, Some(low), high);
  }

  /** A child right of a separator past the high bound holds nothing in range. */
  lemma {:induction false} KidAbove(keys: seq<Key>, kids: seq<Page>, h: int, lo: Option<Key>, hi: Option<Key>, c: Conf,
                                    i: nat, low: Option<Bound>, high: Bound)
    requires InnerShape(keys, kids, h, lo, hi, c) && 0 < i < |kids|
    requires Past(high, keys[i - 1])
    ensures Select(Entries(kids[i]), low, Some(high)) == []
  {
    KidAt(keys, kids, h, lo, hi, c, i);
    NodeEntriesIn(kids[i], h - 1, LoOf(keys, lo, i), HiOf(keys, hi, i), c);
    var E := Entries(kids[i]);
    forall j | 0 <= j < |E|
      ensures !InRange(low, Some(high), E[j].key)
    {
      RelLe(c.unique, keys[i - 1], E[j].key);
      PastUp(high, keys[i - 1], E[j].key);
    }
    SelectNone(E, low, Some(high));
  }

  /** The children before the search's position hold nothing at or above the low bound. */
  lemma {:induction false} InnerStart(keys: seq<Key>, kids: seq<Page>, h: int, lo: Option<Key>, hi: Option<Key>, c: Conf,
                                      l: nat, low: Bound, high: Option<Bound>)
    requires Kid(Inner(keys, kids), h, lo, hi, c) && |kids| == |keys| + 1 && l <= |keys|
    requires forall i | 0 <= i < l :: Before(KeyAt(Inner(keys, kids), i), low.key, !low.inclusive)
    ensures SelectKids(kids, l, Some(low), high) == []
  {
    InnerFacts(keys, kids, h, lo, hi, c);
    forall i | 0 <= i < l
      ensures Select(Entries(kids[i]), Some(low), high) == []
    {
      assert KeyAt(Inner(keys, kids), i) == keys[i];
      KidBelow(keys, kids, h, lo, hi, c, i, low, high);
    }
    KidsNone(kids, l, Some(low), high);
  }

  /** After a separator past the high bound: no later child holds anything in range, and the page's own upper bound lies past it. */
  lemma {:induction false} InnerPast(keys: seq<Key>, kids: seq<Page>, h: int, lo: Option<Key>, hi: Option<Key>, c: Conf,
                                     j: nat, low: Option<Bound>, high: Bound)
    requires InnerShape(keys, kids, h, lo, hi, c) && j < |keys| && Past(high, keys[j])
    ensures SelectKids(kids, |kids|, low, Some(high)) == SelectKids(kids, j + 1, low, Some(high))
    ensures hi.None? || Past(high, hi.value)
  {
    forall i | j + 1 <= i < |kids|
      ensures Select(Entries(kids[i]), low, Some(high)) == []
    {
      if i - 1 > j {
        RelLe(c.unique, keys[j], keys[i - 1]);
        PastUp(high, keys[j], keys[i - 1]);
      }
      KidAbove(keys, kids, h, lo, hi, c, i, low, high);
    }
    KidsRest(kids, j + 1, |kids|, low, Some(high));
    if hi.Some? {
      RelLe(c.unique, keys[j], hi.value);
      PastUp(high, keys[j], hi.value);
    }
  }

  /** A child that stopped past the high bound ends the selection of its parent. */
  lemma {:induction false} ChildStop(keys: seq<Key>, kids: seq<Page>, h: int, lo: Option<Key>, hi: Option<Key>, c: Conf,
                                     l: nat, low: Option<Bound>, high: Bound)
    requires Kid(Inner(keys, kids), h, lo, hi, c) && |kids| == |keys| + 1 && l < |kids|
    requires HiOf(keys, hi, l).None? || Past(high, HiOf(keys, hi, l).value)
    ensures SelectKids(kids, |kids|, low, Some(high)) == SelectKids(kids, l + 1, low, Some(high))
    ensures hi.None? || Past(high, hi.value)
  {
    InnerFacts(keys, kids, h, lo, hi, c);
    if l < |keys| {
      InnerPast(keys, kids, h, lo, hi, c, l, low, high);
    }
  }

  /** A separator whose comparison with the high bound is positive ends the selection. */
  lemma {:induction false} SepStop(keys: seq<Key>, kids: seq<Page>, h: int, lo: Option<Key>, hi: Option<Key>, c: Conf,
                                   j: nat, low: Option<Bound>, high: Bound)
    requires Kid(Inner(keys, kids), h, lo, hi, c) && |kids| == |keys| + 1 && j < |keys| && Lt(high.key, keys[j])
    ensures SelectKids(kids, |kids|, low, Some(high)) == SelectKids(kids, j + 1, low, Some(high))
    ensures hi.None? || Past(high, hi.value)
  {
    InnerFacts(keys, kids, h, lo, hi, c);
    InnerPast(keys, kids, h, lo, hi, c, j, low, high);
  }

  lemma {:induction false} InnerLen(keys: seq<Key>, kids: seq<Page>, h: int, lo: Option<Key>, hi: Option<Key>, c: Conf)
    requires Kid(Inner(keys, kids), h, lo, hi, c)
    ensures |kids| == |keys| + 1 && h > 1
  {
    InnerFacts(keys, kids, h, lo, hi, c);
  }

  /**
   * The loop test of the inner page search: the child returned true,
   * there is a separator after it and it is not above the high bound (a
   * missing bound never stops the search).
   */
  method Continue(more: bool, keys: seq<Key>, l: nat, high: Option<Bound>) returns (go: bool)
    ensures go <==> more && l < |keys| && (high.None? || !Lt(high.value.key, keys[l]))
  {
    go := more && l < |keys|;
    if go && high.Some? {
      CmpOrder(keys[l], high.value.key);
      go := Cmp(keys[l], high.value.key) <= 0;
    }
  }

  /** One round of the inner page loop: search child l. */
  method Visit(keys: seq<Key>, kids: seq<Page>, l: nat, sc: SearchContext, ghost base: seq<Oid>, ghost h: int, ghost c: Conf,
               ghost lo: Option<Key>, ghost hi: Option<Key>)
    returns (more: bool)
    requires Kid(Inner(keys, kids), h, lo, hi, c) && |kids| == |keys| + 1 && l < |kids|
    requires sc.selection == base + SelectKids(kids, l, sc.low, sc.high)
    modifies sc
    ensures sc.keyType == old(sc.keyType)
    ensures sc.selection == base + SelectKids(kids, l + 1, sc.low, sc.high)
    ensures !more ==> sc.high.Some? && (HiOf(keys, hi, l).None? || Past(sc.high.value, HiOf(keys, hi, l).value))
    decreases kids, 0
  {
    InnerFacts(keys, kids, h, lo, hi, c);
    KidAt(keys, kids, h, lo, hi, c, l);
    ghost var before := sc.selection;
    more := FindPage(kids[l], sc, h - 1, c, LoOf(keys, lo, l), HiOf(keys, hi, l));
    KidStep(base, before, sc.selection, kids, l, sc.low, sc.high);
  }

  /**
   * The inner page case of the FIND macro: from the child the low bound
   * leads to, visit the children in order while each returns true and the
   * separator after it is not above the high bound.
   */
  method FindInner(keys: seq<Key>, kids: seq<Page>, sc: SearchContext, ghost h: int, ghost c: Conf,
                   ghost lo: Option<Key>, ghost hi: Option<Key>)
    returns (more: bool)
    requires Kid(Inner(keys, kids), h, lo, hi, c)
    modifies sc
    ensures sc.keyType == old(sc.keyType)
    ensures sc.selection == old(sc.selection) + Select(Flatten(kids), sc.low, sc.high)
    ensures !more ==> sc.high.Some? && (hi.None? || Past(sc.high.value, hi.value))
    decreases kids, 1
  {
    var p := Inner(keys, kids);
    InnerLen(keys, kids, h, lo, hi, c);
    NodeKeysSorted(p, h, lo, hi, c);
    var l := LowStart(p, sc);
    if sc.low.Some? {
      InnerStart(keys, kids, h, lo, hi, c, l, sc.low.value, sc.high);
    }
    ghost var base := old(sc.selection);
    more := Visit(keys, kids, l, sc, base, h, c, lo, hi);
    var go := Continue(more, keys, l, sc.high);
    while go
      invariant l < |kids|
      invariant sc.keyType == old(sc.keyType)
      invariant sc.selection == base + SelectKids(kids, l + 1, sc.low, sc.high)
      invariant !more ==> sc.high.Some? && (HiOf(keys, hi, l).None? || Past(sc.high.value, HiOf(keys, hi, l).value))
      invariant go <==> more && l < |keys| && (sc.high.None? || !Lt(sc.high.value.key, keys[l]))
      decreases |kids| - l
    {
      l := l + 1;
      more := Visit(keys, kids, l, sc, base, h, c, lo, hi);
      go := Continue(more, keys, l, sc.high);
    }
    if !more {
      ChildStop(keys, kids, h, lo, hi, c, l, sc.low, sc.high.value);
    } else if l < |keys| {
      SepStop(keys, kids, h, lo, hi, c, l, sc.low, sc.high.value);
      more := false;
    } else {
      assert l + 1 == |kids|;
    }
    Finish(base, sc.selection, kids, l + 1, sc.low, sc.high);
  }

  /** dbBtreePage::find: the selection grows by the page's entries in range. */
  method FindPage(p: Page, sc: SearchContext, ghost h: int, ghost c: Conf, ghost lo: Option<Key>, ghost hi: Option<Key>)
    returns (more: bool)
    requires Kid(p, h, lo, hi, c)
    modifies sc
    ensures sc.keyType == old(sc.keyType)
    ensures sc.selection == old(sc.selection) + Select(Entries(p), sc.low, sc.high)
    ensures !more ==> sc.high.Some? && (hi.None? || Past(sc.high.value, hi.value))
    decreases p, 2
  {
    match p
    case Leaf(items) =>
      LeafKeysFacts(items, c, lo, hi);
      more := FindLeaf(items, sc, hi);
    case Inner(keys, kids) =>
      more := FindInner(keys, kids, sc, h, c, lo, hi);
  }
}
