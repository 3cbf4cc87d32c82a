// Pages of the dybase B-tree as values (storage/dybase/src/btree.h,
// btree.cpp): a leaf holds sorted (key, oid) items, an inner page holds
// nItems separator keys and nItems + 1 child pages, the i-th key being the
// largest key of the i-th child. This module states that shape, the
// in-order entry sequence of a tree, and the binary search every page
// operation starts with.

module BtreeNode {
  import opened Bits
  import opened Codec
  import opened BtreeKey

  /** A page: the child references of an inner page are the child pages themselves. */
  datatype Page = Leaf(items: seq<Item>) | Inner(keys: seq<Key>, kids: seq<Page>)

  /** sizeof(charKey) / 2: a page whose records fill less than this has underflowed. */
  const HALF_SPACE: nat := 2044

  /**
   * One tree's parameters: whether its keys are unique, and the bytes one
   * record takes (the key plus its 32-bit oid): 5 for bool keys, 8 for
   * references and int keys, 12 for date, long and real keys, and the 8
   * bytes of one string slot on string pages.
   */
  datatype Conf = Conf(unique: bool, width: nat)

  predicate ConfOk(c: Conf)
  {
    c.width == 5 || c.width == 8 || c.width == 12
  }

  /** The `max` of a page: how many records fit in sizeof(charKey). */
  function Cap(c: Conf): nat
  {
    if c.width == 0 then 0 else KEY_SPACE / c.width
  }

  /** n records fit in a page exactly when n * width bytes fit in sizeof(charKey). */
  lemma {:induction false} CapFits(c: Conf, n: int)
    requires ConfOk(c)
    ensures n <= Cap(c) <==> n * c.width <= KEY_SPACE
  {
    if c.width == 5 {
      assert Cap(c) == 817;
    } else if c.width == 8 {
      assert Cap(c) == 511;
    } else {
      assert Cap(c) == 340;
    }
  }

  lemma {:induction false} CapBounds(c: Conf)
    requires ConfOk(c)
    ensures 340 <= Cap(c) <= 817
  {
    CapFits(c, 340);
    CapFits(c, 818);
  }

  /** Records a page counts against its size: items of a leaf, children of an inner page. */
  function Count(p: Page): nat
  {
    if p.Leaf? then |p.items| else |p.kids|
  }

  /** nItems: items of a leaf, separator keys of an inner page. */
  function NKeys(p: Page): nat
  {
    if p.Leaf? then |p.items| else |p.keys|
  }

  /** KEY[i] of the page. */
  function KeyAt(p: Page, i: nat): Key
    requires i < NKeys(p)
  {
    if p.Leaf? then p.items[i].key else p.keys[i]
  }

  /** The page has underflowed: its records fill less than half of it. */
  predicate Underfull(p: Page, c: Conf)
  {
    Count(p) * c.width < HALF_SPACE
  }

  /**
   * A page as it stands in a tree between operations: a leaf with at least
   * one item, an inner page with at least one separator.
   */
  predicate NonEmpty(p: Page)
  {
    if p.Leaf? then |p.items| > 0 else |p.kids| > 1
  }

  // ---------------------------------------------------------------------
  // Shape

  /** The order between neighbouring keys: strict in a unique index. */
  ghost predicate Rel(unique: bool, a: Key, b: Key)
  {
    if unique then Lt(a, b) else Le(a, b)
  }

  /** Every key of a subtree comes after the separator to its left. */
  ghost predicate AboveLo(unique: bool, lo: Option<Key>, k: Key)
  {
    lo.None? || Rel(unique, lo.value, k)
  }

  /** Every entry of a subtree is at most the separator to its right. */
  ghost predicate BelowHi(hi: Option<Key>, k: Key)
  {
    hi.None? || Le(k, hi.value)
  }

  /** A separator inside a subtree comes before the separator to its right. */
  ghost predicate SepBelowHi(unique: bool, hi: Option<Key>, k: Key)
  {
    hi.None? || Rel(unique, k, hi.value)
  }

  ghost predicate SortedItems(s: seq<Item>, unique: bool)
  {
    forall i, j | 0 <= i < j < |s| :: Rel(unique, s[i].key, s[j].key)
  }

  ghost predicate SortedKeys(s: seq<Key>, unique: bool)
  {
    forall i, j | 0 <= i < j < |s| :: Rel(unique, s[i], s[j])
  }

  ghost predicate ItemsIn(s: seq<Item>, unique: bool, lo: Option<Key>, hi: Option<Key>)
  {
    forall i | 0 <= i < |s| :: AboveLo(unique, lo, s[i].key) && BelowHi(hi, s[i].key)
  }

  ghost predicate KeysIn(s: seq<Key>, unique: bool, lo: Option<Key>, hi: Option<Key>)
  {
    forall i | 0 <= i < |s| :: AboveLo(unique, lo, s[i]) && SepBelowHi(unique, hi, s[i])
  }

  /** The lower bound of child i: the separator before it. */
  function LoOf(keys: seq<Key>, lo: Option<Key>, i: nat): Option<Key>
    requires i <= |keys|
  {
    if i == 0 then lo else Some(keys[i - 1])
  }

  /** The upper bound of child i: its own separator. */
  function HiOf(keys: seq<Key>, hi: Option<Key>, i: nat): Option<Key>
    requires i <= |keys|
  {
    if i == |keys| then hi else Some(keys[i])
  }

  ghost predicate LeafShape(items: seq<Item>, unique: bool, lo: Option<Key>, hi: Option<Key>)
  {
    SortedItems(items, unique) && ItemsIn(items, unique, lo, hi)
  }

  /** The separators of an inner page: in order and within the page's bounds. */
  ghost predicate KeysOk(keys: seq<Key>, unique: bool, lo: Option<Key>, hi: Option<Key>)
  {
    SortedKeys(keys, unique) && KeysIn(keys, unique, lo, hi)
  }

  /** The children of an inner page of height h: each a well-formed page between its separators. */
  ghost predicate KidsOk(keys: seq<Key>, kids: seq<Page>, h: int, lo: Option<Key>, hi: Option<Key>, c: Conf)
    requires |kids| == |keys| + 1
    decreases kids, 0
  {
    forall i | 0 <= i < |kids| :: Kid(kids[i], h - 1, LoOf(keys, lo, i), HiOf(keys, hi, i), c)
  }

  /** An inner page of height h with bounds lo, hi, not counting its capacity. */
  ghost predicate InnerShape(keys: seq<Key>, kids: seq<Page>, h: int, lo: Option<Key>, hi: Option<Key>, c: Conf)
    decreases kids, 1
  {
    h > 1 && |kids| == |keys| + 1 && KeysOk(keys, c.unique, lo, hi) && KidsOk(keys, kids, h, lo, hi, c)
  }

  /** A child page: well formed and not an empty leaf. */
  ghost predicate Kid(p: Page, h: int, lo: Option<Key>, hi: Option<Key>, c: Conf)
    decreases p, 1
  {
    NonEmpty(p) && Node(p, h, lo, hi, c)
  }

  /**
   * A page of height h (leaves have height 1) whose keys lie between the
   * separators lo and hi: sorted, within bounds, every child of the same
   * height minus one, no more records than fit.
   */
  ghost predicate Node(p: Page, h: int, lo: Option<Key>, hi: Option<Key>, c: Conf)
    decreases p, 0
  {
    match p
    case Leaf(items) => h == 1 && |items| <= Cap(c) && LeafShape(items, c.unique, lo, hi)
    case Inner(keys, kids) => |kids| <= Cap(c) && InnerShape(keys, kids, h, lo, hi, c)
  }

  /** What a well-formed inner page states about its own fields. */
  lemma {:induction false} InnerFacts(keys: seq<Key>, kids: seq<Page>, h: int, lo: Option<Key>, hi: Option<Key>, c: Conf)
    requires Node(Inner(keys, kids), h, lo, hi, c)
    ensures InnerShape(keys, kids, h, lo, hi, c) && |kids| <= Cap(c)
    ensures h > 1 && |kids| == |keys| + 1 && KeysOk(keys, c.unique, lo, hi)
  {
  }

  /** An inner page in shape with at least two and at most max children is a child page. */
  lemma {:induction false} InnerKid(keys: seq<Key>, kids: seq<Page>, h: int, lo: Option<Key>, hi: Option<Key>, c: Conf)
    requires InnerShape(keys, kids, h, lo, hi, c) && 1 < |kids| <= Cap(c)
    ensures Kid(Inner(keys, kids), h, lo, hi, c)
  {
    assert Node(Inner(keys, kids), h, lo, hi, c);
  }

  /** An inner page in shape with at most max children is well formed. */
  lemma {:induction false} InnerNode(keys: seq<Key>, kids: seq<Page>, h: int, lo: Option<Key>, hi: Option<Key>, c: Conf)
    requires InnerShape(keys, kids, h, lo, hi, c) && |kids| <= Cap(c)
    ensures Node(Inner(keys, kids), h, lo, hi, c)
  {
  }

  lemma {:induction false} KidAt(keys: seq<Key>, kids: seq<Page>, h: int, lo: Option<Key>, hi: Option<Key>, c: Conf, i: nat)
    requires InnerShape(keys, kids, h, lo, hi, c) && i < |kids|
    ensures Kid(kids[i], h - 1, LoOf(keys, lo, i), HiOf(keys, hi, i), c)
  {
  }

  // ---------------------------------------------------------------------
  // Entries

  /** The items of a tree in key order. */
  ghost function Entries(p: Page): seq<Item>
    decreases p
  {
    match p
    case Leaf(items) => items
    case Inner(_, kids) => Flatten(kids)
  }

  ghost function Flatten(ps: seq<Page>): seq<Item>
    decreases ps
  {
    if ps == [] then [] else Flatten(ps[..|ps| - 1]) + Entries(ps[|ps| - 1])
  }

  lemma {:induction false} FlattenAppend(a: seq<Page>, b: seq<Page>)
    ensures Flatten(a + b) == Flatten(a) + Flatten(b)
    decreases |b|
  {
    if b != [] {
      var b' := b[..|b| - 1];
      assert (a + b)[..|a + b| - 1] == a + b';
      assert (a + b)[|a + b| - 1] == b[|b| - 1];
      FlattenAppend(a, b');
    } else {
      assert a + b == a;
    }
  }

  lemma {:induction false} FlattenOne(p: Page)
    ensures Flatten([p]) == Entries(p)
  {
    assert [p][..0] == [];
  }

  /** The entries of a page sequence around its i-th page. */
  lemma {:induction false} FlattenAt(ps: seq<Page>, i: nat)
    requires i < |ps|
    ensures Flatten(ps) == Flatten(ps[..i]) + Entries(ps[i]) + Flatten(ps[i + 1..])
  {
    assert ps == ps[..i] + [ps[i]] + ps[i + 1..];
    FlattenAppend(ps[..i] + [ps[i]], ps[i + 1..]);
    FlattenAppend(ps[..i], [ps[i]]);
    FlattenOne(ps[i]);
  }

  /** The entries around the i-th page, the page replaced by a sequence of pages. */
  lemma {:induction false} FlattenSplice(ps: seq<Page>, i: nat, qs: seq<Page>)
    requires i < |ps|
    ensures Flatten(ps[..i] + qs + ps[i + 1..]) == Flatten(ps[..i]) + Flatten(qs) + Flatten(ps[i + 1..])
  {
    FlattenAppend(ps[..i] + qs, ps[i + 1..]);
    FlattenAppend(ps[..i], qs);
  }

  lemma {:induction false} FlattenTwo(p: Page, q: Page)
    ensures Flatten([p, q]) == Entries(p) + Entries(q)
  {
    assert [p, q] == [p] + [q];
    FlattenAppend([p], [q]);
    FlattenOne(p);
    FlattenOne(q);
  }

  // ---------------------------------------------------------------------
  // Every entry of a subtree lies within its bounds

  ghost predicate EntriesIn(s: seq<Item>, unique: bool, lo: Option<Key>, hi: Option<Key>)
  {
    forall i | 0 <= i < |s| :: AboveLo(unique, lo, s[i].key) && BelowHi(hi, s[i].key)
  }

  lemma {:induction false} AboveLoWeaken(unique: bool, lo: Option<Key>, lo': Option<Key>, k: Key)
    requires lo'.None? || (lo.Some? && Le(lo'.value, lo.value))
    requires AboveLo(unique, lo, k)
    ensures AboveLo(unique, lo', k)
  {
    if lo'.Some? {
      LeTrans(lo'.value, lo.value, k);
    }
  }

  lemma {:induction false} BelowHiWeaken(hi: Option<Key>, hi': Option<Key>, k: Key)
    requires hi'.None? || (hi.Some? && Le(hi.value, hi'.value))
    requires BelowHi(hi, k)
    ensures BelowHi(hi', k)
  {
    if hi'.Some? {
      LeTrans(k, hi.value, hi'.value);
    }
  }

  lemma {:induction false} EntriesInAppend(s: seq<Item>, t: seq<Item>, unique: bool, lo: Option<Key>, hi: Option<Key>)
    requires EntriesIn(s, unique, lo, hi) && EntriesIn(t, unique, lo, hi)
    ensures EntriesIn(s + t, unique, lo, hi)
  {
    forall i | 0 <= i < |s + t|
      ensures AboveLo(unique, lo, (s + t)[i].key) && BelowHi(hi, (s + t)[i].key)
    {
      if i >= |s| {
        assert (s + t)[i] == t[i - |s|];
      } else {
        assert (s + t)[i] == s[i];
      }
    }
  }

  /** The bounds of a child lie within the bounds of its parent. */
  lemma {:induction false} ChildBounds(keys: seq<Key>, unique: bool, lo: Option<Key>, hi: Option<Key>, i: nat)
    requires i <= |keys|
    requires KeysIn(keys, unique, lo, hi)
    ensures LoOf(keys, lo, i).None? ==> lo.None?
    ensures lo.Some? && LoOf(keys, lo, i).Some? ==> Le(lo.value, LoOf(keys, lo, i).value)
    ensures HiOf(keys, hi, i).None? ==> hi.None?
    ensures hi.Some? && HiOf(keys, hi, i).Some? ==> Le(HiOf(keys, hi, i).value, hi.value)
  {
  }

  /** Every entry of a well-formed page lies within the page's bounds. */
  lemma {:induction false} NodeEntriesIn(p: Page, h: nat, lo: Option<Key>, hi: Option<Key>, c: Conf)
    requires Node(p, h, lo, hi, c)
    ensures EntriesIn(Entries(p), c.unique, lo, hi)
    decreases p, 0
  {
    if p.Inner? {
      KidsEntriesIn(p.keys, p.kids, |p.kids|, h, lo, hi, c);
      assert p.kids[..|p.kids|] == p.kids;
    }
  }

  lemma {:induction false} KidsEntriesIn(keys: seq<Key>, kids: seq<Page>, n: nat, h: nat, lo: Option<Key>, hi: Option<Key>, c: Conf)
    requires InnerShape(keys, kids, h, lo, hi, c) && n <= |kids|
    ensures EntriesIn(Flatten(kids[..n]), c.unique, lo, hi)
    decreases kids, n
  {
    if n > 0 {
      var i := n - 1;
      assert kids[..n][..i] == kids[..i];
      KidsEntriesIn(keys, kids, i, h, lo, hi, c);
      var k := kids[i];
      assert Kid(k, h - 1, LoOf(keys, lo, i), HiOf(keys, hi, i), c);
      NodeEntriesIn(k, h - 1, LoOf(keys, lo, i), HiOf(keys, hi, i), c);
      var E := Entries(k);
      ChildBounds(keys, c.unique, lo, hi, i);
      forall j | 0 <= j < |E|
        ensures AboveLo(c.unique, lo, E[j].key) && BelowHi(hi, E[j].key)
      {
        AboveLoWeaken(c.unique, LoOf(keys, lo, i), lo, E[j].key);
        BelowHiWeaken(HiOf(keys, hi, i), hi, E[j].key);
      }
      EntriesInAppend(Flatten(kids[..i]), E, c.unique, lo, hi);
    }
  }

  // ---------------------------------------------------------------------
  // Binary search

  /** KEY[i] lies before k: strictly, or also when equal to k if `past` is set. */
  ghost predicate Before(a: Key, k: Key, past: bool)
  {
    Lt(a, k) || (past && a == k)
  }

  /** The keys of the page are in order (not necessarily strict). */
  ghost predicate KeysSorted(p: Page)
  {
    forall i, j | 0 <= i < j < NKeys(p) :: Le(KeyAt(p, i), KeyAt(p, j))
  }

  lemma {:induction false} NodeKeysSorted(p: Page, h: nat, lo: Option<Key>, hi: Option<Key>, c: Conf)
    requires Node(p, h, lo, hi, c)
    ensures KeysSorted(p)
  {
  }

  lemma {:induction false} BeforeDown(a: Key, b: Key, k: Key, past: bool)
    requires Le(a, b) && Before(b, k, past)
    ensures Before(a, k, past)
  {
    if Lt(b, k) {
      LeTrans(a, b, k);
    } else if a != b {
      assert Lt(a, k);
    }
  }

  lemma {:induction false} NotBeforeUp(a: Key, b: Key, k: Key, past: bool)
    requires Le(a, b) && !Before(a, k, past)
    ensures !Before(b, k, past)
  {
    if Before(b, k, past) {
      BeforeDown(a, b, k, past);
    }
  }

  /**
   * The binary search of dbBtreePage::find, insert and remove:
   * the first position whose key does not lie before k.
   */
  method Search(p: Page, k: Key, past: bool) returns (r: nat)
    requires KeysSorted(p)
    ensures r <= NKeys(p)
    ensures forall i | 0 <= i < r :: Before(KeyAt(p, i), k, past)
    ensures forall i | r <= i < NKeys(p) :: !Before(KeyAt(p, i), k, past)
  {
    var l: nat := 0;
    r := NKeys(p);
    while l < r
      invariant l <= r <= NKeys(p)
      invariant forall i | 0 <= i < l :: Before(KeyAt(p, i), k, past)
      invariant forall i | r <= i < NKeys(p) :: !Before(KeyAt(p, i), k, past)
      decreases r - l
    {
      var i := (l + r) / 2;
      var d := Cmp(k, KeyAt(p, i));
      CmpOrder(k, KeyAt(p, i));
      if d > 0 || (d == 0 && past) {
        forall j | 0 <= j <= i
          ensures Before(KeyAt(p, j), k, past)
        {
          if j < i {
            BeforeDown(KeyAt(p, j), KeyAt(p, i), k, past);
          }
        }
        l := i + 1;
      } else {
        NotLt(k, KeyAt(p, i));
        LtAsym(KeyAt(p, i), k);
        forall j | i <= j < NKeys(p)
          ensures !Before(KeyAt(p, j), k, past)
        {
          if i < j {
            NotBeforeUp(KeyAt(p, i), KeyAt(p, j), k, past);
          }
        }
        r := i;
      }
    }
  }
}
