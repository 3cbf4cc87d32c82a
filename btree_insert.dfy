// dbBtreePage::insert on scalar pages (storage/dybase/src/btree.cpp, the
// INSERT macro): descend to the leaf the key belongs in, replace the oid of
// an equal key or refuse a duplicate, otherwise insert the item; a full page
// is divided in two and its lower half, with the half's largest key as the
// separator, is inserted into the parent.

module BtreeInsert {
  import opened Bits
  import opened Codec
  import opened BtreeKey
  import opened BtreeNode
  import opened BtreeShape

  /** dbBtree::done with the page's new contents, dbBtree::overflow with the two halves, or dbBtree::duplicate. */
  datatype Ins = Done(page: Page) | Split(left: Page, sep: Key, right: Page) | Duplicate

  /** The entries a result stands for. */
  ghost function Out(res: Ins): seq<Item>
  {
    match res
    case Done(q) => Entries(q)
    case Split(l, _, r) => Entries(l) + Entries(r)
    case Duplicate => []
  }

  /** The number of leading entries whose keys lie before k: where an item with key k goes. */
  ghost function Rank(E: seq<Item>, k: Key): (r: nat)
    ensures r <= |E|
    decreases |E|
  {
    if E == [] || !Lt(E[0].key, k) then 0 else 1 + Rank(E[1..], k)
  }

  /** The entry at k's position has key k. */
  ghost predicate Hit(E: seq<Item>, k: Key)
  {
    Rank(E, k) < |E| && E[Rank(E, k)].key == k
  }

  lemma {:induction false} RankFacts(E: seq<Item>, k: Key)
    ensures Rank(E, k) <= |E|
    ensures forall i | 0 <= i < Rank(E, k) :: Lt(E[i].key, k)
    ensures Rank(E, k) < |E| ==> !Lt(E[Rank(E, k)].key, k)
    decreases |E|
  {
    if E != [] && Lt(E[0].key, k) {
      RankFacts(E[1..], k);
      forall i | 0 <= i < Rank(E, k)
        ensures Lt(E[i].key, k)
      {
        if i > 0 {
          assert E[i] == E[1..][i - 1];
        }
      }
    }
  }

  /** The first r keys lie before k and the next does not: k's position is r. */
  lemma {:induction false} RankAt(E: seq<Item>, k: Key, r: nat)
    requires r <= |E|
    requires forall i | 0 <= i < r :: Lt(E[i].key, k)
    requires r < |E| ==> !Lt(E[r].key, k)
    ensures Rank(E, k) == r
    decreases r
  {
    if r > 0 {
      forall i | 0 <= i < r - 1
        ensures Lt(E[1..][i].key, k)
      {
        assert E[1..][i] == E[i + 1];
      }
      RankAt(E[1..], k, r - 1);
    }
  }

  lemma {:induction false} RankAfterBelow(A: seq<Item>, B: seq<Item>, k: Key)
    requires forall i | 0 <= i < |A| :: Lt(A[i].key, k)
    ensures Rank(A + B, k) == |A| + Rank(B, k)
    decreases |A|
  {
    if A == [] {
      assert A + B == B;
    } else {
      assert (A + B)[0] == A[0];
      assert (A + B)[1..] == A[1..] + B;
      forall i | 0 <= i < |A[1..]|
        ensures Lt(A[1..][i].key, k)
      {
        assert A[1..][i] == A[i + 1];
      }
      RankAfterBelow(A[1..], B, k);
    }
  }

  lemma {:induction false} RankPrefix(A: seq<Item>, B: seq<Item>, k: Key)
    requires Rank(A, k) < |A|
    ensures Rank(A + B, k) == Rank(A, k)
    decreases |A|
  {
    assert (A + B)[0] == A[0];
    if Lt(A[0].key, k) {
      assert (A + B)[1..] == A[1..] + B;
      RankPrefix(A[1..], B, k);
    }
  }

  /**
   * Inserting `it` into the entries E: a refused duplicate only in a unique
   * index without replace, and only when an entry with the key exists;
   * otherwise either the entry at the key's position gets the new oid
   * (replace, key present) or the item is inserted at its position and no
   * unique key is doubled.
   */
  ghost predicate Inserts(E: seq<Item>, it: Item, unique: bool, replace: bool, dup: bool, O: seq<Item>)
  {
    var pos := Rank(E, it.key);
    (dup ==> unique && !replace && Hit(E, it.key)) &&
    (!dup ==>
      (replace && Hit(E, it.key) && O == E[pos := it]) ||
      (!(unique && Hit(E, it.key)) && O == E[..pos] + [it] + E[pos..]))
  }

  ghost predicate InsertSpec(E: seq<Item>, it: Item, unique: bool, replace: bool, res: Ins)
  {
    Inserts(E, it, unique, replace, res.Duplicate?, Out(res))
  }

  /** The shape a result of a page of height h between lo and hi keeps. */
  ghost predicate InsOk(res: Ins, h: int, lo: Option<Key>, hi: Option<Key>, c: Conf)
  {
    match res
    case Done(q) => Kid(q, h, lo, hi, c)
    case Split(l, s, r) =>
      Kid(l, h, lo, Some(s), c) && Kid(r, h, Some(s), hi, c) &&
      AboveLo(c.unique, lo, s) && SepBelowHi(c.unique, hi, s)
    case Duplicate => true
  }

  /** The key lies strictly after the lower bound (the descent takes the first child whose separator is not before it). */
  ghost predicate After(lo: Option<Key>, k: Key)
  {
    lo.None? || Lt(lo.value, k)
  }

  // ---------------------------------------------------------------------
  // Leaves

  lemma {:induction false} LeafInsertShape(items: seq<Item>, r: nat, it: Item, u: bool, lo: Option<Key>, hi: Option<Key>)
    requires LeafShape(items, u, lo, hi) && r <= |items|
    requires forall i | 0 <= i < r :: Lt(items[i].key, it.key)
    requires forall i | r <= i < |items| :: !Lt(items[i].key, it.key)
    requires u ==> r == |items| || items[r].key != it.key
    requires After(lo, it.key) && BelowHi(hi, it.key)
    ensures LeafShape(items[..r] + [it] + items[r..], u, lo, hi)
  {
    var k := it.key;
    var C := items[..r] + [it] + items[r..];
    forall j | r <= j < |items|
      ensures Rel(u, k, items[j].key)
    {
      NotLt(items[j].key, k);
      if u && j > r {
        NotLt(items[r].key, k);
        LeTrans(k, items[r].key, items[j].key);
      } else if u {
        LtTotal(k, items[j].key);
      }
    }
    forall i, j | 0 <= i < j < |C|
      ensures Rel(u, C[i].key, C[j].key)
    {
      if j < r {
        assert C[i] == items[i] && C[j] == items[j];
      } else if j == r {
        assert C[i] == items[i] && C[j] == it;
      } else if i > r {
        assert C[i] == items[i - 1] && C[j] == items[j - 1];
      } else if i == r {
        assert C[i] == it && C[j] == items[j - 1];
      } else {
        assert C[i] == items[i] && C[j] == items[j - 1];
        RelTrans(u, items[i].key, k, items[j - 1].key);
      }
    }
    forall i | 0 <= i < |C|
      ensures AboveLo(u, lo, C[i].key) && BelowHi(hi, C[i].key)
    {
      if i < r {
        assert C[i] == items[i];
      } else if i > r {
        assert C[i] == items[i - 1];
      }
    }
  }

  lemma {:induction false} LeafReplaceShape(items: seq<Item>, r: nat, it: Item, u: bool, lo: Option<Key>, hi: Option<Key>)
    requires LeafShape(items, u, lo, hi) && r < |items| && items[r].key == it.key
    ensures LeafShape(items[r := it], u, lo, hi)
  {
    var C := items[r := it];
    assert forall i | 0 <= i < |C| :: C[i].key == items[i].key;
  }

  method InsertLeaf(items: seq<Item>, it: Item, replace: bool, c: Conf, ghost lo: Option<Key>, ghost hi: Option<Key>)
    returns (res: Ins)
    requires ConfOk(c) && Kid(Leaf(items), 1, lo, hi, c)
    requires After(lo, it.key) && BelowHi(hi, it.key)
    ensures InsOk(res, 1, lo, hi, c)
    ensures InsertSpec(items, it, c.unique, replace, res)
  {
    var p := Leaf(items);
    NodeKeysSorted(p, 1, lo, hi, c);
    var r := Search(p, it.key, false);
    var n := |items|;
    forall i | 0 <= i < n
      ensures i < r <==> Lt(items[i].key, it.key)
    {
      assert KeyAt(p, i) == items[i].key;
    }
    RankAt(items, it.key, r);
    if r < n && Cmp(it.key, items[r].key) == 0 {
      CmpOrder(it.key, items[r].key);
      if replace {
        LeafReplaceShape(items, r, it, c.unique, lo, hi);
        return Done(Leaf(items[r := it]));
      } else if c.unique {
        return Duplicate;
      }
    }
    if r < n {
      CmpOrder(it.key, items[r].key);
    }
    var C := items[..r] + [it] + items[r..];
    LeafInsertShape(items, r, it, c.unique, lo, hi);
    res := LeafFit(C, c, lo, hi);
  }

  /** The items of a leaf after an insertion: kept when they fit, else divided at max / 2. */
  method LeafFit(C: seq<Item>, c: Conf, ghost lo: Option<Key>, ghost hi: Option<Key>) returns (res: Ins)
    requires ConfOk(c) && LeafShape(C, c.unique, lo, hi) && 0 < |C| <= Cap(c) + 1
    ensures !res.Duplicate? && InsOk(res, 1, lo, hi, c) && Out(res) == C
  {
    CapBounds(c);
    if |C| <= Cap(c) {
      res := Done(Leaf(C));
    } else {
      var m := Cap(c) / 2;
      SplitLeaf(C, m, c.unique, lo, hi);
      assert C[..m] + C[m..] == C;
      res := Split(Leaf(C[..m]), C[m - 1].key, Leaf(C[m..]));
    }
  }

  // ---------------------------------------------------------------------
  // Inner pages

  lemma {:induction false} AroundBefore(keys: seq<Key>, kids: seq<Page>, h: int, lo: Option<Key>, hi: Option<Key>, c: Conf,
                                        r: nat, k: Key)
    requires InnerShape(keys, kids, h, lo, hi, c) && 0 < r < |kids|
    requires Lt(keys[r - 1], k)
    ensures forall i | 0 <= i < |Flatten(kids[..r])| :: Lt(Flatten(kids[..r])[i].key, k)
  {
    SplitInner(keys, kids, h, lo, hi, c, r);
    KidsEntriesIn(keys[..r - 1], kids[..r], r, h, lo, Some(keys[r - 1]), c);
    assert kids[..r][..r] == kids[..r];
    var A := Flatten(kids[..r]);
    forall i | 0 <= i < |A|
      ensures Lt(A[i].key, k)
    {
      LeTrans(A[i].key, keys[r - 1], k);
    }
  }

  lemma {:induction false} AroundAfter(keys: seq<Key>, kids: seq<Page>, h: int, lo: Option<Key>, hi: Option<Key>, c: Conf,
                                       r: nat, k: Key)
    requires InnerShape(keys, kids, h, lo, hi, c) && r < |keys|
    requires !Lt(keys[r], k)
    ensures var B := Flatten(kids[r + 1..]);
      B != [] ==> !Lt(B[0].key, k) && (c.unique ==> B[0].key != k)
  {
    SplitInner(keys, kids, h, lo, hi, c, r + 1);
    KidsEntriesIn(keys[r + 1..], kids[r + 1..], |kids| - r - 1, h, Some(keys[r]), hi, c);
    assert kids[r + 1..][..|kids| - r - 1] == kids[r + 1..];
    var B := Flatten(kids[r + 1..]);
    if B != [] {
      NotLt(keys[r], k);
      RelLe(c.unique, keys[r], B[0].key);
      LeTrans(k, keys[r], B[0].key);
      NotLt(B[0].key, k);
      if c.unique {
        LtAsym(k, B[0].key);
      }
    }
  }

  /**
   * The entries of an inner page around child r, the child the search for
   * k chose: those of the children before it lie before k, the first of
   * those after it does not (and differs from k in a unique index).
   */
  lemma {:induction false} Around(keys: seq<Key>, kids: seq<Page>, h: int, lo: Option<Key>, hi: Option<Key>, c: Conf,
                                  r: nat, k: Key)
    requires InnerShape(keys, kids, h, lo, hi, c) && r < |kids|
    requires forall i | 0 <= i < r :: Lt(keys[i], k)
    requires r < |keys| ==> !Lt(keys[r], k)
    ensures Flatten(kids) == Flatten(kids[..r]) + Entries(kids[r]) + Flatten(kids[r + 1..])
    ensures forall i | 0 <= i < |Flatten(kids[..r])| :: Lt(Flatten(kids[..r])[i].key, k)
    ensures var B := Flatten(kids[r + 1..]);
      B != [] ==> !Lt(B[0].key, k) && (c.unique ==> B[0].key != k)
  {
    FlattenAt(kids, r);
    if r > 0 {
      AroundBefore(keys, kids, h, lo, hi, c, r, k);
    } else {
      assert kids[..r] == [];
    }
    if r < |keys| {
      AroundAfter(keys, kids, h, lo, hi, c, r, k);
    } else {
      assert kids[r + 1..] == [];
    }
  }

  /** Entries below k in front of a child's entries shift k's position and keep what is found there. */
  lemma {:induction false} RankLift(A: seq<Item>, Ec: seq<Item>, B: seq<Item>, k: Key)
    requires Rank(Ec, k) < |Ec|
    requires forall i | 0 <= i < |A| :: Lt(A[i].key, k)
    ensures Rank(A + Ec + B, k) == |A| + Rank(Ec, k)
    ensures (A + Ec + B)[|A| + Rank(Ec, k)] == Ec[Rank(Ec, k)]
    ensures Hit(A + Ec + B, k) == Hit(Ec, k)
  {
    assert A + Ec + B == A + (Ec + B);
    RankAfterBelow(A, Ec + B, k);
    RankPrefix(Ec, B, k);
  }

  /** The child's insertion point lies inside the child's entries. */
  lemma {:induction false} LiftInside(A: seq<Item>, Ec: seq<Item>, B: seq<Item>, it: Item, u: bool, replace: bool,
                                      dup: bool, Os: seq<Item>)
    requires Inserts(Ec, it, u, replace, dup, Os) && Rank(Ec, it.key) < |Ec|
    requires forall i | 0 <= i < |A| :: Lt(A[i].key, it.key)
    ensures Inserts(A + Ec + B, it, u, replace, dup, A + Os + B)
  {
    var k := it.key;
    var pc := Rank(Ec, k);
    RankLift(A, Ec, B, k);
    if !dup {
      if replace && Hit(Ec, k) && Os == Ec[pc := it] {
        assert A + Os + B == (A + Ec + B)[|A| + pc := it];
      } else {
        assert (A + Ec + B)[..|A| + pc] == A + Ec[..pc];
        assert (A + Ec + B)[|A| + pc..] == Ec[pc..] + B;
      }
    }
  }

  /** The child's insertion point is past all of the child's entries. */
  lemma {:induction false} LiftAtEnd(A: seq<Item>, Ec: seq<Item>, B: seq<Item>, it: Item, u: bool, replace: bool,
                                     dup: bool, Os: seq<Item>)
    requires Inserts(Ec, it, u, replace, dup, Os) && Rank(Ec, it.key) == |Ec|
    requires forall i | 0 <= i < |A| :: Lt(A[i].key, it.key)
    requires B != [] ==> !Lt(B[0].key, it.key) && (u ==> B[0].key != it.key)
    ensures Inserts(A + Ec + B, it, u, replace, dup, A + Os + B)
  {
    var k := it.key;
    var E := A + Ec + B;
    assert E == A + (Ec + B);
    RankAfterBelow(A, Ec + B, k);
    RankFacts(Ec, k);
    RankAfterBelow(Ec, B, k);
    assert Rank(E, k) == |A| + |Ec|;
    if B != [] {
      assert E[|A| + |Ec|] == B[0];
    }
    if !dup {
      assert Os == Ec[..|Ec|] + [it] + Ec[|Ec|..];
      assert E[..|A| + |Ec|] == A + Ec;
      assert E[|A| + |Ec|..] == B;
    }
  }

  /** What a child's insertion means for the entries of the whole page. */
  lemma {:induction false} LiftInsert(A: seq<Item>, Ec: seq<Item>, B: seq<Item>, it: Item, u: bool, replace: bool,
                                      dup: bool, Os: seq<Item>)
    requires Inserts(Ec, it, u, replace, dup, Os)
    requires forall i | 0 <= i < |A| :: Lt(A[i].key, it.key)
    requires B != [] ==> !Lt(B[0].key, it.key) && (u ==> B[0].key != it.key)
    ensures Inserts(A + Ec + B, it, u, replace, dup, A + Os + B)
  {
    if Rank(Ec, it.key) < |Ec| {
      LiftInside(A, Ec, B, it, u, replace, dup, Os);
    } else {
      LiftAtEnd(A, Ec, B, it, u, replace, dup, Os);
    }
  }

  lemma {:induction false} FlattenReplace(kids: seq<Page>, r: nat, q: Page)
    requires r < |kids|
    ensures Flatten(kids[r := q]) == Flatten(kids[..r]) + Entries(q) + Flatten(kids[r + 1..])
  {
    FlattenAt(kids[r := q], r);
    assert kids[r := q][..r] == kids[..r];
    assert kids[r := q][r + 1..] == kids[r + 1..];
  }

  lemma {:induction false} FlattenDivide(cs: seq<Page>, m: nat)
    requires m <= |cs|
    ensures Flatten(cs[..m]) + Flatten(cs[m..]) == Flatten(cs)
  {
    assert cs[..m] + cs[m..] == cs;
    FlattenAppend(cs[..m], cs[m..]);
  }

  method InsertPage(p: Page, h: nat, it: Item, replace: bool, c: Conf, ghost lo: Option<Key>, ghost hi: Option<Key>)
    returns (res: Ins)
    requires ConfOk(c) && Kid(p, h, lo, hi, c)
    requires After(lo, it.key) && BelowHi(hi, it.key)
    ensures InsOk(res, h, lo, hi, c)
    ensures InsertSpec(Entries(p), it, c.unique, replace, res)
    decreases p, 1
  {
    if p.Leaf? {
      res := InsertLeaf(p.items, it, replace, c, lo, hi);
    } else {
      res := InsertInner(p.keys, p.kids, h, it, replace, c, lo, hi);
    }
  }

  method InsertInner(keys: seq<Key>, kids: seq<Page>, h: nat, it: Item, replace: bool, c: Conf,
                     ghost lo: Option<Key>, ghost hi: Option<Key>)
    returns (res: Ins)
    requires ConfOk(c) && Kid(Inner(keys, kids), h, lo, hi, c)
    requires After(lo, it.key) && BelowHi(hi, it.key)
    ensures InsOk(res, h, lo, hi, c)
    ensures InsertSpec(Flatten(kids), it, c.unique, replace, res)
    decreases kids, 0
  {
    var p := Inner(keys, kids);
    InnerFacts(keys, kids, h, lo, hi, c);
    NodeKeysSorted(p, h, lo, hi, c);
    var r := Search(p, it.key, false);
    Descend(keys, kids, h, lo, hi, c, r, it.key);
    var sub := InsertPage(kids[r], h - 1, it, replace, c, LoOf(keys, lo, r), HiOf(keys, hi, r));
    Around(keys, kids, h, lo, hi, c, r, it.key);
    LiftInsert(Flatten(kids[..r]), Entries(kids[r]), Flatten(kids[r + 1..]), it, c.unique, replace,
               sub.Duplicate?, Out(sub));
    res := Absorb(keys, kids, h, c, lo, hi, r, sub);
  }

  /** What the search on an inner page tells about the child it descends into. */
  lemma {:induction false} Descend(keys: seq<Key>, kids: seq<Page>, h: int, lo: Option<Key>, hi: Option<Key>, c: Conf,
                                   r: nat, k: Key)
    requires InnerShape(keys, kids, h, lo, hi, c) && After(lo, k) && BelowHi(hi, k)
    requires r <= NKeys(Inner(keys, kids))
    requires forall i | 0 <= i < r :: Before(KeyAt(Inner(keys, kids), i), k, false)
    requires forall i | r <= i < NKeys(Inner(keys, kids)) :: !Before(KeyAt(Inner(keys, kids), i), k, false)
    ensures r < |kids| && Kid(kids[r], h - 1, LoOf(keys, lo, r), HiOf(keys, hi, r), c)
    ensures forall i | 0 <= i < r :: Lt(keys[i], k)
    ensures r < |keys| ==> !Lt(keys[r], k)
    ensures After(LoOf(keys, lo, r), k) && BelowHi(HiOf(keys, hi, r), k)
  {
    var p := Inner(keys, kids);
    assert forall i | 0 <= i < |keys| :: KeyAt(p, i) == keys[i];
    KidAt(keys, kids, h, lo, hi, c, r);
    if r < |keys| {
      NotLt(keys[r], k);
    }
  }

  /** An inner page takes in what its child r returned: a new child, or the two halves of a split child. */
  method Absorb(keys: seq<Key>, kids: seq<Page>, h: nat, c: Conf, ghost lo: Option<Key>, ghost hi: Option<Key>,
                r: nat, sub: Ins)
    returns (res: Ins)
    requires ConfOk(c) && Kid(Inner(keys, kids), h, lo, hi, c) && |kids| == |keys| + 1 && r <= |keys|
    requires InsOk(sub, h - 1, LoOf(keys, lo, r), HiOf(keys, hi, r), c)
    ensures InsOk(res, h, lo, hi, c) && res.Duplicate? == sub.Duplicate?
    ensures !sub.Duplicate? ==> Out(res) == Flatten(kids[..r]) + Out(sub) + Flatten(kids[r + 1..])
  {
    InnerFacts(keys, kids, h, lo, hi, c);
    match sub
    case Duplicate =>
      res := Duplicate;
    case Done(q) =>
      ReplaceKid(keys, kids, h, lo, hi, c, r, q);
      FlattenReplace(kids, r, q);
      res := Done(Inner(keys, kids[r := q]));
    case Split(l, s, q) =>
      var ks, cs := keys[..r] + [s] + keys[r..], kids[..r] + [l, q] + kids[r + 1..];
      InsertKid(keys, kids, h, lo, hi, c, r, l, s, q);
      FlattenSplice(kids, r, [l, q]);
      FlattenTwo(l, q);
      res := InnerFit(ks, cs, h, c, lo, hi);
  }

  /** The children of an inner page after an insertion: kept when they fit, else divided at max / 2. */
  method InnerFit(ks: seq<Key>, cs: seq<Page>, h: nat, c: Conf, ghost lo: Option<Key>, ghost hi: Option<Key>)
    returns (res: Ins)
    requires ConfOk(c) && InnerShape(ks, cs, h, lo, hi, c) && 1 < |cs| <= Cap(c) + 1
    ensures !res.Duplicate? && InsOk(res, h, lo, hi, c) && Out(res) == Flatten(cs)
  {
    CapBounds(c);
    if |cs| <= Cap(c) {
      res := Done(Inner(ks, cs));
    } else {
      var m := Cap(c) / 2;
      SplitInner(ks, cs, h, lo, hi, c, m);
      FlattenDivide(cs, m);
      res := Split(Inner(ks[..m - 1], cs[..m]), ks[m - 1], Inner(ks[m..], cs[m..]));
    }
  }
}
