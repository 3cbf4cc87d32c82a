// dbBtreePage::remove and handlePageUnderflow on scalar pages
// (storage/dybase/src/btree.cpp, the REMOVE macro): find the first item
// with the key (and the oid, unless the oid is 0), delete it, and repair a
// page that fell below half full by merging it with a sibling or by moving
// records over from the sibling.

module BtreeRemove {
  import opened Codec
  import opened BtreeKey
  import opened BtreeNode
  import opened BtreeShape
  import opened BtreeInsert

  /** dbBtree::done and dbBtree::underflow with the page's new contents, or dbBtree::not_found. */
  datatype Rem = Removed(page: Page) | Underflow(page: Page) | NotFound

  /** The entries a result stands for. */
  ghost function Rest(res: Rem): seq<Item>
  {
    if res.NotFound? then [] else Entries(res.page)
  }

  /** The item the removal is after: the key, and the oid unless the oid is 0. */
  ghost predicate Matches(e: Item, k: Key, oid: Oid)
  {
    e.key == k && (oid == 0 || e.oid == oid)
  }

  ghost predicate NoMatch(E: seq<Item>, k: Key, oid: Oid)
  {
    forall i | 0 <= i < |E| :: !Matches(E[i], k, oid)
  }

  /** The position of the first matching entry, |E| when there is none. */
  ghost function FirstMatch(E: seq<Item>, k: Key, oid: Oid): (j: nat)
    ensures j <= |E|
    decreases |E|
  {
    if E == [] || Matches(E[0], k, oid) then 0 else 1 + FirstMatch(E[1..], k, oid)
  }

  /** Removing the first match of (k, oid) from E leaves O; found tells whether there was one. */
  ghost predicate Removes(E: seq<Item>, k: Key, oid: Oid, found: bool, O: seq<Item>)
  {
    var j := FirstMatch(E, k, oid);
    (found <==> j < |E|) && (found ==> O == E[..j] + E[j + 1..])
  }

  ghost predicate RemoveSpec(E: seq<Item>, k: Key, oid: Oid, res: Rem)
  {
    Removes(E, k, oid, !res.NotFound?, Rest(res))
  }

  /** The shape a result of a page of height h between lo and hi keeps: an underflowed page may be an empty leaf. */
  ghost predicate RemOk(res: Rem, h: int, lo: Option<Key>, hi: Option<Key>, c: Conf)
  {
    match res
    case Removed(q) => Kid(q, h, lo, hi, c)
    case Underflow(q) => Node(q, h, lo, hi, c) && Underfull(q, c)
    case NotFound => true
  }

  // ---------------------------------------------------------------------
  // The first match

  lemma {:induction false} FirstMatchFacts(E: seq<Item>, k: Key, oid: Oid)
    ensures forall i | 0 <= i < FirstMatch(E, k, oid) :: !Matches(E[i], k, oid)
    ensures FirstMatch(E, k, oid) < |E| ==> Matches(E[FirstMatch(E, k, oid)], k, oid)
    decreases |E|
  {
    if E != [] && !Matches(E[0], k, oid) {
      FirstMatchFacts(E[1..], k, oid);
      forall i | 0 <= i < FirstMatch(E, k, oid)
        ensures !Matches(E[i], k, oid)
      {
        if i > 0 {
          assert E[i] == E[1..][i - 1];
        }
      }
    }
  }

  /** No match before j and a match at j (or j at the end): the first match is at j. */
  lemma {:induction false} FirstMatchAt(E: seq<Item>, k: Key, oid: Oid, j: nat)
    requires j <= |E|
    requires forall i | 0 <= i < j :: !Matches(E[i], k, oid)
    requires j < |E| ==> Matches(E[j], k, oid)
    ensures FirstMatch(E, k, oid) == j
    decreases j
  {
    if j > 0 {
      forall i | 0 <= i < j - 1
        ensures !Matches(E[1..][i], k, oid)
      {
        assert E[1..][i] == E[i + 1];
      }
      FirstMatchAt(E[1..], k, oid, j - 1);
    }
  }

  lemma {:induction false} BelowNoMatch(E: seq<Item>, k: Key, oid: Oid)
    requires forall i | 0 <= i < |E| :: Lt(E[i].key, k)
    ensures NoMatch(E, k, oid)
  {
    LtIrreflexive(k);
  }

  /** Entries without a match in front of a child's entries shift the first match. */
  lemma {:induction false} FirstMatchLift(A: seq<Item>, Ec: seq<Item>, B: seq<Item>, k: Key, oid: Oid)
    requires NoMatch(A, k, oid) && FirstMatch(Ec, k, oid) < |Ec|
    ensures FirstMatch(A + Ec + B, k, oid) == |A| + FirstMatch(Ec, k, oid)
  {
    var E := A + Ec + B;
    var jc := FirstMatch(Ec, k, oid);
    FirstMatchFacts(Ec, k, oid);
    forall i | 0 <= i < |A| + jc
      ensures !Matches(E[i], k, oid)
    {
      if i >= |A| {
        assert E[i] == Ec[i - |A|];
      } else {
        assert E[i] == A[i];
      }
    }
    assert E[|A| + jc] == Ec[jc];
    FirstMatchAt(E, k, oid, |A| + jc);
  }

  /** Entries without a match in front of a child's entries move the child's removal along. */
  lemma {:induction false} LiftRemove(A: seq<Item>, Ec: seq<Item>, B: seq<Item>, k: Key, oid: Oid, Os: seq<Item>)
    requires NoMatch(A, k, oid) && Removes(Ec, k, oid, true, Os)
    ensures Removes(A + Ec + B, k, oid, true, A + Os + B)
  {
    var jc := FirstMatch(Ec, k, oid);
    var E, J := A + Ec + B, |A| + jc;
    assert FirstMatch(E, k, oid) == J by {
      FirstMatchLift(A, Ec, B, k, oid);
    }
    SpliceAt(A, Ec, B, jc);
    Regroup(A, Ec[..jc], Ec[jc + 1..], B);
  }

  lemma {:induction false} Regroup(a: seq<Item>, b: seq<Item>, c: seq<Item>, d: seq<Item>)
    ensures a + (b + c) + d == (a + b) + (c + d)
  {
  }

  /** The parts of A + Ec + B before and after position j of Ec. */
  lemma {:induction false} SpliceAt(A: seq<Item>, Ec: seq<Item>, B: seq<Item>, j: nat)
    requires j < |Ec|
    ensures (A + Ec + B)[..|A| + j] == A + Ec[..j]
    ensures (A + Ec + B)[|A| + j + 1..] == Ec[j + 1..] + B
  {
    var E := A + Ec + B;
    assert |E[..|A| + j]| == |A + Ec[..j]|;
    assert forall i | 0 <= i < |A| + j :: E[i] == (A + Ec[..j])[i];
    var D := E[|A| + j + 1..];
    assert |D| == |Ec[j + 1..] + B|;
    assert forall i | 0 <= i < |D| :: D[i] == (Ec[j + 1..] + B)[i];
  }

  lemma {:induction false} NoMatchAppend(A: seq<Item>, B: seq<Item>, k: Key, oid: Oid)
    requires NoMatch(A, k, oid) && NoMatch(B, k, oid)
    ensures NoMatch(A + B, k, oid)
  {
    forall i | 0 <= i < |A + B|
      ensures !Matches((A + B)[i], k, oid)
    {
      if i >= |A| {
        assert (A + B)[i] == B[i - |A|];
      } else {
        assert (A + B)[i] == A[i];
      }
    }
  }

  // ---------------------------------------------------------------------
  // Leaves

  /** Deleting one item keeps a leaf sorted and within its bounds. */
  lemma {:induction false} LeafRemoveShape(items: seq<Item>, r: nat, u: bool, lo: Option<Key>, hi: Option<Key>)
    requires LeafShape(items, u, lo, hi) && r < |items|
    ensures LeafShape(items[..r] + items[r + 1..], u, lo, hi)
  {
    var C := items[..r] + items[r + 1..];
    assert forall i | 0 <= i < |C| :: C[i] == items[if i < r then i else i + 1];
  }

  /** Past an item whose key is above k, no later item of a sorted leaf has key k. */
  lemma {:induction false} PastNoMatch(items: seq<Item>, u: bool, r: nat, k: Key, oid: Oid)
    requires SortedItems(items, u) && r < |items| && Lt(k, items[r].key)
    ensures forall i | r <= i < |items| :: !Matches(items[i], k, oid)
  {
    forall i | r < i < |items|
      ensures !Matches(items[i], k, oid)
    {
      RelLe(u, items[r].key, items[i].key);
      LeTrans(k, items[r].key, items[i].key);
      LtAsym(k, items[i].key);
    }
    LtAsym(k, items[r].key);
  }

  method RemoveLeaf(items: seq<Item>, k: Key, oid: Oid, c: Conf, ghost lo: Option<Key>, ghost hi: Option<Key>)
    returns (res: Rem)
    requires ConfOk(c) && Kid(Leaf(items), 1, lo, hi, c)
    ensures RemOk(res, 1, lo, hi, c)
    ensures RemoveSpec(items, k, oid, res)
  {
    var p := Leaf(items);
    NodeKeysSorted(p, 1, lo, hi, c);
    var r := Search(p, k, false);
    LeafStart(items, r, k, oid);
    assert LeafShape(items, c.unique, lo, hi);
    ghost var r0 := r;
    var n := |items|;
    while r < n
      invariant r0 <= r <= n
      invariant forall i | 0 <= i < r :: !Matches(items[i], k, oid)
      decreases n - r
    {
      CmpOrder(k, items[r].key);
      if Cmp(k, items[r].key) == 0 {
        if items[r].oid == oid || oid == 0 {
          FirstMatchAt(items, k, oid, r);
          res := LeafDelete(items, r, c, lo, hi);
          return;
        }
      } else {
        assert KeyAt(p, r) == items[r].key;
        LeafMiss(items, c.unique, r, k, oid);
        return NotFound;
      }
      r := r + 1;
    }
    FirstMatchAt(items, k, oid, n);
    res := NotFound;
  }

  /** No item before the search's position has key k. */
  lemma {:induction false} LeafStart(items: seq<Item>, r: nat, k: Key, oid: Oid)
    requires r <= |items|
    requires forall i | 0 <= i < r :: Before(KeyAt(Leaf(items), i), k, false)
    ensures forall i | 0 <= i < r :: !Matches(items[i], k, oid)
  {
    forall i | 0 <= i < r
      ensures !Matches(items[i], k, oid)
    {
      assert KeyAt(Leaf(items), i) == items[i].key;
      LtIrreflexive(k);
    }
  }

  /** An item at or after k's position with another key ends the scan: there is no match. */
  lemma {:induction false} LeafMiss(items: seq<Item>, u: bool, r: nat, k: Key, oid: Oid)
    requires SortedItems(items, u) && r < |items|
    requires forall i | 0 <= i < r :: !Matches(items[i], k, oid)
    requires !Lt(items[r].key, k) && items[r].key != k
    ensures FirstMatch(items, k, oid) == |items|
  {
    NotLt(items[r].key, k);
    PastNoMatch(items, u, r, k, oid);
    FirstMatchAt(items, k, oid, |items|);
  }

  /** The leaf without its item r; below half full it reports an underflow. */
  method LeafDelete(items: seq<Item>, r: nat, c: Conf, ghost lo: Option<Key>, ghost hi: Option<Key>) returns (res: Rem)
    requires ConfOk(c) && Kid(Leaf(items), 1, lo, hi, c) && r < |items|
    ensures RemOk(res, 1, lo, hi, c) && !res.NotFound?
    ensures Rest(res) == items[..r] + items[r + 1..]
  {
    var rest := items[..r] + items[r + 1..];
    LeafRemoveShape(items, r, c.unique, lo, hi);
    if |rest| * c.width < HALF_SPACE {
      res := Underflow(Leaf(rest));
    } else {
      res := Removed(Leaf(rest));
    }
  }

  // ---------------------------------------------------------------------
  // Inner pages

  method RemovePage(p: Page, h: nat, k: Key, oid: Oid, c: Conf, ghost lo: Option<Key>, ghost hi: Option<Key>)
    returns (res: Rem)
    requires ConfOk(c) && Kid(p, h, lo, hi, c)
    ensures RemOk(res, h, lo, hi, c)
    ensures RemoveSpec(Entries(p), k, oid, res)
    decreases p, 1
  {
    if p.Leaf? {
      res := RemoveLeaf(p.items, k, oid, c, lo, hi);
    } else {
      res := RemoveInner(p.keys, p.kids, h, k, oid, c, lo, hi);
    }
  }

  /** The children before the one the search chose hold only keys before k. */
  lemma {:induction false} KidsBefore(keys: seq<Key>, kids: seq<Page>, h: int, lo: Option<Key>, hi: Option<Key>, c: Conf,
                                      r: nat, k: Key, oid: Oid)
    requires InnerShape(keys, kids, h, lo, hi, c) && r < |kids|
    requires forall i | 0 <= i < r :: Lt(keys[i], k)
    ensures NoMatch(Flatten(kids[..r]), k, oid)
  {
    if r > 0 {
      AroundBefore(keys, kids, h, lo, hi, c, r, k);
      BelowNoMatch(Flatten(kids[..r]), k, oid);
    } else {
      assert kids[..r] == [];
    }
  }

  method RemoveInner(keys: seq<Key>, kids: seq<Page>, h: nat, k: Key, oid: Oid, c: Conf,
                     ghost lo: Option<Key>, ghost hi: Option<Key>)
    returns (res: Rem)
    requires ConfOk(c) && Kid(Inner(keys, kids), h, lo, hi, c)
    ensures RemOk(res, h, lo, hi, c)
    ensures RemoveSpec(Flatten(kids), k, oid, res)
    decreases kids, 0
  {
    var p := Inner(keys, kids);
    InnerFacts(keys, kids, h, lo, hi, c);
    NodeKeysSorted(p, h, lo, hi, c);
    var r := Search(p, k, false);
    assert forall i | 0 <= i < |keys| :: KeyAt(p, i) == keys[i];
    KidsBefore(keys, kids, h, lo, hi, c, r, k, oid);
    var n := |keys|;
    while r <= n
      invariant r <= n + 1 == |kids|
      invariant NoMatch(Flatten(kids[..r]), k, oid)
      decreases n + 1 - r
    {
      KidAt(keys, kids, h, lo, hi, c, r);
      var sub := RemovePage(kids[r], h - 1, k, oid, c, LoOf(keys, lo, r), HiOf(keys, hi, r));
      if sub.NotFound? {
        SkipKid(kids, r, k, oid);
      } else {
        LiftKid(kids, r, k, oid, sub.page);
        res := Absorb(keys, kids, h, c, lo, hi, r, sub);
        return;
      }
      r := r + 1;
    }
    assert kids[..r] == kids;
    FirstMatchAt(Flatten(kids), k, oid, |Flatten(kids)|);
    res := NotFound;
  }

  /** A child without a match extends the run of children without one. */
  lemma {:induction false} SkipKid(kids: seq<Page>, r: nat, k: Key, oid: Oid)
    requires r < |kids| && NoMatch(Flatten(kids[..r]), k, oid)
    requires Removes(Entries(kids[r]), k, oid, false, [])
    ensures NoMatch(Flatten(kids[..r + 1]), k, oid)
  {
    FirstMatchFacts(Entries(kids[r]), k, oid);
    NoMatchAppend(Flatten(kids[..r]), Entries(kids[r]), k, oid);
    assert kids[..r + 1][..r] == kids[..r];
  }

  /** The first match lies in child r when the children before it have none and child r has one. */
  lemma {:induction false} LiftKid(kids: seq<Page>, r: nat, k: Key, oid: Oid, q: Page)
    requires r < |kids| && NoMatch(Flatten(kids[..r]), k, oid)
    requires Removes(Entries(kids[r]), k, oid, true, Entries(q))
    ensures Removes(Flatten(kids), k, oid, true, Flatten(kids[r := q]))
  {
    FlattenAt(kids, r);
    LiftRemove(Flatten(kids[..r]), Entries(kids[r]), Flatten(kids[r + 1..]), k, oid, Entries(q));
    FlattenReplace(kids, r, q);
  }

  /** An inner page takes in what its child r returned: the new child, repaired when it fell below half full. */
  method Absorb(keys: seq<Key>, kids: seq<Page>, h: nat, c: Conf, ghost lo: Option<Key>, ghost hi: Option<Key>,
                r: nat, sub: Rem)
    returns (res: Rem)
    requires ConfOk(c) && Kid(Inner(keys, kids), h, lo, hi, c) && |kids| == |keys| + 1 && r <= |keys|
    requires !sub.NotFound? && RemOk(sub, h - 1, LoOf(keys, lo, r), HiOf(keys, hi, r), c)
    ensures RemOk(res, h, lo, hi, c) && !res.NotFound?
    ensures Rest(res) == Flatten(kids[r := sub.page])
  {
    if sub.Underflow? {
      res := HandleUnderflow(keys, kids, h, c, lo, hi, r, sub.page);
    } else {
      InnerFacts(keys, kids, h, lo, hi, c);
      ReplaceKid(keys, kids, h, lo, hi, c, r, sub.page);
      res := Removed(Inner(keys, kids[r := sub.page]));
    }
  }

  // ---------------------------------------------------------------------
  // handlePageUnderflow

  /** The separator between children j and j + 1 lies within both children's outer bounds. */
  lemma {:induction false} SepBounds(keys: seq<Key>, u: bool, lo: Option<Key>, hi: Option<Key>, j: nat)
    requires KeysOk(keys, u, lo, hi) && j < |keys|
    ensures AboveLo(u, LoOf(keys, lo, j), keys[j]) && SepBelowHi(u, HiOf(keys, hi, j + 1), keys[j])
  {
  }

  /**
   * When a page that fell below half full and its sibling do not fit in one
   * page, the reallocation moves at least one record out of the sibling, and
   * both pages end up with at least two records and no more than fit.
   */
  lemma {:induction false} Shares(an: nat, bn: nat, c: Conf)
    requires ConfOk(c) && an * c.width < HALF_SPACE && bn <= Cap(c)
    requires (an + bn) * c.width > KEY_SPACE
    ensures bn - (an + bn) / 2 >= 1
    ensures 2 <= (an + bn) / 2 && (an + bn) - (an + bn) / 2 <= Cap(c)
  {
    CapFits(c, bn);
    if c.width == 5 {
      assert an <= 408 && an + bn >= 818;
    } else if c.width == 8 {
      assert an <= 255 && an + bn >= 512;
    } else {
      assert an <= 170 && an + bn >= 341;
    }
  }

  /** A page of n records with n * width at least half a page holds two records or more. */
  lemma {:induction false} HalfFull(n: nat, c: Conf)
    requires ConfOk(c) && n * c.width >= HALF_SPACE
    ensures n >= 2
  {
  }

  lemma {:induction false} FlattenPair(ps: seq<Page>, j: nat, qs: seq<Page>)
    requires j + 1 < |ps|
    ensures Flatten(ps[..j] + qs + ps[j + 2..]) == Flatten(ps[..j]) + Flatten(qs) + Flatten(ps[j + 2..])
  {
    FlattenAppend(ps[..j] + qs, ps[j + 2..]);
    FlattenAppend(ps[..j], qs);
  }

  /** The entries of a page sequence with child r replaced, split around the pair j, j + 1 that holds r. */
  lemma {:induction false} FlattenAround(ps: seq<Page>, j: nat, r: nat, a: Page)
    requires j + 1 < |ps| && (r == j || r == j + 1)
    ensures Flatten(ps[r := a]) ==
            Flatten(ps[..j]) + (Entries(ps[r := a][j]) + Entries(ps[r := a][j + 1])) + Flatten(ps[j + 2..])
  {
    var qs := ps[r := a];
    assert qs == qs[..j] + [qs[j], qs[j + 1]] + qs[j + 2..];
    assert qs[..j] == ps[..j] && qs[j + 2..] == ps[j + 2..];
    FlattenPair(qs, j, [qs[j], qs[j + 1]]);
    FlattenTwo(qs[j], qs[j + 1]);
  }

  /**
   * handlePageUnderflow for the child r, which fell below half full: the
   * sibling after it when there is one, else the one before it, is merged
   * with it when both fit in one page, else records move between the two.
   */
  method HandleUnderflow(keys: seq<Key>, kids: seq<Page>, h: nat, c: Conf, ghost lo: Option<Key>, ghost hi: Option<Key>,
                         r: nat, a: Page)
    returns (res: Rem)
    requires ConfOk(c) && Kid(Inner(keys, kids), h, lo, hi, c) && |kids| == |keys| + 1 && r <= |keys|
    requires Node(a, h - 1, LoOf(keys, lo, r), HiOf(keys, hi, r), c) && Underfull(a, c)
    ensures RemOk(res, h, lo, hi, c) && !res.NotFound?
    ensures Rest(res) == Flatten(kids[r := a])
  {
    if r < |keys| {
      res := WithNext(keys, kids, h, c, lo, hi, r, a);
    } else {
      res := WithPrevious(keys, kids, h, c, lo, hi, r, a);
    }
  }

  /** The underflowed child r and the sibling after it. */
  method WithNext(keys: seq<Key>, kids: seq<Page>, h: nat, c: Conf, ghost lo: Option<Key>, ghost hi: Option<Key>,
                  r: nat, a: Page)
    returns (res: Rem)
    requires ConfOk(c) && Kid(Inner(keys, kids), h, lo, hi, c) && |kids| == |keys| + 1 && r <= |keys|
    requires Node(a, h - 1, LoOf(keys, lo, r), HiOf(keys, hi, r), c) && Underfull(a, c)
    requires r < |keys|
    ensures RemOk(res, h, lo, hi, c) && !res.NotFound?
    ensures Rest(res) == Flatten(kids[r := a])
  {
    InnerFacts(keys, kids, h, lo, hi, c);
    var an := Count(a);
    var b := kids[r + 1];
    KidAt(keys, kids, h, lo, hi, c, r + 1);
    var bn := Count(b);
    if (an + bn) * c.width > KEY_SPACE {
      var i := bn - (an + bn) / 2;
      Shares(an, bn, c);
      res := Redistribute(keys, kids, h, c, lo, hi, r, a, b, an + i);
    } else {
      res := Merge(keys, kids, h, c, lo, hi, r, a, b);
    }
    FlattenAround(kids, r, r, a);
  }

  /** The underflowed last child r and the sibling before it. */
  method WithPrevious(keys: seq<Key>, kids: seq<Page>, h: nat, c: Conf, ghost lo: Option<Key>, ghost hi: Option<Key>,
                      r: nat, a: Page)
    returns (res: Rem)
    requires ConfOk(c) && Kid(Inner(keys, kids), h, lo, hi, c) && |kids| == |keys| + 1 && r <= |keys|
    requires Node(a, h - 1, LoOf(keys, lo, r), HiOf(keys, hi, r), c) && Underfull(a, c)
    requires r == |keys|
    ensures RemOk(res, h, lo, hi, c) && !res.NotFound?
    ensures Rest(res) == Flatten(kids[r := a])
  {
    InnerFacts(keys, kids, h, lo, hi, c);
    var an := Count(a);
    var b := kids[r - 1];
    KidAt(keys, kids, h, lo, hi, c, r - 1);
    var bn := Count(b);
    if (an + bn) * c.width > KEY_SPACE {
      var i := bn - (an + bn) / 2;
      Shares(an, bn, c);
      res := Redistribute(keys, kids, h, c, lo, hi, r - 1, b, a, bn - i);
    } else {
      res := Merge(keys, kids, h, c, lo, hi, r - 1, b, a);
    }
    FlattenAround(kids, r - 1, r, a);
  }

  /** Children j and j + 1 become one page; the parent loses separator j. */
  method Merge(keys: seq<Key>, kids: seq<Page>, h: nat, c: Conf, ghost lo: Option<Key>, ghost hi: Option<Key>,
               j: nat, x: Page, y: Page)
    returns (res: Rem)
    requires ConfOk(c) && Node(Inner(keys, kids), h, lo, hi, c) && |kids| == |keys| + 1 && j < |keys|
    requires Node(x, h - 1, LoOf(keys, lo, j), Some(keys[j]), c)
    requires Node(y, h - 1, Some(keys[j]), HiOf(keys, hi, j + 1), c)
    requires NonEmpty(x) || NonEmpty(y)
    requires (Count(x) + Count(y)) * c.width <= KEY_SPACE
    ensures RemOk(res, h, lo, hi, c) && !res.NotFound?
    ensures Rest(res) == Flatten(kids[..j]) + (Entries(x) + Entries(y)) + Flatten(kids[j + 2..])
  {
    InnerFacts(keys, kids, h, lo, hi, c);
    SepBounds(keys, c.unique, lo, hi, j);
    var m := Join(x, keys[j], y, h - 1, c, LoOf(keys, lo, j), HiOf(keys, hi, j + 1));
    var ks, cs := keys[..j] + keys[j + 1..], kids[..j] + [m] + kids[j + 2..];
    MergeParent(keys, kids, h, lo, hi, c, j, m);
    if |cs| * c.width < HALF_SPACE {
      InnerNode(ks, cs, h, lo, hi, c);
      res := Underflow(Inner(ks, cs));
    } else {
      HalfFull(|cs|, c);
      InnerKid(ks, cs, h, lo, hi, c);
      res := Removed(Inner(ks, cs));
    }
  }

  /** The parent after children j and j + 1 became the one page m. */
  lemma {:induction false} MergeParent(keys: seq<Key>, kids: seq<Page>, h: int, lo: Option<Key>, hi: Option<Key>, c: Conf,
                                       j: nat, m: Page)
    requires InnerShape(keys, kids, h, lo, hi, c) && j < |keys|
    requires Kid(m, h - 1, LoOf(keys, lo, j), HiOf(keys, hi, j + 1), c)
    ensures InnerShape(keys[..j] + keys[j + 1..], kids[..j] + [m] + kids[j + 2..], h, lo, hi, c)
    ensures Flatten(kids[..j] + [m] + kids[j + 2..]) == Flatten(kids[..j]) + Entries(m) + Flatten(kids[j + 2..])
  {
    MergeKids(keys, kids, h, lo, hi, c, j, m);
    FlattenPair(kids, j, [m]);
    FlattenOne(m);
  }

  /** The parent after children j and j + 1 became l and q with the separator s. */
  lemma {:induction false} PairParent(keys: seq<Key>, kids: seq<Page>, h: int, lo: Option<Key>, hi: Option<Key>, c: Conf,
                                      j: nat, l: Page, s: Key, q: Page)
    requires InnerShape(keys, kids, h, lo, hi, c) && j < |keys|
    requires Kid(l, h - 1, LoOf(keys, lo, j), Some(s), c) && Kid(q, h - 1, Some(s), HiOf(keys, hi, j + 1), c)
    requires AboveLo(c.unique, LoOf(keys, lo, j), s) && SepBelowHi(c.unique, HiOf(keys, hi, j + 1), s)
    ensures InnerShape(keys[j := s], kids[j := l][j + 1 := q], h, lo, hi, c)
    ensures Flatten(kids[j := l][j + 1 := q]) == Flatten(kids[..j]) + (Entries(l) + Entries(q)) + Flatten(kids[j + 2..])
  {
    ReplacePair(keys, kids, h, lo, hi, c, j, l, s, q);
    assert kids[j := l][j + 1 := q] == kids[..j] + [l, q] + kids[j + 2..];
    FlattenPair(kids, j, [l, q]);
    FlattenTwo(l, q);
  }

  /** Two neighbouring pages and their separator as one page: b's records appended to a's. */
  method Join(x: Page, sep: Key, y: Page, h: nat, c: Conf, ghost lo: Option<Key>, ghost hi: Option<Key>)
    returns (m: Page)
    requires ConfOk(c) && Node(x, h, lo, Some(sep), c) && Node(y, h, Some(sep), hi, c)
    requires AboveLo(c.unique, lo, sep) && SepBelowHi(c.unique, hi, sep)
    requires NonEmpty(x) || NonEmpty(y)
    requires (Count(x) + Count(y)) * c.width <= KEY_SPACE
    ensures Kid(m, h, lo, hi, c) && Count(m) == Count(x) + Count(y)
    ensures Entries(m) == Entries(x) + Entries(y)
  {
    CapFits(c, Count(x) + Count(y));
    if x.Leaf? {
      assert y.Leaf?;
      JoinLeaf(x.items, y.items, sep, c.unique, lo, hi);
      m := Leaf(x.items + y.items);
    } else {
      assert y.Inner?;
      JoinInner(x.keys, x.kids, sep, y.keys, y.kids, h, lo, hi, c);
      FlattenAppend(x.kids, y.kids);
      m := Inner(x.keys + [sep] + y.keys, x.kids + y.kids);
    }
  }

  /** The records of children j and j + 1 are divided anew at t; separator j becomes the last key of the first. */
  method Redistribute(keys: seq<Key>, kids: seq<Page>, h: nat, c: Conf, ghost lo: Option<Key>, ghost hi: Option<Key>,
                      j: nat, x: Page, y: Page, t: int)
    returns (res: Rem)
    requires ConfOk(c) && Node(Inner(keys, kids), h, lo, hi, c) && |kids| == |keys| + 1 && j < |keys|
    requires Node(x, h - 1, LoOf(keys, lo, j), Some(keys[j]), c)
    requires Node(y, h - 1, Some(keys[j]), HiOf(keys, hi, j + 1), c)
    requires 2 <= t <= Cap(c) && 2 <= Count(x) + Count(y) - t <= Cap(c)
    ensures res.Removed? && RemOk(res, h, lo, hi, c)
    ensures Rest(res) == Flatten(kids[..j]) + (Entries(x) + Entries(y)) + Flatten(kids[j + 2..])
  {
    InnerFacts(keys, kids, h, lo, hi, c);
    SepBounds(keys, c.unique, lo, hi, j);
    var l, s, q := Divide(x, keys[j], y, h - 1, c, LoOf(keys, lo, j), HiOf(keys, hi, j + 1), t);
    var cs := kids[j := l][j + 1 := q];
    PairParent(keys, kids, h, lo, hi, c, j, l, s, q);
    InnerKid(keys[j := s], cs, h, lo, hi, c);
    res := Removed(Inner(keys[j := s], cs));
  }

  /**
   * The records of two neighbouring pages and their separator divided anew:
   * the first t records (and t - 1 keys) to the first page, the key after
   * them as the new separator, the rest to the second page.
   */
  method Divide(x: Page, sep: Key, y: Page, h: nat, c: Conf, ghost lo: Option<Key>, ghost hi: Option<Key>, t: int)
    returns (l: Page, s: Key, q: Page)
    requires ConfOk(c) && Node(x, h, lo, Some(sep), c) && Node(y, h, Some(sep), hi, c)
    requires AboveLo(c.unique, lo, sep) && SepBelowHi(c.unique, hi, sep)
    requires 2 <= t <= Cap(c) && 2 <= Count(x) + Count(y) - t <= Cap(c)
    ensures Kid(l, h, lo, Some(s), c) && Kid(q, h, Some(s), hi, c)
    ensures AboveLo(c.unique, lo, s) && SepBelowHi(c.unique, hi, s)
    ensures Count(l) == t && Entries(l) + Entries(q) == Entries(x) + Entries(y)
  {
    if x.Leaf? {
      assert y.Leaf?;
      var C := x.items + y.items;
      JoinLeaf(x.items, y.items, sep, c.unique, lo, hi);
      SplitLeaf(C, t, c.unique, lo, hi);
      assert C[..t] + C[t..] == C;
      l, s, q := Leaf(C[..t]), C[t - 1].key, Leaf(C[t..]);
    } else {
      assert y.Inner?;
      var CK, CC := x.keys + [sep] + y.keys, x.kids + y.kids;
      JoinInner(x.keys, x.kids, sep, y.keys, y.kids, h, lo, hi, c);
      SplitInner(CK, CC, h, lo, hi, c, t);
      FlattenAppend(x.kids, y.kids);
      FlattenDivide(CC, t);
      l, s, q := Inner(CK[..t - 1], CC[..t]), CK[t - 1], Inner(CK[t..], CC[t..]);
    }
  }
}
