// How the page shape of the B-tree survives the four structural moves of
// btree.cpp: dividing a full page in two (the INSERT macro), joining two
// sibling pages with the separator between them (handlePageUnderflow's
// merge), and replacing one child or two neighbouring children of an inner
// page (insert, remove and reallocation between siblings).

module BtreeShape {
  import opened Codec
  import opened BtreeKey
  import opened BtreeNode

  lemma {:induction false} RelLe(unique: bool, a: Key, b: Key)
    requires Rel(unique, a, b)
    ensures Le(a, b)
  {
  }

  /** a before-or-at b, b in relation to c: a in relation to c. */
  lemma {:induction false} LeRel(unique: bool, a: Key, b: Key, c: Key)
    requires Le(a, b) && Rel(unique, b, c)
    ensures Rel(unique, a, c)
  {
    LeTrans(a, b, c);
  }

  lemma {:induction false} RelLe2(unique: bool, a: Key, b: Key, c: Key)
    requires Rel(unique, a, b) && Le(b, c)
    ensures Rel(unique, a, c)
  {
    LeTrans(a, b, c);
  }

  lemma {:induction false} RelTrans(unique: bool, a: Key, b: Key, c: Key)
    requires Rel(unique, a, b) && Rel(unique, b, c)
    ensures Rel(unique, a, c)
  {
    LeTrans(a, b, c);
  }

  // ---------------------------------------------------------------------
  // Leaves

  /** Dividing the items of a leaf at t: the last item of the lower half separates the halves. */
  lemma {:induction false} SplitLeaf(C: seq<Item>, t: nat, unique: bool, lo: Option<Key>, hi: Option<Key>)
    requires LeafShape(C, unique, lo, hi) && 1 <= t < |C|
    ensures LeafShape(C[..t], unique, lo, Some(C[t - 1].key))
    ensures LeafShape(C[t..], unique, Some(C[t - 1].key), hi)
    ensures AboveLo(unique, lo, C[t - 1].key) && SepBelowHi(unique, hi, C[t - 1].key)
  {
    var s := C[t - 1].key;
    forall i | 0 <= i < t
      ensures BelowHi(Some(s), C[..t][i].key)
    {
      if i < t - 1 {
        RelLe(unique, C[i].key, s);
      }
    }
    if hi.Some? {
      RelLe2(unique, s, C[t].key, hi.value);
    }
  }

  /** Joining a leaf with its right sibling: their items in order, within the outer bounds. */
  lemma {:induction false} JoinLeaf(A: seq<Item>, B: seq<Item>, s: Key, unique: bool, lo: Option<Key>, hi: Option<Key>)
    requires LeafShape(A, unique, lo, Some(s)) && LeafShape(B, unique, Some(s), hi)
    requires AboveLo(unique, lo, s) && SepBelowHi(unique, hi, s)
    ensures LeafShape(A + B, unique, lo, hi)
  {
    var C := A + B;
    forall i, j | 0 <= i < j < |C|
      ensures Rel(unique, C[i].key, C[j].key)
    {
      if j < |A| {
        assert C[i] == A[i] && C[j] == A[j];
      } else if i >= |A| {
        assert C[i] == B[i - |A|] && C[j] == B[j - |A|];
      } else {
        assert C[i] == A[i] && C[j] == B[j - |A|];
        LeRel(unique, A[i].key, s, B[j - |A|].key);
      }
    }
    forall i | 0 <= i < |C|
      ensures AboveLo(unique, lo, C[i].key) && BelowHi(hi, C[i].key)
    {
      if i < |A| {
        assert C[i] == A[i];
        if hi.Some? {
          RelLe(unique, s, hi.value);
          LeTrans(A[i].key, s, hi.value);
        }
      } else {
        assert C[i] == B[i - |A|];
        if lo.Some? {
          RelTrans(unique, lo.value, s, B[i - |A|].key);
        }
      }
    }
  }

  // ---------------------------------------------------------------------
  // Inner pages

  /** Dividing the children of an inner page at t: key t - 1 moves up as the separator. */
  lemma {:induction false} SplitInner(CK: seq<Key>, CC: seq<Page>, h: nat, lo: Option<Key>, hi: Option<Key>, c: Conf, t: nat)
    requires InnerShape(CK, CC, h, lo, hi, c) && 1 <= t < |CC|
    ensures InnerShape(CK[..t - 1], CC[..t], h, lo, Some(CK[t - 1]), c)
    ensures InnerShape(CK[t..], CC[t..], h, Some(CK[t - 1]), hi, c)
    ensures AboveLo(c.unique, lo, CK[t - 1]) && SepBelowHi(c.unique, hi, CK[t - 1])
  {
    var s := CK[t - 1];
    var LK, LC, RK, RC := CK[..t - 1], CC[..t], CK[t..], CC[t..];
    forall i | 0 <= i < |LC|
      ensures Kid(LC[i], h - 1, LoOf(LK, lo, i), HiOf(LK, Some(s), i), c)
    {
      assert LC[i] == CC[i];
      assert LoOf(LK, lo, i) == LoOf(CK, lo, i);
      assert HiOf(LK, Some(s), i) == HiOf(CK, hi, i);
    }
    forall i | 0 <= i < |RC|
      ensures Kid(RC[i], h - 1, LoOf(RK, Some(s), i), HiOf(RK, hi, i), c)
    {
      assert RC[i] == CC[t + i];
      assert LoOf(RK, Some(s), i) == LoOf(CK, lo, t + i);
      assert HiOf(RK, hi, i) == HiOf(CK, hi, t + i);
    }
    assert KeysIn(LK, c.unique, lo, Some(s));
    assert KeysIn(RK, c.unique, Some(s), hi);
  }

  /** Joining an inner page with its right sibling, the separator between them moving down. */
  lemma {:induction false} JoinInner(AK: seq<Key>, AC: seq<Page>, s: Key, BK: seq<Key>, BC: seq<Page>,
                                     h: nat, lo: Option<Key>, hi: Option<Key>, c: Conf)
    requires InnerShape(AK, AC, h, lo, Some(s), c) && InnerShape(BK, BC, h, Some(s), hi, c)
    requires AboveLo(c.unique, lo, s) && SepBelowHi(c.unique, hi, s)
    ensures InnerShape(AK + [s] + BK, AC + BC, h, lo, hi, c)
  {
    var u := c.unique;
    var CK, CC := AK + [s] + BK, AC + BC;
    var n := |AK| + 1;
    forall i, j | 0 <= i < j < |CK|
      ensures Rel(u, CK[i], CK[j])
    {
      if j < |AK| {
        assert CK[i] == AK[i] && CK[j] == AK[j];
      } else if j == |AK| {
        assert CK[i] == AK[i] && CK[j] == s;
      } else if i > |AK| {
        assert CK[i] == BK[i - n] && CK[j] == BK[j - n];
      } else if i == |AK| {
        assert CK[i] == s && CK[j] == BK[j - n];
      } else {
        assert CK[i] == AK[i] && CK[j] == BK[j - n];
        RelTrans(u, AK[i], s, BK[j - n]);
      }
    }
    forall i | 0 <= i < |CK|
      ensures AboveLo(u, lo, CK[i]) && SepBelowHi(u, hi, CK[i])
    {
      if i < |AK| {
        assert CK[i] == AK[i];
        if hi.Some? {
          RelTrans(u, AK[i], s, hi.value);
        }
      } else if i > |AK| {
        assert CK[i] == BK[i - n];
        if lo.Some? {
          RelTrans(u, lo.value, s, BK[i - n]);
        }
      }
    }
    forall i | 0 <= i < |CC|
      ensures Kid(CC[i], h - 1, LoOf(CK, lo, i), HiOf(CK, hi, i), c)
    {
      if i < |AC| {
        assert CC[i] == AC[i];
        assert LoOf(CK, lo, i) == LoOf(AK, lo, i);
        assert HiOf(CK, hi, i) == HiOf(AK, Some(s), i);
      } else {
        var j := i - |AC|;
        assert CC[i] == BC[j];
        assert LoOf(CK, lo, i) == LoOf(BK, Some(s), j);
        assert HiOf(CK, hi, i) == HiOf(BK, hi, j);
      }
    }
  }

  /** One child replaced by a page of the same bounds. */
  lemma {:induction false} ReplaceKid(keys: seq<Key>, kids: seq<Page>, h: nat, lo: Option<Key>, hi: Option<Key>, c: Conf,
                                      r: nat, q: Page)
    requires InnerShape(keys, kids, h, lo, hi, c) && r < |kids|
    requires Kid(q, h - 1, LoOf(keys, lo, r), HiOf(keys, hi, r), c)
    ensures InnerShape(keys, kids[r := q], h, lo, hi, c)
  {
    var kids' := kids[r := q];
    forall i | 0 <= i < |kids'|
      ensures Kid(kids'[i], h - 1, LoOf(keys, lo, i), HiOf(keys, hi, i), c)
    {
      if i != r {
        assert kids'[i] == kids[i];
      }
    }
  }

  lemma {:induction false} InsertKeys(keys: seq<Key>, u: bool, lo: Option<Key>, hi: Option<Key>, r: nat, s: Key)
    requires KeysOk(keys, u, lo, hi) && r <= |keys|
    requires AboveLo(u, LoOf(keys, lo, r), s) && SepBelowHi(u, HiOf(keys, hi, r), s)
    ensures KeysOk(keys[..r] + [s] + keys[r..], u, lo, hi)
  {
    var ks := keys[..r] + [s] + keys[r..];
    forall i, j | 0 <= i < j < |ks|
      ensures Rel(u, ks[i], ks[j])
    {
      if j < r {
        assert ks[i] == keys[i] && ks[j] == keys[j];
      } else if j == r {
        assert ks[i] == keys[i] && ks[j] == s;
        if i < r - 1 {
          RelTrans(u, keys[i], keys[r - 1], s);
        }
      } else if i > r {
        assert ks[i] == keys[i - 1] && ks[j] == keys[j - 1];
      } else if i == r {
        assert ks[i] == s && ks[j] == keys[j - 1];
        if j - 1 > r {
          RelTrans(u, s, keys[r], keys[j - 1]);
        }
      } else {
        assert ks[i] == keys[i] && ks[j] == keys[j - 1];
      }
    }
    forall i | 0 <= i < |ks|
      ensures AboveLo(u, lo, ks[i]) && SepBelowHi(u, hi, ks[i])
    {
      if i < r {
        assert ks[i] == keys[i];
      } else if i > r {
        assert ks[i] == keys[i - 1];
      } else {
        if lo.Some? && r > 0 {
          RelTrans(u, lo.value, keys[r - 1], s);
        }
        if hi.Some? && r < |keys| {
          RelTrans(u, s, keys[r], hi.value);
        }
      }
    }
  }

  lemma {:induction false} InsertKids(keys: seq<Key>, kids: seq<Page>, h: nat, lo: Option<Key>, hi: Option<Key>, c: Conf,
                                      r: nat, l: Page, s: Key, q: Page)
    requires |kids| == |keys| + 1 && KidsOk(keys, kids, h, lo, hi, c) && r < |kids|
    requires Kid(l, h - 1, LoOf(keys, lo, r), Some(s), c) && Kid(q, h - 1, Some(s), HiOf(keys, hi, r), c)
    ensures KidsOk(keys[..r] + [s] + keys[r..], kids[..r] + [l, q] + kids[r + 1..], h, lo, hi, c)
  {
    var ks, cs := keys[..r] + [s] + keys[r..], kids[..r] + [l, q] + kids[r + 1..];
    forall i | 0 <= i < |cs|
      ensures Kid(cs[i], h - 1, LoOf(ks, lo, i), HiOf(ks, hi, i), c)
    {
      if i < r {
        assert cs[i] == kids[i];
        assert LoOf(ks, lo, i) == LoOf(keys, lo, i);
        assert HiOf(ks, hi, i) == HiOf(keys, hi, i);
      } else if i == r {
        assert cs[i] == l;
        assert LoOf(ks, lo, i) == LoOf(keys, lo, r);
      } else if i == r + 1 {
        assert cs[i] == q;
        assert HiOf(ks, hi, i) == HiOf(keys, hi, r);
      } else {
        assert cs[i] == kids[i - 1];
        assert LoOf(ks, lo, i) == LoOf(keys, lo, i - 1);
        assert HiOf(ks, hi, i) == HiOf(keys, hi, i - 1);
      }
    }
  }

  /** A child divided in two: its lower half and the separator are inserted before the upper half. */
  lemma {:induction false} InsertKid(keys: seq<Key>, kids: seq<Page>, h: nat, lo: Option<Key>, hi: Option<Key>, c: Conf,
                                     r: nat, l: Page, s: Key, q: Page)
    requires InnerShape(keys, kids, h, lo, hi, c) && r < |kids|
    requires Kid(l, h - 1, LoOf(keys, lo, r), Some(s), c) && Kid(q, h - 1, Some(s), HiOf(keys, hi, r), c)
    requires AboveLo(c.unique, LoOf(keys, lo, r), s) && SepBelowHi(c.unique, HiOf(keys, hi, r), s)
    ensures InnerShape(keys[..r] + [s] + keys[r..], kids[..r] + [l, q] + kids[r + 1..], h, lo, hi, c)
  {
    InsertKeys(keys, c.unique, lo, hi, r, s);
    InsertKids(keys, kids, h, lo, hi, c, r, l, s, q);
  }

  lemma {:induction false} MergeKeys(keys: seq<Key>, u: bool, lo: Option<Key>, hi: Option<Key>, j: nat)
    requires KeysOk(keys, u, lo, hi) && j < |keys|
    ensures KeysOk(keys[..j] + keys[j + 1..], u, lo, hi)
  {
    var ks := keys[..j] + keys[j + 1..];
    forall a, b | 0 <= a < b < |ks|
      ensures Rel(u, ks[a], ks[b])
    {
      assert ks[a] == keys[if a < j then a else a + 1];
      assert ks[b] == keys[if b < j then b else b + 1];
    }
    forall i | 0 <= i < |ks|
      ensures AboveLo(u, lo, ks[i]) && SepBelowHi(u, hi, ks[i])
    {
      assert ks[i] == keys[if i < j then i else i + 1];
    }
  }

  lemma {:induction false} MergeKidsOk(keys: seq<Key>, kids: seq<Page>, h: nat, lo: Option<Key>, hi: Option<Key>, c: Conf,
                                       j: nat, q: Page)
    requires |kids| == |keys| + 1 && KidsOk(keys, kids, h, lo, hi, c) && j < |keys|
    requires Kid(q, h - 1, LoOf(keys, lo, j), HiOf(keys, hi, j + 1), c)
    ensures KidsOk(keys[..j] + keys[j + 1..], kids[..j] + [q] + kids[j + 2..], h, lo, hi, c)
  {
    var ks, cs := keys[..j] + keys[j + 1..], kids[..j] + [q] + kids[j + 2..];
    forall i | 0 <= i < |cs|
      ensures Kid(cs[i], h - 1, LoOf(ks, lo, i), HiOf(ks, hi, i), c)
    {
      if i < j {
        assert cs[i] == kids[i];
        assert LoOf(ks, lo, i) == LoOf(keys, lo, i);
        assert HiOf(ks, hi, i) == HiOf(keys, hi, i);
      } else if i == j {
        assert LoOf(ks, lo, i) == LoOf(keys, lo, j);
        assert HiOf(ks, hi, i) == HiOf(keys, hi, j + 1);
      } else {
        assert cs[i] == kids[i + 1];
        assert LoOf(ks, lo, i) == LoOf(keys, lo, i + 1);
        assert HiOf(ks, hi, i) == HiOf(keys, hi, i + 1);
      }
    }
  }

  /** Children j and j + 1 replaced by one page spanning both, separator j dropped. */
  lemma {:induction false} MergeKids(keys: seq<Key>, kids: seq<Page>, h: nat, lo: Option<Key>, hi: Option<Key>, c: Conf,
                                     j: nat, q: Page)
    requires InnerShape(keys, kids, h, lo, hi, c) && j < |keys|
    requires Kid(q, h - 1, LoOf(keys, lo, j), HiOf(keys, hi, j + 1), c)
    ensures InnerShape(keys[..j] + keys[j + 1..], kids[..j] + [q] + kids[j + 2..], h, lo, hi, c)
  {
    MergeKeys(keys, c.unique, lo, hi, j);
    MergeKidsOk(keys, kids, h, lo, hi, c, j, q);
  }

  lemma {:induction false} PairKeys(keys: seq<Key>, u: bool, lo: Option<Key>, hi: Option<Key>, j: nat, s: Key)
    requires KeysOk(keys, u, lo, hi) && j < |keys|
    requires AboveLo(u, LoOf(keys, lo, j), s) && SepBelowHi(u, HiOf(keys, hi, j + 1), s)
    ensures KeysOk(keys[j := s], u, lo, hi)
  {
    var ks := keys[j := s];
    forall x, y | 0 <= x < y < |ks|
      ensures Rel(u, ks[x], ks[y])
    {
      if x == j {
        if y > j + 1 {
          RelTrans(u, s, keys[j + 1], keys[y]);
        }
      } else if y == j {
        if x < j - 1 {
          RelTrans(u, keys[x], keys[j - 1], s);
        }
      }
    }
    forall i | 0 <= i < |ks|
      ensures AboveLo(u, lo, ks[i]) && SepBelowHi(u, hi, ks[i])
    {
      if i == j {
        if lo.Some? && j > 0 {
          RelTrans(u, lo.value, keys[j - 1], s);
        }
        if hi.Some? && j + 1 < |keys| {
          RelTrans(u, s, keys[j + 1], hi.value);
        }
      }
    }
  }

  lemma {:induction false} PairKids(keys: seq<Key>, kids: seq<Page>, h: nat, lo: Option<Key>, hi: Option<Key>, c: Conf,
                                    j: nat, a: Page, s: Key, b: Page)
    requires |kids| == |keys| + 1 && KidsOk(keys, kids, h, lo, hi, c) && j < |keys|
    requires Kid(a, h - 1, LoOf(keys, lo, j), Some(s), c) && Kid(b, h - 1, Some(s), HiOf(keys, hi, j + 1), c)
    ensures KidsOk(keys[j := s], kids[j := a][j + 1 := b], h, lo, hi, c)
  {
    var ks, cs := keys[j := s], kids[j := a][j + 1 := b];
    forall i | 0 <= i < |cs|
      ensures Kid(cs[i], h - 1, LoOf(ks, lo, i), HiOf(ks, hi, i), c)
    {
      if i < j || i > j + 1 {
        assert cs[i] == kids[i];
        assert LoOf(ks, lo, i) == LoOf(keys, lo, i);
        assert HiOf(ks, hi, i) == HiOf(keys, hi, i);
      } else if i == j {
        assert LoOf(ks, lo, i) == LoOf(keys, lo, j);
      } else {
        assert HiOf(ks, hi, i) == HiOf(keys, hi, j + 1);
      }
    }
  }

  /** Children j and j + 1 replaced by two pages meeting at a new separator j. */
  lemma {:induction false} ReplacePair(keys: seq<Key>, kids: seq<Page>, h: nat, lo: Option<Key>, hi: Option<Key>, c: Conf,
                                       j: nat, a: Page, s: Key, b: Page)
    requires InnerShape(keys, kids, h, lo, hi, c) && j < |keys|
    requires Kid(a, h - 1, LoOf(keys, lo, j), Some(s), c) && Kid(b, h - 1, Some(s), HiOf(keys, hi, j + 1), c)
    requires AboveLo(c.unique, LoOf(keys, lo, j), s) && SepBelowHi(c.unique, HiOf(keys, hi, j + 1), s)
    ensures InnerShape(keys[j := s], kids[j := a][j + 1 := b], h, lo, hi, c)
  {
    PairKeys(keys, c.unique, lo, hi, j, s);
    PairKids(keys, kids, h, lo, hi, c, j, a, s, b);
  }
}
