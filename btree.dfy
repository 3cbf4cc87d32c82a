// dbBtree (storage/dybase/src/btree.cpp): one index object holding the
// root page and the height of a B-tree over scalar keys. insert grows the
// tree by a new root when the old root splits, remove shrinks it when the
// root is left without separators, and find checks the search's key type
// before walking the pages.

module BtreeIndex {
  import opened Codec
  import opened BtreeKey
  import opened BtreeNode
  import opened BtreeInsert
  import opened BtreeRemove
  import opened BtreeFind

  /** The page parameters of a tree over scalar keys of type t: a record is the key and a 4-byte oid. */
  function ConfOf(t: nat, unique: bool): (c: Conf)
    requires IsScalar(t)
    ensures ConfOk(c)
    ensures c.unique == unique && c.width == 4 + SizeofType(t)
  {
    Conf(unique, 4 + SizeofType(t))
  }

  /** A root holding the two halves of a split page and the separator between them. */
  lemma {:induction false} NewRoot(l: Page, s: Key, q: Page, h: nat, c: Conf)
    requires ConfOk(c) && InsOk(Split(l, s, q), h, None, None, c)
    ensures Kid(Inner([s], [l, q]), h + 1, None, None, c)
    ensures Entries(Inner([s], [l, q])) == Entries(l) + Entries(q)
  {
    CapBounds(c);
    assert Node(l, h, None, Some(s), c);
    if l.Inner? {
      InnerFacts(l.keys, l.kids, h, None, Some(s), c);
    }
    var keys, kids := [s], [l, q];
    assert Kid(kids[0], h, LoOf(keys, None, 0), HiOf(keys, None, 0), c);
    assert Kid(kids[1], h, LoOf(keys, None, 1), HiOf(keys, None, 1), c);
    assert KidsOk(keys, kids, h + 1, None, None, c);
    FlattenTwo(l, q);
  }

  /** A root left with no separator and one child: the child is the whole tree. */
  lemma {:induction false} OnlyChild(kids: seq<Page>, h: nat, c: Conf)
    requires Node(Inner([], kids), h, None, None, c)
    ensures |kids| == 1 && h > 1
    ensures Kid(kids[0], h - 1, None, None, c)
    ensures Entries(Inner([], kids)) == Entries(kids[0])
  {
    InnerFacts([], kids, h, None, None, c);
    assert Kid(kids[0], h - 1, LoOf([], None, 0), HiOf([], None, 0), c);
    assert kids == [kids[0]];
    FlattenOne(kids[0]);
  }

  /** Inserting into an empty tree yields the one item. */
  lemma {:induction false} InsertEmpty(it: Item, unique: bool, replace: bool)
    ensures Inserts([], it, unique, replace, false, [it])
  {
    assert Rank([], it.key) == 0;
    assert [] + [it] + [] == [it];
  }

  /** Removing from an empty tree finds nothing. */
  lemma {:induction false} RemoveEmpty(k: Key, oid: Oid)
    ensures Removes([], k, oid, false, [])
  {
  }

  /**
   * The root after an underflow: a leaf left empty empties the tree, an
   * inner page left with no separator gives way to its one child, and any
   * other page stays the root.
   */
  method Shrink(q: Page, h: nat, c: Conf) returns (root: Option<Page>, height: nat)
    requires ConfOk(c) && Node(q, h, None, None, c)
    ensures root.None? <==> height == 0
    ensures root.Some? ==> Kid(root.value, height, None, None, c)
    ensures (if root.None? then [] else Entries(root.value)) == Entries(q)
    ensures height == h || height + 1 == h
  {
    if q.Leaf? && |q.items| == 0 {
      root, height := None, 0;
    } else if q.Inner? && |q.keys| == 0 {
      OnlyChild(q.kids, h, c);
      root, height := Some(q.kids[0]), h - 1;
    } else {
      if q.Inner? {
        InnerFacts(q.keys, q.kids, h, None, None, c);
      }
      root, height := Some(q), h;
    }
  }

  class Btree {
    /** dbBtree::type: the field type of the keys. */
    const keyType: nat
    /** dbBtree::unique. */
    const unique: bool
    /** dbBtree::root, None for 0. */
    var root: Option<Page>
    /** dbBtree::height: 0 for an empty tree, 1 when the root is a leaf. */
    var height: nat

    function C(): Conf
      requires IsScalar(keyType)
    {
      ConfOf(keyType, unique)
    }

    /** An empty tree has height 0; otherwise the root is a well-formed page of the tree's height with no bounds. */
    ghost predicate Valid()
      reads this
    {
      IsScalar(keyType) &&
      (root.None? <==> height == 0) &&
      (root.Some? ==> Kid(root.value, height, None, None, C()))
    }

    /** The items of the index in key order. */
    ghost function Contents(): seq<Item>
      reads this
    {
      if root.None? then [] else Entries(root.value)
    }

    /** dbBtree::allocate: an empty index. */
    constructor (keyType: nat, unique: bool)
      requires IsScalar(keyType)
      ensures Valid() && Contents() == []
      ensures this.keyType == keyType && this.unique == unique
    {
      this.keyType := keyType;
      this.unique := unique;
      root := None;
      height := 0;
    }

    /**
     * dbBtree::insert: a key of another type is refused and nothing
     * changes; otherwise the item goes in as Inserts describes, and the
     * result is false exactly for a refused duplicate.
     */
    method Insert(key: Key, kType: nat, oid: Oid, replace: bool) returns (ok: bool)
      requires Valid()
      modifies this
      ensures Valid()
      ensures PackItem(keyType, kType, key, oid).Rejected? ==> !ok && root == old(root) && height == old(height)
      ensures PackItem(keyType, kType, key, oid).Packed? ==>
        Inserts(old(Contents()), Item(key, oid), unique, replace, !ok, if ok then Contents() else [])
      ensures !ok ==> root == old(root) && height == old(height)
      ensures ok ==> height == old(height) || height == old(height) + 1
    {
      var packed := PackItem(keyType, kType, key, oid);
      if packed.Rejected? {
        return false;
      }
      var it := packed.item;
      if root.None? {
        root := Some(Leaf([it]));
        height := 1;
        InsertEmpty(it, unique, replace);
        assert Kid(Leaf([it]), 1, None, None, C()) by { CapBounds(C()); }
        return true;
      }
      var res := InsertPage(root.value, height, it, replace, C(), None, None);
      match res {
        case Duplicate =>
          ok := false;
        case Done(q) =>
          root := Some(q);
          ok := true;
        case Split(l, s, q) =>
          NewRoot(l, s, q, height, C());
          root := Some(Inner([s], [l, q]));
          height := height + 1;
          ok := true;
      }
    }

    /**
     * dbBtree::remove: in a non-unique index the oid must be given; a key
     * of another type, an empty tree or a missing item leave the tree as
     * it was and give false. Otherwise the first matching item is removed;
     * a root leaf left empty empties the tree and a root left with one
     * child hands the tree to that child.
     */
    method Remove(key: Key, kType: nat, oid: Oid) returns (ok: bool)
      requires Valid()
      modifies this
      ensures Valid()
      ensures oid == 0 && !unique ==> !ok
      ensures PackItem(keyType, kType, key, oid).Rejected? ==> !ok
      ensures !ok ==> root == old(root) && height == old(height)
      ensures (oid != 0 || unique) && PackItem(keyType, kType, key, oid).Packed? ==>
        Removes(old(Contents()), key, oid, ok, if ok then Contents() else [])
      ensures ok ==> height == old(height) || height + 1 == old(height)
    {
      if oid == 0 && !unique {
        return false;
      }
      var packed := PackItem(keyType, kType, key, oid);
      if packed.Rejected? {
        return false;
      }
      if root.None? {
        RemoveEmpty(key, oid);
        return false;
      }
      var res := RemovePage(root.value, height, key, oid, C(), None, None);
      match res {
        case NotFound =>
          ok := false;
        case Removed(q) =>
          root := Some(q);
          ok := true;
        case Underflow(q) =>
          root, height := Shrink(q, height, C());
          ok := true;
      }
    }

    /**
     * dbBtree::find: a search whose key type differs from the tree's is
     * refused when it has a bound; an unbounded one adopts the tree's
     * type. The selection is then extended by the oids of the index's
     * items within the bounds, in key order.
     */
    method Find(sc: SearchContext) returns (ok: bool)
      requires Valid()
      modifies sc
      ensures ok <==> old(sc.keyType) == keyType || (sc.low.None? && sc.high.None?)
      ensures ok ==> sc.keyType == keyType && sc.selection == old(sc.selection) + Select(Contents(), sc.low, sc.high)
      ensures !ok ==> sc.keyType == old(sc.keyType) && sc.selection == old(sc.selection)
    {
      if sc.keyType != keyType {
        if sc.low.Some? || sc.high.Some? {
          return false;
        }
        sc.keyType := keyType;
      }
      if root.Some? {
        var _ := FindPage(root.value, sc, height, C(), None, None);
      } else {
        SelectNone([], sc.low, sc.high);
      }
      ok := true;
    }
  }
}
