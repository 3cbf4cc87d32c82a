// Keys of the dybase B-tree: the byte-string comparison used for string
// keys, the order every page keeps, and the packing of a caller's key into
// an item (storage/dybase/src/btree.cpp).

module BtreeKey {
  import opened Bits
  import opened Codec

  /** sizeof(charKey): the bytes of a page after its two 32-bit counters. */
  const KEY_SPACE: nat := 4088
  /** sizeof(dbBtreePage::str): oid, size and offset of one string key. */
  const STR_SIZE: nat := 8
  /** dbMaxKeyLen = (dbPageSize - 2 * sizeof(str)) / 2. */
  const MAX_KEY_LEN: nat := 2040

  type Oid = uint32

  /**
   * A key as the tree compares it: scalar keys (references, bool, int,
   * date, long, real) by their numeric value, string and byte keys by
   * their bytes.
   */
  datatype Key = Num(n: int) | Str(s: seq<uint8>)

  /** dbBtreePage::item once packed: the key and the object it indexes. */
  datatype Item = Item(key: Key, oid: Oid)

  // ---------------------------------------------------------------------
  // compareStrings

  /** memcmp over two byte strings of one length: the difference of the first bytes that differ. */
  function MemCmp(a: seq<uint8>, b: seq<uint8>): (d: int)
    requires |a| == |b|
    ensures d == 0 <==> a == b
    decreases |a|
  {
    if a == [] then 0
    else if a[0] != b[0] then a[0] - b[0]
    else
      assert a == [a[0]] + a[1..] && b == [b[0]] + b[1..];
      MemCmp(a[1..], b[1..])
  }

  /** compareStrings: memcmp over the common length, then the shorter key first. */
  function CompareStrings(s1: seq<uint8>, s2: seq<uint8>): int
  {
    var len := if |s1| < |s2| then |s1| else |s2|;
    var diff := MemCmp(s1[..len], s2[..len]);
    if diff != 0 then diff else |s1| - |s2|
  }

  /** Lexicographic order on byte strings, a proper prefix first: the reference the comparison is held to. */
  ghost predicate LexLess(a: seq<uint8>, b: seq<uint8>)
    decreases |a|
  {
    b != [] && (a == [] || a[0] < b[0] || (a[0] == b[0] && LexLess(a[1..], b[1..])))
  }

  lemma {:induction false} MemCmpLex(a: seq<uint8>, b: seq<uint8>)
    requires |a| == |b|
    ensures MemCmp(a, b) < 0 <==> LexLess(a, b)
    ensures MemCmp(a, b) > 0 <==> LexLess(b, a)
    decreases |a|
  {
    if a != [] && a[0] == b[0] {
      MemCmpLex(a[1..], b[1..]);
    }
  }

  /** A string that extends a keeps a's place before b when a differs from b within b's length. */
  lemma {:induction false} LexLessPrefixes(a: seq<uint8>, b: seq<uint8>, n: nat)
    requires n <= |a| && n <= |b|
    ensures LexLess(a[..n], b[..n]) ==> LexLess(a, b)
    ensures LexLess(b[..n], a[..n]) ==> LexLess(b, a)
    decreases n
  {
    if n > 0 {
      assert a[..n][1..] == a[1..][..n - 1] && b[..n][1..] == b[1..][..n - 1];
      LexLessPrefixes(a[1..], b[1..], n - 1);
    }
  }

  /** A proper prefix comes first. */
  lemma {:induction false} LexLessPrefix(a: seq<uint8>, b: seq<uint8>)
    requires |a| < |b| && a == b[..|a|]
    ensures LexLess(a, b)
    decreases |a|
  {
    if a != [] {
      assert a[1..] == b[1..][..|a| - 1];
      LexLessPrefix(a[1..], b[1..]);
    }
  }

  lemma {:induction false} LexLessIrreflexive(a: seq<uint8>)
    ensures !LexLess(a, a)
    decreases |a|
  {
    if a != [] {
      LexLessIrreflexive(a[1..]);
    }
  }

  lemma {:induction false} LexLessTrans(a: seq<uint8>, b: seq<uint8>, c: seq<uint8>)
    requires LexLess(a, b) && LexLess(b, c)
    ensures LexLess(a, c)
    decreases |a|
  {
    if a != [] && a[0] == b[0] && b[0] == c[0] {
      LexLessTrans(a[1..], b[1..], c[1..]);
    }
  }

  lemma {:induction false} LexLessTotal(a: seq<uint8>, b: seq<uint8>)
    ensures a == b || LexLess(a, b) || LexLess(b, a)
    decreases |a|
  {
    if a != [] && b != [] && a[0] == b[0] {
      LexLessTotal(a[1..], b[1..]);
      if a[1..] == b[1..] {
        assert a == [a[0]] + a[1..] && b == [b[0]] + b[1..];
      }
    }
  }

  /**
   * compareStrings is negative exactly when s1 comes first
   * lexicographically, zero exactly on equal keys, and positive exactly
   * when s2 comes first.
   */
  lemma {:induction false} CompareStringsOrder(s1: seq<uint8>, s2: seq<uint8>)
    ensures CompareStrings(s1, s2) < 0 <==> LexLess(s1, s2)
    ensures CompareStrings(s1, s2) == 0 <==> s1 == s2
    ensures CompareStrings(s1, s2) > 0 <==> LexLess(s2, s1)
  {
    var len := if |s1| < |s2| then |s1| else |s2|;
    MemCmpLex(s1[..len], s2[..len]);
    LexLessPrefixes(s1, s2, len);
    LexLessIrreflexive(s1);
    if LexLess(s1, s2) && LexLess(s2, s1) {
      LexLessTrans(s1, s2, s1);
    }
    if MemCmp(s1[..len], s2[..len]) == 0 {
      if |s1| < |s2| {
        LexLessPrefix(s1, s2);
      } else if |s2| < |s1| {
        LexLessPrefix(s2, s1);
      } else {
        assert s1 == s1[..len] && s2 == s2[..len];
      }
    } else {
      assert s1[..len] != s2[..len];
      LexLessTotal(s1[..len], s2[..len]);
    }
  }

  // ---------------------------------------------------------------------
  // The key order

  /** Strictly before: numeric order on scalar keys, compareStrings on strings (and, never mixed in one tree, scalars first). */
  ghost predicate Lt(a: Key, b: Key)
  {
    if a.Num? && b.Num? then a.n < b.n
    else if a.Str? && b.Str? then LexLess(a.s, b.s)
    else a.Num? && b.Str?
  }

  ghost predicate Le(a: Key, b: Key)
  {
    a == b || Lt(a, b)
  }

  /**
   * The three-way comparison the page code makes: the native comparison of
   * two scalars, compareStrings on string keys.
   */
  function Cmp(a: Key, b: Key): int
  {
    if a.Num? && b.Num? then (if a.n < b.n then -1 else if a.n == b.n then 0 else 1)
    else if a.Str? && b.Str? then CompareStrings(a.s, b.s)
    else if a.Num? then -1 else 1
  }

  /** The comparison agrees with the key order in all three outcomes. */
  lemma {:induction false} CmpOrder(a: Key, b: Key)
    ensures Cmp(a, b) < 0 <==> Lt(a, b)
    ensures Cmp(a, b) == 0 <==> a == b
    ensures Cmp(a, b) > 0 <==> Lt(b, a)
  {
    if a.Str? && b.Str? {
      CompareStringsOrder(a.s, b.s);
    }
  }

  lemma {:induction false} LtIrreflexive(a: Key)
    ensures !Lt(a, a)
  {
    if a.Str? {
      LexLessIrreflexive(a.s);
    }
  }

  lemma {:induction false} LtTrans(a: Key, b: Key, c: Key)
    requires Lt(a, b) && Lt(b, c)
    ensures Lt(a, c)
  {
    if a.Str? && b.Str? && c.Str? {
      LexLessTrans(a.s, b.s, c.s);
    }
  }

  lemma {:induction false} LeTrans(a: Key, b: Key, c: Key)
    requires Le(a, b) && Le(b, c)
    ensures Le(a, c)
    ensures Lt(a, b) || Lt(b, c) ==> Lt(a, c)
  {
    if Lt(a, b) && Lt(b, c) {
      LtTrans(a, b, c);
    }
  }

  lemma {:induction false} LtTotal(a: Key, b: Key)
    ensures a == b || Lt(a, b) || Lt(b, a)
  {
    if a.Str? && b.Str? {
      LexLessTotal(a.s, b.s);
    }
  }

  /** In a strict total order, exactly one of a < b, a == b, b < a holds. */
  lemma {:induction false} LtAsym(a: Key, b: Key)
    ensures Lt(a, b) ==> !Lt(b, a) && a != b
  {
    LtIrreflexive(a);
    if Lt(a, b) && Lt(b, a) {
      LtTrans(a, b, a);
    }
  }

  /** Not before means at or after. */
  lemma {:induction false} NotLt(a: Key, b: Key)
    ensures !Lt(a, b) <==> Le(b, a)
  {
    LtTotal(a, b);
    LtAsym(b, a);
  }

  // ---------------------------------------------------------------------
  // packItem

  datatype PackError = BadKeyType | KeyTooLong

  datatype Packed = Packed(item: Item) | Rejected(error: PackError)

  /** Types an index is created over: the scalars and the two string types. */
  predicate IsKeyType(t: nat)
  {
    IsScalar(t) || HasPayload(t)
  }

  /** packItem's key length checks: a string key of more than dbMaxKeyLen bytes is refused. */
  predicate TooLong(t: nat, key: Key)
  {
    HasPayload(t) && key.Str? && |key.s| > MAX_KEY_LEN
  }

  /**
   * packItem: a key whose type is not the tree's type is refused with
   * dybase_bad_key_type; a string or byte key is refused when longer than
   * dbMaxKeyLen; otherwise the item carries the key and the oid.
   */
  function PackItem(treeType: nat, keyType: nat, key: Key, oid: Oid): (r: Packed)
    ensures r.Packed? <==> keyType == treeType && !TooLong(keyType, key)
    ensures r.Packed? ==> r.item == Item(key, oid)
    ensures keyType != treeType ==> r == Rejected(BadKeyType)
    ensures keyType == treeType && TooLong(keyType, key) ==> r == Rejected(KeyTooLong)
  {
    if keyType != treeType then Rejected(BadKeyType)
    else if TooLong(keyType, key) then Rejected(KeyTooLong)
    else Packed(Item(key, oid))
  }
}
