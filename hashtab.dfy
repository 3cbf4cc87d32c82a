/**
 * The object store's chained hash table: 1013 buckets of entries that map
 * a byte key to a value. A chain is a sequence, head first; a missing value
 * (the C code's NULL) is None.
 *
 * The C table keeps the caller's key pointer rather than a copy; the model
 * keeps the key's bytes.
 */
module HashTab {
  import opened Bits

  datatype Option<T> = None | Some(value: T)

  const HASHTABLE_SIZE: nat := 1013

  datatype Entry<V> = Entry(key: seq<uint8>, value: V, hashCode: uint32)

  // ---------------------------------------------------------------------
  // The hash: h := (h << 2) ^ byte over the key, in unsigned 32-bit.

  function HashStep(h: uint32, b: uint8): (r: uint32)
    ensures r % 4 == b % 4
  {
    Pow2Of32();
    XorLow2((h * 4) % TWO32, b);
    XorBound((h * 4) % TWO32, b, 32);
    Xor((h * 4) % TWO32, b)
  }

  /** The hash of s continued from the accumulator h. */
  function HashFrom(h: uint32, s: seq<uint8>): uint32
    decreases |s|
  {
    if |s| == 0 then h else HashFrom(HashStep(h, s[0]), s[1..])
  }

  function HashOf(key: seq<uint8>): uint32
  {
    HashFrom(0, key)
  }

  /** The hash of s + [b] takes one more step after the hash of s. */
  lemma {:induction false} HashFromSnoc(h: uint32, s: seq<uint8>, b: uint8)
    ensures HashFrom(h, s + [b]) == HashStep(HashFrom(h, s), b)
    decreases |s|
  {
    if |s| > 0 {
      assert (s + [b])[1..] == s[1..] + [b];
      HashFromSnoc(HashStep(h, s[0]), s[1..], b);
    }
  }

  /** calculateHashCode: the accumulator loop computes HashOf. */
  method CalculateHashCode(key: seq<uint8>) returns (h: uint32)
    ensures h == HashOf(key)
  {
    h := 0;
    var i := 0;
    while i < |key|
      invariant i <= |key| && h == HashOf(key[..i])
    {
      HashFromSnoc(0, key[..i], key[i]);
      assert key[..i + 1] == key[..i] + [key[i]];
      h := HashStep(h, key[i]);
      i := i + 1;
    }
    assert key[..i] == key;
  }

  /** A leading zero byte does not change the hash, so [0, 0] and [0] collide. */
  lemma {:induction false} LeadingZeroHash(s: seq<uint8>)
    ensures HashOf([0] + s) == HashOf(s)
  {
    assert ([0] + s)[1..] == s;
    assert HashStep(0, 0) == 0;
  }

  function Bucket(hashCode: uint32): (h: nat)
    ensures h < HASHTABLE_SIZE
  {
    hashCode % HASHTABLE_SIZE
  }

  // ---------------------------------------------------------------------
  // Chains.

  /** The test of get: same hash, same size and same bytes. */
  predicate Matches<V>(e: Entry<V>, key: seq<uint8>, hashCode: uint32)
  {
    e.hashCode == hashCode && |e.key| == |key| && e.key == key
  }

  /** The position of the first entry of a chain that matches, or -1. */
  function MatchIndex<V>(chain: seq<Entry<V>>, key: seq<uint8>, hashCode: uint32): (r: int)
    ensures -1 <= r < |chain|
    ensures r >= 0 ==> Matches(chain[r], key, hashCode)
    ensures forall j | 0 <= j < |chain| && (r < 0 || j < r) :: !Matches(chain[j], key, hashCode)
    decreases |chain|
  {
    if |chain| == 0 then -1
    else if Matches(chain[0], key, hashCode) then 0
    else
      var r' := MatchIndex(chain[1..], key, hashCode);
      assert forall j | 1 <= j < |chain| :: chain[j] == chain[1..][j - 1];
      if r' < 0 then -1 else r' + 1
  }

  /** The value of the first matching entry of a chain. */
  function FindIn<V>(chain: seq<Entry<V>>, key: seq<uint8>, hashCode: uint32): Option<V>
  {
    var i := MatchIndex(chain, key, hashCode);
    if i < 0 then None else Some(chain[i].value)
  }

  /** A chain without its entry at i. */
  function Without<T>(chain: seq<T>, i: nat): (r: seq<T>)
    requires i < |chain|
    ensures |r| == |chain| - 1
    ensures forall j | 0 <= j < |r| :: r[j] == if j < i then chain[j] else chain[j + 1]
  {
    chain[..i] + chain[i + 1..]
  }

  /** A new head that matches is found first; one that does not leaves the lookup as it was. */
  lemma {:induction false} FindInPrepend<V>(e: Entry<V>, chain: seq<Entry<V>>, key: seq<uint8>, hashCode: uint32)
    ensures Matches(e, key, hashCode) ==> FindIn([e] + chain, key, hashCode) == Some(e.value)
    ensures !Matches(e, key, hashCode) ==> FindIn([e] + chain, key, hashCode) == FindIn(chain, key, hashCode)
  {
    var c := [e] + chain;
    assert c[1..] == chain;
  }

  /** Removing the first match of a chain whose head was just put gives the chain back. */
  lemma {:induction false} RemoveUndoesPut<V>(e: Entry<V>, chain: seq<Entry<V>>)
    ensures MatchIndex([e] + chain, e.key, e.hashCode) == 0
    ensures Without([e] + chain, 0) == chain
  {
    assert Matches(e, e.key, e.hashCode);
  }

  // ---------------------------------------------------------------------
  // The order of each: buckets from the last down to the first, each chain
  // from its head.

  /** The entries of buckets n - 1 down to 0, in enumeration order. */
  function Descending<V>(t: seq<seq<Entry<V>>>, n: nat): seq<Entry<V>>
    requires n <= |t|
  {
    if n == 0 then [] else t[n - 1] + Descending(t, n - 1)
  }

  /** The entries a chain walk visits with cb until cb first holds, that one included. */
  function ChainVisits<V>(chain: seq<Entry<V>>, cb: (seq<uint8>, V) -> bool): (r: seq<Entry<V>>)
    ensures |r| <= |chain| && r == chain[..|r|]
    ensures forall k | 0 <= k < |r| - 1 :: !cb(r[k].key, r[k].value)
    ensures |r| < |chain| ==> |r| > 0 && cb(r[|r| - 1].key, r[|r| - 1].value)
    decreases |chain|
  {
    if |chain| == 0 then []
    else if cb(chain[0].key, chain[0].value) then [chain[0]]
    else
      var rest := ChainVisits(chain[1..], cb);
      assert forall k | 0 <= k < |rest| :: rest[k] == chain[k + 1];
      [chain[0]] + rest
  }

  /** What each as written visits: every bucket's walk, a stop ending only that walk. */
  function VisitsAsWritten<V>(t: seq<seq<Entry<V>>>, n: nat, cb: (seq<uint8>, V) -> bool): seq<Entry<V>>
    requires n <= |t|
  {
    if n == 0 then [] else ChainVisits(t[n - 1], cb) + VisitsAsWritten(t, n - 1, cb)
  }

  /**
   * The callback stops the walk of the first bucket at its first entry, and
   * the enumeration goes on with the next bucket.
   */
  lemma {:induction false} EachContinuesAfterStop<V>(t: seq<seq<Entry<V>>>, cb: (seq<uint8>, V) -> bool)
    requires |t| >= 2 && |t[|t| - 1]| > 0 && |t[|t| - 2]| > 0
    requires cb(t[|t| - 1][0].key, t[|t| - 1][0].value)
    ensures var v := VisitsAsWritten(t, |t|, cb);
      |v| >= 2 && v[0] == t[|t| - 1][0] && v[1] == t[|t| - 2][0]
  {
    var n := |t|;
    var first := ChainVisits(t[n - 1], cb);
    assert first == [t[n - 1][0]];
    var second := ChainVisits(t[n - 2], cb);
    assert VisitsAsWritten(t, n - 1, cb) == second + VisitsAsWritten(t, n - 2, cb);
    assert second[0] == t[n - 2][0];
  }

  lemma {:induction false} DescendingStep<V>(t: seq<seq<Entry<V>>>, n: nat, visited: seq<Entry<V>>)
    requires 0 < n <= |t|
    ensures visited + Descending(t, n) == (visited + t[n - 1]) + Descending(t, n - 1)
  {
  }

  /** A prefix of a chain, then the whole rest of the enumeration, is a prefix of it. */
  lemma {:induction false} PrefixOfEnumeration<V>(visited: seq<Entry<V>>, chain: seq<Entry<V>>, j: nat, rest: seq<Entry<V>>)
    requires j < |chain|
    ensures var v := visited + chain[..j + 1];
      v == (visited + chain + rest)[..|v|]
  {
    var v := visited + chain[..j + 1];
    var all := visited + chain + rest;
    forall k | 0 <= k < |v|
      ensures v[k] == all[k]
    {
      if k >= |visited| {
        assert v[k] == chain[k - |visited|];
      }
    }
  }

  // ---------------------------------------------------------------------
  // The as-written remove: it compares the hash and the caller's keySize
  // bytes of the stored key, but not the stored key's size.

  /** remove's test as written; a stored key shorter than the query would be read past its end, and counts as no match. */
  predicate MatchesAsWritten<V>(e: Entry<V>, key: seq<uint8>, hashCode: uint32)
  {
    e.hashCode == hashCode && |key| <= |e.key| && e.key[..|key|] == key
  }

  /** The position that remove as written unlinks, or -1. */
  function RemoveIndexAsWritten<V>(chain: seq<Entry<V>>, key: seq<uint8>, hashCode: uint32): (r: int)
    ensures -1 <= r < |chain|
    ensures r >= 0 ==> MatchesAsWritten(chain[r], key, hashCode)
    ensures forall j | 0 <= j < |chain| && (r < 0 || j < r) :: !MatchesAsWritten(chain[j], key, hashCode)
    decreases |chain|
  {
    if |chain| == 0 then -1
    else if MatchesAsWritten(chain[0], key, hashCode) then 0
    else
      var r' := RemoveIndexAsWritten(chain[1..], key, hashCode);
      assert forall j | 1 <= j < |chain| :: chain[j] == chain[1..][j - 1];
      if r' < 0 then -1 else r' + 1
  }

  /**
   * With [0, 0] stored, remove([0]) as written unlinks it although get([0])
   * finds nothing: both keys hash to 0 and the one-byte comparison agrees.
   */
  lemma {:induction false} RemoveIgnoresKeySize<V>(v: V)
    ensures var e := Entry([0, 0], v, HashOf([0, 0]));
      HashOf([0]) == HashOf([0, 0]) &&
      FindIn([e], [0], HashOf([0])) == None &&
      RemoveIndexAsWritten([e], [0], HashOf([0])) == 0
  {
    LeadingZeroHash([0]);
    assert [0] + [0] == [0, 0];
    var e := Entry([0, 0], v, HashOf([0, 0]));
    assert !Matches(e, [0], HashOf([0]));
    assert MatchesAsWritten(e, [0], HashOf([0]));
  }

  // ---------------------------------------------------------------------
  // Tables.

  /** Every entry carries its key's hash and sits in that hash's bucket. */
  predicate Placed<V>(t: seq<seq<Entry<V>>>)
  {
    forall i, j | 0 <= i < |t| && 0 <= j < |t[i]| ::
      t[i][j].hashCode == HashOf(t[i][j].key) && Bucket(t[i][j].hashCode) == i
  }

  lemma {:induction false} PlacedPrepend<V>(t: seq<seq<Entry<V>>>, e: Entry<V>)
    requires Placed(t) && |t| == HASHTABLE_SIZE && e.hashCode == HashOf(e.key)
    ensures Placed(t[Bucket(e.hashCode) := [e] + t[Bucket(e.hashCode)]])
  {
    var h := Bucket(e.hashCode);
    var t': seq<seq<Entry<V>>> := t[h := [e] + t[h]];
    forall i, j | 0 <= i < |t'| && 0 <= j < |t'[i]|
      ensures t'[i][j].hashCode == HashOf(t'[i][j].key) && Bucket(t'[i][j].hashCode) == i
    {
      if i == h && j > 0 {
        assert t'[i][j] == t[i][j - 1];
      }
    }
  }

  lemma {:induction false} PlacedWithout<V>(t: seq<seq<Entry<V>>>, h: nat, k: nat)
    requires Placed(t) && h < |t| && k < |t[h]|
    ensures Placed(t[h := Without(t[h], k)])
  {
    var t': seq<seq<Entry<V>>> := t[h := Without(t[h], k)];
    forall i, j | 0 <= i < |t'| && 0 <= j < |t'[i]|
      ensures t'[i][j].hashCode == HashOf(t'[i][j].key) && Bucket(t'[i][j].hashCode) == i
    {
      if i == h {
        assert t'[i][j] == t[i][if j < k then j else j + 1];
      }
    }
  }

  lemma {:induction false} VisitsStep<V>(t: seq<seq<Entry<V>>>, i: nat, visited: seq<Entry<V>>, walked: seq<Entry<V>>,
                                         cb: (seq<uint8>, V) -> bool)
    requires i < |t| && walked == ChainVisits(t[i], cb)
    ensures visited + VisitsAsWritten(t, i + 1, cb) == (visited + walked) + VisitsAsWritten(t, i, cb)
  {
  }

  class HashTable<V> {
    var table: array<seq<Entry<V>>>

    ghost predicate Valid()
      reads this, table
    {
      table.Length == HASHTABLE_SIZE && Placed(table[..])
    }

    /** What get returns for key. */
    function Lookup(key: seq<uint8>): Option<V>
      reads this, table
      requires table.Length == HASHTABLE_SIZE
    {
      FindIn(table[Bucket(HashOf(key))], key, HashOf(key))
    }

    constructor ()
      ensures Valid() && fresh(table)
      ensures forall i | 0 <= i < HASHTABLE_SIZE :: table[i] == []
    {
      table := new seq<Entry<V>>[HASHTABLE_SIZE](_ => []);
    }

    /** put: a new entry at the head of its bucket's chain. */
    method Put(key: seq<uint8>, value: V)
      requires Valid()
      modifies table
      ensures Valid()
      ensures var hc := HashOf(key);
        table[Bucket(hc)] == [Entry(key, value, hc)] + old(table[Bucket(hc)])
      ensures forall i | 0 <= i < HASHTABLE_SIZE && i != Bucket(HashOf(key)) :: table[i] == old(table[i])
      ensures Lookup(key) == Some(value)
      ensures forall k :: k != key ==> Lookup(k) == old(Lookup(k))
    {
      var hashCode := CalculateHashCode(key);
      var e := Entry(key, value, hashCode);
      var h := Bucket(hashCode);
      PlacedPrepend(table[..], e);
      table[h] := [e] + table[h];
      assert table[..] == old(table[..])[h := [e] + old(table[h])];
      FindInPrepend(e, old(table[h]), key, hashCode);
      forall k | k != key
        ensures Lookup(k) == old(Lookup(k))
      {
        var hk := HashOf(k);
        if Bucket(hk) == h {
          FindInPrepend(e, old(table[h]), k, hk);
        }
      }
    }

    /** get: the value of the first entry of the key's chain with the same hash, size and bytes. */
    method Get(key: seq<uint8>) returns (r: Option<V>)
      requires Valid()
      ensures r == Lookup(key)
    {
      var hashCode := CalculateHashCode(key);
      var chain := table[Bucket(hashCode)];
      var i := 0;
      while i < |chain|
        invariant i <= |chain|
        invariant forall j | 0 <= j < i :: !Matches(chain[j], key, hashCode)
      {
        var e := chain[i];
        if e.hashCode == hashCode && |e.key| == |key| && e.key == key {
          return Some(e.value);
        }
        i := i + 1;
      }
      return None;
    }

    /**
     * remove, with the size test get makes: unlinks the first entry that get
     * would find and returns its value; with no such entry nothing changes.
     */
    method Remove(key: seq<uint8>) returns (r: Option<V>)
      requires Valid()
      modifies table
      ensures Valid()
      ensures r == old(Lookup(key))
      ensures var hc := HashOf(key); var h := Bucket(hc);
        if r.None? then table[h] == old(table[h])
        else table[h] == Without(old(table[h]), MatchIndex(old(table[h]), key, hc))
      ensures forall i | 0 <= i < HASHTABLE_SIZE && i != Bucket(HashOf(key)) :: table[i] == old(table[i])
    {
      var hashCode := CalculateHashCode(key);
      var h := Bucket(hashCode);
      var chain := table[h];
      var i := 0;
      while i < |chain|
        invariant i <= |chain|
        invariant forall j | 0 <= j < i :: !Matches(chain[j], key, hashCode)
      {
        var e := chain[i];
        if e.hashCode == hashCode && |e.key| == |key| && e.key == key {
          PlacedWithout(table[..], h, i);
          table[h] := Without(chain, i);
          assert table[..] == old(table[..])[h := Without(chain, i)];
          return Some(e.value);
        }
        i := i + 1;
      }
      return None;
    }

    /** clear: every chain emptied, so every lookup finds nothing. */
    method Clear()
      requires Valid()
      modifies table
      ensures Valid()
      ensures forall i | 0 <= i < HASHTABLE_SIZE :: table[i] == []
      ensures forall k :: Lookup(k) == None
    {
      var i: nat := HASHTABLE_SIZE;
      while i > 0
        invariant i <= HASHTABLE_SIZE
        invariant forall j | i <= j < HASHTABLE_SIZE :: table[j] == []
        invariant forall j | 0 <= j < i :: table[j] == old(table[j])
      {
        i := i - 1;
        table[i] := [];
      }
    }

    /** each as written: a true callback result ends the walk of the current chain only. */
    method EachAsWritten(cb: (seq<uint8>, V) -> bool) returns (visited: seq<Entry<V>>)
      requires Valid()
      ensures visited == VisitsAsWritten(table[..], HASHTABLE_SIZE, cb)
    {
      ghost var t := table[..];
      visited := [];
      var i: nat := HASHTABLE_SIZE;
      while i > 0
        invariant i <= HASHTABLE_SIZE
        invariant visited + VisitsAsWritten(t, i, cb) == VisitsAsWritten(t, HASHTABLE_SIZE, cb)
      {
        i := i - 1;
        var walked := WalkChain(table[i], cb);
        VisitsStep(t, i, visited, walked, cb);
        visited := visited + walked;
      }
    }

    /** each as its callback is documented: a true result ends the whole enumeration. */
    method Each(cb: (seq<uint8>, V) -> bool) returns (visited: seq<Entry<V>>)
      requires Valid()
      ensures var all := Descending(table[..], HASHTABLE_SIZE);
        |visited| <= |all| && visited == all[..|visited|]
      ensures forall k | 0 <= k < |visited| - 1 :: !cb(visited[k].key, visited[k].value)
      ensures |visited| < |Descending(table[..], HASHTABLE_SIZE)| ==>
        |visited| > 0 && cb(visited[|visited| - 1].key, visited[|visited| - 1].value)
    {
      ghost var t := table[..];
      ghost var all := Descending(t, HASHTABLE_SIZE);
      visited := [];
      var i: nat := HASHTABLE_SIZE;
      while i > 0
        invariant i <= HASHTABLE_SIZE
        invariant visited + Descending(t, i) == all
        invariant forall k | 0 <= k < |visited| :: !cb(visited[k].key, visited[k].value)
      {
        i := i - 1;
        var chain := table[i];
        DescendingStep(t, i + 1, visited);
        var walked := WalkChain(chain, cb);
        if |walked| > 0 && cb(walked[|walked| - 1].key, walked[|walked| - 1].value) {
          StopInChain(visited, chain, walked, Descending(t, i), cb);
          visited := visited + walked;
          return;
        }
        PassChain(visited, chain, walked, cb);
        visited := visited + chain;
      }
    }

    /** The walk of one chain that stops at the first entry the callback accepts. */
    static method WalkChain(chain: seq<Entry<V>>, cb: (seq<uint8>, V) -> bool) returns (walked: seq<Entry<V>>)
      ensures walked == ChainVisits(chain, cb)
    {
      var j := 0;
      while j < |chain|
        invariant j <= |chain|
        invariant ChainVisits(chain, cb) == chain[..j] + ChainVisits(chain[j..], cb)
      {
        assert chain[j..][1..] == chain[j + 1..];
        assert chain[..j + 1] == chain[..j] + [chain[j]];
        if cb(chain[j].key, chain[j].value) {
          return chain[..j + 1];
        }
        j := j + 1;
      }
      assert chain[..j] == chain;
      return chain;
    }
  }

  /** A chain walk that stopped leaves the visited entries a prefix of the enumeration. */
  lemma {:induction false} StopInChain<V>(visited: seq<Entry<V>>, chain: seq<Entry<V>>, walked: seq<Entry<V>>,
                                          rest: seq<Entry<V>>, cb: (seq<uint8>, V) -> bool)
    requires walked == ChainVisits(chain, cb) && |walked| > 0
    requires forall k | 0 <= k < |visited| :: !cb(visited[k].key, visited[k].value)
    ensures var v := visited + walked;
      |v| <= |visited + chain + rest| && v == (visited + chain + rest)[..|v|] &&
      forall k | 0 <= k < |v| - 1 :: !cb(v[k].key, v[k].value)
  {
    var v := visited + walked;
    PrefixOfEnumeration(visited, chain, |walked| - 1, rest);
    assert walked == chain[..|walked|];
    forall k | 0 <= k < |v| - 1
      ensures !cb(v[k].key, v[k].value)
    {
      if k >= |visited| {
        assert v[k] == walked[k - |visited|];
      }
    }
  }

  /** A chain walk that did not stop went through the whole chain, none of it accepted. */
  lemma {:induction false} PassChain<V>(visited: seq<Entry<V>>, chain: seq<Entry<V>>, walked: seq<Entry<V>>,
                                        cb: (seq<uint8>, V) -> bool)
    requires walked == ChainVisits(chain, cb)
    requires !(|walked| > 0 && cb(walked[|walked| - 1].key, walked[|walked| - 1].value))
    requires forall k | 0 <= k < |visited| :: !cb(visited[k].key, visited[k].value)
    ensures forall k | 0 <= k < |visited + chain| :: !cb((visited + chain)[k].key, (visited + chain)[k].value)
  {
    assert walked == chain;
    forall k | 0 <= k < |visited + chain|
      ensures !cb((visited + chain)[k].key, (visited + chain)[k].value)
    {
      if k >= |visited| {
        assert (visited + chain)[k] == walked[k - |visited|];
      }
    }
  }
}
