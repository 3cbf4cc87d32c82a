/**
 * The bookkeeping of the bytecode compiler's driver: the growable name
 * lists (namelist_add, namelist_find, namelist_free), the C identifier a
 * compiled file is given (get_c_name), the numbered identifier that keeps
 * module names apart (find_unique_cname), and the feature bitmap the
 * "-fno-" options clear.
 */
module QJsc {
  import opened Bits
  import opened IntText

  datatype Option<T> = None | Some(value: T)

  // ---------------------------------------------------------------------
  // Name lists

  /** One namelist_entry_t: a name, an optional short name and flags. */
  datatype Entry = Entry(name: string, shortName: Option<string>, flags: int)

  /** The names of a run of entries. */
  function NamesOf(es: seq<Entry>): (s: set<string>)
    ensures forall i | 0 <= i < |es| :: es[i].name in s
    ensures forall n | n in s :: exists i | 0 <= i < |es| :: es[i].name == n
  {
    if es == [] then {} else NamesOf(es[..|es| - 1]) + {es[|es| - 1].name}
  }

  /** A run of entries has no more names than entries. */
  lemma {:induction false} NamesOfSize(es: seq<Entry>)
    ensures |NamesOf(es)| <= |es|
  {
    if es != [] {
      NamesOfSize(es[..|es| - 1]);
    }
  }

  /**
   * namelist_t: the first count of size slots of array are in use; array
   * is null while nothing has been allocated.
   */
  class NameList {
    var arr: array?<Entry>
    var count: nat
    var size: nat

    ghost predicate Valid()
      reads this
    {
      count <= size && (arr == null ==> size == 0) && (arr != null ==> arr.Length == size)
    }

    /** The entries in use, in the order they were added. */
    function Entries(): (es: seq<Entry>)
      requires Valid()
      reads this, arr
      ensures |es| == count
    {
      if arr == null then [] else arr[..count]
    }

    /** A zero-filled namelist_t, as the static lists and the memset in main start. */
    constructor ()
      ensures Valid() && arr == null && count == 0 && size == 0 && Entries() == []
    {
      arr, count, size := null, 0, 0;
    }

    /**
     * namelist_add: the entry goes after the others; when every slot is in
     * use the array grows to size + size / 2 + 4 slots first, keeping them.
     */
    method Add(name: string, shortName: Option<string>, flags: int)
      requires Valid()
      modifies this, arr
      ensures Valid() && count == old(count) + 1
      ensures Entries() == old(Entries()) + [Entry(name, shortName, flags)]
      ensures size == if old(count) == old(size) then old(size) + old(size) / 2 + 4 else old(size)
      ensures old(count) < old(size) ==> arr == old(arr)
    {
      if count == size {
        var newSize := size + size / 2 + 4;
        var a := new Entry[newSize];
        var k := 0;
        while k < count
          modifies a
          invariant k <= count < newSize
          invariant arr != null ==> a[..k] == arr[..k]
        {
          a[k] := arr[k];
          k := k + 1;
        }
        ghost var kept := if arr == null then [] else arr[..count];
        assert a[..count] == kept;
        arr, size := a, newSize;
      }
      arr[count] := Entry(name, shortName, flags);
      count := count + 1;
    }

    /** namelist_free: every entry released, and the list back to its zero state. */
    method Free()
      requires Valid()
      modifies this
      ensures Valid() && arr == null && count == 0 && size == 0 && Entries() == []
    {
      while count > 0
        invariant count <= size
        decreases count
      {
        count := count - 1;
      }
      arr, size := null, 0;
    }

    /** namelist_find: the index of the first entry named name, or -1 when there is none. */
    method Find(name: string) returns (i: int)
      requires Valid()
      ensures -1 <= i < count
      ensures i >= 0 ==> Entries()[i].name == name
      ensures forall j | 0 <= j < (if i < 0 then count else i) :: Entries()[j].name != name
      ensures i < 0 <==> name !in NamesOf(Entries())
    {
      var es := Entries();
      i := 0;
      while i < count
        invariant 0 <= i <= count
        invariant forall j | 0 <= j < i :: es[j].name != name
      {
        if es[i].name == name {
          return;
        }
        i := i + 1;
      }
      i := -1;
    }
  }

  // ---------------------------------------------------------------------
  // get_c_name

  /** strrchr: the index of the last c in s, if any. */
  function LastIndex(s: string, c: char): (r: Option<nat>)
    ensures r.Some? ==> r.value < |s| && s[r.value] == c && c !in s[r.value + 1..]
    ensures r.None? ==> c !in s
  {
    if s == [] then None
    else if s[|s| - 1] == c then Some(|s| - 1)
    else
      var r := LastIndex(s[..|s| - 1], c);
      assert s == s[..|s| - 1] + [s[|s| - 1]];
      if r.Some? then
        assert s[r.value + 1..] == s[..|s| - 1][r.value + 1..] + [s[|s| - 1]];
        r
      else r
  }

  /** The file name without its directories: what follows the last '/'. */
  function BaseName(file: string): string
  {
    match LastIndex(file, '/')
    case None => file
    case Some(k) => file[k + 1..]
  }

  /** The base name without its last extension: what precedes the last '.'. */
  function Stem(base: string): string
  {
    match LastIndex(base, '.')
    case None => base
    case Some(k) => base[..k]
  }

  /** How much of the base name the stem keeps: up to the last '.', or all of it. */
  function StemLength(base: string): (l: nat)
    ensures l <= |base| && base[..l] == Stem(base)
  {
    match LastIndex(base, '.')
    case None => |base|
    case Some(k) => k
  }

  predicate IdentChar(c: char)
  {
    '0' <= c <= '9' || 'A' <= c <= 'Z' || 'a' <= c <= 'z'
  }

  /** Each character that is not a letter or digit replaced by '_'. */
  function Sanitize(s: string): (r: string)
    ensures |r| == |s|
  {
    if s == [] then [] else Sanitize(s[..|s| - 1]) + [if IdentChar(s[|s| - 1]) then s[|s| - 1] else '_']
  }

  /** Sanitize keeps letters and digits where they are and puts '_' in place of anything else. */
  lemma {:induction false} SanitizeAt(s: string, k: nat)
    requires k < |s|
    ensures Sanitize(s)[k] == if IdentChar(s[k]) then s[k] else '_'
    decreases |s|
  {
    if k < |s| - 1 {
      SanitizeAt(s[..|s| - 1], k);
    }
  }

  /** At most n characters of s, as a copy into an n + 1 byte buffer leaves them. */
  function Take(s: string, n: nat): (r: string)
    ensures |r| == if |s| <= n then |s| else n
    ensures r == s[..|r|]
  {
    if |s| <= n then s else s[..n]
  }

  /** The identifier get_c_name writes into a buffer of bufSize bytes. */
  function CName(prefix: string, file: string, bufSize: nat): string
    requires bufSize >= 1
  {
    Take(prefix + Sanitize(Stem(BaseName(file))), bufSize - 1)
  }

  /** The base name holds no '/' and ends the file name. */
  lemma {:induction false} BaseNameEnds(file: string)
    ensures '/' !in BaseName(file)
    ensures exists dir: string {:trigger dir + BaseName(file)} :: file == dir + BaseName(file)
  {
    match LastIndex(file, '/')
    case None =>
      assert file == [] + file;
    case Some(k) =>
      assert file == file[..k + 1] + file[k + 1..];
  }

  /** The stem starts the base name, and what it drops is empty or one extension: a '.' with no other after it. */
  lemma {:induction false} StemDropsExtension(base: string)
    ensures |Stem(base)| <= |base| && Stem(base) == base[..|Stem(base)|]
    ensures var ext := base[|Stem(base)|..]; ext == [] || (ext[0] == '.' && '.' !in ext[1..])
    ensures '.' !in base ==> Stem(base) == base
  {
    match LastIndex(base, '.')
    case None =>
    case Some(k) =>
      assert base[k..][1..] == base[k + 1..];
  }

  /** Past the prefix, the C name is made only of letters, digits and '_'; it is as long as the buffer lets it be. */
  lemma {:induction false} CNameShape(prefix: string, file: string, bufSize: nat)
    requires bufSize >= 1
    ensures var r := CName(prefix, file, bufSize);
      var stem := Stem(BaseName(file));
      |r| == (if |prefix| + |stem| < bufSize then |prefix| + |stem| else bufSize - 1) &&
      (forall k | |prefix| <= k < |r| :: r[k] == '_' || IdentChar(r[k])) &&
      r[..(if |prefix| < |r| then |prefix| else |r|)] == prefix[..(if |prefix| < |r| then |prefix| else |r|)]
  {
    var r := CName(prefix, file, bufSize);
    var t := prefix + Sanitize(Stem(BaseName(file)));
    forall k | |prefix| <= k < |r|
      ensures r[k] == '_' || IdentChar(r[k])
    {
      assert r[k] == t[k] == Sanitize(Stem(BaseName(file)))[k - |prefix|];
      SanitizeAt(Stem(BaseName(file)), k - |prefix|);
    }
  }

  /** pstrcpy: at most buf.Length - 1 characters of s and a terminating NUL; nothing after it is touched. */
  method PStrCpy(buf: array<char>, s: string) returns (n: nat)
    requires buf.Length >= 1
    modifies buf
    ensures n < buf.Length && buf[..n] == Take(s, buf.Length - 1) && buf[n] == '\0'
    ensures forall k | n < k < buf.Length :: buf[k] == old(buf[k])
  {
    n := 0;
    while n < |s| && n < buf.Length - 1
      invariant n <= |s| && n < buf.Length
      invariant buf[..n] == s[..n] && buf[n..] == old(buf[n..])
    {
      buf[n] := s[n];
      n := n + 1;
    }
    buf[n] := '\0';
  }

  /** One more character offered to a copy bounded by m. */
  lemma {:induction false} TakeStep(s: string, c: char, m: nat)
    ensures Take(s + [c], m) == if |s| < m then Take(s, m) + [c] else Take(s, m)
  {
    if |s| >= m {
      assert (s + [c])[..m] == s[..m];
    }
  }

  /** One character stored at n if it leaves room for the NUL, as get_c_name's loop body does. */
  method PutChar(buf: array<char>, n: nat, c: char) returns (n': nat)
    requires n < buf.Length
    modifies buf
    ensures n' == if n < buf.Length - 1 then n + 1 else n
    ensures buf[..n'] == if n < buf.Length - 1 then old(buf[..n]) + [c] else old(buf[..n])
    ensures forall k | n' < k < buf.Length :: buf[k] == old(buf[k])
    ensures n' == n ==> buf[..] == old(buf[..])
  {
    n' := n;
    if n < buf.Length - 1 {
      buf[n] := c;
      n' := n + 1;
      assert buf[..n'] == old(buf[..n]) + [c];
    }
  }

  /** One more character of the name sanitised. */
  lemma {:induction false} SanitizeStep(prefix: string, p: string, i: nat)
    requires i < |p|
    ensures prefix + Sanitize(p[..i + 1]) == (prefix + Sanitize(p[..i])) + [if IdentChar(p[i]) then p[i] else '_']
  {
    assert p[..i + 1][..i] == p[..i];
  }

  /**
   * get_c_name: the prefix, then the file's base name up to its last '.'
   * with every character outside [0-9A-Za-z] replaced by '_', cut to fit
   * buf with its terminating NUL. Nothing after the NUL is touched.
   */
  method GetCName(buf: array<char>, prefix: string, file: string) returns (n: nat)
    requires buf.Length >= 1
    modifies buf
    ensures n < buf.Length && buf[..n] == CName(prefix, file, buf.Length) && buf[n] == '\0'
    ensures forall k | n < k < buf.Length :: buf[k] == old(buf[k])
  {
    var p := BaseName(file);
    var len := StemLength(p);
    n := PStrCpy(buf, prefix);
    ghost var done, out := prefix, buf[..n];
    assert Sanitize(p[..0]) == [];
    var i := 0;
    while i < len
      invariant 0 <= i <= len && n < buf.Length && n == |out|
      invariant done == prefix + Sanitize(p[..i])
      invariant out == Take(done, buf.Length - 1)
      invariant buf[..n] == out
      invariant forall k | n < k < buf.Length :: buf[k] == old(buf[k])
    {
      var c := p[i];
      if !IdentChar(c) {
        c := '_';
      }
      SanitizeStep(prefix, p, i);
      TakeStep(done, c, buf.Length - 1);
      out := if n < buf.Length - 1 then out + [c] else out;
      n := PutChar(buf, n, c);
      done := done + [c];
      i := i + 1;
    }
    buf[n] := '\0';
  }

  // ---------------------------------------------------------------------
  // find_unique_cname

  /** The name tried with suffix k: the base, '_' and k in decimal. */
  function Candidate(base: string, k: nat): string
  {
    base + "_" + Digits(k, 10)
  }

  /** Different suffixes give different names. */
  lemma {:induction false} CandidateInjective(base: string, j: nat, k: nat)
    ensures Candidate(base, j) == Candidate(base, k) ==> j == k
  {
    if Candidate(base, j) == Candidate(base, k) {
      assert Candidate(base, j)[|base| + 1..] == Digits(j, 10);
      assert Candidate(base, k)[|base| + 1..] == Digits(k, 10);
      ParseDigitsInverse(j, 10);
      ParseDigitsInverse(k, 10);
    }
  }

  /** The names tried before suffix n. */
  ghost function Tried(base: string, n: nat): (s: set<string>)
    ensures forall k | 1 <= k < n :: Candidate(base, k) in s
    ensures forall t | t in s :: exists k | 1 <= k < n :: t == Candidate(base, k)
  {
    if n <= 1 then {} else Tried(base, n - 1) + {Candidate(base, n - 1)}
  }

  /** As many names were tried as suffixes. */
  lemma {:induction false} TriedSize(base: string, n: nat)
    ensures |Tried(base, n)| == if n <= 1 then 0 else n - 1
  {
    if n > 1 {
      TriedSize(base, n - 1);
      if Candidate(base, n - 1) in Tried(base, n - 1) {
        var k :| 1 <= k < n - 1 && Candidate(base, n - 1) == Candidate(base, k);
        CandidateInjective(base, n - 1, k);
      }
    }
  }

  /** A subset is no larger than its superset. */
  lemma {:induction false} SubsetSize<T>(a: set<T>, b: set<T>)
    requires a <= b
    ensures |a| <= |b|
    decreases b
  {
    if a != {} {
      var x :| x in a;
      SubsetSize(a - {x}, b - {x});
    }
  }

  /** Every name tried so far is taken: there are at least as many names as tries. */
  lemma {:induction false} TriedFit(base: string, n: nat, es: seq<Entry>)
    requires Tried(base, n) <= NamesOf(es)
    ensures n <= |es| + 1
  {
    TriedSize(base, n);
    NamesOfSize(es);
    SubsetSize(Tried(base, n), NamesOf(es));
  }

  /**
   * find_unique_cname: cname, cut to cnameSize - 16 characters, followed by
   * '_' and the smallest suffix n >= 1 whose name is not in names, cut to
   * fit the buffer of cnameSize bytes.
   */
  method FindUniqueCName(cname: string, cnameSize: nat, names: NameList) returns (r: string, ghost n: nat)
    requires cnameSize >= 32 && names.Valid()
    ensures var base := Take(cname, cnameSize - 16);
      n >= 1 && Candidate(base, n) !in NamesOf(names.Entries()) &&
      (forall k | 1 <= k < n :: Candidate(base, k) in NamesOf(names.Entries())) &&
      r == Take(Candidate(base, n), cnameSize - 1)
  {
    var base := Take(cname, cnameSize - 16);
    var suffix := 1;
    ghost var es := names.Entries();
    while true
      invariant 1 <= suffix <= names.count + 1
      invariant Tried(base, suffix) <= NamesOf(es)
      decreases names.count + 1 - suffix
    {
      var name := Candidate(base, suffix);
      var i := names.Find(name);
      if i < 0 {
        break;
      }
      assert Tried(base, suffix + 1) == Tried(base, suffix) + {name};
      TriedFit(base, suffix + 1, es);
      suffix := suffix + 1;
    }
    r, n := Take(Candidate(base, suffix), cnameSize - 1), suffix;
  }

  // ---------------------------------------------------------------------
  // The feature bitmap

  /** feature_list's option names, in bit order; module-loader is bit 9. */
  const FEATURES: seq<string> := ["date", "eval", "string-normalize", "regexp", "json", "proxy", "map",
                                  "typedarray", "promise", "module-loader", "weakref"]
  const FE_MODULE_LOADER: nat := 9

  /** FE_ALL: -1 stored in the 64-bit bitmap, every feature on. */
  const FE_ALL: nat := TWO64 - 1

  /** The index of name in feature_list, if it is there. */
  function FeatureIndex(name: string): (r: Option<nat>)
    ensures r.Some? ==> r.value < |FEATURES| && FEATURES[r.value] == name
    ensures r.None? <==> name !in FEATURES
  {
    if name == "date" then Some(0) else if name == "eval" then Some(1)
    else if name == "string-normalize" then Some(2) else if name == "regexp" then Some(3)
    else if name == "json" then Some(4) else if name == "proxy" then Some(5)
    else if name == "map" then Some(6) else if name == "typedarray" then Some(7)
    else if name == "promise" then Some(8) else if name == "module-loader" then Some(9)
    else if name == "weakref" then Some(10) else None
  }

  /** feature_bitmap & ~((uint64_t)1 << i). */
  function Cleared(bitmap: nat, i: nat): nat
    requires i < 64
  {
    Pow2Monotone(i + 1, 64);
    And(bitmap, Not(Pow2(i), 64))
  }

  /** The effect of one "-f" argument: None when it is unsupported, else the new bitmap. */
  function FeatureUpdate(optarg: string, bitmap: nat): Option<nat>
  {
    if optarg == "lto" then Some(bitmap)
    else if |optarg| >= 3 && optarg[..3] == "no-" then
      match FeatureIndex(optarg[3..])
      case None => None
      case Some(i) => Some(Cleared(bitmap, i))
    else None
  }

  /** No feature name appears twice. */
  lemma {:induction false} FeaturesDistinct(i: nat, j: nat)
    requires i < |FEATURES| && j < |FEATURES| && FEATURES[i] == FEATURES[j]
    ensures i == j
  {
  }

  /** "no-" and the feature with index i names feature j exactly when j is i. */
  lemma {:induction false} NoFeature(optarg: string, i: nat, j: nat)
    requires |optarg| >= 3 && optarg[..3] == "no-" && FeatureIndex(optarg[3..]) == Some(i)
    ensures j == i <==> j < |FEATURES| && optarg == "no-" + FEATURES[j]
  {
    assert optarg == "no-" + optarg[3..];
    if j < |FEATURES| && optarg == "no-" + FEATURES[j] {
      assert optarg[3..] == FEATURES[j] by {
        assert ("no-" + FEATURES[j])[3..] == FEATURES[j];
      }
      FeaturesDistinct(i, j);
    }
  }

  /** Which "-f" arguments are accepted: "lto", and "no-" followed by a feature name. */
  lemma {:induction false} FeatureAccepted(optarg: string, bitmap: nat)
    ensures FeatureUpdate(optarg, bitmap).Some? <==>
      optarg == "lto" || (|optarg| >= 3 && optarg[..3] == "no-" && optarg[3..] in FEATURES)
  {
  }

  /** An accepted "-f" argument is "lto", which changes no bit, or "no-" and a feature, which clears that feature's bit only. */
  lemma {:induction false} FeatureUpdateBits(optarg: string, bitmap: nat, j: nat)
    requires j < 64 && FeatureUpdate(optarg, bitmap).Some?
    ensures BitSet(FeatureUpdate(optarg, bitmap).value, j) <==>
      BitSet(bitmap, j) && !(j < |FEATURES| && optarg == "no-" + FEATURES[j])
  {
    if optarg != "lto" {
      var i := FeatureIndex(optarg[3..]).value;
      ClearBit(bitmap, i, 64, j);
      NoFeature(optarg, i, j);
    }
  }

  /**
   * The "-f" case of main's option loop: "lto" turns link-time
   * optimisation on, "no-X" does that and clears X's bit, anything else
   * is reported as an unsupported feature (None). Every accepted argument
   * sets use_lto.
   */
  method FeatureOption(optarg: string, bitmap: nat) returns (r: Option<nat>)
    ensures r == FeatureUpdate(optarg, bitmap)
  {
    if optarg == "lto" {
      return Some(bitmap);
    }
    if |optarg| >= 3 && optarg[..3] == "no-" {
      var p := optarg[3..];
      var i := 0;
      while i < |FEATURES|
        invariant 0 <= i <= |FEATURES|
        invariant forall j | 0 <= j < i :: FEATURES[j] != p
      {
        if p == FEATURES[i] {
          FeaturesDistinct(FeatureIndex(p).value, i);
          return Some(Cleared(bitmap, i));
        }
        i := i + 1;
      }
      return None;
    }
    return None;
  }

  /** The bitmap after main has read the "-f" arguments opts in order, from bitmap. */
  function ApplyFeatures(opts: seq<string>, bitmap: nat): Option<nat>
  {
    if opts == [] then Some(bitmap)
    else match FeatureUpdate(opts[0], bitmap)
      case None => None
      case Some(b) => ApplyFeatures(opts[1..], b)
  }

  /**
   * After the options a bit is set exactly when it was before and no
   * "-fno-" option named its feature.
   */
  lemma {:induction false} FeaturesOff(opts: seq<string>, bitmap: nat, j: nat)
    requires j < 64 && ApplyFeatures(opts, bitmap).Some?
    ensures BitSet(ApplyFeatures(opts, bitmap).value, j) <==>
      BitSet(bitmap, j) && !(j < |FEATURES| && "no-" + FEATURES[j] in opts)
    decreases |opts|
  {
    if opts != [] {
      var b := FeatureUpdate(opts[0], bitmap).value;
      FeatureUpdateBits(opts[0], bitmap, j);
      FeaturesOff(opts[1..], b, j);
      assert opts == [opts[0]] + opts[1..];
      if j < |FEATURES| {
        assert "no-" + FEATURES[j] in opts <==> opts[0] == "no-" + FEATURES[j] || "no-" + FEATURES[j] in opts[1..];
      }
    }
  }

  /** From FE_ALL, the features left on are those no "-fno-" option named, and every bit above them stays set. */
  lemma {:induction false} FeaturesFromAll(opts: seq<string>, j: nat)
    requires j < 64 && ApplyFeatures(opts, FE_ALL).Some?
    ensures BitSet(ApplyFeatures(opts, FE_ALL).value, j) <==> !(j < |FEATURES| && "no-" + FEATURES[j] in opts)
  {
    Pow2Of64();
    AllOnes(64, j);
    FeaturesOff(opts, FE_ALL, j);
  }
}
