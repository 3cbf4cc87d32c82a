/**
 * The multi-precision integer layer under the number formatter: arrays of
 * 32-bit limbs, least significant first, that represent
 * sum(i, tab[i] * 2^(32 i)).
 */
module MpLimbs {
  import opened Bits

  type limb = uint32

  /** 2^(32 n), the weight of limb n. */
  function LimbPow(n: nat): (r: nat)
    ensures r >= 1
  {
    if n == 0 then 1 else TWO32 * LimbPow(n - 1)
  }

  /** The number a limb sequence represents. */
  function Value(s: seq<limb>): nat
  {
    if s == [] then 0 else s[0] + TWO32 * Value(s[1..])
  }

  lemma {:induction false} ValueBound(s: seq<limb>)
    ensures Value(s) < LimbPow(|s|)
  {
    if s != [] {
      ValueBound(s[1..]);
    }
  }

  /** Splitting a limb sequence at k splits its value at weight 2^(32 k). */
  lemma {:induction false} ValueSplit(s: seq<limb>, k: nat)
    requires k <= |s|
    ensures Value(s) == Value(s[..k]) + LimbPow(k) * Value(s[k..])
  {
    if k > 0 {
      ValueSplit(s[1..], k - 1);
      assert s[1..][..k - 1] == s[..k][1..];
      assert s[1..][k - 1..] == s[k..];
      SplitArith(s[0], Value(s[..k][1..]), LimbPow(k - 1), Value(s[k..]));
    }
  }

  lemma {:induction false} SplitArith(x: int, lo: int, p: int, hi: int)
    ensures x + TWO32 * (lo + p * hi) == (x + TWO32 * lo) + (TWO32 * p) * hi
  {
  }

  /** Appending limb x at the top adds x * 2^(32 |s|). */
  lemma {:induction false} ValueAppend(s: seq<limb>, x: limb)
    ensures Value(s + [x]) == Value(s) + LimbPow(|s|) * x
  {
    if s == [] {
      assert Value([x]) == x + TWO32 * Value([]);
    } else {
      assert (s + [x])[1..] == s[1..] + [x];
      ValueAppend(s[1..], x);
      assert TWO32 * (LimbPow(|s| - 1) * x) == LimbPow(|s|) * x;
    }
  }

  /** Putting limb x at the bottom shifts the rest up by one limb. */
  lemma {:induction false} ValueCons(x: limb, s: seq<limb>)
    ensures Value([x] + s) == x + TWO32 * Value(s)
  {
    assert ([x] + s)[1..] == s;
  }

  /** A limb sequence whose limb k is the topmost difference compares as that limb. */
  lemma {:induction false} TopDifferenceDecides(s: seq<limb>, t: seq<limb>, k: nat)
    requires |s| == |t| && k < |s|
    requires s[k + 1..] == t[k + 1..] && s[k] < t[k]
    ensures Value(s) < Value(t)
  {
    ValueSplit(s, k);
    ValueSplit(t, k);
    ValueBound(s[..k]);
    assert s[k..] == [s[k]] + s[k + 1..];
    assert t[k..] == [t[k]] + s[k + 1..];
    ValueCons(s[k], s[k + 1..]);
    ValueCons(t[k], s[k + 1..]);
    CmpArith(Value(s[..k]), Value(t[..k]), LimbPow(k), Value(s[k..]), Value(t[k..]));
  }

  lemma {:induction false} CmpArith(los: int, lot: int, p: int, hs: int, ht: int)
    requires 0 <= los < p && 0 <= lot && hs + 1 <= ht
    ensures los + p * hs < lot + p * ht
  {
    assert p * ht == p * hs + p * (ht - hs);
    MulLe(p, 1, ht - hs);
  }

  /** Zero limbs at the top do not change the value. */
  lemma {:induction false} ValueDropZero(s: seq<limb>)
    requires |s| >= 1 && s[|s| - 1] == 0
    ensures Value(s) == Value(s[..|s| - 1])
  {
    ValueAppend(s[..|s| - 1], 0);
    assert s[..|s| - 1] + [0] == s;
  }

  /**
   * mp_add_ui: adds b to tab[0..n) in place, stopping as soon as the carry
   * is zero; returns the carry out of the top limb.
   */
  method MpAddUi(tab: array<limb>, b: limb, n: nat) returns (k: limb)
    requires n <= tab.Length
    modifies tab
    ensures Value(tab[..n]) + k * LimbPow(n) == Value(old(tab[..n])) + b
    ensures n > 0 ==> k <= 1
    ensures tab[n..] == old(tab[n..])
  {
    k := b;
    var i := 0;
    while i < n
      invariant 0 <= i <= n
      invariant Value(tab[..i]) + k * LimbPow(i) == Value(old(tab[..i])) + b
      invariant i > 0 ==> k <= 1
      invariant forall j :: i <= j < tab.Length ==> tab[j] == old(tab[j])
    {
      if k == 0 {
        break;
      }
      var t := tab[i];
      var a := (t + k) % TWO32;
      var carry: limb := if a < k then 1 else 0;
      ghost var before := tab[..i];
      assert old(tab[..i + 1]) == old(tab[..i]) + [t];
      tab[i] := a;
      assert tab[..i + 1] == before + [a];
      AddStep(before, old(tab[..i]), t, k, a, carry, b);
      k := carry;
      i := i + 1;
    }
    assert tab[..n][..i] == tab[..i] && old(tab[..n])[..i] == old(tab[..i]);
    assert tab[..n][i..] == old(tab[..n])[i..];
    AddFinish(tab[..n], old(tab[..n]), i, k, b);
  }

  /** Once the carry is spent, the untouched top limbs complete the sum. */
  lemma {:induction false} AddFinish(cur: seq<limb>, orig: seq<limb>, i: nat, k: nat, b: nat)
    requires |cur| == |orig| && i <= |cur|
    requires Value(cur[..i]) + k * LimbPow(i) == Value(orig[..i]) + b
    requires cur[i..] == orig[i..]
    requires i < |cur| ==> k == 0
    ensures Value(cur) + k * LimbPow(|cur|) == Value(orig) + b
  {
    if i == |cur| {
      assert cur[..i] == cur && orig[..i] == orig;
    } else {
      ValueSplit(cur, i);
      ValueSplit(orig, i);
      var top := LimbPow(i) * Value(cur[i..]);
      assert Value(cur) == Value(cur[..i]) + top;
      assert Value(orig) == Value(orig[..i]) + top;
    }
  }

  lemma {:induction false} AddStep(vs: seq<limb>, olds: seq<limb>, t: limb, k: limb, a: limb, carry: limb, b: nat)
    requires |vs| == |olds|
    requires Value(vs) + k * LimbPow(|vs|) == Value(olds) + b
    requires a == (t + k) % TWO32 && carry == (if a < k then 1 else 0)
    ensures Value(vs + [a]) + carry * LimbPow(|vs| + 1) == Value(olds + [t]) + b
  {
    assert t + k == a + carry * TWO32;
    ValueAppend(vs, a);
    ValueAppend(olds, t);
    AddStepArith(Value(vs), Value(olds), LimbPow(|vs|), t, k, a, carry, b);
  }

  lemma {:induction false} AddStepArith(v: int, o: int, p: int, t: int, k: int, a: int, c: int, b: int)
    requires v + k * p == o + b
    requires t + k == a + c * TWO32
    ensures (v + p * a) + c * (TWO32 * p) == (o + p * t) + b
  {
    Distrib(p, t, k);
    Distrib(p, a, c * TWO32);
    assert p * (c * TWO32) == c * (TWO32 * p);
  }

  lemma {:induction false} Distrib(p: int, x: int, y: int)
    ensures p * (x + y) == p * x + p * y
  {
  }

  /**
   * mp_mul1: tabr[0..n) := taba[0..n) * b + l, returning the high limb.
   * tabr and taba may be the same array.
   */
  method MpMul1(tabr: array<limb>, taba: array<limb>, n: nat, b: limb, l: limb) returns (ret: limb)
    requires n <= tabr.Length && n <= taba.Length
    modifies tabr
    ensures Value(tabr[..n]) + ret * LimbPow(n) == Value(old(taba[..n])) * b + l
    ensures tabr[n..] == old(tabr[n..])
  {
    ret := l;
    var i := 0;
    while i < n
      invariant 0 <= i <= n
      invariant Value(tabr[..i]) + ret * LimbPow(i) == Value(old(taba[..i])) * b + l
      invariant taba[i..n] == old(taba[i..n])
      invariant tabr[n..] == old(tabr[n..])
    {
      var x := taba[i];
      assert x == old(taba[i]);
      var t := x * b + ret;
      MulLimbBound(x, b, ret, t);
      ghost var before, olda := tabr[..i], old(taba[..i]);
      ghost var p := LimbPow(i);
      MulStep(Value(before), Value(olda), p, x, b, l, ret, t);
      tabr[i] := t % TWO32;
      assert tabr[..i + 1] == before + [t % TWO32];
      assert old(taba[..i + 1]) == olda + [x];
      ValueAppend(before, t % TWO32);
      ValueAppend(olda, x);
      assert Value(tabr[..i + 1]) == Value(before) + p * (t % TWO32);
      assert Value(old(taba[..i + 1])) == Value(olda) + p * x;
      assert LimbPow(i + 1) == TWO32 * p;
      ret := t / TWO32;
      i := i + 1;
    }
  }

  lemma {:induction false} MulLimbBound(x: limb, b: limb, c: limb, t: int)
    requires t == x * b + c
    ensures 0 <= t < TWO32 * TWO32 && 0 <= t / TWO32 < TWO32
  {
    MulLe(x, b, TWO32 - 1);
    MulLe(TWO32 - 1, x, TWO32 - 1);
  }

  lemma {:induction false} MulStep(vr: int, va: int, p: int, x: int, b: int, l: int, c: int, t: int)
    requires vr + c * p == va * b + l
    requires t == x * b + c
    ensures (vr + p * (t % TWO32)) + (t / TWO32) * (TWO32 * p) == (va + p * x) * b + l
  {
    var hi, lo := t / TWO32, t % TWO32;
    assert t == hi * TWO32 + lo;
    Distrib(p, hi * TWO32, lo);
    assert p * (hi * TWO32) == hi * (TWO32 * p);
    Distrib(p, x * b, c);
    assert p * (x * b) == (p * x) * b;
    Distrib(b, va, p * x);
  }

  /**
   * mp_div1: divides (r, taba[n-1], ..., taba[0]) by b from the top limb
   * down, storing each quotient limb truncated to 32 bits and returning
   * the final remainder. When r < b every quotient limb fits.
   */
  method MpDiv1(tabr: array<limb>, taba: array<limb>, n: nat, b: limb, r: limb) returns (ret: limb)
    requires n <= tabr.Length && n <= taba.Length
    requires b > 0
    modifies tabr
    ensures r < b ==> Value(old(taba[..n])) + r * LimbPow(n) == Value(tabr[..n]) * b + ret
    ensures r < b ==> ret < b
    ensures n > 0 ==> ret < b
    ensures tabr[n..] == old(tabr[n..])
  {
    ret := r;
    var i := n;
    while i > 0
      invariant 0 <= i <= n
      invariant taba[..i] == old(taba[..i])
      invariant tabr[n..] == old(tabr[n..])
      invariant i < n || r < b ==> ret < b
      invariant r < b ==> Value(old(taba[i..n])) + r * LimbPow(n - i) == Value(tabr[i..n]) * b + ret
    {
      var j := i - 1;
      var x := taba[j];
      assert x == old(taba[j]);
      var a1 := ret * TWO32 + x;
      var q := a1 / b;
      var rem := a1 % b;
      ghost var above, olda := tabr[i..n], old(taba[i..n]);
      if r < b {
        DivLoopStep(Value(olda), Value(above), r, LimbPow(n - i), ret, x, b);
      }
      tabr[j] := q % TWO32;
      assert tabr[j..n] == [q % TWO32] + above;
      assert old(taba[j..n]) == [x] + olda;
      if r < b {
        ValueCons(q % TWO32, above);
        ValueCons(x, olda);
        assert LimbPow(n - j) == TWO32 * LimbPow(n - i);
      }
      ret := rem;
      i := j;
    }
  }

  /**
   * One step of schoolbook division by a limb: the quotient limb fits and
   * the running equation moves one limb down.
   */
  lemma {:induction false} DivLoopStep(va: int, vq: int, r: int, p: int, ret: limb, x: limb, b: limb)
    requires b > 0 && ret < b
    requires va + r * p == vq * b + ret
    ensures (ret * TWO32 + x) / b < TWO32
    ensures (x + TWO32 * va) + r * (TWO32 * p) ==
      (((ret * TWO32 + x) / b) % TWO32 + TWO32 * vq) * b + (ret * TWO32 + x) % b
  {
    var a1 := ret * TWO32 + x;
    var q := a1 / b;
    DivStep(ret, x, b, q, a1);
    assert a1 == q * b + a1 % b;
    DivInvariantStep(va, vq, r, p, ret, x, b, q, a1 % b);
  }

  lemma {:induction false} DivStep(ret: nat, x: limb, b: limb, q: nat, a1: nat)
    requires b > 0 && ret < b && a1 == ret * TWO32 + x && q == a1 / b
    ensures q < TWO32 && q % TWO32 == q
  {
    MulLe(TWO32, ret, b - 1);
    assert a1 < b * TWO32;
  }

  lemma {:induction false} DivInvariantStep(va: int, vq: int, r: int, p: int, ret: int, x: int, b: int, q: int, rem: int)
    requires va + r * p == vq * b + ret
    requires ret * TWO32 + x == q * b + rem
    ensures (x + TWO32 * va) + r * (TWO32 * p) == (q + TWO32 * vq) * b + rem
  {
    assert TWO32 * (va + r * p) == TWO32 * (vq * b + ret);
    assert TWO32 * va + r * (TWO32 * p) == TWO32 * vq * b + TWO32 * ret;
  }

  /** An mpb_t: a length of at least one limb and the limb storage. */
  class Mpb {
    var len: int
    var tab: array<limb>

    ghost predicate Valid()
      reads this
    {
      1 <= len <= tab.Length
    }

    function Val(): nat
      reads this, tab
      requires Valid()
    {
      Value(tab[..len])
    }

    /** No zero limb at the top, except for the number zero itself. */
    predicate Normalized()
      reads this, tab
      requires Valid()
    {
      len == 1 || tab[len - 1] != 0
    }

    constructor (n: nat)
      requires n >= 1
      ensures Valid() && fresh(tab) && tab.Length == n && len == 1 && tab[0] == 0
    {
      tab := new limb[n](_ => 0);
      len := 1;
    }

    /** mpb_renorm: drops zero limbs from the top, keeping at least one. */
    method Renorm()
      requires Valid()
      modifies this
      ensures Valid() && tab == old(tab) && Normalized()
      ensures Val() == old(Val())
      ensures len <= old(len) && forall j :: len <= j < old(len) ==> tab[j] == 0
    {
      while len > 1 && tab[len - 1] == 0
        invariant Valid() && tab == old(tab) && len <= old(len)
        invariant Val() == old(Val())
        invariant forall j :: len <= j < old(len) ==> tab[j] == 0
      {
        ValueDropZero(tab[..len]);
        assert tab[..len][..len - 1] == tab[..len - 1];
        len := len - 1;
      }
    }

    /** mpb_set_u64: stores m in one limb, or two when its high half is non-zero. */
    method SetU64(m: uint64)
      requires Valid() && tab.Length >= 2
      modifies this, tab
      ensures Valid() && tab == old(tab) && Normalized()
      ensures len == (if m < TWO32 then 1 else 2)
      ensures Val() == m
    {
      tab[0] := m % TWO32;
      tab[1] := m / TWO32;
      if tab[1] == 0 {
        len := 1;
      } else {
        len := 2;
      }
      assert tab[..2] == [tab[0]] + [tab[1]];
      ValueCons(tab[0], [tab[1]]);
      assert Value([tab[1]]) == tab[1] + TWO32 * Value([]);
      assert Value([tab[0]]) == tab[0] + TWO32 * Value([]);
      assert tab[..1] == [tab[0]];
    }

    /** mpb_get_u64: the low limb, or the two low limbs when len is not 1. */
    function GetU64(): (m: uint64)
      reads this, tab
      requires Valid() && 2 <= tab.Length
      ensures len <= 2 ==> m == Val()
    {
      if len == 1 then
        assert tab[..1] == [tab[0]];
        assert Value([tab[0]]) == tab[0] + TWO32 * Value([]);
        tab[0]
      else
        Pow2Values();
        OrShifted(tab[1], tab[0], 32);
        TwoLimbValue(tab[0], tab[1]);
        assert tab[..2] == [tab[0], tab[1]];
        OrCommutes(tab[1] * TWO32, tab[0]);
        Or(tab[0], tab[1] * TWO32)
    }
  }

  lemma {:induction false} TwoLimbValue(x: limb, y: limb)
    ensures Value([x, y]) == x + y * TWO32
    ensures x + y * TWO32 < TWO64
  {
    assert [x, y][1..] == [y];
    assert Value([y]) == y + TWO32 * Value([]);
    MulLe(TWO32, y, TWO32 - 1);
  }

  /** A normalized number with len limbs lies in [2^(32 (len-1)), 2^(32 len)) unless len is 1. */
  lemma {:induction false} NormalizedRange(s: seq<limb>)
    requires |s| >= 1 && (|s| == 1 || s[|s| - 1] != 0)
    ensures Value(s) < LimbPow(|s|)
    ensures |s| > 1 ==> LimbPow(|s| - 1) <= Value(s)
  {
    ValueBound(s);
    ValueSplit(s, |s| - 1);
    assert s[|s| - 1..] == [s[|s| - 1]];
    assert Value([s[|s| - 1]]) == s[|s| - 1] + TWO32 * Value([]);
    if |s| > 1 {
      MulLe(LimbPow(|s| - 1), 1, s[|s| - 1]);
    }
  }

  lemma {:induction false} LimbPowMonotone(i: nat, j: nat)
    requires i <= j
    ensures LimbPow(i) <= LimbPow(j)
  {
    if i < j {
      LimbPowMonotone(i, j - 1);
    }
  }

  function Sign(x: int): int
  {
    if x < 0 then -1 else if x > 0 then 1 else 0
  }

  /** Between normalized numbers, the one with fewer limbs is smaller. */
  lemma {:induction false} ShorterIsSmaller(s: seq<limb>, t: seq<limb>)
    requires |s| >= 1 && (|s| == 1 || s[|s| - 1] != 0)
    requires |t| >= 1 && (|t| == 1 || t[|t| - 1] != 0)
    requires |s| < |t|
    ensures Value(s) < Value(t)
  {
    NormalizedRange(s);
    NormalizedRange(t);
    LimbPowMonotone(|s|, |t| - 1);
  }

  /**
   * mpb_cmp: orders by length first, then limb by limb from the top. On
   * normalized operands, or operands of one length, this is the sign of the
   * difference of the values. When the lengths differ the shorter one is
   * reported smaller whatever its value, so an operand that is not
   * normalized can be ordered against its value.
   */
  method MpbCmp(a: Mpb, b: Mpb) returns (c: int)
    requires a.Valid() && b.Valid()
    ensures a.len < b.len ==> c == -1
    ensures a.len > b.len ==> c == 1
    ensures a.len == b.len ==> c == Sign(a.Val() - b.Val())
    ensures a.Normalized() && b.Normalized() ==> c == Sign(a.Val() - b.Val())
  {
    if a.len < b.len {
      if a.Normalized() && b.Normalized() {
        ShorterIsSmaller(a.tab[..a.len], b.tab[..b.len]);
      }
      return -1;
    } else if a.len > b.len {
      if a.Normalized() && b.Normalized() {
        ShorterIsSmaller(b.tab[..b.len], a.tab[..a.len]);
      }
      return 1;
    }
    c := CmpLimbs(a.tab, b.tab, a.len);
  }

  /** The limb-by-limb part of mpb_cmp, from limb n-1 down. */
  method CmpLimbs(x: array<limb>, y: array<limb>, n: nat) returns (c: int)
    requires n <= x.Length && n <= y.Length
    ensures c == Sign(Value(x[..n]) - Value(y[..n]))
  {
    var i := n - 1;
    while i >= 0
      invariant -1 <= i < n
      invariant x[i + 1..n] == y[i + 1..n]
    {
      if x[i] != y[i] {
        assert x[..n][i + 1..] == x[i + 1..n];
        assert y[..n][i + 1..] == y[i + 1..n];
        if x[i] < y[i] {
          TopDifferenceDecides(x[..n], y[..n], i);
          return -1;
        } else {
          TopDifferenceDecides(y[..n], x[..n], i);
          return 1;
        }
      }
      i := i - 1;
    }
    assert x[..n] == y[..n];
    return 0;
  }
}
