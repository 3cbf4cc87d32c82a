/**
 * Front-end helpers of the regular-expression compiler: decimal and escape
 * parsing (ECMAScript RegExp grammar, ECMA-262 section 22.2.1, with the
 * legacy octal escapes of Annex B.1.2), the i/m/s modifier groups, the
 * lookup of a named group, the hashed string set behind class strings, and
 * the stack-depth and simple-quantifier scans over the compiled program.
 *
 * The parsers read a NUL-terminated byte buffer through a pointer; here the
 * buffer is a byte sequence and a position, and reading past the end yields
 * the terminator.
 */
module Regexp {
  import opened Bits
  import opened CUtils
  import opened IntText

  /** The byte at i of a NUL-terminated buffer. */
  function At(s: seq<uint8>, i: nat): uint8
  {
    if i < |s| then s[i] else 0
  }

  // ---------------------------------------------------------------------
  // Runs of digits and their values.

  /** The value of c as a digit in radix 8, 10 or 16, or -1. */
  function DigitVal(c: int, radix: nat): int
  {
    if '0' as int <= c <= '9' as int && c < '0' as int + radix then c - '0' as int
    else if radix == 16 && 'A' as int <= c <= 'F' as int then c - 'A' as int + 10
    else if radix == 16 && 'a' as int <= c <= 'f' as int then c - 'a' as int + 10
    else -1
  }

  /** from_hex is the hexadecimal case of DigitVal. */
  lemma {:induction false} FromHexIsDigitVal(c: int)
    ensures FromHex(c) == DigitVal(c, 16)
  {
  }

  predicate IsDigitIn(c: int, radix: nat)
  {
    DigitVal(c, radix) >= 0
  }

  /** The number of consecutive digits of s from p on. */
  function Run(s: seq<uint8>, p: nat, radix: nat): (k: nat)
    decreases |s| - p
  {
    if p < |s| && IsDigitIn(s[p], radix) then 1 + Run(s, p + 1, radix) else 0
  }

  /** The value of the k digits of s from p on, most significant first. */
  function Value(s: seq<uint8>, p: nat, k: nat, radix: nat): int
    decreases k
  {
    if k == 0 then 0 else Value(s, p, k - 1, radix) * radix + DigitVal(At(s, p + k - 1), radix)
  }

  /** A run ends at the first non-digit. */
  lemma {:induction false} RunStops(s: seq<uint8>, i: nat, radix: nat)
    requires !IsDigitIn(At(s, i), radix)
    ensures Run(s, i, radix) == 0
  {
  }

  /** A run is made of digits. */
  lemma {:induction false} RunDigits(s: seq<uint8>, p: nat, radix: nat, j: nat)
    requires j < Run(s, p, radix)
    ensures IsDigitIn(At(s, p + j), radix)
    decreases j
  {
    if j > 0 {
      RunDigits(s, p + 1, radix, j - 1);
    }
  }

  /** Over a run, the value never decreases as digits are added. */
  lemma {:induction false} ValueMonotone(s: seq<uint8>, p: nat, a: nat, b: nat, radix: nat)
    requires a <= b <= Run(s, p, radix) && radix >= 1
    ensures 0 <= Value(s, p, a, radix) <= Value(s, p, b, radix)
    decreases b
  {
    if a < b {
      ValueMonotone(s, p, a, b - 1, radix);
      RunDigits(s, p, radix, b - 1);
      MulLe(Value(s, p, b - 1, radix), 1, radix);
    } else if a > 0 {
      ValueMonotone(s, p, a - 1, a - 1, radix);
      RunDigits(s, p, radix, a - 1);
      MulLe(Value(s, p, a - 1, radix), 0, radix);
    }
  }

  // ---------------------------------------------------------------------
  // parse_digits

  /**
   * parse_digits: reads the decimal digits at p. A value that reaches
   * INT32_MAX is an error that leaves the position where it was, or, when
   * overflow is allowed, is capped at INT32_MAX.
   */
  method ParseDigits(s: seq<uint8>, p: nat, allowOverflow: bool) returns (r: int, q: nat)
    ensures var k := Run(s, p, 10); var v := Value(s, p, k, 10);
      0 <= v &&
      (v < INT32_MAX ==> r == v && q == p + k) &&
      (v >= INT32_MAX && allowOverflow ==> r == INT32_MAX && q == p + k) &&
      (v >= INT32_MAX && !allowOverflow ==> r == -1 && q == p)
  {
    var v: int := 0;
    var i := p;
    while IsDigitIn(At(s, i), 10)
      invariant p <= i && Run(s, p, 10) == (i - p) + Run(s, i, 10)
      invariant 0 <= Value(s, p, i - p, 10)
      invariant v < INT32_MAX ==> v == Value(s, p, i - p, 10)
      invariant v >= INT32_MAX ==> allowOverflow && v == INT32_MAX && Value(s, p, i - p, 10) >= INT32_MAX
      decreases |s| - i
    {
      v := v * 10 + At(s, i) as int - '0' as int;
      if v >= INT32_MAX {
        if allowOverflow {
          v := INT32_MAX;
        } else {
          ValueMonotone(s, p, i + 1 - p, Run(s, p, 10), 10);
          return -1, p;
        }
      }
      i := i + 1;
    }
    ValueMonotone(s, p, i - p, i - p, 10);
    r, q := v, i;
  }

  // ---------------------------------------------------------------------
  // lre_parse_escape

  function Pow16(i: nat): (r: nat)
    ensures r >= 1
  {
    if i == 0 then 1 else 16 * Pow16(i - 1)
  }

  // A left shift by k is a multiplication by 2^k, written with its literal value.

  /** `(c << 4) | h` for a hexadecimal digit h appends the digit. */
  lemma {:induction false} ShiftIn4(c: nat, h: nat)
    requires h < 16
    ensures Or(c * 16, h) == c * 16 + h
  {
    assert Pow2(4) == 16;
    OrShifted(c, h, 4);
  }

  /** `(c << 3) | v` for an octal digit v appends the digit. */
  lemma {:induction false} ShiftIn3(c: nat, v: nat)
    requires v < 8
    ensures Or(c * 8, v) == c * 8 + v
  {
    assert Pow2(3) == 8;
    OrShifted(c, v, 3);
  }

  /** Reads exactly n hexadecimal digits at q: their value, or -1 at the first non-digit. */
  method HexDigits(s: seq<uint8>, q: nat, n: nat) returns (c: int)
    ensures Run(s, q, 16) >= n ==> c == Value(s, q, n, 16) && 0 <= c < Pow16(n)
    ensures Run(s, q, 16) < n ==> c == -1
  {
    c := 0;
    var i := 0;
    while i < n
      invariant i <= n && Run(s, q, 16) == i + Run(s, q + i, 16)
      invariant c == Value(s, q, i, 16) && 0 <= c < Pow16(i)
    {
      var h := FromHex(At(s, q + i));
      FromHexIsDigitVal(At(s, q + i));
      if h < 0 {
        return -1;
      }
      ShiftIn4(c, h);
      c := Or(c * 16, h);
      i := i + 1;
    }
  }

  /**
   * The braced form `\u{...}` after the brace at d - 1: one or more
   * hexadecimal digits closed by `}`, of value at most 0x10FFFF.
   */
  method BracedHex(s: seq<uint8>, d: nat) returns (c: int, q: nat)
    ensures BracedOk(s, d) ==> c == Value(s, d, Run(s, d, 16), 16) && 0 <= c && q == d + Run(s, d, 16) + 1
    ensures !BracedOk(s, d) ==> c == -1
  {
    c := 0;
    var i := d;
    while true
      invariant d <= i && Run(s, d, 16) == (i - d) + Run(s, i, 16)
      invariant c == Value(s, d, i - d, 16) && 0 <= c <= 0x10FFFF
      invariant i > d ==> At(s, i) != '}' as int
      decreases |s| - i
    {
      var h := FromHex(At(s, i));
      FromHexIsDigitVal(At(s, i));
      if h < 0 {
        RunStops(s, i, 16);
        NotBracedAt(s, d, i);
        return -1, 0;
      }
      HexStep(s, d, i, c);
      ShiftIn4(c, h);
      c := Or(c * 16, h);
      i := i + 1;
      if c > 0x10FFFF {
        NotBracedTooBig(s, d, i - d);
        return -1, 0;
      }
      if At(s, i) == '}' as int {
        BracedAtBrace(s, d, i);
        break;
      }
    }
    q := i + 1;
  }

  lemma {:induction false} BracedAtBrace(s: seq<uint8>, d: nat, i: nat)
    requires d < i && Run(s, d, 16) == (i - d) + Run(s, i, 16) && At(s, i) == '}' as int
    requires Value(s, d, i - d, 16) <= 0x10FFFF
    ensures Run(s, d, 16) == i - d && BracedOk(s, d)
  {
    RunStops(s, i, 16);
  }

  lemma {:induction false} NotBracedAt(s: seq<uint8>, d: nat, i: nat)
    requires d <= i && Run(s, d, 16) == i - d && (i > d ==> At(s, i) != '}' as int)
    ensures !BracedOk(s, d)
  {
  }

  lemma {:induction false} NotBracedTooBig(s: seq<uint8>, d: nat, j: nat)
    requires j <= Run(s, d, 16) && Value(s, d, j, 16) > 0x10FFFF
    ensures !BracedOk(s, d)
  {
    ValueMonotone(s, d, j, Run(s, d, 16), 16);
  }

  /** A braced escape at d: at least one digit, then `}`, and a value of at most 0x10FFFF. */
  predicate BracedOk(s: seq<uint8>, d: nat)
  {
    var k := Run(s, d, 16);
    k >= 1 && At(s, d + k) == '}' as int && Value(s, d, k, 16) <= 0x10FFFF
  }

  /** One more hexadecimal digit of a run at d. */
  lemma {:induction false} HexStep(s: seq<uint8>, d: nat, i: nat, c: int)
    requires d <= i && Run(s, d, 16) == (i - d) + Run(s, i, 16)
    requires c == Value(s, d, i - d, 16) && IsDigitIn(At(s, i), 16)
    ensures i < |s| && Run(s, d, 16) == (i + 1 - d) + Run(s, i + 1, 16)
    ensures Value(s, d, i + 1 - d, 16) == c * 16 + DigitVal(At(s, i), 16)
  {
  }

  predicate IsOctal(c: int)
  {
    '0' as int <= c <= '7' as int
  }

  /**
   * The legacy octal escapes of Annex B.1.2 span up to three octal digits,
   * the third one only when the first two stay below 32.
   */
  function OctalLength(s: seq<uint8>, p: nat): (k: nat)
    requires IsOctal(At(s, p))
    ensures 1 <= k <= 3 && k <= Run(s, p, 8)
  {
    var m := Run(s, p, 8);
    if m >= 3 && Value(s, p, 2, 8) < 32 then 3 else if m >= 2 then 2 else 1
  }

  /** `*p - '0'` in uint32: at most 7 exactly for an octal digit, and then its value. */
  lemma {:induction false} UnsignedOctal(x: uint8)
    ensures ((x - '0' as int) % TWO32 <= 7) <==> IsOctal(x)
    ensures IsOctal(x) ==> (x - '0' as int) % TWO32 == DigitVal(x, 8)
  {
  }

  /** The digits following a legacy octal escape's first digit at p. */
  method LegacyOctal(s: seq<uint8>, p: nat) returns (c: int, q: nat)
    requires IsOctal(At(s, p))
    ensures q == p + OctalLength(s, p) && c == Value(s, p, OctalLength(s, p), 8)
    ensures 0 <= c < 256
  {
    var m := Run(s, p, 8);
    assert m == 1 + Run(s, p + 1, 8);
    c := At(s, p) as int - '0' as int;
    assert c == Value(s, p, 1, 8);
    q := p + 1;
    UnsignedOctal(At(s, q));
    var v := (At(s, q) as int - '0' as int) % TWO32;
    if v > 7 {
      assert m == 1;
      return;
    }
    assert m >= 2 && Run(s, p + 1, 8) == 1 + Run(s, p + 2, 8);
    ShiftIn3(c, v);
    c := Or(c * 8, v);
    assert c == Value(s, p, 2, 8);
    q := q + 1;
    if c >= 32 {
      assert OctalLength(s, p) == 2;
      return;
    }
    UnsignedOctal(At(s, q));
    v := (At(s, q) as int - '0' as int) % TWO32;
    if v > 7 {
      assert m == 2;
      return;
    }
    assert m >= 3;
    ShiftIn3(c, v);
    c := Or(c * 8, v);
    assert c == Value(s, p, 3, 8);
    q := q + 1;
  }

  /** The control code a one-letter escape stands for, or -1. */
  function ControlEscape(c: int): int
  {
    if c == 'b' as int then 0x08
    else if c == 'f' as int then 0x0C
    else if c == 'n' as int then 0x0A
    else if c == 'r' as int then 0x0D
    else if c == 't' as int then 0x09
    else if c == 'v' as int then 0x0B
    else -1
  }

  /**
   * What the fixed-width forms `\xHH` and `\uHHHH` at p denote: the n
   * digits' value, joined with an immediately following escaped low
   * surrogate when the value is a high surrogate in unicode mode.
   */
  function FixedHex(s: seq<uint8>, p: nat, n: nat, allowUtf16: int): (int, nat)
  {
    var q := p + 1;
    if Run(s, q, 16) < n then (-1, p)
    else
      var c := Value(s, q, n, 16);
      var e := q + n;
      if 0 <= c < TWO32 && IsHiSurrogate(c) && allowUtf16 == 2 && At(s, e) == '\\' as int &&
         At(s, e + 1) == 'u' as int && Run(s, e + 2, 16) >= 4 &&
         0 <= Value(s, e + 2, 4, 16) < TWO32 && IsLoSurrogate(Value(s, e + 2, 4, 16))
      then (FromSurrogate(c, Value(s, e + 2, 4, 16)), e + 6)
      else (c, e)
  }

  /** The fixed-width forms `\xHH` and `\uHHHH`, with the letter at p and n digits after it. */
  method FixedHexEscape(s: seq<uint8>, p: nat, n: nat, allowUtf16: int) returns (r: int, q: nat)
    requires n == 2 || n == 4
    ensures (r, q) == FixedHex(s, p, n, allowUtf16)
    ensures r <= 0x10FFFF && (r < 0 ==> r == -1 && q == p)
  {
    assert Pow16(4) == 0x1_0000 && Pow16(2) == 0x100;
    q := p + 1;
    var c := HexDigits(s, q, n);
    if c < 0 {
      return -1, p;
    }
    q := q + n;
    if IsHiSurrogate(c) && allowUtf16 == 2 && At(s, q) == '\\' as int && At(s, q + 1) == 'u' as int {
      var c1 := HexDigits(s, q + 2, 4);
      if c1 >= 0 && IsLoSurrogate(c1) {
        SurrogateJoinSplit(c, c1);
        return FromSurrogate(c, c1), q + 6;
      }
    }
    return c, q;
  }

  /**
   * lre_parse_escape, with p just after the backslash: the character the
   * escape denotes and the position after it; -1 for a malformed escape and
   * -2 for a letter that is not an escape here, both leaving the position
   * at p.
   */
  method ParseEscape(s: seq<uint8>, p: nat, allowUtf16: int) returns (r: int, q: nat)
    ensures r < 0 ==> q == p && (r == -1 || r == -2)
    ensures r <= 0x10FFFF
    ensures ControlEscape(At(s, p)) >= 0 ==> r == ControlEscape(At(s, p)) && q == p + 1
    ensures (At(s, p) == 'x' as int || At(s, p) == 'u' as int) && At(s, p + 1) == '{' as int && allowUtf16 != 0 ==>
      var k := Run(s, p + 2, 16);
      if k >= 1 && At(s, p + 2 + k) == '}' as int && Value(s, p + 2, k, 16) <= 0x10FFFF
      then r == Value(s, p + 2, k, 16) && q == p + k + 3
      else r == -1
    ensures (At(s, p) == 'x' as int || At(s, p) == 'u' as int) && (At(s, p + 1) != '{' as int || allowUtf16 == 0) ==>
      (r, q) == FixedHex(s, p, if At(s, p) == 'x' as int then 2 else 4, allowUtf16)
    ensures IsOctal(At(s, p)) && allowUtf16 == 2 ==>
      if At(s, p) == '0' as int && !IsDigitIn(At(s, p + 1), 10) then r == 0 && q == p + 1 else r == -1
    ensures IsOctal(At(s, p)) && allowUtf16 != 2 ==>
      r == Value(s, p, OctalLength(s, p), 8) && q == p + OctalLength(s, p)
    ensures ControlEscape(At(s, p)) < 0 && At(s, p) != 'x' as int && At(s, p) != 'u' as int && !IsOctal(At(s, p)) ==>
      r == -2 && q == p
  {
    var c: int := At(s, p);
    q := p + 1;
    if ControlEscape(c) >= 0 {
      return ControlEscape(c), q;
    } else if c == 'x' as int || c == 'u' as int {
      if At(s, q) == '{' as int && allowUtf16 != 0 {
        var c1, q1 := BracedHex(s, q + 1);
        if c1 < 0 {
          return -1, p;
        }
        return c1, q1;
      }
      r, q := FixedHexEscape(s, p, if c == 'x' as int then 2 else 4, allowUtf16);
    } else if IsOctal(c) {
      if allowUtf16 == 2 {
        if c != '0' as int || IsDigitIn(At(s, q), 10) {
          return -1, p;
        }
        return 0, q;
      }
      r, q := LegacyOctal(s, p);
    } else {
      return -2, p;
    }
  }

  // ---------------------------------------------------------------------
  // Modifier groups `(?ims-ims:...)`.

  /** The flags a modifier group can set or clear. */
  datatype Flag = IgnoreCase | Multiline | DotAll

  predicate IsModifierLetter(c: int)
  {
    c == 'i' as int || c == 'm' as int || c == 's' as int
  }

  function FlagOf(c: int): Flag
    requires IsModifierLetter(c)
  {
    if c == 'i' as int then IgnoreCase else if c == 'm' as int then Multiline else DotAll
  }

  /** The number of consecutive modifier letters of s from p on. */
  function ModRun(s: seq<uint8>, p: nat): nat
    decreases |s| - p
  {
    if p < |s| && IsModifierLetter(s[p]) then 1 + ModRun(s, p + 1) else 0
  }

  lemma {:induction false} ModRunLetters(s: seq<uint8>, p: nat, j: nat)
    requires j < ModRun(s, p)
    ensures IsModifierLetter(At(s, p + j))
    decreases j
  {
    if j > 0 {
      ModRunLetters(s, p + 1, j - 1);
    }
  }

  predicate NoRepeat(s: seq<uint8>, p: nat, k: nat)
  {
    forall a, b | p <= a < b < p + k :: At(s, a) != At(s, b)
  }

  /** The flags named by the modifier letters in [p, q). */
  function FlagsIn(s: seq<uint8>, p: nat, q: nat): set<Flag>
  {
    set j | p <= j < q && IsModifierLetter(At(s, j)) :: FlagOf(At(s, j))
  }

  datatype Modifiers = DuplicateModifier | Modifiers(mask: set<Flag>, next: nat)

  /**
   * re_parse_modifiers: the set of flags named by the modifier letters at
   * p, and the position after them; a letter given twice is an error. Flag
   * masks are sets of flags, so `|` is union and `&` with one flag is
   * membership.
   */
  method ParseModifiers(s: seq<uint8>, p: nat) returns (res: Modifiers)
    ensures res.DuplicateModifier? <==> !NoRepeat(s, p, ModRun(s, p))
    ensures res.Modifiers? ==> res.next == p + ModRun(s, p) && res.mask == FlagsIn(s, p, res.next)
  {
    var mask: set<Flag> := {};
    var i := p;
    while true
      invariant p <= i && ModRun(s, p) == (i - p) + ModRun(s, i)
      invariant NoRepeat(s, p, i - p)
      invariant mask == FlagsIn(s, p, i)
      invariant forall j | p <= j < i :: IsModifierLetter(At(s, j))
      decreases |s| - i
    {
      var c := At(s, i);
      var val: Flag;
      if c == 'i' as int {
        val := IgnoreCase;
      } else if c == 'm' as int {
        val := Multiline;
      } else if c == 's' as int {
        val := DotAll;
      } else {
        break;
      }
      if val in mask {
        var j :| p <= j < i && IsModifierLetter(At(s, j)) && FlagOf(At(s, j)) == val;
        assert At(s, j) == At(s, i);
        return DuplicateModifier;
      }
      assert FlagsIn(s, p, i + 1) == FlagsIn(s, p, i) + {val};
      mask := mask + {val};
      i := i + 1;
    }
    return Modifiers(mask, i);
  }

  /** update_modifier: a flag in the removal mask clears, else one in the addition mask sets. */
  function UpdateModifier(val: bool, addMask: set<Flag>, removeMask: set<Flag>, flag: Flag): (r: bool)
    ensures flag in removeMask ==> !r
    ensures flag !in removeMask && flag in addMask ==> r
    ensures flag !in removeMask && flag !in addMask ==> r == val
  {
    var v := if flag in addMask then true else val;
    if flag in removeMask then false else v
  }

  // ---------------------------------------------------------------------
  // find_group_name

  /** The end of the NUL-terminated name that starts at p: its terminator, or the end of b. */
  function NameEnd(b: seq<uint8>, p: nat): (e: nat)
    requires p <= |b|
    ensures p <= e <= |b| && (e < |b| ==> b[e] == 0)
    decreases |b| - p
  {
    if p == |b| || b[p] == 0 then p else NameEnd(b, p + 1)
  }

  /** The names of a buffer of NUL-terminated group names from p on, in order. */
  function NamesFrom(b: seq<uint8>, p: nat): seq<seq<uint8>>
    requires p <= |b|
    decreases |b| - p
  {
    if p == |b| then []
    else
      var e := NameEnd(b, p);
      [b[p..e]] + NamesFrom(b, if e < |b| then e + 1 else e)
  }

  /** The group names of the whole buffer, in order of their capture index. */
  function GroupNames(b: seq<uint8>): seq<seq<uint8>>
  {
    NamesFrom(b, 0)
  }

  /** In a NUL-terminated buffer, every name ends before the end. */
  lemma {:induction false} NameEndBelow(b: seq<uint8>, p: nat)
    requires p < |b| && b[|b| - 1] == 0
    ensures NameEnd(b, p) < |b|
    decreases |b| - p
  {
    if b[p] != 0 {
      NameEndBelow(b, p + 1);
    }
  }

  /**
   * The 0-based position of the first name equal to name among the names
   * from p on, or -1.
   */
  function NameIndex(b: seq<uint8>, p: nat, name: seq<uint8>): (r: int)
    requires p <= |b|
    ensures r >= -1
    decreases |b| - p
  {
    if p == |b| then -1
    else
      var e := NameEnd(b, p);
      if b[p..e] == name then 0
      else
        var i := NameIndex(b, if e < |b| then e + 1 else e, name);
        if i < 0 then -1 else i + 1
  }

  /** NameIndex finds exactly the first occurrence of name among the names. */
  lemma {:induction false} NameIndexFirst(b: seq<uint8>, p: nat, name: seq<uint8>)
    requires p <= |b|
    ensures var r := NameIndex(b, p, name);
      (r == -1 <==> name !in NamesFrom(b, p)) &&
      (r >= 0 ==> r < |NamesFrom(b, p)| && NamesFrom(b, p)[r] == name && name !in NamesFrom(b, p)[..r])
    decreases |b| - p
  {
    if p < |b| {
      var e := NameEnd(b, p);
      var next := if e < |b| then e + 1 else e;
      var t := NamesFrom(b, next);
      var x := b[p..e];
      assert NamesFrom(b, p) == [x] + t;
      var r' := NameIndex(b, next, name);
      assert NameIndex(b, p, name) == if x == name then 0 else if r' < 0 then -1 else r' + 1;
      NameIndexFirst(b, next, name);
      FirstIndexCons(x, t, name, r');
    }
  }

  /** A first-occurrence index of y in t extends to one in [x] + t. */
  lemma {:induction false} FirstIndexCons<T>(x: T, t: seq<T>, y: T, r': int)
    requires r' >= -1 && (r' == -1 <==> y !in t) && (r' >= 0 ==> r' < |t| && t[r'] == y && y !in t[..r'])
    ensures var r := if x == y then 0 else if r' < 0 then -1 else r' + 1;
      (r == -1 <==> y !in [x] + t) &&
      (r >= 0 ==> r < |[x] + t| && ([x] + t)[r] == y && y !in ([x] + t)[..r])
  {
    assert ([x] + t)[..0] == [];
    if x != y && r' >= 0 {
      assert ([x] + t)[r' + 1] == t[r'];
      assert ([x] + t)[..r' + 1] == [x] + t[..r'];
    }
  }

  /**
   * find_group_name: the 1-based index of the first group called name, or
   * -1 when there is none.
   */
  method FindGroupName(names: seq<uint8>, name: seq<uint8>) returns (r: int)
    requires |names| == 0 || names[|names| - 1] == 0
    ensures r == -1 <==> name !in GroupNames(names)
    ensures r != -1 ==>
      1 <= r <= |GroupNames(names)| && GroupNames(names)[r - 1] == name && name !in GroupNames(names)[..r - 1]
  {
    var p := 0;
    var index := 1;
    while p < |names|
      invariant p <= |names| && index >= 1
      invariant var i := NameIndex(names, p, name);
        NameIndex(names, 0, name) == if i < 0 then -1 else index - 1 + i
      decreases |names| - p
    {
      var e := NameEnd(names, p);
      NameEndBelow(names, p);
      if e - p == |name| && names[p..e] == name {
        r := index;
        break;
      }
      p := e + 1;
      index := index + 1;
    }
    if p == |names| {
      r := -1;
    }
    NameIndexFirst(names, 0, name);
  }

  // ---------------------------------------------------------------------
  // The string set used for class strings.

  /** One hashed string: its hash and its code points. */
  datatype REString = REString(hash: uint32, buf: seq<uint32>)

  /** The accumulation of re_string_hash, `h * 263 + c` in uint32 from h = 1. */
  function HashFold(buf: seq<uint32>): uint32
  {
    if |buf| == 0 then 1 else (HashFold(buf[..|buf| - 1]) * 263 + buf[|buf| - 1]) % TWO32
  }

  /** re_string_hash: the fold scrambled by the multiplier 0x61C88647, in uint32. */
  function StringHash(buf: seq<uint32>): uint32
  {
    (HashFold(buf) * 0x61C88647) % TWO32
  }

  /** re_string_hash's loop. */
  method ReStringHash(buf: seq<uint32>) returns (h: uint32)
    ensures h == StringHash(buf)
  {
    var acc: uint32 := 1;
    var i := 0;
    while i < |buf|
      invariant i <= |buf| && acc == HashFold(buf[..i])
    {
      assert buf[..i + 1][..i] == buf[..i];
      acc := (acc * 263 + buf[i]) % TWO32;
      i := i + 1;
    }
    assert buf[..i] == buf;
    h := (acc * 0x61C88647) % TWO32;
  }

  /** Every entry of a bucket table. */
  function Entries(t: seq<seq<REString>>): set<REString>
  {
    set i, j | 0 <= i < |t| && 0 <= j < |t[i]| :: t[i][j]
  }

  /** The bucket index of a hash in a table of 2^bits buckets: its top bits. */
  function Bucket(hash: uint32, bits: nat): nat
    requires bits <= 32
  {
    Shr(hash, 32 - bits)
  }

  /** Every entry carries its string's hash and sits in its hash's bucket. */
  predicate WellPlaced(t: seq<seq<REString>>, bits: nat)
    requires bits <= 32
  {
    forall i, j | 0 <= i < |t| && 0 <= j < |t[i]| ::
      t[i][j].hash == StringHash(t[i][j].buf) && Bucket(t[i][j].hash, bits) == i
  }

  lemma {:induction false} BucketBound(hash: uint32, bits: nat)
    requires bits <= 32
    ensures Bucket(hash, bits) < Pow2(bits)
  {
    var d, m := Pow2(32 - bits), Pow2(bits);
    Pow2Values();
    Pow2Add(bits, 32 - bits);
    assert bits + (32 - bits) == 32;
    QuotBelow(hash, d, m);
  }

  lemma {:induction false} QuotBelow(x: nat, d: nat, m: nat)
    requires d > 0 && x < m * d
    ensures x / d < m
  {
    var q := x / d;
    assert q * d <= x;
    PositiveFactor(m - q, d);
  }

  lemma {:induction false} PositiveFactor(a: int, d: int)
    requires d > 0 && a * d > 0
    ensures a > 0
  {
  }

  /**
   * In a well-placed table, a string with hash h0 can only sit in bucket
   * Bucket(h0, bits); a chain there without it means the table lacks it.
   */
  lemma {:induction false} AbsentFromTable(t: seq<seq<REString>>, bits: nat, buf: seq<uint32>, h0: uint32)
    requires bits <= 32 && WellPlaced(t, bits) && h0 == StringHash(buf) && Bucket(h0, bits) < |t|
    requires forall j | 0 <= j < |t[Bucket(h0, bits)]| ::
      !(t[Bucket(h0, bits)][j].hash == h0 && t[Bucket(h0, bits)][j].buf == buf)
    ensures forall e | e in Entries(t) :: e.buf != buf
  {
    forall e | e in Entries(t)
      ensures e.buf != buf
    {
      var i, j :| 0 <= i < |t| && 0 <= j < |t[i]| && t[i][j] == e;
    }
  }

  /** Regrouping one chain into a table adds its entries and keeps every entry placed. */
  method RehashChain(t0: seq<seq<REString>>, chain: seq<REString>, bits: nat) returns (t: seq<seq<REString>>)
    requires 4 <= bits <= 32 && |t0| == Pow2(bits) && WellPlaced(t0, bits)
    requires forall k | 0 <= k < |chain| :: chain[k].hash == StringHash(chain[k].buf)
    ensures |t| == Pow2(bits) && WellPlaced(t, bits)
    ensures Entries(t) == Entries(t0) + (set k | 0 <= k < |chain| :: chain[k])
  {
    t := t0;
    var k := 0;
    while k < |chain|
      invariant k <= |chain| && |t| == Pow2(bits) && WellPlaced(t, bits)
      invariant Entries(t) == Entries(t0) + (set j | 0 <= j < k :: chain[j])
    {
      var e := chain[k];
      var h := Bucket(e.hash, bits);
      BucketBound(e.hash, bits);
      EntriesPrepend(t, h, e);
      PlacedPrepend(t, bits, e);
      PrefixEntriesStep(chain, k);
      UnionStep(Entries(t), Entries(t0), set j | 0 <= j < k :: chain[j], e);
      t := t[h := [e] + t[h]];
      k := k + 1;
    }
  }

  lemma {:induction false} PrefixEntriesStep(chain: seq<REString>, k: nat)
    requires k < |chain|
    ensures (set j | 0 <= j < k + 1 :: chain[j]) == (set j | 0 <= j < k :: chain[j]) + {chain[k]}
  {
  }

  lemma {:induction false} UnionStep<T>(a: set<T>, b: set<T>, c: set<T>, e: T)
    requires a == b + c
    ensures a + {e} == b + (c + {e})
  {
  }

  lemma {:induction false} UnionAssoc<T>(a: set<T>, b: set<T>, e: T)
    ensures a + (b + {e}) == (a + b) + {e}
  {
  }

  lemma {:induction false} AddToSet<T>(a: set<T>, e: T)
    ensures e in a ==> a + {e} == a
  {
  }

  /** The strings of a set of entries. */
  function BufsOf(es: set<REString>): set<seq<uint32>>
  {
    set x | x in es :: x.buf
  }

  lemma {:induction false} BufsAdd(es: set<REString>, e: REString)
    ensures BufsOf(es + {e}) == BufsOf(es) + {e.buf}
  {
  }

  /** Prepending an entry to a bucket adds exactly that entry. */
  lemma {:induction false} EntriesPrepend(t: seq<seq<REString>>, h: nat, e: REString)
    requires h < |t|
    ensures Entries(t[h := [e] + t[h]]) == Entries(t) + {e}
  {
    var t' := t[h := [e] + t[h]];
    forall x | x in Entries(t')
      ensures x in Entries(t) + {e}
    {
      var i, j :| 0 <= i < |t'| && 0 <= j < |t'[i]| && t'[i][j] == x;
      if i == h && j > 0 {
        assert x == t[i][j - 1];
      }
    }
    forall x | x in Entries(t)
      ensures x in Entries(t')
    {
      var i, j :| 0 <= i < |t| && 0 <= j < |t[i]| && t[i][j] == x;
      if i == h {
        assert x == t'[i][j + 1];
      } else {
        assert x == t'[i][j];
      }
    }
    assert e == t'[h][0];
  }

  lemma {:induction false} PlacedPrepend(t: seq<seq<REString>>, bits: nat, e: REString)
    requires bits <= 32 && WellPlaced(t, bits) && Bucket(e.hash, bits) < |t|
    requires e.hash == StringHash(e.buf)
    ensures WellPlaced(t[Bucket(e.hash, bits) := [e] + t[Bucket(e.hash, bits)]], bits)
  {
    var h := Bucket(e.hash, bits);
    var t': seq<seq<REString>> := t[h := [e] + t[h]];
    forall i, j | 0 <= i < |t'| && 0 <= j < |t'[i]|
      ensures t'[i][j].hash == StringHash(t'[i][j].buf) && Bucket(t'[i][j].hash, bits) == i
    {
      if i == h && j > 0 {
        assert t'[i][j] == t[i][j - 1];
      }
    }
  }

  /** The entries of the first i + 1 buckets are those of the first i and of bucket i. */
  lemma {:induction false} EntriesExtend(t: seq<seq<REString>>, i: nat)
    requires i < |t|
    ensures Entries(t[..i + 1]) == Entries(t[..i]) + (set j | 0 <= j < |t[i]| :: t[i][j])
  {
    var a, b := t[..i + 1], t[..i];
    forall x | x in Entries(a)
      ensures x in Entries(b) + (set j | 0 <= j < |t[i]| :: t[i][j])
    {
      var i', j :| 0 <= i' < |a| && 0 <= j < |a[i']| && a[i'][j] == x;
      if i' < i {
        assert x == b[i'][j];
      }
    }
    forall x | x in Entries(b)
      ensures x in Entries(a)
    {
      var i', j :| 0 <= i' < |b| && 0 <= j < |b[i']| && b[i'][j] == x;
      assert x == a[i'][j];
    }
    forall j | 0 <= j < |t[i]|
      ensures t[i][j] in Entries(a)
    {
      assert t[i][j] == a[i][j];
    }
  }

  lemma {:induction false} EntriesEmpty(n: nat)
    ensures Entries(seq(n, _ => [])) == {}
  {
  }

  lemma {:induction false} Pow2Of31()
    ensures Pow2(31) == 0x8000_0000
  {
    Pow2Values();
    assert Pow2(32) == 2 * Pow2(31);
  }

  /** Powers of two grow strictly. */
  lemma {:induction false} Pow2Below(k: nat, w: nat)
    requires Pow2(k) < Pow2(w)
    ensures k < w
    decreases k
  {
    if k > 0 && w > 0 {
      Pow2Below(k - 1, w - 1);
    }
  }

  /** The one-character strings of a character set gain [c] when c joins it. */
  function CharStrings(cr: set<uint32>): set<seq<uint32>>
  {
    set x | x in cr :: [x]
  }

  lemma {:induction false} CharStringsAdd(cr: set<uint32>, c: uint32)
    ensures CharStrings(cr + {c}) == CharStrings(cr) + {[c]}
  {
  }

  /**
   * A string list: the strings of length one as a character set, and the
   * other strings in a chained hash table of 2^hashBits buckets whose chains
   * are sequences, head first. The character range is abstracted as the set
   * of its code points.
   */
  class REStringList {
    var cr: set<uint32>
    var nStrings: nat
    var hashSize: nat
    var hashBits: nat
    var hashTable: seq<seq<REString>>

    /** The strings held in the hash table. */
    function Strings(): set<seq<uint32>>
      reads this
    {
      BufsOf(Entries(hashTable))
    }

    /** The whole list: the characters and the hashed strings. */
    function Members(): set<seq<uint32>>
      reads this
    {
      CharStrings(cr) + Strings()
    }

    ghost predicate Valid()
      reads this
    {
      |hashTable| == hashSize &&
      ((hashBits == 0 && hashSize == 0) || (4 <= hashBits <= 31 && hashSize == Pow2(hashBits))) &&
      nStrings == |Strings()| && nStrings <= hashSize &&
      WellPlaced(hashTable, hashBits)
    }

    /** re_string_list_init. */
    constructor ()
      ensures Valid() && Members() == {} && hashSize == 0 && hashBits == 0
    {
      cr := {};
      nStrings := 0;
      hashSize := 0;
      hashBits := 0;
      hashTable := [];
    }

    /** The chain walk of re_string_find2 in bucket h. */
    method SearchChain(buf: seq<uint32>, h0: uint32, h: nat) returns (found: bool)
      requires Valid() && h0 == StringHash(buf) && hashBits >= 1 && h == Bucket(h0, hashBits)
      ensures found <==> buf in Strings()
    {
      BucketBound(h0, hashBits);
      var chain := hashTable[h];
      var k := 0;
      while k < |chain|
        invariant k <= |chain|
        invariant forall j | 0 <= j < k :: !(chain[j].hash == h0 && chain[j].buf == buf)
      {
        var e := chain[k];
        if e.hash == h0 && e.buf == buf {
          assert e in Entries(hashTable);
          return true;
        }
        k := k + 1;
      }
      AbsentFromTable(hashTable, hashBits, buf, h0);
      return false;
    }

    /** The regrouping of every entry into a table of 2^newBits buckets. */
    method Rehash(newBits: nat) returns (t: seq<seq<REString>>)
      requires Valid() && 4 <= newBits <= 32
      ensures |t| == Pow2(newBits) && Entries(t) == Entries(hashTable) && WellPlaced(t, newBits)
    {
      t := seq(Pow2(newBits), _ => []);
      EntriesEmpty(Pow2(newBits));
      var i := 0;
      while i < hashSize
        invariant i <= hashSize && |t| == Pow2(newBits) && WellPlaced(t, newBits)
        invariant Entries(t) == Entries(hashTable[..i])
      {
        var chain := hashTable[i];
        assert forall k | 0 <= k < |chain| :: chain[k] == hashTable[i][k];
        t := RehashChain(t, chain, newBits);
        EntriesExtend(hashTable, i);
        i := i + 1;
      }
      assert hashTable[..hashSize] == hashTable;
    }

    /**
     * The growth step of re_string_find2 on a full table: 2^max(bits + 1,
     * 4) buckets holding the same strings.
     */
    method Grow()
      requires Valid() && nStrings < 0x8000_0000 && nStrings + 1 > hashSize
      modifies this
      ensures Valid() && cr == old(cr) && nStrings == old(nStrings)
      ensures Strings() == old(Strings()) && nStrings < hashSize
      ensures hashBits == (if old(hashBits) + 1 > 4 then old(hashBits) + 1 else 4)
      ensures hashSize == Pow2(hashBits)
    {
      var newBits := if hashBits + 1 > 4 then hashBits + 1 else 4;
      if hashBits != 0 {
        Pow2Of31();
        Pow2Below(hashBits, 31);
        assert Pow2(newBits) == 2 * Pow2(hashBits);
      } else {
        assert Pow2(4) == 16;
      }
      var t := Rehash(newBits);
      assert BufsOf(Entries(t)) == Strings();
      hashBits := newBits;
      hashSize := Pow2(newBits);
      hashTable := t;
    }

    /** The insertion of re_string_find2: a new entry at the head of its bucket. */
    method Insert(buf: seq<uint32>, h0: uint32)
      requires Valid() && h0 == StringHash(buf) && buf !in Strings() && nStrings < hashSize
      modifies this
      ensures Valid() && cr == old(cr) && hashBits == old(hashBits) && hashSize == old(hashSize)
      ensures Strings() == old(Strings()) + {buf} && nStrings == old(nStrings) + 1
    {
      var h := Bucket(h0, hashBits);
      BucketBound(h0, hashBits);
      var e := REString(h0, buf);
      EntriesPrepend(hashTable, h, e);
      PlacedPrepend(hashTable, hashBits, e);
      BufsAdd(Entries(hashTable), e);
      hashTable := hashTable[h := [e] + hashTable[h]];
      nStrings := nStrings + 1;
      assert Strings() == old(Strings()) + {buf};
    }

    /**
     * re_string_find2 for a string whose hash is h0: 1 when the string is
     * in the table; otherwise 0, or with add set the string is added and 1
     * returned. A table that would be over-full first grows to 2^max(bits
     * + 1, 4) buckets.
     */
    method Find2(buf: seq<uint32>, h0: uint32, add: bool) returns (r: int)
      requires Valid() && h0 == StringHash(buf)
      requires add ==> nStrings < 0x8000_0000
      modifies this
      ensures Valid() && cr == old(cr)
      ensures buf in old(Strings()) ==> r == 1 && Strings() == old(Strings()) && nStrings == old(nStrings)
      ensures buf in old(Strings()) || !add ==> hashTable == old(hashTable) && hashBits == old(hashBits)
      ensures buf !in old(Strings()) && !add ==> r == 0 && nStrings == old(nStrings)
      ensures buf !in old(Strings()) && add ==>
        r == 1 && Strings() == old(Strings()) + {buf} && nStrings == old(nStrings) + 1
      ensures buf !in old(Strings()) && add && old(nStrings) + 1 > old(hashSize) ==>
        hashBits == (if old(hashBits) + 1 > 4 then old(hashBits) + 1 else 4) && hashSize == Pow2(hashBits)
      ensures buf !in old(Strings()) && add && old(nStrings) + 1 <= old(hashSize) ==>
        hashBits == old(hashBits) && hashSize == old(hashSize)
    {
      if nStrings != 0 {
        var found := SearchChain(buf, h0, Bucket(h0, hashBits));
        if found {
          return 1;
        }
      } else {
        assert Strings() == {};
      }
      if !add {
        return 0;
      }
      if nStrings + 1 > hashSize {
        Grow();
      }
      Insert(buf, h0);
      return 1;
    }

    /** re_string_find: re_string_find2 with the string's own hash. */
    method Find(buf: seq<uint32>, add: bool) returns (r: int)
      requires Valid()
      requires add ==> nStrings < 0x8000_0000
      modifies this
      ensures Valid() && cr == old(cr)
      ensures buf in old(Strings()) ==> r == 1 && Strings() == old(Strings()) && nStrings == old(nStrings)
      ensures buf !in old(Strings()) && !add ==> r == 0 && Strings() == old(Strings())
      ensures buf !in old(Strings()) && add ==>
        r == 1 && Strings() == old(Strings()) + {buf} && nStrings == old(nStrings) + 1
    {
      var h0 := ReStringHash(buf);
      r := Find2(buf, h0, add);
    }

    /** cr_union_interval(cr, c, c) on the character set. */
    method UnionChar(c: uint32)
      requires Valid()
      modifies this
      ensures Valid() && cr == old(cr) + {c} && Strings() == old(Strings())
      ensures Members() == old(Members()) + {[c]}
    {
      CharStringsAdd(cr, c);
      cr := cr + {c};
    }

    /**
     * re_string_add: a one-character string joins the character set, any
     * other string the hash table; either way the list gains exactly it.
     */
    method Add(buf: seq<uint32>) returns (r: int)
      requires Valid()
      requires |buf| != 1 ==> nStrings < 0x8000_0000
      modifies this
      ensures Valid() && r == 0
      ensures Members() == old(Members()) + {buf}
      ensures |buf| == 1 ==> cr == old(cr) + {buf[0]} && Strings() == old(Strings())
      ensures |buf| != 1 ==> cr == old(cr) && Strings() == old(Strings()) + {buf}
    {
      if |buf| == 1 {
        assert buf == [buf[0]];
        UnionChar(buf[0]);
      } else {
        ghost var before := Strings();
        var found := Find(buf, true);
        AddToSet(before, buf);
        assert Strings() == before + {buf};
        UnionAssoc(CharStrings(cr), before, buf);
      }
      r := 0;
    }
  }

  // ---------------------------------------------------------------------
  // Scans over the compiled program.

  /**
   * The instructions of a compiled program as far as the scans below tell
   * them apart; Other stands for every remaining opcode.
   */
  datatype ReOp =
    | Char | CharI | Char32 | Char32I | Dot | Any
    | Range | RangeI | Range32 | Range32I
    | LineStart | LineStartM | LineEnd | LineEndM
    | WordBoundary | WordBoundaryI | NotWordBoundary | NotWordBoundaryI
    | PushI32 | PushCharPos | DropOp | CheckAdvance
    | Other

  /** The change of the backtracking stack an instruction makes. */
  function Effect(op: ReOp): int
  {
    if op == PushI32 || op == PushCharPos then 1
    else if op == DropOp || op == CheckAdvance then -1
    else 0
  }

  /** The stack depth after the first k instructions. */
  function Depth(ops: seq<ReOp>, k: nat): int
    requires k <= |ops|
  {
    if k == 0 then 0 else Depth(ops, k - 1) + Effect(ops[k - 1])
  }

  /** The greatest depth reached within the first k instructions. */
  function MaxDepth(ops: seq<ReOp>, k: nat): (m: int)
    requires k <= |ops|
    ensures m >= 0 && m >= Depth(ops, k)
  {
    if k == 0 then 0
    else
      var m := MaxDepth(ops, k - 1);
      if Depth(ops, k) > m then Depth(ops, k) else m
  }

  /** MaxDepth is the maximum of zero and the prefix depths. */
  lemma {:induction false} MaxDepthIsMax(ops: seq<ReOp>, k: nat)
    requires k <= |ops|
    ensures forall j | 0 <= j <= k :: Depth(ops, j) <= MaxDepth(ops, k)
    ensures MaxDepth(ops, k) == 0 || exists j | 0 < j <= k :: Depth(ops, j) == MaxDepth(ops, k)
    decreases k
  {
    if k > 0 {
      MaxDepthIsMax(ops, k - 1);
      var m := MaxDepth(ops, k - 1);
      assert forall j | 0 <= j <= k - 1 :: Depth(ops, j) <= MaxDepth(ops, k);
      if Depth(ops, k) > m {
        assert Depth(ops, k) == MaxDepth(ops, k);
        assert exists j | 0 < j <= k :: Depth(ops, j) == MaxDepth(ops, k);
      } else if m != 0 {
        var j :| 0 < j <= k - 1 && Depth(ops, j) == m;
        assert Depth(ops, j) == MaxDepth(ops, k);
      }
    }
  }

  lemma {:induction false} MaxDepthMonotone(ops: seq<ReOp>, a: nat, b: nat)
    requires a <= b <= |ops|
    ensures MaxDepth(ops, a) <= MaxDepth(ops, b)
    decreases b
  {
    if a < b {
      MaxDepthMonotone(ops, a, b - 1);
      assert MaxDepth(ops, b - 1) <= MaxDepth(ops, b);
    }
  }

  /** The program never pops an empty stack. */
  predicate PopsBalanced(ops: seq<ReOp>)
  {
    forall k | 0 <= k < |ops| :: Effect(ops[k]) < 0 ==> Depth(ops, k) > 0
  }

  const STACK_SIZE_MAX: nat := 255

  /**
   * compute_stack_size: the greatest stack depth the program reaches, or -1
   * when that exceeds STACK_SIZE_MAX.
   */
  method ComputeStackSize(ops: seq<ReOp>) returns (r: int)
    requires PopsBalanced(ops)
    ensures MaxDepth(ops, |ops|) > STACK_SIZE_MAX ==> r == -1
    ensures MaxDepth(ops, |ops|) <= STACK_SIZE_MAX ==> r == MaxDepth(ops, |ops|)
  {
    var stackSize := 0;
    var stackSizeMax := 0;
    var pos := 0;
    while pos < |ops|
      invariant pos <= |ops| && stackSize == Depth(ops, pos) && stackSize >= 0
      invariant stackSizeMax == MaxDepth(ops, pos) <= STACK_SIZE_MAX
    {
      var op := ops[pos];
      if op == PushI32 || op == PushCharPos {
        stackSize := stackSize + 1;
        if stackSize > stackSizeMax {
          if stackSize > STACK_SIZE_MAX {
            MaxDepthMonotone(ops, pos + 1, |ops|);
            return -1;
          }
          stackSizeMax := stackSize;
        }
      } else if op == DropOp || op == CheckAdvance {
        stackSize := stackSize - 1;
      }
      pos := pos + 1;
    }
    r := stackSizeMax;
  }

  /** The instructions that match one character. */
  predicate IsCharMatch(op: ReOp)
  {
    op in {Char, CharI, Char32, Char32I, Dot, Any, Range, RangeI, Range32, Range32I}
  }

  /** The zero-width assertions a simple quantifier may repeat. */
  predicate IsAssertion(op: ReOp)
  {
    op in {LineStart, LineStartM, LineEnd, LineEndM, WordBoundary, WordBoundaryI,
           NotWordBoundary, NotWordBoundaryI}
  }

  /** The number of character-matching instructions among the first k. */
  function CharCount(ops: seq<ReOp>, k: nat): (n: nat)
    requires k <= |ops|
    ensures n <= k
  {
    if k == 0 then 0 else CharCount(ops, k - 1) + (if IsCharMatch(ops[k - 1]) then 1 else 0)
  }

  /**
   * re_is_simple_quantifier: the number of characters the atom matches
   * when it consists of character matches and assertions only, else -1.
   */
  method IsSimpleQuantifier(ops: seq<ReOp>) returns (r: int)
    ensures (forall k | 0 <= k < |ops| :: IsCharMatch(ops[k]) || IsAssertion(ops[k])) ==>
      r == CharCount(ops, |ops|)
    ensures (exists k | 0 <= k < |ops| :: !IsCharMatch(ops[k]) && !IsAssertion(ops[k])) ==> r == -1
  {
    var count := 0;
    var pos := 0;
    while pos < |ops|
      invariant pos <= |ops| && count == CharCount(ops, pos)
      invariant forall k | 0 <= k < pos :: IsCharMatch(ops[k]) || IsAssertion(ops[k])
    {
      var op := ops[pos];
      if IsCharMatch(op) {
        count := count + 1;
      } else if !IsAssertion(op) {
        return -1;
      }
      pos := pos + 1;
    }
    r := count;
  }

  // ---------------------------------------------------------------------
  // Character classes of the matcher.

  /** The line terminators of ECMA-262 section 12.3: LF, CR, LS and PS. */
  const LINE_TERMINATORS: set<uint32> := {0x0A, 0x0D, 0x2028, 0x2029}

  function IsLineTerminator(c: uint32): (r: bool)
    ensures r <==> c in LINE_TERMINATORS
    ensures r ==> !IsWordChar(c)
  {
    c == '\n' as int || c == '\r' as int || c == 0x2028 || c == 0x2029
  }

  /** is_word_char: the characters to_digit gives a digit value, and `_`. */
  function IsWordChar(c: uint32): (r: bool)
    ensures r <==> ToDigit(c) < 36 || c == '_' as int
  {
    ('0' as int <= c <= '9' as int) || ('a' as int <= c <= 'z' as int) ||
    ('A' as int <= c <= 'Z' as int) || c == '_' as int
  }
}
