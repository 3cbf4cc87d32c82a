/**
 * The object store's record format: the self-describing field encoding an
 * object body is made of, the header sanity check, and the size of a class
 * descriptor's signature.
 *
 * An element is a tag byte whose low nibble is the type, then the value. A
 * string, a byte vector, an array or a map of length 1 to 15 keeps the
 * length in the tag's high nibble; any other length follows the tag as a
 * 4-byte integer. Multi-byte values are copied in host byte order, which
 * the model fixes to little-endian.
 */
module Codec {
  import opened Bits
  import opened CUtils

  // Field types.
  const OBJECT_REF_TYPE: nat := 0
  const ARRAY_REF_TYPE: nat := 1
  const INDEX_REF_TYPE: nat := 2
  const BOOL_TYPE: nat := 3
  const INT_TYPE: nat := 4
  const DATE_TYPE: nat := 5
  const REAL_TYPE: nat := 6
  const CHARS_TYPE: nat := 7
  const ARRAY_TYPE: nat := 8
  const MAP_TYPE: nat := 9
  const LONG_TYPE: nat := 10
  const BYTES_TYPE: nat := 11

  /** dbSizeofType: the payload size of a scalar type, 0 for the others. */
  function SizeofType(t: nat): nat
    requires t <= BYTES_TYPE
  {
    if t <= INDEX_REF_TYPE then 4
    else if t == BOOL_TYPE then 1
    else if t == INT_TYPE then 4
    else if t == DATE_TYPE || t == REAL_TYPE || t == LONG_TYPE then 8
    else 0
  }

  predicate IsScalar(t: nat)
  {
    t <= REAL_TYPE || t == LONG_TYPE
  }

  /** A type whose element is followed by length payload bytes. */
  predicate HasPayload(t: nat)
  {
    t == CHARS_TYPE || t == BYTES_TYPE
  }

  /** A type whose element is a length alone. */
  predicate IsHeaderOnly(t: nat)
  {
    t == ARRAY_TYPE || t == MAP_TYPE
  }

  // ---------------------------------------------------------------------
  // Four-byte lengths.

  /** A C int stored with memcpy: its two's complement bytes. */
  function Int32Bytes(x: int32): (s: seq<uint8>)
    ensures |s| == 4
  {
    U32Bytes(if x < 0 then x + TWO32 else x)
  }

  /** The C int four bytes hold. */
  function Int32Of(s: seq<uint8>): int32
    requires |s| == 4
  {
    var v := GetU32(s, 0);
    if v >= 0x8000_0000 then v - TWO32 else v
  }

  lemma {:induction false} Int32RoundTrip(x: int32)
    ensures Int32Of(Int32Bytes(x)) == x
  {
    var v := if x < 0 then x + TWO32 else x;
    GetPutU32(v);
  }

  /** `(unsigned)(length - 1) < 15`: the short form's test. */
  predicate IsShortLength(length: int32)
  {
    (length - 1) % TWO32 < 15
  }

  lemma {:induction false} ShortLengthRange(length: int32)
    ensures IsShortLength(length) <==> 1 <= length <= 15
  {
    if length < 1 {
      assert (length - 1) % TWO32 == length - 1 + TWO32;
    }
  }

  /** `(byte)(type | (length << 4))` for a type below 16 and a length below 16. */
  function ShortTag(t: nat, length: nat): (tag: uint8)
    requires t < 16 && length < 16
    ensures tag == t + 16 * length
  {
    Pow2Values();
    OrShifted(length, t, 4);
    OrCommutes(t, length * 16);
    Or(t, length * 16)
  }

  /** `type & 0xF`. */
  function Nibble(tag: uint8): (r: nat)
    ensures r == tag % 16
  {
    Pow2Values();
    AndLowMask(tag, 4);
    And(tag, 0xF)
  }

  // ---------------------------------------------------------------------
  // Encoding.

  /** What setElement accepts: a known type and, for strings and bytes, as many value bytes as the length. */
  predicate ValidElement(t: nat, value: seq<uint8>, length: int32)
  {
    (IsScalar(t) && |value| >= SizeofType(t)) ||
    (HasPayload(t) && 0 <= length <= |value|) ||
    IsHeaderOnly(t)
  }

  /** The tag and, in the long form, the 4-byte length. */
  function LengthHeader(t: nat, length: int32): (s: seq<uint8>)
    requires t < 16
    ensures |s| == if IsShortLength(length) then 1 else 5
  {
    ShortLengthRange(length);
    if IsShortLength(length) then [ShortTag(t, length)] else [t] + Int32Bytes(length)
  }

  /** The bytes setElement appends to the body. */
  function Encode(t: nat, value: seq<uint8>, length: int32): (s: seq<uint8>)
    requires ValidElement(t, value, length)
    ensures IsScalar(t) ==> |s| == 1 + SizeofType(t) && s[0] == t
    ensures HasPayload(t) ==> |s| == (if 1 <= length <= 15 then 1 else 5) + length
    ensures IsHeaderOnly(t) ==> |s| == (if 1 <= length <= 15 then 1 else 5)
    ensures !IsShortLength(length) || IsScalar(t) ==> s[0] == t
  {
    ShortLengthRange(length);
    if IsScalar(t) then [t] + value[..SizeofType(t)]
    else if HasPayload(t) then LengthHeader(t, length) + value[..length]
    else LengthHeader(t, length)
  }

  /** Element sizes: references and ints 1 + 4 bytes, bools 1 + 1, dates, reals and longs 1 + 8. */
  lemma {:induction false} ScalarSizes(value: seq<uint8>)
    requires |value| >= 8
    ensures forall t | t in {OBJECT_REF_TYPE, ARRAY_REF_TYPE, INDEX_REF_TYPE, INT_TYPE} :: |Encode(t, value, 0)| == 5
    ensures |Encode(BOOL_TYPE, value, 0)| == 2
    ensures forall t | t in {DATE_TYPE, REAL_TYPE, LONG_TYPE} :: |Encode(t, value, 0)| == 9
  {
  }

  /**
   * The handle that builds an object: the body, which starts with room for
   * the object header, and the signature, the NUL-terminated class name and
   * field names.
   */
  class StoreHandle {
    var body: seq<uint8>
    var signature: seq<uint8>

    constructor (className: seq<uint8>)
      ensures |body| == 8 && signature == className + [0]
    {
      body := seq(8, _ => 0);
      signature := className + [0];
    }

    /** setElement: appends one encoded element to the body. */
    method SetElement(t: nat, value: seq<uint8>, length: int32)
      requires ValidElement(t, value, length)
      modifies this
      ensures body == old(body) + Encode(t, value, length)
      ensures signature == old(signature)
    {
      if IsScalar(t) {
        SetScalar(t, value);
      } else if HasPayload(t) {
        SetLength(t, length);
        body := body + value[..length];
      } else {
        SetLength(t, length);
      }
    }

    /** The scalar cases of setElement: the type byte, then the value's bytes. */
    method SetScalar(t: nat, value: seq<uint8>)
      requires IsScalar(t) && |value| >= SizeofType(t)
      modifies this
      ensures body == old(body) + ([t] + value[..SizeofType(t)])
      ensures signature == old(signature)
    {
      body := body + [t];
      if t <= INDEX_REF_TYPE || t == INT_TYPE {
        body := body + value[..4];
      } else if t == BOOL_TYPE {
        body := body + [value[0]];
        assert value[..1] == [value[0]];
      } else {
        body := body + value[..8];
      }
    }

    /** The length of a string, byte vector, array or map: in the tag, or after it. */
    method SetLength(t: nat, length: int32)
      requires t < 16
      modifies this
      ensures body == old(body) + LengthHeader(t, length)
      ensures signature == old(signature)
    {
      if (length - 1) % TWO32 < 15 {
        ShortLengthRange(length);
        body := body + [ShortTag(t, length)];
      } else {
        body := body + [t];
        body := body + Int32Bytes(length);
      }
    }

    /** setFieldValue: the field's name joins the signature and its value the body. */
    method SetFieldValue(fieldName: seq<uint8>, t: nat, value: seq<uint8>, length: int32)
      requires ValidElement(t, value, length)
      modifies this
      ensures signature == old(signature) + fieldName + [0]
      ensures body == old(body) + Encode(t, value, length)
    {
      signature := signature + fieldName + [0];
      SetElement(t, value, length);
    }
  }

  // ---------------------------------------------------------------------
  // Decoding.

  /** Where getValue points: into the value union, or at a body offset. */
  datatype Ptr = InUnion | InData(offset: nat)

  /** The handle's state after one hasNext: the cursor, the type, the union's eight bytes and the value pointer. */
  datatype Decoded = Decoded(curr: int, elemType: nat, u: seq<uint8>, ptr: Ptr)

  datatype Option<T> = None | Some(value: T)

  /** A fixed-size value: k bytes copied to the start of the union. */
  function DecodeFixed(data: seq<uint8>, curr: nat, tag: uint8, k: nat, u: seq<uint8>): (r: Option<Decoded>)
    requires k <= |u| == 8
    ensures r.Some? ==> |r.value.u| == 8 && r.value.curr >= 0
  {
    if curr + k <= |data| then Some(Decoded(curr + k, tag, data[curr..curr + k] + u[k..], InUnion)) else None
  }

  /** A string or byte vector: the length from the tag or from four bytes, then the payload. */
  function DecodePayload(data: seq<uint8>, curr: nat, tag: uint8, t: nat, u: seq<uint8>): (r: Option<Decoded>)
    requires |u| == 8
    ensures r.Some? ==> |r.value.u| == 8 && r.value.curr >= 0
  {
    if tag != t then
      var n := tag / 16;
      if curr + n <= |data| then Some(Decoded(curr + n, t, Int32Bytes(n) + u[4..], InData(curr))) else None
    else if curr + 4 <= |data| then
      var n := Int32Of(data[curr..curr + 4]);
      if 0 <= curr + 4 + n <= |data| then Some(Decoded(curr + 4 + n, t, data[curr..curr + 4] + u[4..], InData(curr + 4)))
      else None
    else None
  }

  /** An array or map header: the length from the tag or from four bytes. */
  function DecodeCount(data: seq<uint8>, curr: nat, tag: uint8, t: nat, u: seq<uint8>): (r: Option<Decoded>)
    requires |u| == 8
    ensures r.Some? ==> |r.value.u| == 8 && r.value.curr >= 0
  {
    if tag != t then Some(Decoded(curr, t, Int32Bytes(tag / 16) + u[4..], InUnion))
    else if curr + 4 <= |data| then Some(Decoded(curr + 4, t, data[curr..curr + 4] + u[4..], InUnion))
    else None
  }

  /**
   * One step of hasNext at pos, from the union bytes u; None when a read
   * would leave the record bytes. A tag whose type nibble is unknown is
   * passed over alone.
   */
  function DecodeAt(data: seq<uint8>, pos: nat, u: seq<uint8>): (r: Option<Decoded>)
    requires pos < |data| && |u| == 8
    ensures r.Some? ==> |r.value.u| == 8 && r.value.curr >= 0
  {
    var tag := data[pos];
    var t := Nibble(tag);
    if IsScalar(t) then DecodeFixed(data, pos + 1, tag, SizeofType(t), u)
    else if HasPayload(t) then DecodePayload(data, pos + 1, tag, t, u)
    else if IsHeaderOnly(t) then DecodeCount(data, pos + 1, tag, t, u)
    else Some(Decoded(pos + 1, tag, u, InUnion))
  }

  /** getLength: the union read as an int. */
  function LengthOf(u: seq<uint8>): int32
    requires |u| == 8
  {
    Int32Of(u[..4])
  }

  /**
   * Decoding what setElement wrote gives back the type, the value and the
   * length, and moves the cursor past exactly that element.
   */
  lemma {:induction false} DecodeEncode(prefix: seq<uint8>, t: nat, value: seq<uint8>, length: int32,
                                        suffix: seq<uint8>, u: seq<uint8>)
    requires ValidElement(t, value, length) && |u| == 8
    ensures var e := Encode(t, value, length);
      var data := prefix + e + suffix;
      var d := DecodeAt(data, |prefix|, u);
      d.Some? && d.value.curr == |prefix| + |e| && d.value.elemType == t &&
      (IsScalar(t) ==> d.value.u[..SizeofType(t)] == value[..SizeofType(t)] && d.value.ptr == InUnion) &&
      (HasPayload(t) ==>
         (LengthOf(d.value.u) == length && d.value.ptr.InData? &&
          d.value.ptr.offset + length <= |data| &&
          data[d.value.ptr.offset..d.value.ptr.offset + length] == value[..length])) &&
      (IsHeaderOnly(t) ==> LengthOf(d.value.u) == length)
  {
    ShortLengthRange(length);
    if IsScalar(t) {
      DecodeScalar(prefix, t, value, suffix, u);
    } else if HasPayload(t) {
      DecodeString(prefix, t, value, length, suffix, u);
    } else {
      DecodeHeader(prefix, t, value, length, suffix, u);
    }
  }

  lemma {:induction false} DecodeScalar(prefix: seq<uint8>, t: nat, value: seq<uint8>, suffix: seq<uint8>, u: seq<uint8>)
    requires IsScalar(t) && |value| >= SizeofType(t) && |u| == 8
    ensures var e := Encode(t, value, 0);
      var d := DecodeAt(prefix + e + suffix, |prefix|, u);
      d.Some? && d.value.curr == |prefix| + |e| && d.value.elemType == t &&
      d.value.u[..SizeofType(t)] == value[..SizeofType(t)] && d.value.ptr == InUnion
  {
    var k := SizeofType(t);
    var e := [t] + value[..k];
    assert Encode(t, value, 0) == e;
    var data := prefix + e + suffix;
    var p := |prefix|;
    assert data[p] == t;
    assert data[p + 1..p + 1 + k] == value[..k];
    assert Nibble(data[p]) == t;
    assert DecodeAt(data, p, u) == DecodeFixed(data, p + 1, t, k, u);
    var d := DecodeFixed(data, p + 1, t, k, u);
    assert d.value.u[..k] == data[p + 1..p + 1 + k];
  }

  /** The long form's length bytes read back as the length. */
  lemma {:induction false} LongLength(data: seq<uint8>, p: nat, length: int32, u: seq<uint8>)
    requires p + 5 <= |data| && data[p + 1..p + 5] == Int32Bytes(length) && |u| == 8
    ensures Int32Of(data[p + 1..p + 5]) == length
    ensures LengthOf(data[p + 1..p + 5] + u[4..]) == length
  {
    Int32RoundTrip(length);
    assert (data[p + 1..p + 5] + u[4..])[..4] == data[p + 1..p + 5];
  }

  /** The short form's length reads back from the tag. */
  lemma {:induction false} ShortLength(t: nat, length: int32, u: seq<uint8>)
    requires t < 16 && 1 <= length <= 15 && |u| == 8
    ensures ShortTag(t, length) != t && ShortTag(t, length) % 16 == t && ShortTag(t, length) / 16 == length
    ensures LengthOf(Int32Bytes(length) + u[4..]) == length
  {
    DivModUnique(ShortTag(t, length), 16, length, t);
    Int32RoundTrip(length);
    assert (Int32Bytes(length) + u[4..])[..4] == Int32Bytes(length);
  }

  lemma {:induction false} DecodeString(prefix: seq<uint8>, t: nat, value: seq<uint8>, length: int32,
                                        suffix: seq<uint8>, u: seq<uint8>)
    requires HasPayload(t) && 0 <= length <= |value| && |u| == 8
    ensures var e := Encode(t, value, length);
      var data := prefix + e + suffix;
      var d := DecodeAt(data, |prefix|, u);
      var start := |prefix| + (if 1 <= length <= 15 then 1 else 5);
      d.Some? && d.value.curr == |prefix| + |e| && d.value.elemType == t && LengthOf(d.value.u) == length &&
      d.value.ptr == InData(start) && data[start..start + length] == value[..length]
  {
    ShortLengthRange(length);
    var h := LengthHeader(t, length);
    var e := h + value[..length];
    assert Encode(t, value, length) == e;
    if 1 <= length <= 15 {
      DecodeStringShort(prefix, t, value[..length], length, suffix, u);
    } else {
      DecodeStringLong(prefix, t, value[..length], length, suffix, u);
    }
  }

  lemma {:induction false} DecodeStringShort(prefix: seq<uint8>, t: nat, payload: seq<uint8>, length: int32,
                                             suffix: seq<uint8>, u: seq<uint8>)
    requires HasPayload(t) && 1 <= length <= 15 && |payload| == length && |u| == 8
    ensures var data := prefix + ([ShortTag(t, length)] + payload) + suffix;
      var d := DecodeAt(data, |prefix|, u);
      d.Some? && d.value.curr == |prefix| + 1 + length && d.value.elemType == t && LengthOf(d.value.u) == length &&
      d.value.ptr == InData(|prefix| + 1) && data[|prefix| + 1..|prefix| + 1 + length] == payload
  {
    var tag := ShortTag(t, length);
    var data := prefix + ([tag] + payload) + suffix;
    var p := |prefix|;
    ShortLength(t, length, u);
    assert data[p] == tag;
    assert data[p + 1..p + 1 + length] == payload;
    assert DecodeAt(data, p, u) == DecodePayload(data, p + 1, tag, t, u);
  }

  lemma {:induction false} DecodeStringLong(prefix: seq<uint8>, t: nat, payload: seq<uint8>, length: int32,
                                            suffix: seq<uint8>, u: seq<uint8>)
    requires HasPayload(t) && !(1 <= length <= 15) && |payload| == length && |u| == 8
    ensures var data := prefix + ([t] + Int32Bytes(length) + payload) + suffix;
      var d := DecodeAt(data, |prefix|, u);
      d.Some? && d.value.curr == |prefix| + 5 + length && d.value.elemType == t && LengthOf(d.value.u) == length &&
      d.value.ptr == InData(|prefix| + 5) && data[|prefix| + 5..|prefix| + 5 + length] == payload
  {
    var data := prefix + ([t] + Int32Bytes(length) + payload) + suffix;
    var p := |prefix|;
    assert data[p] == t;
    assert data[p + 1..p + 5] == Int32Bytes(length);
    assert data[p + 5..p + 5 + length] == payload;
    LongLength(data, p, length, u);
    assert DecodeAt(data, p, u) == DecodePayload(data, p + 1, t, t, u);
  }

  lemma {:induction false} DecodeHeader(prefix: seq<uint8>, t: nat, value: seq<uint8>, length: int32,
                                        suffix: seq<uint8>, u: seq<uint8>)
    requires IsHeaderOnly(t) && |u| == 8
    ensures var e := Encode(t, value, length);
      var d := DecodeAt(prefix + e + suffix, |prefix|, u);
      d.Some? && d.value.curr == |prefix| + |e| && d.value.elemType == t && LengthOf(d.value.u) == length
  {
    ShortLengthRange(length);
    assert Encode(t, value, length) == LengthHeader(t, length);
    if 1 <= length <= 15 {
      assert LengthHeader(t, length) == [ShortTag(t, length)];
      DecodeHeaderShort(prefix, t, length, suffix, u);
    } else {
      assert LengthHeader(t, length) == [t] + Int32Bytes(length);
      DecodeHeaderLong(prefix, t, length, suffix, u);
    }
  }

  lemma {:induction false} DecodeHeaderShort(prefix: seq<uint8>, t: nat, length: int32, suffix: seq<uint8>, u: seq<uint8>)
    requires IsHeaderOnly(t) && 1 <= length <= 15 && |u| == 8
    ensures var d := DecodeAt(prefix + [ShortTag(t, length)] + suffix, |prefix|, u);
      d.Some? && d.value.curr == |prefix| + 1 && d.value.elemType == t && LengthOf(d.value.u) == length
  {
    var tag := ShortTag(t, length);
    var data := prefix + [tag] + suffix;
    var p := |prefix|;
    ShortLength(t, length, u);
    assert data[p] == tag;
    assert DecodeAt(data, p, u) == DecodeCount(data, p + 1, tag, t, u);
  }

  lemma {:induction false} DecodeHeaderLong(prefix: seq<uint8>, t: nat, length: int32, suffix: seq<uint8>, u: seq<uint8>)
    requires IsHeaderOnly(t) && !(1 <= length <= 15) && |u| == 8
    ensures var d := DecodeAt(prefix + ([t] + Int32Bytes(length)) + suffix, |prefix|, u);
      d.Some? && d.value.curr == |prefix| + 5 && d.value.elemType == t && LengthOf(d.value.u) == length
  {
    var data := prefix + ([t] + Int32Bytes(length)) + suffix;
    var p := |prefix|;
    assert data[p] == t;
    assert data[p + 1..p + 5] == Int32Bytes(length);
    LongLength(data, p, length, u);
    assert DecodeAt(data, p, u) == DecodeCount(data, p + 1, t, t, u);
  }

  /** The handle that reads an object body element by element. */
  class LoadHandle {
    const data: seq<uint8>
    var curr: nat
    const end: nat
    var u: seq<uint8>
    var elemType: nat
    var ptr: Ptr
    var fieldNo: int

    ghost predicate Valid()
      reads this
    {
      curr <= end <= |data| && |u| == 8
    }

    /** The next element, if any, decodes and ends at or before the end of the record. */
    ghost predicate NextFits()
      reads this
      requires Valid()
    {
      curr < end ==> DecodeAt(data, curr, u).Some? && DecodeAt(data, curr, u).value.curr <= end
    }

    constructor (data: seq<uint8>, start: nat, end: nat)
      requires start <= end <= |data|
      ensures Valid() && this.data == data && curr == start && this.end == end && fieldNo == -1
    {
      this.data := data;
      this.end := end;
      curr := start;
      u := seq(8, _ => 0);
      elemType := 0;
      ptr := InUnion;
      fieldNo := -1;
    }

    /** hasNext: false exactly at the end; otherwise decodes one element and moves past it. */
    method HasNext() returns (r: bool)
      requires Valid() && NextFits()
      modifies this
      ensures r <==> old(curr) != end
      ensures !r ==> curr == old(curr) && u == old(u) && elemType == old(elemType) && ptr == old(ptr)
      ensures r ==> var d := DecodeAt(data, old(curr), old(u)).value;
        curr == d.curr && elemType == d.elemType && u == d.u && ptr == d.ptr
      ensures Valid() && fieldNo == old(fieldNo)
    {
      if curr == end {
        return false;
      }
      ptr := InUnion;
      var tag := data[curr];
      elemType := tag;
      curr := curr + 1;
      var t := Nibble(tag);
      if IsScalar(t) {
        LoadFixed(tag, t);
      } else if HasPayload(t) {
        LoadPayload(tag, t);
      } else if IsHeaderOnly(t) {
        LoadCount(tag, t);
      }
      return true;
    }

    /** The scalar cases of hasNext: the value's bytes copied into the union. */
    method LoadFixed(tag: uint8, t: nat)
      requires |u| == 8 && IsScalar(t) && DecodeFixed(data, curr, tag, SizeofType(t), u).Some?
      requires elemType == tag && ptr == InUnion
      modifies this
      ensures var d := DecodeFixed(data, old(curr), tag, SizeofType(t), old(u)).value;
        curr == d.curr && elemType == d.elemType && u == d.u && ptr == d.ptr
      ensures fieldNo == old(fieldNo)
    {
      if t <= INDEX_REF_TYPE || t == INT_TYPE {
        u := data[curr..curr + 4] + u[4..];
        curr := curr + 4;
      } else if t == BOOL_TYPE {
        u := [data[curr]] + u[1..];
        assert data[curr..curr + 1] == [data[curr]];
        curr := curr + 1;
      } else {
        u := data[curr..curr + 8];
        curr := curr + 8;
      }
    }

    /** The string and byte-vector cases of hasNext: the length, then a pointer to the payload. */
    method LoadPayload(tag: uint8, t: nat)
      requires |u| == 8 && HasPayload(t) && tag % 16 == t && DecodePayload(data, curr, tag, t, u).Some?
      requires elemType == tag
      modifies this
      ensures var d := DecodePayload(data, old(curr), tag, t, old(u)).value;
        curr == d.curr && elemType == d.elemType && u == d.u && ptr == d.ptr
      ensures fieldNo == old(fieldNo)
    {
      if tag != t {
        var n := tag / 16;
        u := Int32Bytes(n) + u[4..];
        elemType := t;
        ptr := InData(curr);
        curr := curr + n;
      } else {
        var n := Int32Of(data[curr..curr + 4]);
        u := data[curr..curr + 4] + u[4..];
        curr := curr + 4;
        ptr := InData(curr);
        curr := curr + n;
      }
    }

    /** The array and map cases of hasNext: the length alone. */
    method LoadCount(tag: uint8, t: nat)
      requires |u| == 8 && IsHeaderOnly(t) && tag % 16 == t && DecodeCount(data, curr, tag, t, u).Some?
      requires ptr == InUnion && elemType == tag
      modifies this
      ensures var d := DecodeCount(data, old(curr), tag, t, old(u)).value;
        curr == d.curr && elemType == d.elemType && u == d.u && ptr == d.ptr
      ensures fieldNo == old(fieldNo)
    {
      if tag != t {
        u := Int32Bytes(tag / 16) + u[4..];
        elemType := t;
      } else {
        u := data[curr..curr + 4] + u[4..];
        curr := curr + 4;
      }
    }

    /** hasNextField: hasNext, counting the fields it passes. */
    method HasNextField() returns (r: bool)
      requires Valid() && NextFits()
      modifies this
      ensures Valid()
      ensures r <==> old(curr) != end
      ensures !r ==> curr == old(curr) && u == old(u) && elemType == old(elemType) && ptr == old(ptr)
      ensures r ==> var d := DecodeAt(data, old(curr), old(u)).value;
        curr == d.curr && elemType == d.elemType && u == d.u && ptr == d.ptr
      ensures fieldNo == if r then old(fieldNo) + 1 else old(fieldNo)
    {
      r := HasNext();
      if r {
        fieldNo := fieldNo + 1;
      }
    }

    /** getLength. */
    function GetLength(): int32
      reads this
      requires |u| == 8
    {
      LengthOf(u)
    }
  }

  // ---------------------------------------------------------------------
  // The database header.

  /** First object id after the predefined ones: 3 + 2^(32 - 20) bitmap pages. */
  const FIRST_USER_ID: nat := 4099
  const BITMAP_ID: nat := 3
  const BITMAP_PAGES: nat := 4096

  datatype RootRecord = RootRecord(
    size: uint32, index: uint32, shadowIndex: uint32, indexSize: uint32, shadowIndexSize: uint32,
    indexUsed: uint32, freeList: uint32, bitmapEnd: uint32, rootObject: uint32, classDescList: uint32)

  datatype Header = Header(curr: int32, dirty: int32, initialized: int32, root0: RootRecord, root1: RootRecord)

  /**
   * isInitialized. The size test multiplies by sizeof(offs_t), so it is
   * evaluated in 64-bit size_t arithmetic.
   */
  predicate IsInitialized(h: Header)
  {
    h.initialized == 1 && (h.dirty == 1 || h.dirty == 0) && (h.curr == 1 || h.curr == 0) &&
    var r := if h.curr == 0 then h.root0 else h.root1;
    r.size > r.index && r.size > r.shadowIndex &&
    r.size > (r.indexSize * 4 % TWO64 + r.shadowIndexSize * 4 % TWO64) % TWO64 &&
    r.indexSize >= r.indexUsed && r.indexUsed >= BITMAP_ID + BITMAP_PAGES && r.bitmapEnd > BITMAP_ID
  }

  /** The current root's object index and its shadow fit in the file, with room for the predefined ids. */
  predicate RootSound(r: RootRecord)
  {
    r.index < r.size && r.shadowIndex < r.size && 4 * (r.indexSize + r.shadowIndexSize) < r.size &&
    FIRST_USER_ID <= r.indexUsed <= r.indexSize && r.bitmapEnd > BITMAP_ID
  }

  /** isInitialized holds exactly for a closed-or-dirty initialized header whose current root is sound. */
  lemma {:induction false} IsInitializedMeans(h: Header)
    ensures IsInitialized(h) <==>
      h.initialized == 1 && 0 <= h.dirty <= 1 && 0 <= h.curr <= 1 &&
      RootSound(if h.curr == 0 then h.root0 else h.root1)
  {
    var r := if h.curr == 0 then h.root0 else h.root1;
    assert r.indexSize * 4 % TWO64 == r.indexSize * 4;
    assert r.shadowIndexSize * 4 % TWO64 == r.shadowIndexSize * 4;
  }

  // ---------------------------------------------------------------------
  // Class descriptors.

  /** A stored class: the object header (class id and size), the next link and the signature bytes. */
  datatype ClassRecord = ClassRecord(cid: uint32, size: uint32, next: uint32, signature: seq<uint8>)

  const CLASS_DESC_ID: nat := 1

  /** dbClass::create: the size counts the 8-byte header, the 4-byte link and the signature, in 32 bits. */
  function CreateClass(signature: seq<uint8>, next: uint32): ClassRecord
    requires |signature| < TWO32
  {
    ClassRecord(CLASS_DESC_ID, (8 + 4 + |signature|) % TWO32, next, signature)
  }

  /** getSignatureSize: `size - sizeof(dbObject) - sizeof(oid_t)` in 32-bit length_t. */
  function GetSignatureSize(c: ClassRecord): uint32
  {
    (c.size - 12) % TWO32
  }

  /** The signature size of a created class is the signature's length. */
  lemma {:induction false} SignatureSizeOfCreated(signature: seq<uint8>, next: uint32)
    requires |signature| < TWO32 - 12
    ensures GetSignatureSize(CreateClass(signature, next)) == |signature|
  {
  }
}
