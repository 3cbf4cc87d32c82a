/**
 * The object store's growable buffers. Both hand out a pointer to the old
 * end of their storage after reserving room for n more elements; here that
 * pointer is the index of the first reserved slot.
 */
module Buffer {
  /** The size a buffer grows to when n more elements do not fit: the larger of the need and twice the old allocated size. */
  function GrownSize(used: nat, allocatedSize: nat, n: nat): (r: nat)
    requires used + n > allocatedSize
    ensures r >= used + n && r >= 2 * allocatedSize
    ensures r == used + n || r == 2 * allocatedSize
  {
    if n + used > allocatedSize * 2 then n + used else allocatedSize * 2
  }

  /** The capacity after reserving n more elements. */
  function CapacityAfter(used: nat, allocatedSize: nat, n: nat): (r: nat)
    ensures r >= used + n && r >= allocatedSize
    ensures used + n <= allocatedSize ==> r == allocatedSize
  {
    if n + used > allocatedSize then GrownSize(used, allocatedSize, n) else allocatedSize
  }

  /** The descending copy of the first used elements into a new array of the given size. */
  method Regrow<T(0)>(src: array<T>, used: nat, size: nat) returns (a: array<T>)
    requires used <= src.Length && used <= size
    ensures fresh(a) && a.Length == size
    ensures a[..used] == src[..used]
  {
    a := new T[size];
    var i: nat := used;
    while i > 0
      invariant i <= used && a.Length == size
      invariant forall j | i <= j < used :: a[j] == src[j]
    {
      i := i - 1;
      a[i] := src[i];
    }
  }

  /** A buffer with initSize elements inside it, moved to the heap once it outgrows them. */
  class SmallBuffer<T(0)> {
    const buf: array<T>
    var ptr: array<T>
    var used: nat
    var allocatedSize: nat

    ghost predicate Valid()
      reads this
    {
      ptr.Length == allocatedSize && used <= allocatedSize
    }

    function Contents(): seq<T>
      reads this, ptr
      requires Valid()
    {
      ptr[..used]
    }

    constructor (initSize: nat)
      ensures Valid() && ptr == buf && buf.Length == initSize
      ensures used == 0 && allocatedSize == initSize
    {
      buf := new T[initSize];
      new;
      ptr := buf;
      used := 0;
      allocatedSize := initSize;
    }

    /** append: reserves n elements at the end and returns the index of the first. */
    method Append(n: nat) returns (p: nat)
      requires Valid()
      modifies this
      ensures Valid()
      ensures p == old(used) && used == old(used) + n
      ensures allocatedSize == CapacityAfter(old(used), old(allocatedSize), n)
      ensures ptr[..old(used)] == old(Contents())
      ensures old(used) + n <= old(allocatedSize) ==> ptr == old(ptr)
      ensures old(used) + n > old(allocatedSize) ==> fresh(ptr)
    {
      if n + used > allocatedSize {
        var newSize := GrownSize(used, allocatedSize, n);
        ptr := Regrow(ptr, used, newSize);
        allocatedSize := newSize;
      }
      p := used;
      used := used + n;
    }
  }

  /** A buffer that starts without storage. */
  class Buffer<T(0)> {
    var ptr: array?<T>
    var used: nat
    var allocatedSize: nat

    /** Storage of the recorded size, or none at all while nothing was reserved. */
    ghost predicate Valid()
      reads this
    {
      used <= allocatedSize &&
      (if ptr == null then allocatedSize == 0 else ptr.Length == allocatedSize)
    }

    function Contents(): seq<T>
      reads this, ptr
      requires Valid()
    {
      if ptr == null then [] else ptr[..used]
    }

    constructor ()
      ensures Valid() && ptr == null && used == 0 && allocatedSize == 0
    {
      ptr := null;
      used := 0;
      allocatedSize := 0;
    }

    /** grab: hands the storage over and forgets it, with the counts left as they were. */
    method Grab() returns (p: array?<T>)
      modifies this
      ensures p == old(ptr) && ptr == null
      ensures used == old(used) && allocatedSize == old(allocatedSize)
    {
      p := ptr;
      ptr := null;
    }

    /** append: reserves n elements at the end and returns the index of the first. */
    method Append(n: nat) returns (p: nat)
      requires Valid()
      modifies this
      ensures Valid() && (n > 0 ==> ptr != null)
      ensures p == old(used) && used == old(used) + n
      ensures allocatedSize == CapacityAfter(old(used), old(allocatedSize), n)
      ensures ptr != null ==> ptr[..old(used)] == old(Contents())
      ensures old(used) + n <= old(allocatedSize) ==> ptr == old(ptr)
      ensures old(used) + n > old(allocatedSize) ==> fresh(ptr)
    {
      if n + used > allocatedSize {
        var newSize := GrownSize(used, allocatedSize, n);
        if ptr == null {
          ptr := new T[newSize];
        } else {
          ptr := Regrow(ptr, used, newSize);
        }
        allocatedSize := newSize;
      }
      p := used;
      used := used + n;
    }

    /** add: the value becomes the last element. */
    method Add(v: T)
      requires Valid()
      modifies this, ptr
      ensures Valid() && ptr != null
      ensures Contents() == old(Contents()) + [v]
      ensures allocatedSize == CapacityAfter(old(used), old(allocatedSize), 1)
    {
      var i := Append(1);
      ptr[i] := v;
      assert ptr[..used] == ptr[..i] + [v];
    }
  }
}
