/** The value model of `Sequence<T>`, the (data, size, capacity) header shared
    with the generated C sequence structs, and the slice view it derefs to. */
module Layout {

  /** `buf` is the whole allocated buffer, so its length is the capacity;
      `size` counts the live elements at its front. The data pointer has no
      counterpart: the empty buffer stands for the null pointer. */
  datatype Sequence<T> = Sequence(buf: seq<T>, size: nat) {

    /** The header invariant: the live elements fit in the allocation. */
    predicate Valid() {
      size <= |buf|
    }

    function Capacity(): nat {
      |buf|
    }

    /** `as_slice` / `deref`: exactly the `size` live elements. */
    function AsSlice(): (r: seq<T>)
      requires Valid()
      ensures |r| == size
    {
      buf[..size]
    }

    predicate IsEmpty()
      requires Valid()
    {
      AsSlice() == []
    }
  }

  /** `Sequence::default()`: null data, size 0, capacity 0. No allocation. */
  function Default<T>(): (r: Sequence<T>)
    ensures r.Valid() && r.IsEmpty()
    ensures r.size == 0 && r.Capacity() == 0
  {
    Sequence([], 0)
  }

  /** `seq[i] = v` through the mutable slice view (`deref_mut`); indexing past
      `size` panics in the source, hence the precondition. */
  function Set<T>(s: Sequence<T>, i: nat, v: T): (r: Sequence<T>)
    requires s.Valid() && i < s.size
    ensures r.Valid() && r.size == s.size && r.Capacity() == s.Capacity()
    ensures r.AsSlice() == s.AsSlice()[i := v]
    ensures r.buf[s.size..] == s.buf[s.size..]
  {
    Sequence(s.buf[i := v], s.size)
  }

  /** `copy_from_slice` / `clone_from_slice` on the slice view: both panic
      unless the lengths agree. Only live slots are written. */
  function CopyFromSlice<T>(s: Sequence<T>, src: seq<T>): (r: Sequence<T>)
    requires s.Valid() && |src| == s.size
    ensures r.Valid() && r.AsSlice() == src
    ensures r.Capacity() == s.Capacity()
    ensures r.buf[s.size..] == s.buf[s.size..]
  {
    Sequence(src + s.buf[s.size..], s.size)
  }
}
