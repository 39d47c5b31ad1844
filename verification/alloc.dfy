/** The `SequenceAlloc` backend as implemented for primitive element types:
    `sequence_init` bridges to the foreign init routine and then zero-fills,
    and `sequence_copy` is written out on the Rust side. */
module Alloc {
  import opened Layout

  /** `sequence_init(seq, len)`: the foreign routine allocates `len` elements
      and sets size and capacity to `len`; the buffer is then zero-filled.
      Allocation is taken to succeed (both callers panic otherwise). */
  function Init<T>(len: nat, zero: T): (r: Sequence<T>)
    ensures r.Valid() && r.size == len && r.Capacity() == len
    ensures forall i | 0 <= i < len :: r.buf[i] == zero
  {
    Sequence(seq(len, _ => zero), len)
  }

  /** `sequence_copy(src, dst)`. `reallocSucceeds` stands for the outcome of
      `libc::realloc`, which is consulted only when the destination is too
      small. Returns the success flag and the destination afterwards. */
  function Copy<T>(src: Sequence<T>, dst: Sequence<T>, reallocSucceeds: bool): (r: (bool, Sequence<T>))
    requires src.Valid() && dst.Valid()
    ensures r.1.Valid()
    ensures !r.0 <==> dst.Capacity() < src.size && !reallocSucceeds
    ensures !r.0 ==> r.1 == dst
    ensures r.0 ==> r.1.size == src.size && r.1.AsSlice() == src.AsSlice()
    ensures r.0 && dst.Capacity() < src.size ==> r.1.Capacity() == src.size
    ensures r.0 && src.size <= dst.Capacity() ==>
              r.1.Capacity() == dst.Capacity() && r.1.buf[src.size..] == dst.buf[src.size..]
  {
    if dst.Capacity() < src.size then
      if reallocSucceeds then (true, Sequence(src.AsSlice(), src.size))
      else (false, dst)
    else
      (true, Sequence(src.AsSlice() + dst.buf[src.size..], src.size))
  }
}
