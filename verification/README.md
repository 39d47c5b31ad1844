# Sequence containers of `rosidl_runtime_rs`, modelled in Dafny

This project models the sequence containers of the ROS 2 Rust message runtime
(`rosidl_runtime_rs/src/sequence.rs`). Generated message structs use these
containers for variable-length and capacity-limited arrays. The project covers:

- `Sequence<T>`: a growable array whose header is (data, size, capacity), laid
  out like the C struct `rosidl_generator_c` emits. Here it is a value
  `Layout.Sequence(buf, size)`. The buffer `buf` is the whole allocation, so
  `|buf|` is the capacity, and `buf[..size]` is the slice the sequence derefs to.
- The `SequenceAlloc` backend of the primitive element types (`Alloc`):
  `sequence_init` allocates and zero-fills; `sequence_copy` reallocates only
  when the destination is too small.
- `extend` and its growth policy (`Sequences.Extend`). It resizes once up front
  from the iterator's size hint, grows to the next power of two whenever it runs
  out of slots, and shrinks to fit at the end. Also cloning,
  `resize_to_at_least`, and equality and lexicographic ordering over the live
  slice.
- `BoundedSequence<T, N>` (`Bounded`). The const generic `N` is the parameter
  `bound`. Fallible construction and conversion return
  `SequenceExceedsBoundsError { len, upper_bound }`; `extend` truncates.
- `SequenceIterator<T>` (`Iterators`). It moves elements out one by one and
  writes a zero placeholder into each emptied slot, so finalising the rest
  releases only elements that were not yet yielded.
- The `seq!` macro (`SeqMacro`). The documented examples and the randomised
  `test_extend` property are in `Scenarios`; the randomised `test_iteration`
  property is `Iterators.IterationRoundTrip`.

Element types are a type parameter `T`. The value written by the backend's init
(and by `mem::zeroed` for the iterator's placeholder) is a parameter
`zero: T`. For the primitive types these two are the same value.

`ExactSizeIterator::len` must equal the number of elements still to come. The
code returns `(size + 1) - idx`. The model follows the code (see Findings).

## Model

| member | source | states |
|---|---|---|
| `Layout.Default` | rosidl_runtime_rs/src/sequence.rs:107-115 | the default sequence is empty, with size 0 and capacity 0 |
| `Layout.Sequence.AsSlice` | rosidl_runtime_rs/src/sequence.rs:254-258 | the slice view holds exactly `size` elements, the live front of the buffer |
| `Layout.CopyFromSlice` | rosidl_runtime_rs/src/sequence.rs:184 | copying a slice of the same length makes the live slice equal to it; capacity and the slots past `size` are unchanged; a length mismatch is excluded, as the source panics on it |
| `Layout.Set` | rosidl_runtime_rs/src/sequence.rs:124-128 | assigning through the mutable slice replaces exactly element `i` of the live slice; size, capacity and the slots past `size` stay the same; indexes past `size` are excluded, as the source panics on them |
| `Alloc.Init` | rosidl_runtime_rs/src/sequence.rs:519-527 | the primitive init makes size and capacity `len`, with every slot zero |
| `Alloc.Copy` | rosidl_runtime_rs/src/sequence.rs:533-554 | copy fails only when the destination is too small and the realloc fails, and then leaves the destination as it was; on success the destination's live slice equals the source's; capacity becomes the source size when it was too small, and otherwise it and the slots past the size are unchanged |
| `Usize.SaturatingAdd` | rosidl_runtime_rs/src/sequence.rs:157 | the pre-grow target is the exact sum when it fits in `usize` and `usize::MAX` otherwise, so it never drops below the current size |
| `Usize.NextPowerOfTwo` | rosidl_runtime_rs/src/sequence.rs:168 | the result is a power of two, at least `n`, and the least such (half of it is below `n`) |
| `Sequences.New` | rosidl_runtime_rs/src/sequence.rs:242-249 | `new(len)` holds exactly `len` elements, all zero, with capacity `len` |
| `Sequences.Resize` | rosidl_runtime_rs/src/sequence.rs:147-152 | the resize closure produces size and capacity `newSize`; the old live elements that fit are kept in place; the rest of the slots are zero |
| `Sequences.Grow` | rosidl_runtime_rs/src/sequence.rs:161-170 | when the buffer is full, the new size is a power of two above the old size and no larger than needed, and all live elements are kept |
| `Sequences.Extend` | rosidl_runtime_rs/src/sequence.rs:138-178 | for any size hint, the result's live slice is the old slice followed by the items, in order. The write cursor never passes `size` (loop invariant). Unless there was nothing to do, size equals capacity at the end (shrink to fit). With hint 0 and no items the sequence is unchanged |
| `Sequences.FromIter` | rosidl_runtime_rs/src/sequence.rs:195-204 | collecting any items with any size hint gives exactly those items, with no spare capacity |
| `Sequences.FromVec` | rosidl_runtime_rs/src/sequence.rs:189-193 | converting a vector gives exactly its elements |
| `Sequences.FromSlice` | rosidl_runtime_rs/src/sequence.rs:181-187 | converting a slice gives exactly its elements, with capacity equal to its length |
| `Sequences.Clone` | rosidl_runtime_rs/src/sequence.rs:90-98 | the clone's live slice equals the original's, and its capacity is exactly its size |
| `Sequences.ResizeToAtLeast` | rosidl_runtime_rs/src/sequence.rs:270-291 | no-op when capacity is at least `len`. Otherwise size and capacity become `len`, every old slot keeps its value, and slots from the old capacity on hold the default |
| `Sequences.ResizeToAtLeastKeepsLive` | rosidl_runtime_rs/src/sequence.rs:272-291 | in every case the old live elements stay at the front and the capacity reaches `len` |
| `Sequences.EqualsIsPointwise` | rosidl_runtime_rs/src/sequence.rs:226-230 | the contract of `Sequences.Equals` (`eq`): two sequences are equal if and only if they have the same size and agree at every live index, whatever their capacities |
| `Sequences.CmpEqualIffEquals` | rosidl_runtime_rs/src/sequence.rs:220-230 | `cmp` gives Equal if and only if `eq` holds, for an element order consistent with equality |
| `Sequences.CmpSameLength` | rosidl_runtime_rs/src/sequence.rs:220-224 | the contract of `Sequences.Cmp` (`cmp`): for sequences of equal length, the first live index whose elements differ decides the order; with no such index they are Equal |
| `SliceOrder.LexCompareAtFirstDifference` | rosidl_runtime_rs/src/sequence.rs:220-224 | the slice order is decided at the first differing pair, or by the lengths when one slice is a prefix of the other |
| `SliceOrder.LexCompareEqualIff` | rosidl_runtime_rs/src/sequence.rs:220-224 | two slices compare Equal if and only if they are the same slice |
| `SliceOrder.LexCompareReverse` | rosidl_runtime_rs/src/sequence.rs:220-224 | swapping the operands reverses the ordering |
| `Iterators.IntoIter` | rosidl_runtime_rs/src/sequence.rs:212-218 | a fresh iterator has every live element still to come, and no slot neutralised yet |
| `Iterators.Next` | rosidl_runtime_rs/src/sequence.rs:464-480 | `next` yields `None` exactly when nothing remains, and then leaves the state unchanged (fused). Otherwise it yields the first remaining element and advances by one. Extracted slots always hold the placeholder |
| `Iterators.Drain` | rosidl_runtime_rs/src/sequence.rs:464-480 | calling `next` until `None` yields the remaining elements in order; the exhausted iterator keeps yielding `None` |
| `Iterators.SizeHint` | rosidl_runtime_rs/src/sequence.rs:482-485 | the size hint's upper bound equals its lower bound, and both are one more than the number of elements not yet moved out (as written) |
| `Iterators.Len` | rosidl_runtime_rs/src/sequence.rs:488-491 | as written, the reported length is one more than the number of elements not yet moved out |
| `Iterators.LenOverReports` | rosidl_runtime_rs/src/sequence.rs:482-491 | at every state, `len` and the size hint report one more than the number of elements `next` will still yield |
| `Iterators.EmptyIteratorReportsOne` | rosidl_runtime_rs/src/sequence.rs:488-491 | the iterator of an empty sequence reports length 1, while `next` yields `None` |
| `Iterators.ExactLenIsExact` | rosidl_runtime_rs/src/sequence.rs:488-491 | the corrected length `size - idx` equals the number of elements still to be yielded |
| `Iterators.Collect` | rosidl_runtime_rs/src/sequence.rs:195-204 | collecting an iterator, with the over-reported hint, gives exactly its remaining elements with no spare capacity |
| `Iterators.CollectExact` | rosidl_runtime_rs/src/sequence.rs:195-204 | collecting with the corrected hint gives the same result |
| `Iterators.IterationRoundTrip` | rosidl_runtime_rs/src/sequence.rs:713-719 | clone, consume by value and collect gives a sequence equal to the original |
| `Bounded.BoundedSequence.AsSlice` | rosidl_runtime_rs/src/sequence.rs:450-452 | the bounded slice view is the inner sequence's, with exactly `size` elements |
| `Bounded.Default` | rosidl_runtime_rs/src/sequence.rs:302-312 | the default bounded sequence is empty and within every bound |
| `Bounded.TryNew` | rosidl_runtime_rs/src/sequence.rs:430-445 | fails if and only if `len > N`, with error fields `len` and `N`; otherwise it returns `Sequence::new(len)` inside the bound |
| `Bounded.New` | rosidl_runtime_rs/src/sequence.rs:423-428 | for `len <= N`, gives `len` zero elements within the bound |
| `Bounded.Extend` | rosidl_runtime_rs/src/sequence.rs:335-343 | appends exactly the first `N - size` items and drops the rest, so the bound holds; at size `N` the sequence is unchanged |
| `Bounded.FromIter` | rosidl_runtime_rs/src/sequence.rs:368-377 | collecting keeps exactly the first `N` items |
| `Bounded.TryFromSlice` | rosidl_runtime_rs/src/sequence.rs:345-352 | fails if and only if the slice is longer than `N`, with fields (length, `N`); otherwise gives exactly the slice |
| `Bounded.TryFromVec` | rosidl_runtime_rs/src/sequence.rs:354-366 | fails if and only if the vector is longer than `N`, with fields (length, `N`); otherwise gives exactly the vector, never truncated |
| `Bounded.IntoIter` | rosidl_runtime_rs/src/sequence.rs:385-399 | consuming a bounded sequence by value yields its live elements in order |
| `SeqMacro.Literal` | rosidl_runtime_rs/src/sequence.rs:644-658 | `seq![e0, …]` holds exactly the listed elements, with capacity equal to their number |
| `SeqMacro.BoundedLiteral` | rosidl_runtime_rs/src/sequence.rs:659-671 | `seq![N # e0, …]` holds exactly the listed elements, within the bound |
| `Scenarios.ExtendConcatenates` | rosidl_runtime_rs/src/sequence.rs:695-711 | extending `xs` by `ys` has length `len(xs) + len(ys)`, with prefix `xs` and suffix `ys` |
| `Scenarios.NewThenAssign` | rosidl_runtime_rs/src/sequence.rs:21-36 | `new(3)` with assignments 3, 2, 1 equals `seq![3, 2, 1]`, and `default()` is empty |
| `Scenarios.BoundedFillsUp` | rosidl_runtime_rs/src/sequence.rs:335-343 | the documented `seq![5 # 3, 2, 1]` (lines 53-68) extended by two elements reaches the bound, and a further extend is discarded |
| `Scenarios.BoundedConversions` | rosidl_runtime_rs/src/sequence.rs:345-366 | a source of exactly `N` elements converts; one with `N + 1` is refused with error fields (`N + 1`, `N`) |

## Left out

- Memory layout: `#[repr(C)]`, `#[repr(transparent)]`, raw pointers, `realloc`, `memcpy`, `ptr::read`/`write`, `write_bytes` and `mem::zeroed` have no counterpart in a value model. The same goes for byte counts. `resize_to_at_least` sizes its realloc by `size_of::<Self>()`, the size of the sequence header, not of the element. When the element type is larger than that header, the realloc at lines 273-276 allocates fewer bytes than `len` elements need and the writes at lines 281-286 run past the allocation. The value model does not model this: it assumes the allocation holds `len` elements.
- `Sequences.ResizeToAtLeast` takes the realloc to succeed, because the source panics when it fails (`panic!("realloc failed")` at lines 277-279).
- `sequence_fini` and the `Drop` impls: the foreign routine that releases the buffer has no effect on values. Exactly-once release is modelled only as `SequenceIterator.Neutralized`: every slot already moved out holds the placeholder.
- The foreign init and fini routines are declared at lines 512-516. Init is modelled by its effect and assumed to succeed, because both callers panic when it fails. The copy routine named at each instantiation is never used; `sequence_copy` is Rust code and is modelled from its body (`Alloc.Copy`).
- `Layout.Set`: indexing past `size` panics in the source; the panic is modelled as the precondition `i < size`.
- `Layout.CopyFromSlice`: `copy_from_slice` and `clone_from_slice` panic when the lengths differ; the panic is modelled as the precondition that they agree.
- `Bounded.New`: `try_new(len).unwrap()` panics when `len > N`; the panic is modelled as the precondition `len <= N`, and `Bounded.TryNew` models the failing case.
- `SeqMacro.BoundedLiteral`: the bounded `seq!` panics through `BoundedSequence::new` when more than `N` elements are listed; the panic is modelled as the precondition that they fit.
- `Sequences.Clone` takes the realloc to succeed, because the source panics when the copy fails. The failing branch is modelled in `Alloc.Copy`.
- `Sequences.Extend`: requires the final length to be at most 2^63. Beyond that, `(size + 1).next_power_of_two()` overflows `usize`. The source's comment at lines 164-166 explicitly declines to handle this case, and no allocation of that size could succeed. `Sequences.FromIter`, `Sequences.FromVec`, `Bounded.Extend`, `Bounded.FromIter`, `Bounded.TryFromVec`, `Iterators.Collect`, `Iterators.CollectExact`, `Iterators.IterationRoundTrip` and `Scenarios.ExtendConcatenates` carry the same bound, because they call `extend`.
- `Iterators.Len`: the `size + 1` in the length report would overflow only at `size == usize::MAX`, which cannot be allocated. That overflow is not modelled.
- Element equality is Dafny's equality, standing for `T: PartialEq`. The element order is a parameter `cmp`. `partial_cmp` delegates exactly as `cmp` does and is not modelled separately. The bounded sequence's `eq`, `cmp` and `Deref` delegate to the inner sequence and are not repeated.
- `as_mut_slice` is modelled through its uses: single-element assignment (`Layout.Set`) and whole-slice copy (`Layout.CopyFromSlice`).
- Message element types can default-initialise to a value different from `mem::zeroed`. The model uses one value, `zero`, as the primitive types do.
- The `f32` and `f64` instantiations; the element type is generic.
- The `Debug`, `Display` and `Hash` impls and the `serde` submodule: formatting and hashing over the slice.
- `rclrs/src/context.rs` (process lifecycle over foreign `rcl_init`/`rcl_shutdown`) and `rclrs/src/rcl_bindings.rs` (generated bindings and an allocator clone) are not part of this model.

## Findings

| source | as written | input that shows it | evidently intended | confidence | as-written member | corrected member |
|---|---|---|---|---|---|---|
| rosidl_runtime_rs/src/sequence.rs:482-491 | `size_hint` and `ExactSizeIterator::len` return `(size + 1) - idx` | the iterator of an empty sequence reports length 1, but its first `next` yields `None`; in general every report is one too high (`Iterators.LenOverReports`) | `size - idx`, the number of elements still to be yielded, which `ExactSizeIterator` requires | high; not executed | Iterators.EmptyIteratorReportsOne | Iterators.ExactLenIsExact |

The only consumer of this length inside the model is the collect path. There
the hint only decides how much `extend` reserves up front, and the final shrink
hides the difference. `Iterators.Collect` (as written) and
`Iterators.CollectExact` (corrected hint) are both proved to return exactly the
remaining elements.
