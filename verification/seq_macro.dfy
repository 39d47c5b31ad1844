/** The `seq!` macro: `seq![e0, …]` expands to `Sequence::new(len)` followed
    by `seq[i] = ei` for each element, and `seq![N # e0, …]` to the same on
    `BoundedSequence::<_, N>::new(len)`. */
module SeqMacro {
  import opened Layout
  import Sequences
  import Bounded

  method Literal<T>(elems: seq<T>, zero: T) returns (r: Sequence<T>)
    ensures r.Valid() && r.AsSlice() == elems
    ensures r.Capacity() == |elems|
  {
    r := Sequences.New(|elems|, zero);
    var i := 0;
    while i < |elems|
      invariant 0 <= i <= |elems|
      invariant r.Valid() && r.size == |elems| && r.Capacity() == |elems|
      invariant r.AsSlice()[..i] == elems[..i]
    {
      r := Set(r, i, elems[i]);
      i := i + 1;
    }
  }

  /** The bounded form; `new(len)` panics when there are more than `N`
      elements. */
  method BoundedLiteral<T>(bound: nat, elems: seq<T>, zero: T) returns (r: Bounded.BoundedSequence<T>)
    requires |elems| <= bound
    ensures r.Valid(bound) && r.AsSlice() == elems
  {
    r := Bounded.New(bound, |elems|, zero);
    var i := 0;
    while i < |elems|
      invariant 0 <= i <= |elems|
      invariant r.Valid(bound) && r.inner.size == |elems|
      invariant r.AsSlice()[..i] == elems[..i]
    {
      r := Bounded.BoundedSequence(Set(r.inner, i, elems[i]));
      i := i + 1;
    }
  }
}
