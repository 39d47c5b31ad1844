/** The documented usage and the two randomised properties of the sequence
    module, stated over the model. */
module Scenarios {
  import opened Usize
  import opened Layout
  import Sequences
  import Bounded
  import SeqMacro

  /** The extend property: a sequence holding `xs`, extended by the elements
      of `ys` (a vector, whose size hint is exact), has length
      `|xs| + |ys|`, starts with `xs` and ends with `ys`. */
  method ExtendConcatenates<T>(xs: seq<T>, ys: seq<T>, zero: T) returns (r: Sequence<T>)
    requires |xs| + |ys| <= MAX_LEN
    ensures r.Valid() && r.size == |xs| + |ys|
    ensures r.AsSlice()[..|xs|] == xs
    ensures r.AsSlice()[|xs|..] == ys
  {
    var start := CopyFromSlice(Sequences.New(|xs|, zero), xs);
    r := Sequences.Extend(start, ys, |ys|, zero);
  }

  /** `new(3)` is three zeros; assigning 3, 2, 1 by index gives `[3, 2, 1]`,
      as does `seq![3, 2, 1]`; `default()` is empty. */
  method NewThenAssign() returns (list: Sequence<int>, literal: Sequence<int>, empty: Sequence<int>)
    ensures list.Valid() && list.AsSlice() == [3, 2, 1]
    ensures literal.Valid() && Sequences.Equals(list, literal)
    ensures empty.Valid() && empty.IsEmpty()
  {
    list := Sequences.New(3, 0);
    assert list.AsSlice() == [0, 0, 0];
    list := Set(list, 0, 3);
    list := Set(list, 1, 2);
    list := Set(list, 2, 1);
    literal := SeqMacro.Literal([3, 2, 1], 0);
    empty := Default();
  }

  /** `seq![5 # 3, 2, 1]` has length 3; one extend by two elements fills it
      to the bound, and a later extend is discarded. */
  method BoundedFillsUp() returns (b: Bounded.BoundedSequence<int>)
    ensures b.Valid(5) && b.AsSlice() == [3, 2, 1, 4, 5]
  {
    b := SeqMacro.BoundedLiteral(5, [3, 2, 1], 0);
    assert b.inner.size == 3;
    b := Bounded.Extend(b, 5, [4, 5], 2, 0);
    assert [4, 5][..Min(2, 2)] == [4, 5];
    var full := b;
    b := Bounded.Extend(b, 5, [6], 1, 0);
    assert b == full;
  }

  /** A source of exactly `N` elements converts; one more is refused with
      the attempted length and the bound. */
  method BoundedConversions() returns (ok: Bounded.BoundedSequence<int>)
    ensures ok.Valid(3) && ok.AsSlice() == [1, 2, 3]
    ensures Bounded.TryFromSlice(3, [1, 2, 3, 4], 0).Err?
    ensures Bounded.TryFromSlice(3, [1, 2, 3, 4], 0).error == Bounded.SequenceExceedsBoundsError(4, 3)
  {
    var r := Bounded.TryFromVec(3, [1, 2, 3], 0);
    ok := r.value;
  }
}
