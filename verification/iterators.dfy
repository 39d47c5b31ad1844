/** `SequenceIterator<T>`, the by-value iterator a sequence is consumed into:
    a cursor over the owned sequence that moves each element out and leaves a
    zero placeholder in its slot. */
module Iterators {
  import opened Usize
  import opened Wrappers
  import opened Layout
  import Sequences

  datatype SequenceIterator<T> = SequenceIterator(owned: Sequence<T>, idx: nat) {

    /** The cursor never passes the live elements. */
    predicate Valid() {
      owned.Valid() && idx <= owned.size
    }

    /** The elements not yet moved out, in order. */
    function Remaining(): seq<T>
      requires Valid()
    {
      owned.buf[idx..owned.size]
    }

    /** Every slot already moved out holds the placeholder, so finalising the
        owned sequence releases only the elements not yet yielded. */
    ghost predicate Neutralized(zero: T) {
      forall i | 0 <= i < idx && i < |owned.buf| :: owned.buf[i] == zero
    }
  }

  /** `IntoIterator::into_iter` for `Sequence`: the cursor starts at 0. */
  function IntoIter<T>(s: Sequence<T>, zero: T): (it: SequenceIterator<T>)
    requires s.Valid()
    ensures it.Valid() && it.Neutralized(zero)
    ensures it.Remaining() == s.AsSlice()
  {
    SequenceIterator(s, 0)
  }

  /** `Iterator::next`. Past the end it yields `None` and leaves the state
      as it is, so every later call yields `None` as well (the iterator is
      fused). Otherwise it yields the element at the cursor, overwrites that
      slot with the placeholder and advances. */
  function Next<T>(it: SequenceIterator<T>, zero: T): (r: (Option<T>, SequenceIterator<T>))
    requires it.Valid()
    ensures r.1.Valid() && r.1.owned.size == it.owned.size
    ensures it.Remaining() == [] <==> r.0 == None
    ensures r.0 == None ==> r.1 == it
    ensures r.0 != None ==> [r.0.value] + r.1.Remaining() == it.Remaining() && r.1.idx == it.idx + 1
    ensures it.Neutralized(zero) ==> r.1.Neutralized(zero)
  {
    if it.idx >= it.owned.size then (None, it)
    else
      var elem := it.owned.buf[it.idx];
      (Some(elem), SequenceIterator(Sequence(it.owned.buf[it.idx := zero], it.owned.size), it.idx + 1))
  }

  /** Calls `next` until it yields `None`; returns the yielded elements and
      the exhausted iterator. */
  function Drain<T>(it: SequenceIterator<T>, zero: T): (r: (seq<T>, SequenceIterator<T>))
    requires it.Valid()
    ensures r.0 == it.Remaining()
    ensures r.1.Valid() && r.1.idx == r.1.owned.size == it.owned.size
    ensures Next(r.1, zero).0 == None
    ensures it.Neutralized(zero) ==> r.1.Neutralized(zero)
    decreases it.owned.size - it.idx
  {
    var (item, rest) := Next(it, zero);
    match item
    case None => ([], it)
    case Some(v) =>
      var (vs, last) := Drain(rest, zero);
      ([v] + vs, last)
  }

  /** `ExactSizeIterator::len` as written: `(size + 1) - idx`. */
  function Len<T>(it: SequenceIterator<T>): (r: nat)
    requires it.Valid()
    ensures r == |it.Remaining()| + 1
  {
    (it.owned.size + 1) - it.idx
  }

  /** `Iterator::size_hint` as written: `(len, Some(len))` with the same
      `(size + 1) - idx`. */
  function SizeHint<T>(it: SequenceIterator<T>): (r: (nat, Option<nat>))
    requires it.Valid()
    ensures r.1 == Some(r.0)
    ensures r.0 == |it.Remaining()| + 1
  {
    var len := (it.owned.size + 1) - it.idx;
    (len, Some(len))
  }

  /** The reported length is one more than the number of elements `next`
      will still yield, at every state of the iterator. */
  lemma LenOverReports<T>(it: SequenceIterator<T>, zero: T)
    requires it.Valid()
    ensures Len(it) == |Drain(it, zero).0| + 1
    ensures SizeHint(it).0 == |Drain(it, zero).0| + 1
  {
  }

  /** A concrete witness: the iterator of an empty sequence reports length 1
      although its first `next` already yields `None`. */
  lemma EmptyIteratorReportsOne(zero: int)
    ensures var it := IntoIter(Default<int>(), zero);
            Len(it) == 1 && Next(it, zero).0 == None
  {
  }

  /** The length an `ExactSizeIterator` must report: `size - idx`. */
  function ExactLen<T>(it: SequenceIterator<T>): nat
    requires it.Valid()
  {
    it.owned.size - it.idx
  }

  /** The corrected length is exact: it counts the elements `next` will
      still yield. */
  lemma ExactLenIsExact<T>(it: SequenceIterator<T>, zero: T)
    requires it.Valid()
    ensures ExactLen(it) == |Drain(it, zero).0|
  {
  }

  /** `collect()` into a `Sequence`: `from_iter`, i.e. `new(0)` extended by
      everything the iterator yields, with the iterator's own size hint. */
  method Collect<T>(it: SequenceIterator<T>, zero: T) returns (r: Sequence<T>)
    requires it.Valid()
    requires it.owned.size - it.idx <= MAX_LEN
    ensures r.Valid() && r.AsSlice() == it.Remaining()
    ensures r.Capacity() == r.size
  {
    var (items, _) := Drain(it, zero);
    r := Sequences.FromIter(items, SizeHint(it).0, zero);
  }

  /** The same collection driven by the corrected, exact size hint gives the
      same sequence: the hint only decides how much is reserved up front. */
  method CollectExact<T>(it: SequenceIterator<T>, zero: T) returns (r: Sequence<T>)
    requires it.Valid()
    requires it.owned.size - it.idx <= MAX_LEN
    ensures r.Valid() && r.AsSlice() == it.Remaining()
    ensures r.Capacity() == r.size
  {
    var (items, _) := Drain(it, zero);
    r := Sequences.FromIter(items, ExactLen(it), zero);
  }

  /** The round trip of the iteration property: a sequence built from `xs`,
      cloned, consumed by value and collected again, is equal to the
      original. */
  method IterationRoundTrip<T(==)>(xs: seq<T>, zero: T) returns (original: Sequence<T>, collected: Sequence<T>)
    requires |xs| <= MAX_LEN
    ensures original.Valid() && collected.Valid()
    ensures original.AsSlice() == xs
    ensures Sequences.Equals(original, collected)
  {
    original := CopyFromSlice(Sequences.New(|xs|, zero), xs);
    collected := Collect(IntoIter(Sequences.Clone(original), zero), zero);
  }
}
