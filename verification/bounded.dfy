/** `BoundedSequence<T, N>`: a `Sequence<T>` whose size never exceeds `N`.
    The const generic `N` is the parameter `bound`. */
module Bounded {
  import opened Usize
  import opened Wrappers
  import opened Layout
  import Sequences
  import Iterators

  datatype BoundedSequence<T> = BoundedSequence(inner: Sequence<T>) {

    /** The bounded invariant: a valid header with at most `bound` elements. */
    predicate Valid(bound: nat) {
      inner.Valid() && inner.size <= bound
    }

    function AsSlice(): (r: seq<T>)
      requires inner.Valid()
      ensures |r| == inner.size
    {
      inner.AsSlice()
    }
  }

  /** `SequenceExceedsBoundsError { len, upper_bound }`. */
  datatype SequenceExceedsBoundsError = SequenceExceedsBoundsError(len: nat, upperBound: nat)

  /** `BoundedSequence::default()`: the empty header. */
  function Default<T>(bound: nat): (r: BoundedSequence<T>)
    ensures r.Valid(bound) && r.AsSlice() == [] && r.inner.Capacity() == 0
  {
    BoundedSequence(Layout.Default())
  }

  /** `try_new(len)`: fails exactly when `len > N`, reporting `len` and `N`;
      otherwise `len` default elements, as `Sequence::new` gives. */
  function TryNew<T>(bound: nat, len: nat, zero: T): (r: Result<BoundedSequence<T>, SequenceExceedsBoundsError>)
    ensures r.Err? <==> len > bound
    ensures r.Err? ==> r.error == SequenceExceedsBoundsError(len, bound)
    ensures r.Ok? ==> r.value.Valid(bound) && r.value.inner == Sequences.New(len, zero)
  {
    if len > bound then Err(SequenceExceedsBoundsError(len, bound))
    else Ok(BoundedSequence(Sequences.New(len, zero)))
  }

  /** `new(len)`: `try_new(len).unwrap()`, which panics when `len > N`. */
  function New<T>(bound: nat, len: nat, zero: T): (r: BoundedSequence<T>)
    requires len <= bound
    ensures r.Valid(bound) && r.AsSlice() == seq(len, _ => zero)
  {
    TryNew(bound, len, zero).value
  }

  /** `Extend::extend`: the items are cut to the first `N - size` before being
      handed to the unbounded extend, so the rest are silently dropped. The
      truncating adaptor reports `min(hint, N - size)` as its lower bound. */
  method Extend<T>(b: BoundedSequence<T>, bound: nat, items: seq<T>, hint: nat, zero: T)
    returns (r: BoundedSequence<T>)
    requires b.Valid(bound)
    requires b.inner.size + Min(|items|, bound - b.inner.size) <= MAX_LEN
    ensures r.Valid(bound)
    ensures r.AsSlice() == b.AsSlice() + items[..Min(|items|, bound - b.inner.size)]
    ensures b.inner.size == bound ==> r == b
  {
    var room := bound - b.inner.size;
    var taken := items[..Min(|items|, room)];
    var inner := Sequences.Extend(b.inner, taken, Min(hint, room), zero);
    r := BoundedSequence(inner);
  }

  /** `FromIterator::from_iter`: `new(0)` extended by the items, so only the
      first `N` of them are kept. */
  method FromIter<T>(bound: nat, items: seq<T>, hint: nat, zero: T) returns (r: BoundedSequence<T>)
    requires Min(|items|, bound) <= MAX_LEN
    ensures r.Valid(bound)
    ensures r.AsSlice() == items[..Min(|items|, bound)]
  {
    r := Extend(New(bound, 0, zero), bound, items, hint, zero);
  }

  /** `TryFrom<&[T]>`: `try_new(len)` and then `clone_from_slice`; a slice
      longer than `N` is an error, never truncated. */
  function TryFromSlice<T>(bound: nat, slice: seq<T>, zero: T): (r: Result<BoundedSequence<T>, SequenceExceedsBoundsError>)
    ensures r.Err? <==> |slice| > bound
    ensures r.Err? ==> r.error == SequenceExceedsBoundsError(|slice|, bound)
    ensures r.Ok? ==> r.value.Valid(bound) && r.value.AsSlice() == slice
  {
    match TryNew(bound, |slice|, zero)
    case Err(e) => Err(e)
    case Ok(b) => Ok(BoundedSequence(CopyFromSlice(b.inner, slice)))
  }

  /** `TryFrom<Vec<T>>`: an error when the vector is longer than `N`,
      otherwise `from_iter` over it, which then keeps every element. */
  method TryFromVec<T>(bound: nat, v: seq<T>, zero: T) returns (r: Result<BoundedSequence<T>, SequenceExceedsBoundsError>)
    requires Min(|v|, bound) <= MAX_LEN
    ensures r.Err? <==> |v| > bound
    ensures r.Err? ==> r.error == SequenceExceedsBoundsError(|v|, bound)
    ensures r.Ok? ==> r.value.Valid(bound) && r.value.AsSlice() == v
  {
    if |v| > bound {
      r := Err(SequenceExceedsBoundsError(|v|, bound));
    } else {
      var b := FromIter(bound, v, |v|, zero);
      assert v[..Min(|v|, bound)] == v;
      r := Ok(b);
    }
  }

  /** `IntoIterator::into_iter`: the inner sequence is moved into the
      iterator and an empty header left behind for the bounded drop. */
  function IntoIter<T>(b: BoundedSequence<T>, zero: T): (it: Iterators.SequenceIterator<T>)
    requires b.inner.Valid()
    ensures it.Valid() && it.Neutralized(zero)
    ensures it.Remaining() == b.AsSlice()
    ensures Iterators.Drain(it, zero).0 == b.AsSlice()
  {
    Iterators.IntoIter(b.inner, zero)
  }
}
