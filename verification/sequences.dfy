/** The unbounded `Sequence<T>`: sized construction, the growth policy of
    `extend`, cloning through the backend's copy, `resize_to_at_least`, and
    equality and ordering over the live prefix. */
module Sequences {
  import opened Usize
  import opened Layout
  import Alloc
  import opened SliceOrder

  /** `Sequence::new(len)`: the backend's init on the empty header. */
  function New<T>(len: nat, zero: T): (r: Sequence<T>)
    ensures r.Valid() && r.Capacity() == len
    ensures r.AsSlice() == seq(len, _ => zero)
  {
    Alloc.Init(len, zero)
  }

  /** The `resize` closure of `extend`: replace the sequence by `new(newSize)`
      and move the old live elements into it, as many as fit. */
  function Resize<T>(s: Sequence<T>, newSize: nat, zero: T): (r: Sequence<T>)
    requires s.Valid()
    ensures r.Valid() && r.size == newSize && r.Capacity() == newSize
    ensures r.AsSlice()[..Min(s.size, newSize)] == s.AsSlice()[..Min(s.size, newSize)]
    ensures forall i | Min(s.size, newSize) <= i < newSize :: r.AsSlice()[i] == zero
  {
    var blank := New(newSize, zero);
    var m := Min(s.size, newSize);
    Sequence(s.AsSlice()[..m] + blank.buf[m..], newSize)
  }

  /** The growth step of `extend` when no slot is left: resize to the next
      power of two at or above `size + 1`, keeping every live element. */
  function Grow<T>(s: Sequence<T>, zero: T): (r: Sequence<T>)
    requires s.Valid() && s.size < MAX_LEN
    ensures r.Valid() && r.size == r.Capacity() && r.size <= USIZE_MAX
    ensures IsPowerOfTwo(r.size) && s.size < r.size
    ensures r.size == 1 || r.size / 2 <= s.size
    ensures r.AsSlice()[..s.size] == s.AsSlice()
  {
    Resize(s, NextPowerOfTwo(s.size + 1), zero)
  }

  /** `Extend::extend`. `items` are the elements the source iterator yields, in
      order, and `hint` the lower bound of its `size_hint`, which may be any
      number: the final shrink makes the result independent of it. The bound
      on the final length keeps `next_power_of_two` inside `usize`. */
  method Extend<T>(s: Sequence<T>, items: seq<T>, hint: nat, zero: T) returns (r: Sequence<T>)
    requires s.Valid()
    requires s.size + |items| <= MAX_LEN
    ensures r.Valid()
    ensures r.AsSlice() == s.AsSlice() + items
    ensures hint == 0 && |items| == 0 ==> r == s
    ensures hint > 0 || |items| > 0 ==> r.Capacity() == r.size
  {
    r := s;
    // Index of the slot the next item is written to.
    var cur := s.size;
    if hint > 0 {
      r := Resize(r, SaturatingAdd(r.size, hint), zero);
    }
    var k := 0;
    while k < |items|
      invariant 0 <= k <= |items|
      invariant r.Valid()
      invariant cur == s.size + k
      invariant cur <= r.size
      invariant r.buf[..cur] == s.AsSlice() + items[..k]
      invariant hint > 0 || k > 0 ==> r.Capacity() == r.size
      invariant hint == 0 && k == 0 ==> r == s
    {
      if cur == r.size {
        r := Grow(r, zero);
      }
      r := Set(r, cur, items[k]);
      assert items[..k + 1] == items[..k] + [items[k]];
      cur := cur + 1;
      k := k + 1;
    }
    assert items[..k] == items;
    if cur < r.size {
      r := Resize(r, cur, zero);
    }
  }

  /** `FromIterator::from_iter`: `new(0)` extended by the items. */
  method FromIter<T>(items: seq<T>, hint: nat, zero: T) returns (r: Sequence<T>)
    requires |items| <= MAX_LEN
    ensures r.Valid() && r.AsSlice() == items
    ensures r.Capacity() == |items|
  {
    r := Extend(New(0, zero), items, hint, zero);
  }

  /** `From<Vec<T>>`: `from_iter` over the vector, whose iterator reports its
      length exactly. */
  method FromVec<T>(v: seq<T>, zero: T) returns (r: Sequence<T>)
    requires |v| <= MAX_LEN
    ensures r.Valid() && r.AsSlice() == v
    ensures r.Capacity() == |v|
  {
    r := FromIter(v, |v|, zero);
  }

  /** `From<&[T]>`: `new(len)` followed by `clone_from_slice`. */
  function FromSlice<T>(slice: seq<T>, zero: T): (r: Sequence<T>)
    ensures r.Valid() && r.AsSlice() == slice
    ensures r.Capacity() == |slice|
  {
    CopyFromSlice(New(|slice|, zero), slice)
  }

  /** `Clone::clone`: the backend's copy into an empty header. A failed copy
      panics, so the realloc is taken to succeed. */
  function Clone<T>(s: Sequence<T>): (r: Sequence<T>)
    requires s.Valid()
    ensures r.Valid() && r.AsSlice() == s.AsSlice()
    ensures r.Capacity() == r.size
  {
    Alloc.Copy(s, Default(), true).1
  }

  /** `resize_to_at_least(len)`: a no-op when the capacity already suffices;
      otherwise the buffer is reallocated to `len` slots, the new slots get the
      default value, and size and capacity both become `len`, so every old
      slot, live or not, is now live. */
  function ResizeToAtLeast<T>(s: Sequence<T>, len: nat, fill: T): (r: Sequence<T>)
    requires s.Valid()
    ensures r.Valid()
    ensures len <= s.Capacity() ==> r == s
    ensures s.Capacity() < len ==> r.size == len && r.Capacity() == len
    ensures s.Capacity() < len ==> r.buf[..s.Capacity()] == s.buf
    ensures s.Capacity() < len ==> forall i | s.Capacity() <= i < len :: r.buf[i] == fill
  {
    if s.Capacity() < len then
      Sequence(s.buf + seq(len - s.Capacity(), _ => fill), len)
    else s
  }

  /** Whatever `resize_to_at_least` does, the live elements survive at the
      front and the capacity reaches `len`. */
  lemma ResizeToAtLeastKeepsLive<T>(s: Sequence<T>, len: nat, fill: T)
    requires s.Valid()
    ensures var r := ResizeToAtLeast(s, len, fill);
            r.size >= s.size && r.AsSlice()[..s.size] == s.AsSlice() && r.Capacity() >= len
  {
  }

  /** `PartialEq::eq`: the live slices are equal; capacity and the slots past
      `size` play no part. */
  predicate Equals<T(==)>(a: Sequence<T>, b: Sequence<T>)
    requires a.Valid() && b.Valid()
  {
    a.AsSlice() == b.AsSlice()
  }

  /** Two sequences are equal exactly when they have the same size and agree
      at every live index. */
  lemma EqualsIsPointwise<T>(a: Sequence<T>, b: Sequence<T>)
    requires a.Valid() && b.Valid()
    ensures Equals(a, b) <==> a.size == b.size && forall i | 0 <= i < a.size :: a.buf[i] == b.buf[i]
  {
  }

  /** `Ord::cmp`: lexicographic comparison of the live slices. */
  function Cmp<T>(a: Sequence<T>, b: Sequence<T>, cmp: (T, T) -> Ordering): Ordering
    requires a.Valid() && b.Valid()
  {
    LexCompare(a.AsSlice(), b.AsSlice(), cmp)
  }

  /** `cmp` and `eq` agree: with an element order consistent with equality,
      two sequences compare Equal exactly when they are equal. */
  lemma CmpEqualIffEquals<T(!new)>(a: Sequence<T>, b: Sequence<T>, cmp: (T, T) -> Ordering)
    requires a.Valid() && b.Valid()
    requires EqualMeansSame(cmp)
    ensures Cmp(a, b, cmp) == Equal <==> Equals(a, b)
  {
    LexCompareEqualIff(a.AsSlice(), b.AsSlice(), cmp);
  }

  /** For equal lengths the order is decided by the first live index whose
      elements the element order tells apart; with none, they compare Equal. */
  lemma CmpSameLength<T>(a: Sequence<T>, b: Sequence<T>, cmp: (T, T) -> Ordering)
    requires a.Valid() && b.Valid() && a.size == b.size
    ensures (forall i | 0 <= i < a.size :: cmp(a.buf[i], b.buf[i]) == Equal) ==> Cmp(a, b, cmp) == Equal
    ensures forall k | 0 <= k < a.size ::
              (forall j | 0 <= j < k :: cmp(a.buf[j], b.buf[j]) == Equal) && cmp(a.buf[k], b.buf[k]) != Equal
              ==> Cmp(a, b, cmp) == cmp(a.buf[k], b.buf[k])
  {
    var x, y := a.AsSlice(), b.AsSlice();
    LexCompareAtFirstDifference(x, y, cmp);
    var d := FirstDifference(x, y, cmp);
    forall k | 0 <= k < a.size &&
               (forall j | 0 <= j < k :: cmp(a.buf[j], b.buf[j]) == Equal) && cmp(a.buf[k], b.buf[k]) != Equal
      ensures Cmp(a, b, cmp) == cmp(a.buf[k], b.buf[k])
    {
    }
  }
}
