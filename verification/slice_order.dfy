/** Lexicographic ordering of slices, the order `Sequence` and
    `BoundedSequence` delegate `cmp` to. The element order is a parameter. */
module SliceOrder {

  datatype Ordering = Less | Equal | Greater {
    function Reverse(): Ordering {
      match this
      case Less => Greater
      case Equal => Equal
      case Greater => Less
    }
  }

  /** Lexicographic comparison: the first pair the element order tells apart
      decides; if there is none, the shorter slice is the smaller. */
  function LexCompare<T>(x: seq<T>, y: seq<T>, cmp: (T, T) -> Ordering): Ordering
    decreases |x|
  {
    if |x| == 0 then (if |y| == 0 then Equal else Less)
    else if |y| == 0 then Greater
    else if cmp(x[0], y[0]) != Equal then cmp(x[0], y[0])
    else LexCompare(x[1..], y[1..], cmp)
  }

  function CompareLengths(m: nat, n: nat): Ordering {
    if m < n then Less else if m == n then Equal else Greater
  }

  /** The index of the first pair the element order does not call Equal, or
      the shorter length when the common prefix agrees throughout. */
  function FirstDifference<T>(x: seq<T>, y: seq<T>, cmp: (T, T) -> Ordering): (k: nat)
    ensures k <= |x| && k <= |y|
    ensures forall j | 0 <= j < k :: cmp(x[j], y[j]) == Equal
    ensures k < |x| && k < |y| ==> cmp(x[k], y[k]) != Equal
    decreases |x|
  {
    if |x| == 0 || |y| == 0 || cmp(x[0], y[0]) != Equal then 0
    else 1 + FirstDifference(x[1..], y[1..], cmp)
  }

  /** The element order is consistent with equality. */
  ghost predicate EqualMeansSame<T(!new)>(cmp: (T, T) -> Ordering) {
    forall a, b :: cmp(a, b) == Equal <==> a == b
  }

  /** Swapping the operands reverses the element order. */
  ghost predicate Antisymmetric<T(!new)>(cmp: (T, T) -> Ordering) {
    forall a, b :: cmp(b, a) == cmp(a, b).Reverse()
  }

  /** The comparison is decided at the first difference, or by the lengths. */
  lemma {:induction false} LexCompareAtFirstDifference<T>(x: seq<T>, y: seq<T>, cmp: (T, T) -> Ordering)
    ensures var k := FirstDifference(x, y, cmp);
            LexCompare(x, y, cmp) == if k < |x| && k < |y| then cmp(x[k], y[k]) else CompareLengths(|x|, |y|)
    decreases |x|
  {
    if |x| != 0 && |y| != 0 && cmp(x[0], y[0]) == Equal {
      LexCompareAtFirstDifference(x[1..], y[1..], cmp);
    }
  }

  /** With an element order consistent with equality, slices compare Equal
      exactly when they are the same slice. */
  lemma {:induction false} LexCompareEqualIff<T(!new)>(x: seq<T>, y: seq<T>, cmp: (T, T) -> Ordering)
    requires EqualMeansSame(cmp)
    ensures LexCompare(x, y, cmp) == Equal <==> x == y
    decreases |x|
  {
    if |x| != 0 && |y| != 0 {
      LexCompareEqualIff(x[1..], y[1..], cmp);
      if x[0] == y[0] && x[1..] == y[1..] {
        assert x == [x[0]] + x[1..] && y == [y[0]] + y[1..];
      }
    }
  }

  /** Swapping the operands reverses the result. */
  lemma {:induction false} LexCompareReverse<T(!new)>(x: seq<T>, y: seq<T>, cmp: (T, T) -> Ordering)
    requires Antisymmetric(cmp)
    ensures LexCompare(y, x, cmp) == LexCompare(x, y, cmp).Reverse()
    decreases |x|
  {
    if |x| != 0 && |y| != 0 {
      LexCompareReverse(x[1..], y[1..], cmp);
      assert cmp(y[0], x[0]) == cmp(x[0], y[0]).Reverse();
    }
  }
}
