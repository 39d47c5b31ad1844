/** The `usize` arithmetic the growth policy of `Sequence::extend` relies on,
    for a 64-bit target. Integers are unbounded here, so the saturation and the
    power-of-two rounding are written out. */
module Usize {

  /** `usize::MAX`. */
  const USIZE_MAX: nat := 0xFFFF_FFFF_FFFF_FFFF

  /** 2^63, the largest power of two a `usize` holds. A sequence whose length
      stays at or below it can always be grown by `next_power_of_two` without
      overflowing. */
  const MAX_LEN: nat := 0x8000_0000_0000_0000

  function Min(a: nat, b: nat): nat {
    if a <= b then a else b
  }

  /** `a.saturating_add(b)`: the sum, clamped to `usize::MAX`. */
  function SaturatingAdd(a: nat, b: nat): (r: nat)
    requires a <= USIZE_MAX
    ensures a <= r <= USIZE_MAX
    ensures a + b <= USIZE_MAX ==> r == a + b
    ensures USIZE_MAX < a + b ==> r == USIZE_MAX
  {
    if a + b <= USIZE_MAX then a + b else USIZE_MAX
  }

  predicate IsPowerOfTwo(n: nat)
    decreases n
  {
    n == 1 || (n >= 2 && n % 2 == 0 && IsPowerOfTwo(n / 2))
  }

  /** `n.next_power_of_two()`: the least power of two that is at least `n`
      (1 when `n` is 0). The bound on `n` keeps the result inside `usize`. */
  function NextPowerOfTwo(n: nat): (r: nat)
    requires n <= MAX_LEN
    ensures IsPowerOfTwo(r)
    ensures n <= r <= USIZE_MAX
    ensures r == 1 || r / 2 < n
  {
    PowerAtLeast(n, 1)
  }

  /** Doubles the power of two `p` until it reaches `n`; `p / 2 < n` says no
      smaller power of two was already large enough. */
  function PowerAtLeast(n: nat, p: nat): (r: nat)
    requires IsPowerOfTwo(p)
    requires p == 1 || p / 2 < n
    ensures IsPowerOfTwo(r)
    ensures n <= r
    ensures r == 1 || r / 2 < n
    decreases n - p
  {
    if n <= p then p else PowerAtLeast(n, 2 * p)
  }
}
