// Bit-level arithmetic behind the slot table's index masking.
//
// The table addresses a slot with `h & capacity_mask` on a signed machine
// integer. Here `&` with a non-negative mask is computed bit by bit on
// unbounded integers: `x % 2` is the lowest bit and `x / 2` the arithmetic
// right shift (Dafny's division by 2 rounds toward minus infinity), which is
// exactly how two's complement represents a negative value.
module Bits {

  /** Two's-complement bitwise AND of any integer `x` with a mask `m >= 0`. */
  function BitAnd(x: int, m: nat): (r: nat)
    ensures r <= m
    decreases m
  {
    if m == 0 then 0
    else (if x % 2 == 1 && m % 2 == 1 then 1 else 0) + 2 * BitAnd(x / 2, m / 2)
  }

  /** A power of two: 1, or an even number whose half is a power of two. */
  predicate IsPowerOfTwo(n: int)
    decreases if n < 0 then 0 else n
  {
    n == 1 || (n > 1 && n % 2 == 0 && IsPowerOfTwo(n / 2))
  }

  lemma MulAtLeast(d: int, k: int)
    requires d > 0 && k >= 1
    ensures d * k >= d
  {
  }

  // Any quotient/remainder decomposition with a remainder in [0, d) is the
  // Euclidean one.
  lemma ModUnique(x: int, d: int, q: int, r: int)
    requires d > 0 && 0 <= r < d && x == d * q + r
    ensures x % d == r && x / d == q
  {
    var q', r' := x / d, x % d;
    assert x == d * q' + r';
    assert d * (q - q') == r' - r;
    if q > q' {
      MulAtLeast(d, q - q');
    } else if q < q' {
      MulAtLeast(d, q' - q);
    }
  }

  /** For a power of two `n`, masking with `n - 1` is Euclidean remainder by
      `n`, negative `x` included; in particular every masked index lies in
      [0, n). */
  lemma {:induction false} MaskIsMod(x: int, n: int)
    requires IsPowerOfTwo(n)
    ensures BitAnd(x, n - 1) == x % n
    ensures 0 <= BitAnd(x, n - 1) < n
    decreases n
  {
    if n > 1 {
      var m := n / 2;
      assert (n - 1) % 2 == 1 && (n - 1) / 2 == m - 1;
      MaskIsMod(x / 2, m);
      var q, s := (x / 2) / m, (x / 2) % m;
      assert x / 2 == m * q + s;
      assert x == n * q + (2 * s + x % 2);
      ModUnique(x, n, q, 2 * s + x % 2);
    }
  }

  lemma ModShift(h: int, n: int)
    requires n > 0
    ensures (h + n) % n == h % n
  {
    var q, r := h / n, h % n;
    assert h == n * q + r;
    assert n * (q + 1) == n * q + n;
    ModUnique(h + n, n, q + 1, r);
  }

  /** Two handles that differ by the capacity address the same slot. */
  lemma SameSlotAfterWrap(h: int, n: int)
    requires IsPowerOfTwo(n)
    ensures BitAnd(h + n, n - 1) == BitAnd(h, n - 1)
  {
    MaskIsMod(h, n);
    MaskIsMod(h + n, n);
    ModShift(h, n);
  }

  lemma {:induction false} BitAndSelf(x: nat)
    ensures BitAnd(x, x) == x
    decreases x
  {
    if x > 0 {
      BitAndSelf(x / 2);
    }
  }

  /** The construction-time check `(count & (count - 1)) == 0` accepts a
      positive `count` exactly when it is a power of two. */
  lemma {:induction false} PowerOfTwoTest(n: int)
    requires n >= 1
    ensures BitAnd(n, n - 1) == 0 <==> IsPowerOfTwo(n)
    decreases n
  {
    if n > 1 {
      if n % 2 == 1 {
        assert (n - 1) / 2 == n / 2 && (n - 1) % 2 == 0;
        BitAndSelf(n / 2);
        assert BitAnd(n, n - 1) == 2 * (n / 2);
      } else {
        assert (n - 1) / 2 == n / 2 - 1 && (n - 1) % 2 == 1;
        PowerOfTwoTest(n / 2);
        assert BitAnd(n, n - 1) == 2 * BitAnd(n / 2, n / 2 - 1);
      }
    }
  }
}
