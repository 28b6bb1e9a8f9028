/** Fixed-width unsigned integers of the C++ source, and the exact arithmetic facts
    the decimal algorithms rely on.  The Boost 128- and 256-bit intermediates are
    unbounded integers here; only their widths are kept, as constants. */
module MachineInts {

  const TWO_63: nat := 0x8000_0000_0000_0000
  const TWO_64: nat := 0x1_0000_0000_0000_0000
  const TWO_128: nat := 0x1_0000_0000_0000_0000_0000_0000_0000_0000
  const TWO_256: nat := TWO_128 * TWO_128

  /** uint64_t */
  type U64 = x: int | 0 <= x < TWO_64

  /** Unsigned wrap-around: the uint64_t result of an exact computation. */
  function Wrap(x: int): (r: U64)
    ensures 0 <= x < TWO_64 ==> r == x
    ensures TWO_64 <= x < 2 * TWO_64 ==> r == x - TWO_64
    ensures x < 0 && 0 <= x + TWO_64 ==> r == x + TWO_64
  {
    x % TWO_64
  }

  /** Wrapping an intermediate result early does not change the final wrapped sum. */
  lemma WrapAdd(x: int, y: int)
    ensures Wrap(Wrap(x) + y) == Wrap(x + y)
  {
    var q := x / TWO_64;
    assert x == q * TWO_64 + Wrap(x);
    ModShift(Wrap(x) + y, q, TWO_64);
  }

  /** Adding a multiple of the modulus leaves the remainder unchanged. */
  lemma ModShift(x: int, k: int, m: int)
    requires m > 0
    ensures (x + k * m) % m == x % m
  {
    var q := x / m;
    var r := x % m;
    assert x == q * m + r;
    assert x + k * m == (q + k) * m + r;
    DivModUnique(x + k * m, m, q + k, r);
  }

  /** Euclidean division is unique. */
  lemma DivModUnique(x: int, m: int, q: int, r: int)
    requires m > 0 && 0 <= r < m && x == q * m + r
    ensures x / m == q && x % m == r
  {
    var q' := x / m;
    var r' := x % m;
    assert x == q' * m + r';
    assert (q - q') * m == r' - r;
    if q > q' {
      MulMonotone(1, q - q', m);
      assert false;
    } else if q < q' {
      MulMonotone(1, q' - q, m);
      assert false;
    }
  }

  lemma MulMonotone(a: int, b: int, c: int)
    requires a <= b && c >= 0
    ensures a * c <= b * c
  {
    assert b * c - a * c == (b - a) * c;
  }

  lemma MulStrict(a: int, b: int, A: int, B: int)
    requires 0 <= a < A && 0 <= b < B
    ensures a * b < A * B
  {
    MulMonotone(a, A - 1, b);
    MulMonotone(b, B, A - 1);
    assert (A - 1) * b <= (A - 1) * B;
    assert (A - 1) * B < A * B;
  }

  /** (k * m + y) / m == k + y / m for a non-negative remainder y. */
  lemma DivAddMultiple(k: int, y: int, m: int)
    requires m > 0 && y >= 0
    ensures (k * m + y) / m == k + y / m
    ensures (k * m + y) % m == y % m
  {
    assert y == (y / m) * m + y % m;
    assert k * m + y == (k + y / m) * m + y % m;
    DivModUnique(k * m + y, m, k + y / m, y % m);
  }

  /** A quotient of a value below b * m by m is below b. */
  lemma DivBound(x: int, m: int, b: int)
    requires m > 0 && 0 <= x < b * m
    ensures 0 <= x / m < b
  {
    var q := x / m;
    assert x == q * m + x % m;
    if q >= b {
      MulMonotone(b, q, m);
      assert false;
    }
    if q < 0 {
      MulMonotone(q, -1, m);
      assert false;
    }
  }

  /** Dividing a non-negative number by a positive one gives a non-negative quotient. */
  lemma DivNonNegative(x: int, m: int)
    requires m > 0 && x >= 0
    ensures x / m >= 0
  {
    var q := x / m;
    assert x == q * m + x % m;
    if q < 0 {
      MulMonotone(q, -1, m);
      assert false;
    }
  }
}
