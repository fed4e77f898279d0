/**
 * Facts about Euclidean division that the circular buffer and the sequence
 * number arithmetic rely on. Dafny's `%` never returns a negative remainder,
 * which is also what C's `%` does on the unsigned operands used here.
 */
module ModArith {

  /** A remainder is determined by any decomposition x == k * m + r with 0 <= r < m. */
  lemma ModUnique(x: int, k: int, r: int, m: int)
    requires m > 0 && 0 <= r < m && x == k * m + r
    ensures x % m == r && x / m == k
  {
    var q := x / m;
    assert x == q * m + x % m;
    assert (q - k) * m == r - x % m;
    if q - k >= 1 {
      MulMono(q - k, m);
      assert false;
    } else if q - k <= -1 {
      MulMono(k - q, m);
      assert false;
    }
  }

  lemma MulMono(a: int, m: int)
    requires a >= 1 && m > 0
    ensures a * m >= m
  {
  }

  /** Adding a multiple of m does not change the remainder. */
  lemma ModAddMultiple(x: int, k: int, m: int)
    requires m > 0
    ensures (x + k * m) % m == x % m
  {
    assert x == (x / m) * m + x % m;
    ModUnique(x + k * m, x / m + k, x % m, m);
  }

  /** Reducing either operand of a difference first does not change its remainder. */
  lemma ModSubLeft(x: int, y: int, m: int)
    requires m > 0
    ensures (x % m - y) % m == (x - y) % m
  {
    assert x == (x / m) * m + x % m;
    ModAddMultiple(x % m - y, x / m, m);
  }

  lemma ModSubRight(x: int, y: int, m: int)
    requires m > 0
    ensures (x - y % m) % m == (x - y) % m
  {
    assert y == (y / m) * m + y % m;
    ModAddMultiple(x - y, y / m, m);
  }

  lemma ModAddLeft(x: int, y: int, m: int)
    requires m > 0
    ensures (x % m + y) % m == (x + y) % m
  {
    ModSubLeft(x, -y, m);
  }

  /** A value in [m, 2m) reduces by exactly one m. */
  lemma ModOnce(x: int, m: int)
    requires m > 0 && m <= x < 2 * m
    ensures x % m == x - m
  {
    ModUnique(x, 1, x - m, m);
  }

  lemma ModSmall(x: int, m: int)
    requires 0 <= x < m
    ensures x % m == x
  {
  }
}
