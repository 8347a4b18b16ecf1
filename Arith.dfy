/** Facts of integer division and remainder the wrap-around models rely on. */
module Arith {

  /** A positive multiple of a positive number is at least that number. */
  lemma {:induction false} MulAtLeast(m: int, k: int)
    requires m > 0 && k >= 1
    ensures m * k >= m
    decreases k
  {
    if k > 1 {
      MulAtLeast(m, k - 1);
      assert m * k == m * (k - 1) + m;
    }
  }

  /** Quotient and remainder are unique: any decomposition `x = m*a + r` with `0 <= r < m` is the one of `/` and `%`. */
  lemma ModUnique(x: int, m: int, a: int, r: int)
    requires m > 0 && x == m * a + r && 0 <= r < m
    ensures x % m == r && x / m == a
  {
    var q, s := x / m, x % m;
    assert x == m * q + s && 0 <= s < m;
    var k := a - q;
    assert m * k == s - r by {
      assert m * a - m * q == m * (a - q);
    }
    if k >= 1 {
      MulAtLeast(m, k);
    } else if k <= -1 {
      MulAtLeast(m, -k);
    }
  }

  /** Reducing one addend first does not change a sum's remainder. */
  lemma ModAddLeft(a: int, b: int, m: int)
    requires m > 0
    ensures (a % m + b) % m == (a + b) % m
  {
    var q, r := a / m, a % m;
    assert a == m * q + r;
    var x := r + b;
    var s, t := x / m, x % m;
    assert x == m * s + t && 0 <= t < m;
    assert a + b == m * (q + s) + t by {
      assert m * q + m * s == m * (q + s);
    }
    ModUnique(a + b, m, q + s, t);
  }

  /** A value below the modulus is its own remainder. */
  lemma ModSmall(x: int, m: int)
    requires 0 <= x < m
    ensures x % m == x
  {
    ModUnique(x, m, 0, x);
  }

  /** Dividing by at least two at most halves a non-negative value. */
  lemma HalfOfQuotient(c: int, w: int)
    requires c >= 0 && w >= 2
    ensures 0 <= 2 * (c / w) <= c
  {
    var x, y := c / w, c % w;
    assert c == w * x + y && 0 <= y < w;
    if x < 0 {
      MulAtLeast(w, -x);
    }
    assert w * x == 2 * x + (w - 2) * x;
  }

  /** A remainder of a non-negative value is at most that value. */
  lemma ModAtMost(x: int, m: int)
    requires x >= 0 && m > 0
    ensures 0 <= x % m <= x
  {
    var a, r := x / m, x % m;
    assert x == m * a + r && 0 <= r < m;
    if a >= 1 {
      MulAtLeast(m, a);
    } else if a < 0 {
      MulAtLeast(m, -a);
    }
  }

  /**
   * Dividing a non-negative value by a positive one and truncating gives a
   * non-negative value, and one that is not larger when the divisor is at least one.
   */
  lemma FloorOfQuotient(x: int, m: real)
    requires x >= 0 && m > 0.0
    ensures 0 <= (x as real / m).Floor
    ensures m >= 1.0 ==> (x as real / m).Floor <= x
  {
    var q := x as real / m;
    assert q * m == x as real;
    assert 0.0 <= q;
    if m >= 1.0 {
      assert q <= q * m;
    }
  }
}
