/** Facts about integer division shared by the modules that index circularly or hash. */
module Arithmetic {
  lemma MulAtLeast(k: int, m: int)
    requires k >= 1 && m > 0
    ensures k * m >= m
  {
  }

  /** Quotient and remainder are unique. */
  lemma DivModUnique(x: int, m: int, q: int, r: int)
    requires m > 0 && x == q * m + r && 0 <= r < m
    ensures x / m == q && x % m == r
  {
    var k := q - x / m;
    assert (q - x / m) * m == q * m - (x / m) * m;
    assert k * m == x % m - r;
    if k >= 1 {
      MulAtLeast(k, m);
    } else if k <= -1 {
      assert (-k) * m == -(k * m);
      MulAtLeast(-k, m);
    }
  }

  lemma ModUnique(x: int, m: int, q: int, r: int)
    requires m > 0 && x == q * m + r && 0 <= r < m
    ensures x % m == r
  {
    DivModUnique(x, m, q, r);
  }

  /** A remainder taken early does not change a remainder taken late. */
  lemma ModShift(a: int, b: int, m: int)
    requires m > 0
    ensures (a % m + b) % m == (a + b) % m
  {
    var q, r := (a % m + b) / m, (a % m + b) % m;
    assert a == (a / m) * m + a % m;
    assert a + b == (a / m + q) * m + r by {
      assert (a / m + q) * m == (a / m) * m + q * m;
    }
    ModUnique(a + b, m, a / m + q, r);
  }

  lemma ModTimes(a: int, b: int, m: int)
    requires m > 0
    ensures (a % m * b) % m == (a * b) % m
  {
    var q, r := (a % m * b) / m, (a % m * b) % m;
    assert a == (a / m) * m + a % m;
    assert a * b == (a / m * b + q) * m + r by {
      TimesSplit(a / m, m, a % m, b);
      assert (a / m * b + q) * m == (a / m * b) * m + q * m;
    }
    ModUnique(a * b, m, a / m * b + q, r);
  }

  lemma TimesSplit(q: int, m: int, r: int, b: int)
    ensures (q * m + r) * b == (q * b) * m + r * b
  {
  }

  lemma ModMultiple(x: int, k: int, m: int)
    requires m > 0
    ensures (x + k * m) % m == x % m
  {
    assert x + k * m == (x / m + k) * m + x % m by {
      assert (x / m + k) * m == (x / m) * m + k * m;
    }
    ModUnique(x + k * m, m, x / m + k, x % m);
  }
}
