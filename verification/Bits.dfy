/** The bitwise operators of C on non-negative integers, bit by bit. */
module Bits {
  import opened Arithmetic

  function Pow2(n: nat): (p: nat)
    ensures p > 0
  {
    if n == 0 then 1 else 2 * Pow2(n - 1)
  }

  /** The operator & */
  function And(a: nat, b: nat): nat {
    if a == 0 || b == 0 then 0 else (a % 2) * (b % 2) + 2 * And(a / 2, b / 2)
  }

  /** The operator | */
  function Or(a: nat, b: nat): nat {
    if a == 0 && b == 0 then 0 else (if a % 2 == 1 || b % 2 == 1 then 1 else 0) + 2 * Or(a / 2, b / 2)
  }

  /** The operator ^ */
  function Xor(a: nat, b: nat): nat {
    if a == 0 && b == 0 then 0 else (if a % 2 != b % 2 then 1 else 0) + 2 * Xor(a / 2, b / 2)
  }

  lemma {:induction false} AndSelf(n: nat)
    ensures And(n, n) == n
  {
    if n > 0 {
      AndSelf(n / 2);
      if n % 2 == 0 {
        assert And(n, n) == 2 * And(n / 2, n / 2);
      } else {
        assert And(n, n) == 1 + 2 * And(n / 2, n / 2);
      }
    }
  }

  lemma {:induction false} XorTwice(a: nat, b: nat)
    ensures Xor(Xor(a, b), b) == a
  {
    if a != 0 || b != 0 {
      XorTwice(a / 2, b / 2);
      var low := if a % 2 != b % 2 then 1 else 0;
      HalfOf(Xor(a / 2, b / 2), low);
    }
  }

  lemma HalfOf(h: nat, low: nat)
    requires low < 2
    ensures (low + 2 * h) / 2 == h && (low + 2 * h) % 2 == low
  {
  }

  lemma {:induction false} XorCommutes(a: nat, b: nat)
    ensures Xor(a, b) == Xor(b, a)
  {
    if a != 0 || b != 0 {
      XorCommutes(a / 2, b / 2);
    }
  }

  lemma {:induction false} XorInRange(a: nat, b: nat, n: nat)
    requires a < Pow2(n) && b < Pow2(n)
    ensures Xor(a, b) < Pow2(n)
  {
    if n > 0 {
      XorInRange(a / 2, b / 2, n - 1);
    }
  }

  /** The bit of a number at a position. */
  function Bit(a: nat, i: nat): nat {
    if i == 0 then a % 2 else Bit(a / 2, i - 1)
  }

  /** The three operators, bit by bit. */
  lemma {:induction false} BitOfOperators(a: nat, b: nat, i: nat)
    ensures Bit(And(a, b), i) == Bit(a, i) * Bit(b, i)
    ensures Bit(Or(a, b), i) == if Bit(a, i) == 1 || Bit(b, i) == 1 then 1 else 0
    ensures Bit(Xor(a, b), i) == if Bit(a, i) != Bit(b, i) then 1 else 0
  {
    HalfOf(And(a / 2, b / 2), (a % 2) * (b % 2));
    HalfOf(Or(a / 2, b / 2), if a % 2 == 1 || b % 2 == 1 then 1 else 0);
    HalfOf(Xor(a / 2, b / 2), if a % 2 != b % 2 then 1 else 0);
    if i == 0 {
    } else {
      BitOfOperators(a / 2, b / 2, i - 1);
      BitOfZero(i);
    }
  }

  lemma {:induction false} BitOfZero(i: nat)
    ensures Bit(0, i) == 0
  {
    if i > 0 {
      BitOfZero(i - 1);
    }
  }

  /** Masking with a power of two leaves one bit. */
  lemma {:induction false} AndOfPower(a: nat, n: nat)
    ensures And(a, Pow2(n)) == Bit(a, n) * Pow2(n)
  {
    if n == 0 {
      assert And(a / 2, 0) == 0;
    } else {
      AndOfPower(a / 2, n - 1);
      Doubled(Bit(a, n), Pow2(n - 1));
      HalfOf(Pow2(n - 1), 0);
    }
  }

  lemma Doubled(x: nat, y: nat)
    ensures 2 * (x * y) == x * (2 * y)
  {
  }

  lemma {:induction false} BitIsQuotient(a: nat, n: nat)
    ensures Bit(a, n) == (a / Pow2(n)) % 2
  {
    hide Pow2;
    if n == 0 {
      assert Pow2(0) == 1 by { PowersStep(0); }
    } else {
      BitIsQuotient(a / 2, n - 1);
      PowersStep(n);
      QuotientOfHalf(a, a / 2, a % 2, Pow2(n - 1));
    }
  }

  lemma PowersStep(n: nat)
    ensures Pow2(n) == if n == 0 then 1 else 2 * Pow2(n - 1)
  {
  }

  lemma QuotientOfHalf(a: nat, h: nat, low: nat, p: nat)
    requires p > 0 && a == 2 * h + low && low < 2
    ensures a / (2 * p) == h / p
  {
    SplitTwice(a, h, low, p, h / p, h % p);
  }

  lemma SplitTwice(a: nat, h: nat, low: nat, p: nat, q: nat, r: nat)
    requires p > 0 && a == 2 * h + low && low < 2 && h == q * p + r && r < p
    ensures a / (2 * p) == q
  {
    Doubled(q, p);
    DivModUnique(a, 2 * p, q, 2 * r + low);
  }

  lemma {:induction false} OrZero(a: nat)
    ensures Or(a, 0) == a
  {
    if a > 0 {
      OrZero(a / 2);
    }
  }

  /** Bits above those of the other number stay. */
  lemma {:induction false} XorOfLow(high: nat, low: nat, b: nat, n: nat)
    requires low < Pow2(n) && b < Pow2(n)
    ensures Xor(high * Pow2(n) + low, b) == high * Pow2(n) + Xor(low, b)
  {
    if n == 0 {
      XorCommutes(high, 0);
      XorOfZero(high);
    } else {
      var h := high * Pow2(n - 1);
      Doubled(high, Pow2(n - 1));
      assert high * Pow2(n) == 2 * h;
      XorOfLow(high, low / 2, b / 2, n - 1);
      assert (2 * h + low) / 2 == h + low / 2 && (2 * h + low) % 2 == low % 2;
    }
  }

  lemma {:induction false} XorOfZero(a: nat)
    ensures Xor(a, 0) == a
  {
    if a > 0 {
      XorOfZero(a / 2);
    }
  }

  /** A number shifted past the bits of another: or is addition. */
  lemma {:induction false} OrOfShifted(high: nat, low: nat, n: nat)
    requires low < Pow2(n)
    ensures Or(high * Pow2(n), low) == high * Pow2(n) + low
  {
    if n == 0 {
      OrZero(high);
    } else {
      var h := high * Pow2(n - 1);
      assert high * Pow2(n) == 2 * h by {
        assert high * (2 * Pow2(n - 1)) == 2 * (high * Pow2(n - 1));
      }
      OrOfShifted(high, low / 2, n - 1);
    }
  }

  lemma Powers()
    ensures Pow2(32) == 0x1_0000_0000 && Pow2(64) == 0x1_0000_0000_0000_0000
  {
    assert Pow2(8) == 0x100;
    assert Pow2(16) == 0x1_0000;
    assert Pow2(24) == 0x100_0000;
    assert Pow2(32) == 0x1_0000_0000;
    assert Pow2(40) == 0x100_0000_0000;
    assert Pow2(48) == 0x1_0000_0000_0000;
    assert Pow2(56) == 0x100_0000_0000_0000;
  }
}
