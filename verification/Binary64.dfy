/** The order of doubles: by bit pattern, as the virtual machine compares them, and by number. */
module Binary64 {
  import opened Bits
  import opened Values

  const TWO_52 := 0x10_0000_0000_0000

  // ---------------------------------------------------------------- numbers

  predicate SignBit(w: U64) {
    w >= TWO_63
  }

  function Magnitude(w: U64): nat {
    w % TWO_63
  }

  function Exponent(w: U64): nat {
    Magnitude(w) / TWO_52
  }

  function Fraction(w: U64): nat {
    Magnitude(w) % TWO_52
  }

  /** The absolute value of a finite double, in units of its smallest step, two to the power of minus 1074
      (section 3.4 of IEEE 754-2019). */
  function Scaled(w: U64): nat {
    if Exponent(w) == 0 then Fraction(w) else (TWO_52 + Fraction(w)) * Pow2(Exponent(w) - 1)
  }

  predicate IsInfinite(w: U64) {
    Exponent(w) == 2047 && Fraction(w) == 0
  }

  predicate AbsoluteLess(a: U64, b: U64) {
    !IsInfinite(a) && (IsInfinite(b) || Scaled(a) < Scaled(b))
  }

  /** The operator < on numbers: nothing is less than a NaN or greater than one, and the zeros are equal. */
  predicate NumberLess(a: U64, b: U64) {
    && !IsNaN(a) && !IsNaN(b)
    && match (SignBit(a), SignBit(b))
       case (false, false) => AbsoluteLess(a, b)
       case (true, true) => AbsoluteLess(b, a)
       case (true, false) => !(IsZero(a) && IsZero(b))
       case (false, true) => false
  }

  // ---------------------------------------------------------------- bit patterns

  /** value_is_less on two doubles. */
  predicate PatternLess(a: U64, b: U64) {
    Signed(a) < Signed(b)
  }

  lemma {:induction false} PowersGrow(m: nat, n: nat)
    requires m <= n
    ensures 1 <= Pow2(m) <= Pow2(n)
  {
    if m < n {
      PowersGrow(m, n - 1);
    } else if m > 0 {
      PowersGrow(m - 1, n - 1);
    }
  }

  /** Larger bit patterns without sign are larger numbers. */
  lemma ScaledIsMonotone(a: U64, b: U64)
    requires Magnitude(a) < Magnitude(b)
    ensures Scaled(a) < Scaled(b)
  {
    var e, f := Exponent(a), Exponent(b);
    assert Magnitude(a) == e * TWO_52 + Fraction(a) && Magnitude(b) == f * TWO_52 + Fraction(b);
    if e < f {
      PowersGrow(0, f - 1);
      AtLeast(TWO_52, Fraction(b), Pow2(f - 1));
      if e > 0 {
        PowersGrow(e, f - 1);
        Below(TWO_52, Fraction(a), Pow2(e - 1));
        Order(TWO_52, Pow2(e), Pow2(f - 1));
      } else {
        Order(TWO_52, 1, Pow2(f - 1));
      }
    } else {
      assert e == f && Fraction(a) < Fraction(b);
      if e > 0 {
        PowersGrow(0, e - 1);
        StrictOrder(TWO_52 + Fraction(a), TWO_52 + Fraction(b), Pow2(e - 1));
      }
    }
  }

  lemma AtLeast(c: nat, f: nat, p: nat)
    ensures (c + f) * p >= c * p
  {
    assert (c + f) * p == c * p + f * p;
  }

  lemma Below(c: nat, f: nat, p: nat)
    requires f < c && p > 0
    ensures (c + f) * p < c * (2 * p)
  {
    assert (c + f) * p == c * p + f * p && c * (2 * p) == c * p + c * p;
    StrictOrder(f, c, p);
  }

  lemma Order(c: nat, p: nat, q: nat)
    requires p <= q
    ensures c * p <= c * q
  {
  }

  lemma StrictOrder(f: nat, g: nat, p: nat)
    requires f < g && p > 0
    ensures f * p < g * p
  {
    assert g * p == f * p + (g - f) * p;
  }

  /** Patterns of one sign compare by magnitude as their absolute values do. */
  lemma AbsoluteOrder(a: U64, b: U64)
    requires !IsNaN(a) && !IsNaN(b)
    ensures AbsoluteLess(a, b) <==> Magnitude(a) < Magnitude(b)
  {
    hide Scaled;
    if Magnitude(a) < Magnitude(b) {
      ScaledIsMonotone(a, b);
    } else if Magnitude(b) < Magnitude(a) {
      ScaledIsMonotone(b, a);
    } else {
      SameMagnitude(a, b);
    }
  }

  lemma SameMagnitude(a: U64, b: U64)
    requires Magnitude(a) == Magnitude(b)
    ensures Scaled(a) == Scaled(b)
  {
  }

  /** When at most one operand is negative, the pattern order is the order of numbers, but for minus zero
      against plus zero, of which it says that one is less. */
  lemma OrderWithAPositive(a: U64, b: U64)
    requires !IsNaN(a) && !IsNaN(b) && !(SignBit(a) && SignBit(b))
    ensures PatternLess(a, b) <==> NumberLess(a, b) || (a == TWO_63 && b == 0)
  {
    hide AbsoluteLess;
    AbsoluteOrder(a, b);
  }

  /** When both operands are negative, the order is exactly reversed. */
  lemma OrderOfNegatives(a: U64, b: U64)
    requires !IsNaN(a) && !IsNaN(b) && SignBit(a) && SignBit(b)
    ensures PatternLess(a, b) <==> NumberLess(b, a)
  {
    hide AbsoluteLess;
    AbsoluteOrder(a, b);
  }

  /** The virtual machine compares two doubles as numbers exactly when one of them has a clear sign bit and
      they are not minus zero and plus zero, or when they are the same negative number. */
  lemma LessExactly(fl: FloatOps, a: U64, b: U64)
    requires !IsNaN(a) && !IsNaN(b)
    ensures IsLess(fl, Double(a), Double(b)) == NumberLess(a, b)
       <==> (if SignBit(a) && SignBit(b) then a == b else !(a == TWO_63 && b == 0))
  {
    hide AbsoluteLess;
    AbsoluteOrder(a, b);
    AbsoluteOrder(b, a);
  }

  /** Integers are compared as integers; with a double on one side, an integer on the other is compared as the double it
      converts to; and nothing else is less than anything. */
  lemma LessOfNumbers(fl: FloatOps, m: I64, n: I64, w: U64, a: Value, b: Value)
    ensures IsLess(fl, Long(m), Long(n)) <==> m < n
    ensures IsLess(fl, Long(m), Double(w)) <==> IsLess(fl, Double(fl.ofLong(m)), Double(w))
    ensures IsLess(fl, Double(w), Long(m)) <==> IsLess(fl, Double(w), Double(fl.ofLong(m)))
    ensures IsLess(fl, a, b) ==> (a.Long? || a.Double?) && (b.Long? || b.Double?)
  {
  }

  const MINUS_ONE: U64 := 0xBFF0_0000_0000_0000
  const MINUS_TWO: U64 := 0xC000_0000_0000_0000

  /** The machine finds -1 less than -2, and -2 not less than -1. */
  lemma NegativesReversed(fl: FloatOps)
    ensures IsLess(fl, Double(MINUS_ONE), Double(MINUS_TWO)) && !NumberLess(MINUS_ONE, MINUS_TWO)
    ensures !IsLess(fl, Double(MINUS_TWO), Double(MINUS_ONE)) && NumberLess(MINUS_TWO, MINUS_ONE)
  {
    hide AbsoluteLess;
    AbsoluteOrder(MINUS_ONE, MINUS_TWO);
    AbsoluteOrder(MINUS_TWO, MINUS_ONE);
  }
}
