/** IEEE 754 binary64 numbers ("doubles", JavaScript's `number`), as far as non-negative values
    and round-to-nearest need them. */
module Binary64 {

  function Pow2Nat(n: nat): (r: nat)
    ensures r > 0
  {
    if n == 0 then 1 else 2 * Pow2Nat(n - 1)
  }

  lemma {:induction false} Pow2NatSum(a: nat, b: nat)
    ensures Pow2Nat(a + b) == Pow2Nat(a) * Pow2Nat(b)
  {
    if a > 0 {
      Pow2NatSum(a - 1, b);
    }
  }

  /** 2 to the power `e`, for any integer `e`. */
  function Pow2(e: int): (r: real)
    ensures r > 0.0
  {
    if e >= 0 then Pow2Nat(e) as real else 1.0 / Pow2Nat(-e) as real
  }

  lemma Pow2Step(e: int)
    ensures Pow2(e + 1) == 2.0 * Pow2(e)
  {
    if e < 0 {
      var a, b := Pow2Nat(-e) as real, Pow2Nat(-e - 1) as real;
      assert a == 2.0 * b;
      assert 1.0 / b == 2.0 * (1.0 / a);
    }
  }

  /** `2^a * 2 <= 2^b` whenever `a < b`. */
  lemma {:induction false} Pow2Below(a: int, b: int)
    requires a < b
    ensures 2.0 * Pow2(a) <= Pow2(b)
    decreases b - a
  {
    Pow2Step(a);
    if a + 1 < b {
      Pow2Below(a + 1, b);
      Pow2Step(a + 1);
    }
  }

  /** The smallest and the first too large significand of a normal double. */
  const MinSignificand: nat := 0x10_0000_0000_0000
  const SignificandLimit: nat := 0x20_0000_0000_0000

  /** A non-negative double: `significand * 2^exponent`. */
  datatype Double = Double(significand: nat, exponent: int)

  const Zero := Double(0, 0)

  function Value(d: Double): real {
    d.significand as real * Pow2(d.exponent)
  }

  /** A normal double: its significand has 53 bits. */
  predicate Normal(d: Double) {
    MinSignificand <= d.significand < SignificandLimit
  }

  /** `x` lies in the interval of reals that share the exponent of `d`. */
  predicate InBinade(x: real, d: Double) {
    MinSignificand as real * Pow2(d.exponent) <= x < SignificandLimit as real * Pow2(d.exponent)
  }

  /** Round to nearest: `d` is the double closest to the exact result `x`, nearer to it than half
      the spacing of doubles around it. Ties and results on a power of two are left open. */
  predicate RoundsTo(x: real, d: Double) {
    || (x == 0.0 && d == Zero)
    || (Normal(d) && InBinade(x, d)
        && -Pow2(d.exponent) < 2.0 * (x - Value(d)) < Pow2(d.exponent))
  }

  lemma SameExponent(x: real, a: Double, b: Double)
    requires InBinade(x, a) && InBinade(x, b)
    ensures a.exponent == b.exponent
  {
    assert SignificandLimit as real == 2.0 * MinSignificand as real;
    if a.exponent < b.exponent {
      Pow2Below(a.exponent, b.exponent);
    } else if b.exponent < a.exponent {
      Pow2Below(b.exponent, a.exponent);
    }
  }

  /** A whole multiple `n * u` of a positive `u` that lies strictly between `-u` and `u` is
      zero. */
  lemma ZeroMultiple(n: int, u: real)
    requires 0.0 < u && -u < n as real * u < u
    ensures n == 0
  {
  }

  lemma Distribute(p: int, q: int, u: real)
    ensures p as real * u - q as real * u == (p - q) as real * u
  {
  }

  /** Two reals within half of `u` of the same `x` are less than `u` apart. */
  lemma Close(x: real, va: real, vb: real, u: real)
    requires -u < 2.0 * (x - va) < u && -u < 2.0 * (x - vb) < u
    ensures -u < va - vb < u
  {
  }

  lemma PositiveBinade(x: real, d: Double)
    requires InBinade(x, d)
    ensures x > 0.0
  {
    assert MinSignificand as real * Pow2(d.exponent) > 0.0;
  }

  /** Two whole multiples of a positive `u`, each within half of `u` of `x`, are equal. */
  lemma NearestMultiple(x: real, p: int, q: int, u: real)
    requires 0.0 < u
    requires -u < 2.0 * (x - p as real * u) < u && -u < 2.0 * (x - q as real * u) < u
    ensures p == q
  {
    Close(x, p as real * u, q as real * u, u);
    Distribute(p, q, u);
    var m := p as real * u - q as real * u;
    assert -u < m < u;
    assert m == (p - q) as real * u;
    ZeroMultiple(p - q, u);
  }

  /** A rounding away from zero is normal, in the binade of its input, and within half a
      spacing of it. */
  lemma RoundingNormal(x: real, d: Double)
    requires RoundsTo(x, d) && x != 0.0
    ensures Normal(d) && InBinade(x, d)
    ensures var u := Pow2(d.exponent); -u < 2.0 * (x - d.significand as real * u) < u
  {
  }

  lemma RoundingZero(d: Double)
    requires RoundsTo(0.0, d)
    ensures d == Zero
  {
    if d != Zero {
      PositiveBinade(0.0, d);
    }
  }

  lemma SameSignificand(x: real, a: Double, b: Double)
    requires a.exponent == b.exponent
    requires var u := Pow2(a.exponent); -u < 2.0 * (x - a.significand as real * u) < u
    requires var u := Pow2(b.exponent); -u < 2.0 * (x - b.significand as real * u) < u
    ensures a.significand == b.significand
  {
    NearestMultiple(x, a.significand, b.significand, Pow2(a.exponent));
  }

  /** Rounding gives one double: an operation on doubles has a single result. */
  lemma RoundingUnique(x: real, a: Double, b: Double)
    requires RoundsTo(x, a) && RoundsTo(x, b)
    ensures a == b
  {
    if x == 0.0 {
      RoundingZero(a);
      RoundingZero(b);
    } else {
      RoundingNormal(x, a);
      RoundingNormal(x, b);
      SameExponent(x, a, b);
      SameSignificand(x, a, b);
    }
  }
}
