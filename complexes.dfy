/**
 * Exact complex amplitudes. The simulator stores `std::complex<float>`;
 * here the real and imaginary parts are mathematical reals, so every
 * identity below holds exactly rather than up to rounding.
 */
module Complexes {

  datatype Complex = Complex(re: real, im: real)

  const Zero := Complex(0.0, 0.0)
  const One := Complex(1.0, 0.0)

  function Add(x: Complex, y: Complex): (z: Complex)
  {
    Complex(x.re + y.re, x.im + y.im)
  }

  function Sub(x: Complex, y: Complex): (z: Complex)
  {
    Complex(x.re - y.re, x.im - y.im)
  }

  function Neg(x: Complex): (z: Complex)
  {
    Complex(-x.re, -x.im)
  }

  function Mul(x: Complex, y: Complex): (z: Complex)
  {
    Complex(x.re * y.re - x.im * y.im, x.re * y.im + x.im * y.re)
  }

  /** `x / r` for a real divisor, as in `A / std::sqrt(2.0f)`. */
  function DivReal(x: Complex, r: real): (z: Complex)
    requires r != 0.0
  {
    Complex(x.re / r, x.im / r)
  }

  /** Multiplication by a real factor. */
  function Scale(k: real, x: Complex): (z: Complex)
  {
    Complex(k * x.re, k * x.im)
  }

  /** Squared magnitude |x|^2 = re^2 + im^2; never negative. */
  function Norm2(x: Complex): (n: real)
    ensures n >= 0.0
  {
    x.re * x.re + x.im * x.im
  }

  /**
   * `std::abs(amp * amp)` is the non-negative square root of
   * Norm2(amp * amp); this lemma shows that root is Norm2(amp), so the
   * probability kernel's value is exactly re^2 + im^2.
   */
  lemma AbsOfSquare(z: Complex)
    ensures Norm2(z) >= 0.0
    ensures Norm2(z) * Norm2(z) == Norm2(Mul(z, z))
  {
    var a, b := z.re, z.im;
    calc {
      Norm2(Mul(z, z));
      (a * a - b * b) * (a * a - b * b) + (a * b + b * a) * (a * b + b * a);
      (a * a + b * b) * (a * a + b * b);
    }
  }

  /** Negation does not change the squared magnitude. */
  lemma Norm2Neg(x: Complex)
    ensures Norm2(Neg(x)) == Norm2(x)
  {
  }

  // ---------------------------------------------------------------------
  // Total probability of a state vector

  /** The sum of |s[i]|^2 over lo <= i < hi: the probability of that range of outcomes. */
  function SumRange(s: seq<Complex>, lo: nat, hi: nat): (total: real)
    requires lo <= hi <= |s|
    ensures total >= 0.0
    decreases hi - lo
  {
    if lo == hi then 0.0 else SumRange(s, lo, hi - 1) + Norm2(s[hi - 1])
  }

  /** The sum of |x|^2 over all amplitudes: the total probability of a state. */
  function SumNorm(s: seq<Complex>): (total: real)
    ensures total >= 0.0
  {
    SumRange(s, 0, |s|)
  }

  /** The total of a range is the sum of the totals of its two parts. */
  lemma {:induction false} SumRangeSplit(s: seq<Complex>, lo: nat, mid: nat, hi: nat)
    requires lo <= mid <= hi <= |s|
    ensures SumRange(s, lo, hi) == SumRange(s, lo, mid) + SumRange(s, mid, hi)
    decreases hi - mid
  {
    if mid < hi {
      SumRangeSplit(s, lo, mid, hi - 1);
    }
  }

  /** Two adjacent ranges whose combined totals agree in a and b make one range whose totals agree. */
  lemma SumRangeJoin(a: seq<Complex>, b: seq<Complex>, lo: nat, mid: nat, hi: nat)
    requires lo <= mid <= hi <= |a| && hi <= |b|
    requires SumRange(a, lo, mid) + SumRange(a, mid, hi) == SumRange(b, lo, mid) + SumRange(b, mid, hi)
    ensures SumRange(a, lo, hi) == SumRange(b, lo, hi)
  {
    SumRangeSplit(a, lo, mid, hi);
    SumRangeSplit(b, lo, mid, hi);
  }

  /** Vectors whose amplitudes agree in magnitude index by index have the same total. */
  lemma {:induction false} SumRangePointwise(a: seq<Complex>, b: seq<Complex>, lo: nat, hi: nat)
    requires lo <= hi <= |a| && hi <= |b|
    requires forall i :: lo <= i < hi ==> Norm2(a[i]) == Norm2(b[i])
    ensures SumRange(a, lo, hi) == SumRange(b, lo, hi)
    decreases hi - lo
  {
    if lo < hi {
      SumRangePointwise(a, b, lo, hi - 1);
    }
  }

  /**
   * Two ranges of n amplitudes, starting at x and at y, paired up in order:
   * when every pair (x + r, y + r) has the same |.|^2 + |.|^2 in a and in b,
   * the two ranges together have the same total in a and in b.
   */
  lemma {:induction false} SumRangePaired(a: seq<Complex>, b: seq<Complex>, x: nat, y: nat, n: nat)
    requires x + n <= |a| && y + n <= |a| && |a| == |b|
    requires forall i :: x <= i < x + n ==>
      Norm2(a[i]) + Norm2(a[y + (i - x)]) == Norm2(b[i]) + Norm2(b[y + (i - x)])
    ensures SumRange(a, x, x + n) + SumRange(a, y, y + n) == SumRange(b, x, x + n) + SumRange(b, y, y + n)
  {
    if n > 0 {
      SumRangePaired(a, b, x, y, n - 1);
    }
  }
}
