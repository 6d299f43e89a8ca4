/**
 * Complex numbers as pairs of reals, standing for `std::complex<double>`.
 * Magnitudes are compared through their squares, so no square root is needed:
 * `|w| < tol` becomes `AbsLess(w, tol)` and `|w| > tol` becomes `AbsGreater(w, tol)`.
 */
module ComplexNumbers {

  datatype Complex = Complex(re: real, im: real)

  const Zero: Complex := Complex(0.0, 0.0)
  const One: Complex := Complex(1.0, 0.0)

  function Add(a: Complex, b: Complex): Complex
  {
    Complex(a.re + b.re, a.im + b.im)
  }

  function Sub(a: Complex, b: Complex): (d: Complex)
    ensures Add(d, b) == a
  {
    Complex(a.re - b.re, a.im - b.im)
  }

  function Mul(a: Complex, b: Complex): Complex
  {
    Complex(a.re * b.re - a.im * b.im, a.re * b.im + a.im * b.re)
  }

  /** The squared magnitude |a|^2. */
  function NormSq(a: Complex): (m: real)
    ensures m >= 0.0
  {
    a.re * a.re + a.im * a.im
  }

  /** Complex division; the quotient times the divisor gives the dividend back. */
  function Div(a: Complex, b: Complex): (q: Complex)
    requires NormSq(b) > 0.0
    ensures Mul(q, b) == a
  {
    var m := NormSq(b);
    var q := Complex((a.re * b.re + a.im * b.im) / m, (a.im * b.re - a.re * b.im) / m);
    DivMul(a, b, m, q);
    q
  }

  lemma DivMul(a: Complex, b: Complex, m: real, q: Complex)
    requires m == b.re * b.re + b.im * b.im && m > 0.0
    requires q == Complex((a.re * b.re + a.im * b.im) / m, (a.im * b.re - a.re * b.im) / m)
    ensures Mul(q, b) == a
  {
    var x := a.re * b.re + a.im * b.im;
    var y := a.im * b.re - a.re * b.im;
    assert q.re * m == x && q.im * m == y;
    calc {
      (q.re * b.re - q.im * b.im) * m;
      (q.re * m) * b.re - (q.im * m) * b.im;
      x * b.re - y * b.im;
      a.re * m;
    }
    calc {
      (q.re * b.im + q.im * b.re) * m;
      (q.re * m) * b.im + (q.im * m) * b.re;
      x * b.im + y * b.re;
      a.im * m;
    }
  }

  /** z^k by repeated multiplication. */
  function Pow(z: Complex, k: nat): Complex
  {
    if k == 0 then One else Mul(z, Pow(z, k - 1))
  }

  /** Every power of one is one. */
  lemma {:induction false} PowOne(k: nat)
    ensures Pow(One, k) == One
  {
    var i := 0;
    while i < k
      invariant i <= k && Pow(One, i) == One
    {
      i := i + 1;
    }
  }

  /** Every positive power of zero is zero. */
  lemma PowZero(k: nat)
    requires k >= 1
    ensures Pow(Zero, k) == Zero
  {
  }

  /** |d| > tol, for a squared magnitude d. */
  predicate ExceedsSq(d: real, tol: real)
  {
    tol < 0.0 || tol * tol < d
  }

  /** |w| < tol */
  predicate AbsLess(w: Complex, tol: real)
  {
    0.0 < tol && NormSq(w) < tol * tol
  }

  /** |w| > tol */
  predicate AbsGreater(w: Complex, tol: real)
  {
    ExceedsSq(NormSq(w), tol)
  }

  /** Zero is below every positive tolerance. */
  lemma ZeroBelow(tol: real)
    requires 0.0 < tol
    ensures AbsLess(Zero, tol)
  {
    ProductBelowPositive(tol, tol, tol * tol);
  }

  /** A value not below a positive tolerance is not zero. */
  lemma NotAbsLessNonZero(w: Complex, tol: real)
    requires 0.0 < tol && !AbsLess(w, tol)
    ensures NormSq(w) > 0.0
  {
    ProductBelowPositive(tol, tol, NormSq(w));
  }

  lemma ProductBelowPositive(x: real, y: real, m: real)
    requires 0.0 < x && 0.0 < y && x * y <= m
    ensures 0.0 < m
  {
  }

  /**
   * The squared comparisons agree with the comparisons of the magnitude
   * itself: for the non-negative m with m * m == |w|^2 (that is, m == |w|),
   * AbsLess is m < tol and AbsGreater is m > tol.
   */
  lemma MagnitudeComparisons(w: Complex, tol: real, m: real)
    requires 0.0 <= m && m * m == NormSq(w)
    ensures AbsLess(w, tol) <==> m < tol
    ensures AbsGreater(w, tol) <==> m > tol
  {
    if 0.0 <= tol {
      SquareMonotone(m, tol);
      SquareMonotone(tol, m);
    }
  }

  /** Comparing squared distances orders the distances themselves. */
  lemma SquareMonotone(x: real, y: real)
    requires 0.0 <= x && 0.0 <= y
    ensures x < y <==> x * x < y * y
  {
    if x < y {
      assert x * (y - x) >= 0.0;
      assert y * (y - x) > 0.0;
    } else {
      assert y * (x - y) >= 0.0;
      assert x * (x - y) >= 0.0;
    }
  }
}
