/** Exact complex amplitudes. The runtime stores std::complex<double>; the model
    uses real parts and imaginary parts over Dafny's mathematical reals, so every
    identity below holds exactly (no rounding). */
module ComplexNumbers {

  datatype Complex = Complex(re: real, im: real)

  const Zero: Complex := Complex(0.0, 0.0)
  const One: Complex := Complex(1.0, 0.0)
  const I: Complex := Complex(0.0, 1.0)
  const MinusI: Complex := Complex(0.0, -1.0)
  const MinusOne: Complex := Complex(-1.0, 0.0)

  function Add(a: Complex, b: Complex): Complex {
    Complex(a.re + b.re, a.im + b.im)
  }

  function Neg(a: Complex): Complex {
    Complex(-a.re, -a.im)
  }

  function Mul(a: Complex, b: Complex): Complex {
    Complex(a.re * b.re - a.im * b.im, a.re * b.im + a.im * b.re)
  }

  /** A real factor times a complex value (`f * kv.second` in the source). */
  function Scale(r: real, a: Complex): Complex {
    Complex(r * a.re, r * a.im)
  }

  /** Squared magnitude, as std::norm computes it. */
  function Norm(a: Complex): real {
    a.re * a.re + a.im * a.im
  }

  /** The source's magnitude cut-off `1e-12` on std::norm. */
  const Epsilon: real := 0.000000000001

  predicate Negligible(a: Complex) {
    Norm(a) <= Epsilon
  }

  lemma NormNonNegative(a: Complex)
    ensures Norm(a) >= 0.0
  {
  }

  lemma ZeroIsNegligible()
    ensures Negligible(Zero)
  {
  }

  lemma MulAssoc(a: Complex, b: Complex, c: Complex)
    ensures Mul(Mul(a, b), c) == Mul(a, Mul(b, c))
  {
    assert (a.re * b.re - a.im * b.im) * c.re == a.re * (b.re * c.re) - a.im * (b.im * c.re);
    assert (a.re * b.im + a.im * b.re) * c.im == a.re * (b.im * c.im) + a.im * (b.re * c.im);
    assert (a.re * b.re - a.im * b.im) * c.im == a.re * (b.re * c.im) - a.im * (b.im * c.im);
    assert (a.re * b.im + a.im * b.re) * c.re == a.re * (b.im * c.re) + a.im * (b.re * c.re);
  }

  lemma MulDistLeft(a: Complex, b: Complex, c: Complex)
    ensures Mul(a, Add(b, c)) == Add(Mul(a, b), Mul(a, c))
  {
    assert a.re * (b.re + c.re) == a.re * b.re + a.re * c.re;
    assert a.im * (b.im + c.im) == a.im * b.im + a.im * c.im;
    assert a.re * (b.im + c.im) == a.re * b.im + a.re * c.im;
    assert a.im * (b.re + c.re) == a.im * b.re + a.im * c.re;
  }

  lemma MulDistRight(a: Complex, b: Complex, c: Complex)
    ensures Mul(Add(a, b), c) == Add(Mul(a, c), Mul(b, c))
  {
    assert (a.re + b.re) * c.re == a.re * c.re + b.re * c.re;
    assert (a.im + b.im) * c.im == a.im * c.im + b.im * c.im;
    assert (a.re + b.re) * c.im == a.re * c.im + b.re * c.im;
    assert (a.im + b.im) * c.re == a.im * c.re + b.im * c.re;
  }

  /** Regrouping of the four products that appear when two 2x2 products are composed. */
  lemma Regroup(p: Complex, q: Complex, r: Complex, s: Complex)
    ensures Add(Add(p, q), Add(r, s)) == Add(Add(p, r), Add(q, s))
  {
  }

  lemma MulOneLeft(a: Complex)
    ensures Mul(One, a) == a
  {
  }

  lemma MulZeroLeft(a: Complex)
    ensures Mul(Zero, a) == Zero
  {
  }

  lemma MulMinusOneLeft(a: Complex)
    ensures Mul(MinusOne, a) == Neg(a)
  {
  }

  lemma AddZeroLeft(a: Complex)
    ensures Add(Zero, a) == a && Add(a, Zero) == a
  {
  }

  lemma MulComm(a: Complex, b: Complex)
    ensures Mul(a, b) == Mul(b, a)
  {
  }

  /** A complex number with no imaginary part multiplies like a real factor. */
  lemma MulRealLeft(r: real, a: Complex)
    ensures Mul(Complex(r, 0.0), a) == Scale(r, a)
    ensures Mul(Neg(Complex(r, 0.0)), a) == Scale(-r, a)
  {
  }

  lemma AddComm(a: Complex, b: Complex)
    ensures Add(a, b) == Add(b, a)
  {
  }

  lemma ScaleZero(r: real)
    ensures Scale(r, Zero) == Zero
  {
  }

  lemma NegNeg(a: Complex)
    ensures Neg(Neg(a)) == a
  {
  }
}
