/** The number type `nr_complex_t` over exact reals, and its field laws.
    Real systems are the ones whose entries all have a zero imaginary part. */
module ComplexNumbers {

  datatype Complex = Complex(re: real, im: real)

  const Zero := Complex(0.0, 0.0)
  const One := Complex(1.0, 0.0)

  function FromReal(x: real): Complex { Complex(x, 0.0) }

  function Add(a: Complex, b: Complex): Complex { Complex(a.re + b.re, a.im + b.im) }

  function Sub(a: Complex, b: Complex): Complex { Complex(a.re - b.re, a.im - b.im) }

  function Neg(a: Complex): Complex { Complex(-a.re, -a.im) }

  function Conj(a: Complex): Complex { Complex(a.re, -a.im) }

  function Mul(a: Complex, b: Complex): Complex {
    Complex(a.re * b.re - a.im * b.im, a.re * b.im + a.im * b.re)
  }

  /** The squared modulus. */
  function Norm(a: Complex): real { Square(a.re) + Square(a.im) }

  function Inv(a: Complex): Complex
    requires a != Zero
  {
    NormPositive(a);
    Complex(a.re / Norm(a), -a.im / Norm(a))
  }

  function Div(a: Complex, b: Complex): Complex
    requires b != Zero
  {
    Mul(a, Inv(b))
  }

  lemma NormPositive(a: Complex)
    ensures Norm(a) >= 0.0
    ensures a != Zero <==> Norm(a) > 0.0
  {
    hide Square;
    SquareSign(a.re);
    SquareSign(a.im);
    assert a.re == 0.0 && a.im == 0.0 ==> a == Zero;
  }

  function Abs(x: real): real { if x < 0.0 then -x else x }

  function Times(x: real, y: real): real { x * y }

  function Ratio(x: real, y: real): real
    requires y != 0.0
  {
    x / y
  }

  function Square(x: real): real { Times(x, x) }

  lemma TimesPositive(x: real, y: real)
    requires x > 0.0 && y > 0.0
    ensures Times(x, y) > 0.0
  {}

  lemma TimesSign(x: real, y: real)
    requires x > 0.0 && y >= 0.0
    ensures Times(x, y) >= 0.0
    ensures Times(x, y) == 0.0 <==> y == 0.0
  {
    if y > 0.0 { TimesPositive(x, y); }
  }

  lemma TimesNonNegative(x: real, y: real)
    requires x >= 0.0 && y >= 0.0
    ensures Times(x, y) >= 0.0
  {}

  lemma TimesMonotone(x: real, y: real, k: real)
    requires x <= y && k >= 0.0
    ensures Times(x, k) <= Times(y, k) && Times(k, x) <= Times(k, y)
  {}

  lemma TimesAdd(k: real, x: real, y: real)
    ensures Times(k, x + y) == Times(k, x) + Times(k, y) && Times(x + y, k) == Times(x, k) + Times(y, k)
  {}

  lemma TimesUnits(x: real)
    ensures Times(1.0, x) == x == Times(x, 1.0) && Times(0.0, x) == 0.0 == Times(x, 0.0)
  {}

  lemma SquareSign(x: real)
    ensures Square(x) >= 0.0
    ensures Square(x) == 0.0 <==> x == 0.0
  {
    if x < 0.0 {
      assert Times(x, x) == Times(-x, -x);
      TimesPositive(-x, -x);
    } else if x > 0.0 {
      TimesPositive(x, x);
    }
  }

  // ----- ring laws -----

  lemma MulComm(a: Complex, b: Complex)
    ensures Mul(a, b) == Mul(b, a)
  {}

  lemma MulAssoc(a: Complex, b: Complex, c: Complex)
    ensures Mul(a, Mul(b, c)) == Mul(Mul(a, b), c)
  {}

  lemma MulAdd(a: Complex, b: Complex, c: Complex)
    ensures Mul(a, Add(b, c)) == Add(Mul(a, b), Mul(a, c))
  {}

  lemma AddMul(a: Complex, b: Complex, c: Complex)
    ensures Mul(Add(a, b), c) == Add(Mul(a, c), Mul(b, c))
  {}

  lemma MulSub(a: Complex, b: Complex, c: Complex)
    ensures Mul(a, Sub(b, c)) == Sub(Mul(a, b), Mul(a, c))
  {}

  lemma SubMul(a: Complex, b: Complex, c: Complex)
    ensures Mul(Sub(a, b), c) == Sub(Mul(a, c), Mul(b, c))
  {}

  lemma MulUnits(a: Complex)
    ensures Mul(a, Zero) == Zero == Mul(Zero, a)
    ensures Mul(a, One) == a == Mul(One, a)
  {}

  lemma MulNeg(a: Complex, b: Complex)
    ensures Mul(Neg(a), b) == Neg(Mul(a, b)) == Mul(a, Neg(b))
  {}

  lemma ConjMul(a: Complex, b: Complex)
    ensures Conj(Mul(a, b)) == Mul(Conj(a), Conj(b))
  {}

  lemma MulSwap(a: Complex, b: Complex, c: Complex)
    ensures Mul(a, Mul(b, c)) == Mul(b, Mul(a, c))
  {
    hide Mul;
    MulAssoc(a, b, c);
    MulComm(a, b);
    MulAssoc(b, a, c);
  }

  lemma NormMul(a: Complex, b: Complex)
    ensures Norm(Mul(a, b)) == Norm(a) * Norm(b)
  {
    var p, q, r, s := a.re, a.im, b.re, b.im;
    assert (p * r - q * s) * (p * r - q * s) == p * p * (r * r) - 2.0 * (p * r * (q * s)) + q * q * (s * s);
    assert (p * s + q * r) * (p * s + q * r) == p * p * (s * s) + 2.0 * (p * r * (q * s)) + q * q * (r * r);
  }

  // ----- field laws -----

  lemma Reciprocal(x: real, y: real, n: real)
    requires n > 0.0 && Times(x, x) + Times(y, y) == n
    ensures x * (x / n) - y * (-y / n) == 1.0
    ensures x * (-y / n) + y * (x / n) == 0.0
  {
    var d := 1.0 / n;
    assert x / n == x * d && -y / n == -(y * d);
    assert x * (x * d) + y * (y * d) == n * d;
  }

  lemma MulInv(a: Complex)
    requires a != Zero
    ensures Mul(a, Inv(a)) == One
    ensures Inv(a) != Zero
  {
    NormPositive(a);
    Reciprocal(a.re, a.im, Norm(a));
    MulUnits(a);
  }

  /** Division undoes multiplication, and the other way round. */
  lemma DivMul(a: Complex, b: Complex)
    requires b != Zero
    ensures Mul(b, Div(a, b)) == a
    ensures Div(Mul(b, a), b) == a
  {
    hide Mul, Inv;
    MulInv(b);
    MulSwap(b, a, Inv(b));
    MulUnits(a);
    MulComm(b, a);
    MulAssoc(a, b, Inv(b));
  }

  lemma MulNonzero(a: Complex, b: Complex)
    ensures Mul(a, b) == Zero <==> a == Zero || b == Zero
  {
    hide Mul, Inv;
    MulUnits(a);
    MulUnits(b);
    if a != Zero && Mul(a, b) == Zero {
      DivMul(b, a);
      MulUnits(Inv(a));
    }
  }

  lemma Cancel(g: Complex, x: Complex, y: Complex)
    requires g != Zero && Mul(g, x) == Mul(g, y)
    ensures x == y
  {
    hide Mul;
    MulSub(g, x, y);
    if Sub(x, y) != Zero { MulNonzero(g, Sub(x, y)); }
  }

  // ----- the modulus -----

  /** `abs` on `nr_complex_t`: the only function whose square is the norm and that is
      never negative (the square root itself is not part of the model). */
  ghost predicate IsModulus(abs: Complex -> real) {
    forall z :: abs(z) >= 0.0 && Square(abs(z)) == Norm(z)
  }

  lemma ModulusZero(abs: Complex -> real, z: Complex)
    requires IsModulus(abs)
    ensures abs(z) == 0.0 <==> z == Zero
  {
    hide Square;
    NormPositive(z);
    SquareSign(abs(z));
  }

  /** The smallest value of double precision numbers that the solvers calculate with. */
  const NR_TINY: real := 0.000000000001
}
