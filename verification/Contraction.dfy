/** Why sweeps over a diagonally dominant equation system converge. */
module Contraction {
  import opened ComplexNumbers
  import opened LinearAlgebra

  // ----- the modulus -----

  lemma SquareOrder(x: real, y: real)
    requires y >= 0.0 && Square(x) <= Square(y)
    ensures x <= y
  {
    if x > y { StrictSquare(x, y); }
  }

  lemma StrictSquare(x: real, y: real)
    requires x > y >= 0.0
    ensures Square(x) > Square(y)
  {
    TimesPositive(x - y, x + y);
    assert (x - y) * (x + y) == x * x - y * y;
  }

  lemma SquareTimes(x: real, y: real)
    ensures Square(Times(x, y)) == Times(Square(x), Square(y))
  {
    assert (x * y) * (x * y) == (x * x) * (y * y);
  }

  lemma SquareSum(x: real, y: real)
    ensures Square(x + y) == Square(x) + Square(y) + 2.0 * Times(x, y)
  {}

  lemma Modulus(abs: Complex -> real, z: Complex)
    requires IsModulus(abs)
    ensures abs(z) >= 0.0 && Square(abs(z)) == Norm(z)
  {}

  lemma NormTimes(z: Complex, w: Complex)
    ensures Norm(Mul(z, w)) == Times(Norm(z), Norm(w))
  {
    NormMul(z, w);
  }

  lemma ModulusMul(abs: Complex -> real, z: Complex, w: Complex)
    requires IsModulus(abs)
    ensures abs(Mul(z, w)) == Times(abs(z), abs(w))
  {
    hide IsModulus, Norm, Mul, Times, Square;
    Modulus(abs, z);
    Modulus(abs, w);
    Modulus(abs, Mul(z, w));
    NormTimes(z, w);
    SquareTimes(abs(z), abs(w));
    TimesNonNegative(abs(z), abs(w));
    SquareOrder(abs(Mul(z, w)), Times(abs(z), abs(w)));
    SquareOrder(Times(abs(z), abs(w)), abs(Mul(z, w)));
  }

  function Inner(z: Complex, w: Complex): real { Times(z.re, w.re) + Times(z.im, w.im) }

  lemma NormSum(z: Complex, w: Complex)
    ensures Norm(Add(z, w)) == Norm(z) + Norm(w) + 2.0 * Inner(z, w)
  {}

  lemma CauchySchwarz(z: Complex, w: Complex)
    ensures Square(Inner(z, w)) <= Times(Norm(z), Norm(w))
  {
    var p, q, r, s := z.re, z.im, w.re, w.im;
    var d := p * s - q * r;
    SquareSign(d);
    assert (p * r + q * s) * (p * r + q * s) == p * p * (r * r) + 2.0 * (p * r * (q * s)) + q * q * (s * s);
    assert d * d == p * p * (s * s) - 2.0 * (p * r * (q * s)) + q * q * (r * r);
    assert (p * p + q * q) * (r * r + s * s) == p * p * (r * r) + p * p * (s * s) + q * q * (r * r) + q * q * (s * s);
  }

  lemma ModulusAdd(abs: Complex -> real, z: Complex, w: Complex)
    requires IsModulus(abs)
    ensures abs(Add(z, w)) <= abs(z) + abs(w)
  {
    hide IsModulus, Norm, Times, Square, Inner;
    Modulus(abs, z);
    Modulus(abs, w);
    Modulus(abs, Add(z, w));
    NormSum(z, w);
    CauchySchwarz(z, w);
    SquareTimes(abs(z), abs(w));
    TimesNonNegative(abs(z), abs(w));
    SquareOrder(Inner(z, w), Times(abs(z), abs(w)));
    SquareSum(abs(z), abs(w));
    SquareOrder(abs(Add(z, w)), abs(z) + abs(w));
  }

  lemma NormSwap(z: Complex, w: Complex)
    ensures Norm(Sub(z, w)) == Norm(Sub(w, z))
  {
    var p, q := z.re - w.re, z.im - w.im;
    assert p * p == (-p) * (-p) && q * q == (-q) * (-q);
    assert w.re - z.re == -p && w.im - z.im == -q;
  }

  lemma ModulusSwap(abs: Complex -> real, z: Complex, w: Complex)
    requires IsModulus(abs)
    ensures abs(Sub(z, w)) == abs(Sub(w, z))
  {
    hide IsModulus, Square;
    Modulus(abs, Sub(z, w));
    Modulus(abs, Sub(w, z));
    NormSwap(z, w);
    SquareOrder(abs(Sub(z, w)), abs(Sub(w, z)));
    SquareOrder(abs(Sub(w, z)), abs(Sub(z, w)));
  }

  // ----- rows without their diagonal -----

  /** The absolute row sum of row r over the first m columns, the diagonal left out. */
  function RowSum(abs: Complex -> real, A: Matrix, r: int, m: nat): real {
    if m == 0 then 0.0
    else if m - 1 == r then RowSum(abs, A, r, m - 1)
    else RowSum(abs, A, r, m - 1) + abs(A(r, m - 1))
  }

  lemma {:induction false} OffSumBound(abs: Complex -> real, A: Matrix, x: Vector, y: Vector, r: int, m: nat, e: real)
    requires IsModulus(abs) && e >= 0.0 && forall c :: 0 <= c < m && c != r ==> abs(Sub(x(c), y(c))) <= e
    ensures abs(Sub(OffSum(A, x, r, m), OffSum(A, y, r, m))) <= Times(RowSum(abs, A, r, m), e)
  {
    hide IsModulus, Mul, Times;
    if m == 0 {
      ModulusZero(abs, Zero);
      TimesUnits(e);
    } else {
      OffSumBound(abs, A, x, y, r, m - 1, e);
      if m - 1 != r {
        var a, d := A(r, m - 1), Sub(x(m - 1), y(m - 1));
        MulSub(a, x(m - 1), y(m - 1));
        ModulusAdd(abs, Sub(OffSum(A, x, r, m - 1), OffSum(A, y, r, m - 1)), Mul(a, d));
        ModulusMul(abs, a, d);
        Modulus(abs, a);
        TimesMonotone(abs(d), e, abs(a));
        TimesAdd(e, RowSum(abs, A, r, m - 1), abs(a));
      }
    }
  }

  // ----- distances -----

  /** The largest distance of the first n elements. */
  function MaxDist(abs: Complex -> real, n: nat, x: Vector, y: Vector): real {
    if n == 0 then 0.0
    else
      var d := MaxDist(abs, n - 1, x, y);
      if abs(Sub(x(n - 1), y(n - 1))) > d then abs(Sub(x(n - 1), y(n - 1))) else d
  }

  lemma {:induction false} MaxDistBound(abs: Complex -> real, n: nat, x: Vector, y: Vector, e: real)
    requires e >= 0.0
    ensures MaxDist(abs, n, x, y) >= 0.0
    ensures MaxDist(abs, n, x, y) <= e <==> forall c :: 0 <= c < n ==> abs(Sub(x(c), y(c))) <= e
  {
    if n > 0 { MaxDistBound(abs, n - 1, x, y, e); }
  }

  /** The system has ones on its diagonal and absolute row sums of at most q besides. */
  ghost predicate Dominant(abs: Complex -> real, n: nat, A: Matrix, q: real) {
    0.0 <= q < 1.0 && forall r :: 0 <= r < n ==> A(r, r) == One && RowSum(abs, A, r, n) <= q
  }

  /** What a row of a sweep sees: new values before it for single steps, old values else. */
  function Seen(seidel: bool, x: Vector, prev: Vector, r: int): Vector {
    c => if seidel && c < r then x(c) else prev(c)
  }

  ghost predicate IsSweep(seidel: bool, n: nat, A: Matrix, b: Vector, prev: Vector, x: Vector) {
    forall r :: 0 <= r < n ==> x(r) == Sub(b(r), OffSum(A, Seen(seidel, x, prev, r), r, n))
  }

  lemma SweepRow(abs: Complex -> real, seidel: bool, n: nat, A: Matrix, b: Vector, prev: Vector, x: Vector, s: Vector,
                 q: real, e: real, r: nat)
    requires IsModulus(abs) && Dominant(abs, n, A, q) && e >= 0.0 && r < n
    requires IsSweep(seidel, n, A, b, prev, x) && Solves(n, A, s, b)
    requires forall c :: 0 <= c < n && c != r ==> abs(Sub(Seen(seidel, x, prev, r)(c), s(c))) <= e
    ensures abs(Sub(x(r), s(r))) <= Times(q, e)
  {
    hide IsModulus, Times, Apply, OffSum, RowSum, Seen, Mul;
    var seen := Seen(seidel, x, prev, r);
    OffSumApply(A, s, r, n);
    MulUnits(s(r));
    assert Apply(n, A, s, r) == b(r);
    var p, o := OffSum(A, seen, r, n), OffSum(A, s, r, n);
    assert x(r) == Sub(b(r), p) && b(r) == Add(o, s(r));
    assert Sub(x(r), s(r)) == Sub(o, p);
    ModulusSwap(abs, o, p);
    OffSumBound(abs, A, seen, s, r, n, e);
    TimesMonotone(RowSum(abs, A, r, n), q, e);
  }

  lemma {:induction false} SweepRows(abs: Complex -> real, seidel: bool, n: nat, A: Matrix, b: Vector, prev: Vector,
                                     x: Vector, s: Vector, q: real, e: real, m: nat)
    requires IsModulus(abs) && Dominant(abs, n, A, q) && e >= 0.0 && m <= n
    requires IsSweep(seidel, n, A, b, prev, x) && Solves(n, A, s, b)
    requires forall c :: 0 <= c < n ==> abs(Sub(prev(c), s(c))) <= e
    ensures forall r :: 0 <= r < m ==> abs(Sub(x(r), s(r))) <= Times(q, e)
  {
    hide IsModulus, Times, Solves, IsSweep;
    if m > 0 {
      SweepRows(abs, seidel, n, A, b, prev, x, s, q, e, m - 1);
      TimesMonotone(q, 1.0, e);
      TimesUnits(e);
      SweepRow(abs, seidel, n, A, b, prev, x, s, q, e, m - 1);
    }
  }

  /** A sweep shrinks the distance to the exact solution by q. */
  lemma SweepContracts(abs: Complex -> real, seidel: bool, n: nat, A: Matrix, b: Vector, prev: Vector, x: Vector,
                       s: Vector, q: real)
    requires IsModulus(abs) && Dominant(abs, n, A, q) && IsSweep(seidel, n, A, b, prev, x) && Solves(n, A, s, b)
    ensures MaxDist(abs, n, x, s) <= Times(q, MaxDist(abs, n, prev, s))
  {
    hide IsModulus, Times, Solves, IsSweep, MaxDist;
    MaxDistBound(abs, n, prev, s, 0.0);
    var e := MaxDist(abs, n, prev, s);
    MaxDistBound(abs, n, prev, s, e);
    SweepRows(abs, seidel, n, A, b, prev, x, s, q, e, n);
    TimesNonNegative(q, e);
    MaxDistBound(abs, n, x, s, Times(q, e));
  }
}
