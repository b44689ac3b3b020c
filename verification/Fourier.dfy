/** Roots of unity, the discrete Fourier transform, and its laws. */
module FourierTransform {
  import opened ComplexNumbers
  import opened Sums
  import opened LinearAlgebra

  /** The trigonometric functions, characterized by their defining identities. */
  datatype Trig = Trig(sin: real -> real, cos: real -> real, pi: real) {
    predicate AngleSum(x: real, y: real) {
      && sin(x + y) == Times(sin(x), cos(y)) + Times(cos(x), sin(y))
      && cos(x + y) == Times(cos(x), cos(y)) - Times(sin(x), sin(y))
    }

    predicate Parity(x: real) {
      sin(-x) == -sin(x) && cos(-x) == cos(x)
    }

    ghost predicate Valid() {
      && (forall x, y :: AngleSum(x, y))
      && (forall x :: Parity(x))
      && sin(0.0) == 0.0 && cos(0.0) == 1.0 && sin(pi) == 0.0 && cos(pi) == -1.0
    }

    /** There is no smaller period than 2π. */
    ghost predicate LeastPeriod() {
      pi > 0.0 && forall x :: 0.0 < x < 2.0 * pi ==> cos(x) != 1.0
    }

    /** The complex number of modulus one and angle x. */
    function Cis(x: real): Complex { Complex(cos(x), sin(x)) }

    /** The angle step -s 2π / size. */
    function Angle(s: int, size: nat): real
      requires size > 0
    {
      -(s as real) * (2.0 * pi) / (size as real)
    }

    /** Power e of the root of unity of the given size, exp(-s 2πi e / size). */
    function Root(s: int, size: nat, e: int): Complex
      requires size > 0
    {
      Cis(Times(e as real, Angle(s, size)))
    }
  }

  lemma CisAdd(t: Trig, x: real, y: real)
    requires t.Valid()
    ensures t.Cis(x + y) == Mul(t.Cis(x), t.Cis(y))
  {
    assert t.AngleSum(x, y);
  }

  lemma CisHalf(t: Trig)
    requires t.Valid()
    ensures t.Cis(t.pi) == Neg(One) == t.Cis(-t.pi) && t.Cis(0.0) == One
  {
    hide Trig.AngleSum;
    assert t.Parity(t.pi);
  }

  lemma MinusOnes()
    ensures Mul(Neg(One), Neg(One)) == One
  {}

  lemma CisPi(t: Trig)
    requires t.Valid()
    ensures t.Cis(t.pi) == Neg(One) == t.Cis(-t.pi)
    ensures t.Cis(2.0 * t.pi) == One == t.Cis(-2.0 * t.pi)
    ensures t.Cis(0.0) == One
  {
    hide Trig.Valid, Mul, Trig.Cis;
    CisHalf(t);
    CisAdd(t, t.pi, t.pi);
    CisAdd(t, -t.pi, -t.pi);
    MinusOnes();
    assert t.pi + t.pi == 2.0 * t.pi && -t.pi + -t.pi == -2.0 * t.pi;
  }

  /** The double angle identity behind the twiddle recurrence. */
  lemma CosDouble(t: Trig, x: real)
    requires t.Valid()
    ensures t.cos(x) == 1.0 - 2.0 * Square(t.sin(0.5 * x))
  {
    var h := 0.5 * x;
    assert x == h + h && h + -h == 0.0;
    assert t.AngleSum(h, h) && t.AngleSum(h, -h) && t.Parity(h);
    assert Times(t.sin(h), -t.sin(h)) == -Times(t.sin(h), t.sin(h));
  }

  // ----- powers of roots -----

  lemma RootAdd(t: Trig, s: int, size: nat, a: int, b: int)
    requires t.Valid() && size > 0
    ensures t.Root(s, size, a + b) == Mul(t.Root(s, size, a), t.Root(s, size, b))
  {
    hide Trig.Cis, Trig.Valid, Trig.Angle, Mul;
    var u := t.Angle(s, size);
    assert Times((a + b) as real, u) == Times(a as real, u) + Times(b as real, u);
    hide Times;
    CisAdd(t, Times(a as real, u), Times(b as real, u));
  }

  lemma AngleHalf(t: Trig, s: int, size: nat)
    requires size > 0
    ensures t.Angle(s, 2 * size) == 0.5 * t.Angle(s, size)
  {
    var c, n := -(s as real) * (2.0 * t.pi), size as real;
    assert (2 * size) as real == 2.0 * n;
    assert c / (2.0 * n) == 0.5 * (c / n);
  }

  lemma AngleWhole(t: Trig, s: int, size: nat)
    requires size > 0 && (s == 1 || s == -1)
    ensures Times(size as real, t.Angle(s, size)) == if s == 1 then -2.0 * t.pi else 2.0 * t.pi
  {
    var c, n := -(s as real) * (2.0 * t.pi), size as real;
    assert n * (c / n) == c;
    assert c == if s == 1 then -2.0 * t.pi else 2.0 * t.pi;
  }

  lemma AngleNegative(t: Trig, s: int, size: nat)
    requires size > 0
    ensures t.Angle(-s, size) == -t.Angle(s, size)
  {
    var c, n := -(s as real) * (2.0 * t.pi), size as real;
    assert (-s) as real == -(s as real);
    assert (-c) / n == -(c / n);
  }

  lemma RootDouble(t: Trig, s: int, size: nat, a: int)
    requires size > 0
    ensures t.Root(s, 2 * size, 2 * a) == t.Root(s, size, a)
  {
    AngleHalf(t, s, size);
    hide Trig.Cis, Trig.Angle;
    var u, u' := t.Angle(s, size), t.Angle(s, 2 * size);
    assert Times((2 * a) as real, u') == Times(a as real, u);
  }

  lemma RootZero(t: Trig, s: int, size: nat)
    requires t.Valid() && size > 0
    ensures t.Root(s, size, 0) == One
  {
    hide Trig.Cis, Trig.Valid, Trig.Angle;
    CisPi(t);
    assert Times(0.0, t.Angle(s, size)) == 0.0;
  }

  lemma RootWhole(t: Trig, s: int, size: nat)
    requires t.Valid() && size > 0 && (s == 1 || s == -1)
    ensures t.Root(s, size, size) == One
  {
    AngleWhole(t, s, size);
    hide Trig.Cis, Trig.Valid, Trig.Angle;
    CisPi(t);
  }

  lemma RootHalf(t: Trig, s: int, size: nat)
    requires t.Valid() && size > 0 && (s == 1 || s == -1)
    ensures t.Root(s, 2 * size, size) == Neg(One)
  {
    AngleHalf(t, s, size);
    AngleWhole(t, s, size);
    hide Trig.Cis, Trig.Valid, Trig.Angle;
    var u, u' := t.Angle(s, size), t.Angle(s, 2 * size);
    assert Times(size as real, u') == 0.5 * Times(size as real, u);
    CisPi(t);
  }

  lemma {:induction false} RootPeriod(t: Trig, s: int, size: nat, m: int)
    requires t.Valid() && size > 0 && (s == 1 || s == -1)
    ensures t.Root(s, size, m * size) == One
    decreases if m >= 0 then m else -m
  {
    hide Trig.Root, Trig.Valid, Mul;
    RootZero(t, s, size);
    RootWhole(t, s, size);
    MulUnits(One);
    if m > 0 {
      RootPeriod(t, s, size, m - 1);
      assert m * size == (m - 1) * size + size;
      RootAdd(t, s, size, (m - 1) * size, size);
    } else if m < 0 {
      RootPeriod(t, s, size, m + 1);
      assert (m + 1) * size == m * size + size;
      RootAdd(t, s, size, m * size, size);
      MulUnits(t.Root(s, size, m * size));
    }
  }

  /** Exponents count modulo the size. */
  lemma RootMod(t: Trig, s: int, size: nat, a: int, b: int, m: int)
    requires t.Valid() && size > 0 && (s == 1 || s == -1) && a == b + m * size
    ensures t.Root(s, size, a) == t.Root(s, size, b)
  {
    hide Trig.Root, Trig.Valid, Mul;
    RootAdd(t, s, size, b, m * size);
    RootPeriod(t, s, size, m);
    MulUnits(t.Root(s, size, b));
  }

  lemma RootInverse(t: Trig, s: int, size: nat, a: int)
    requires size > 0
    ensures t.Root(-s, size, a) == t.Root(s, size, -a)
  {
    AngleNegative(t, s, size);
    hide Trig.Cis, Trig.Angle;
    var u, u' := t.Angle(s, size), t.Angle(-s, size);
    assert Times(a as real, u') == Times((-a) as real, u);
  }

  /** The root of unity is primitive: its powers before the size differ from one. */
  lemma RootPrimitive(t: Trig, s: int, size: nat, m: nat)
    requires t.Valid() && t.LeastPeriod() && (s == 1 || s == -1) && 0 < m < size
    ensures t.Root(s, size, m) != One
  {
    hide Trig.AngleSum;
    var x := Times(m as real, 2.0 * t.pi / (size as real));
    Fraction(m as real, size as real, 2.0 * t.pi);
    assert t.Parity(x);
    SignedAngle(s, m as real, size as real, 2.0 * t.pi);
  }

  lemma Fraction(m: real, n: real, p: real)
    requires 0.0 < m < n && p > 0.0
    ensures 0.0 < Times(m, p / n) < p
  {
    var q := p / n;
    assert q * n == p;
    TimesPositive(m, q);
    assert q * (n - m) > 0.0;
  }

  lemma SignedAngle(s: int, m: real, n: real, p: real)
    requires n > 0.0 && (s == 1 || s == -1)
    ensures Times(m, -(s as real) * p / n) == if s == 1 then -Times(m, p / n) else Times(m, p / n)
  {
    assert -p / n == -(p / n);
  }

  // ----- the transform -----

  /** Entry n of the discrete Fourier transform of the first `size` entries of x. */
  function Dft(t: Trig, s: int, size: nat, x: Vector, n: int): Complex
    requires size > 0
  {
    Sum(size, k => Mul(x(k), t.Root(s, size, n * k)))
  }
}
