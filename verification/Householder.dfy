/** The reflection that eliminates a column below its first element. */
module Householder {
  import opened ComplexNumbers
  import opened Sums
  import opened LinearAlgebra
  import opened Reflections

  /** The sum of the squares of the elements from index m on. */
  function TailNorm(n: nat, m: nat, x: Vector): real {
    if n <= m then 0.0 else TailNorm(n - 1, m, x) + Norm(x(n - 1))
  }

  /** The terms of conj(b) times a scalar product with the packed vector: nothing before the
      first position c, `first` there and the squares behind. */
  lemma {:induction false} PackedSum(n: nat, c: nat, x: Vector, first: Complex, f: int -> Complex)
    requires forall k :: 0 <= k < n ==> f(k) == if k < c then Zero else if k == c then first else FromReal(Norm(x(k)))
    ensures Sum(n, f) == if n <= c then Zero else Add(first, FromReal(TailNorm(n, c + 1, x)))
  {
    hide Norm;
    if n > 0 { PackedSum(n - 1, c, x, first, f); }
  }

  /** The householder vector is one at c and x / b behind. */
  ghost predicate IsPacked(n: nat, c: nat, x: Vector, b: Complex, u: Vector) {
    && (forall k :: 0 <= k < c && k < n ==> u(k) == Zero) && u(c) == One
    && forall k :: c < k < n ==> Mul(b, u(k)) == x(k)
  }

  lemma ConjReal(z: Complex)
    requires z.im == 0.0
    ensures Conj(z) == z
  {}

  lemma ConjOne()
    ensures Conj(One) == One && Conj(Zero) == Zero
  {
    hide Conj;
    ConjReal(One);
    ConjReal(Zero);
  }

  lemma SquareNorm(z: Complex)
    ensures Mul(Conj(z), z) == FromReal(Norm(z))
  {}

  /** conj(b) u' x == conj(b) x(c) + |x behind c|^2. */
  lemma ScaledDot(n: nat, c: nat, x: Vector, b: Complex, u: Vector)
    requires c < n && IsPacked(n, c, x, b, u)
    ensures Mul(Conj(b), Dot(n, u, x)) == Add(Mul(Conj(b), x(c)), FromReal(TailNorm(n, c + 1, x)))
  {
    hide Mul, Norm;
    var f := (k: int) => Mul(Conj(u(k)), x(k));
    var g := (k: int) => Mul(Conj(b), f(k));
    SumScale(n, Conj(b), f);
    SumExt(n, k => Mul(Conj(b), f(k)), g);
    ConjOne();
    forall k | 0 <= k < n
      ensures g(k) == if k < c then Zero else if k == c then Mul(Conj(b), x(c)) else FromReal(Norm(x(k)))
    {
      MulUnits(x(k));
      MulUnits(Conj(b));
      if k > c {
        MulAssoc(Conj(b), Conj(u(k)), x(k));
        ConjMul(b, u(k));
        SquareNorm(x(k));
      }
    }
    PackedSum(n, c, x, Mul(Conj(b), x(c)), g);
  }

  /** conj(b) b u' u == conj(b) b + |x behind c|^2. */
  lemma ScaledSquare(n: nat, c: nat, x: Vector, b: Complex, u: Vector)
    requires c < n && IsPacked(n, c, x, b, u)
    ensures Mul(Mul(Conj(b), b), Dot(n, u, u)) == Add(Mul(Conj(b), b), FromReal(TailNorm(n, c + 1, x)))
  {
    hide Mul, Norm;
    var w := Mul(Conj(b), b);
    var f := (k: int) => Mul(Conj(u(k)), u(k));
    var g := (k: int) => Mul(w, f(k));
    SumScale(n, w, f);
    SumExt(n, k => Mul(w, f(k)), g);
    ConjOne();
    forall k | 0 <= k < n ensures g(k) == if k < c then Zero else if k == c then w else FromReal(Norm(x(k))) {
      MulUnits(u(k));
      MulUnits(w);
      if k > c { PackedSquare(b, u(k), x(k)); }
    }
    PackedSum(n, c, x, w, g);
  }

  lemma PackedSquare(b: Complex, u: Complex, x: Complex)
    requires Mul(b, u) == x
    ensures Mul(Mul(Conj(b), b), Mul(Conj(u), u)) == FromReal(Norm(x))
  {
    hide Mul, Norm;
    ConjMul(b, u);
    SquareNorm(x);
    // (b' b) (u' u) == (b' u') (b u)
    MulAssoc(Conj(b), b, Mul(Conj(u), u));
    MulSwap(b, Conj(u), u);
    MulAssoc(Conj(b), Conj(u), Mul(b, u));
  }

  /** The numbers of a reflection: g^2 is the square of the whole column, b == a + g and
      t g == b. */
  ghost predicate IsHouseholder(a: Complex, s2: real, g: real, b: Complex, t: Complex) {
    && g != 0.0 && Square(g) == Norm(a) + s2 && b == Add(a, FromReal(g)) && b != Zero && Mul(FromReal(g), t) == b
  }

  /** conj(b) a + s^2 == g b and conj(b) b + s^2 == g (b + conj(b)). */
  lemma HouseholderProducts(a: Complex, s2: real, g: real, b: Complex)
    requires Square(g) == Norm(a) + s2 && b == Add(a, FromReal(g))
    ensures Add(Mul(Conj(b), a), FromReal(s2)) == Mul(FromReal(g), b)
    ensures Add(Mul(Conj(b), b), FromReal(s2)) == Mul(FromReal(g), Add(b, Conj(b)))
  {}

  /** tau u' x == b. */
  lemma HouseholderFactor(n: nat, c: nat, x: Vector, g: real, b: Complex, t: Complex, u: Vector)
    requires c < n && IsHouseholder(x(c), TailNorm(n, c + 1, x), g, b, t) && IsPacked(n, c, x, b, u)
    ensures Mul(Conj(t), Dot(n, u, x)) == b
  {
    hide Mul, Dot, TailNorm, Norm, Square;
    var G, d := FromReal(g), Dot(n, u, x);
    ScaledDot(n, c, x, b, u);
    HouseholderProducts(x(c), TailNorm(n, c + 1, x), g, b);
    ConjMul(G, t);
    MulAssoc(G, Conj(t), d);
    assert Conj(G) == G;
    Cancel(G, Mul(Conj(t), d), b);
  }

  /** Each reflection of the factorization is unitary. */
  lemma HouseholderIsReflector(n: nat, c: nat, x: Vector, g: real, b: Complex, t: Complex, u: Vector)
    requires c < n && IsHouseholder(x(c), TailNorm(n, c + 1, x), g, b, t) && IsPacked(n, c, x, b, u)
    ensures IsReflector(n, Conj(t), u)
  {
    hide Mul, Dot, TailNorm, Norm, Square;
    var G, U, tau := FromReal(g), Dot(n, u, u), Conj(t);
    ScaledSquare(n, c, x, b, u);
    HouseholderProducts(x(c), TailNorm(n, c + 1, x), g, b);
    ConjMul(G, t);
    assert Conj(G) == G && Conj(tau) == t;
    // G (G (tau t U)) == b' b U == G (b + b') == G (G (t + tau))
    var v := Mul(Mul(tau, t), U);
    MulAssoc(G, Mul(tau, t), U);
    MulAssoc(G, tau, t);
    MulAssoc(G, Mul(Mul(G, tau), t), U);
    MulSwap(G, Mul(G, tau), t);
    assert Mul(G, Mul(G, v)) == Mul(Mul(Conj(b), b), U);
    MulAdd(G, t, tau);
    Cancel(G, Mul(G, v), Add(b, Conj(b)));
    Cancel(G, v, Add(t, tau));
  }

  /** The reflection takes its column to (.., -g, 0, .., 0). */
  lemma HouseholderEliminates(n: nat, c: nat, x: Vector, g: real, b: Complex, t: Complex, u: Vector)
    requires c < n && IsHouseholder(x(c), TailNorm(n, c + 1, x), g, b, t) && IsPacked(n, c, x, b, u)
    ensures forall k :: 0 <= k < n ==>
      Reflect(n, Conj(t), u, x)(k) == if k < c then x(k) else if k == c then FromReal(-g) else Zero
  {
    hide Mul, Dot, TailNorm, Norm, Square;
    HouseholderFactor(n, c, x, g, b, t, u);
    MulUnits(b);
  }

  /** A reflection from position c on leaves a column alone that is zero there. */
  lemma ReflectUntouched(n: nat, c: nat, tau: Complex, u: Vector, x: Vector)
    requires forall k :: 0 <= k < n ==> u(k) == Zero || x(k) == Zero
    ensures SameVector(n, Reflect(n, tau, u, x), x)
  {
    hide Mul;
    ConjOne();
    forall k | 0 <= k < n ensures Mul(Conj(u(k)), x(k)) == Zero {
      MulUnits(x(k));
      MulUnits(Conj(u(k)));
    }
    SumZero(n, k => Mul(Conj(u(k)), x(k)));
    MulUnits(tau);
    forall k | 0 <= k < n ensures Sub(x(k), Mul(Mul(tau, Dot(n, u, x)), u(k))) == x(k) { MulUnits(u(k)); }
  }

  /** No reflection at all: the factor is zero. */
  lemma ReflectNothing(n: nat, u: Vector, x: Vector)
    ensures SameVector(n, Reflect(n, Zero, u, x), x) && IsReflector(n, Zero, u)
  {
    hide Mul, Dot;
    MulUnits(Dot(n, u, x));
    MulUnits(Zero);
    MulUnits(Dot(n, u, u));
    ConjOne();
    forall k | 0 <= k < n ensures Sub(x(k), Mul(Zero, u(k))) == x(k) { MulUnits(u(k)); }
  }
}
