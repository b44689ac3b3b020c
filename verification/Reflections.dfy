/** Householder reflections, and what a sequence of them keeps. */
module Reflections {
  import opened ComplexNumbers
  import opened Sums
  import opened LinearAlgebra

  // ----- scalar products -----

  /** The scalar product u' x of the first n elements. */
  function Dot(n: nat, u: Vector, x: Vector): Complex {
    Sum(n, k => Mul(Conj(u(k)), x(k)))
  }

  ghost predicate SameVector(n: nat, x: Vector, y: Vector) {
    forall k :: 0 <= k < n ==> x(k) == y(k)
  }

  lemma DotExt(n: nat, u: Vector, x: Vector, v: Vector, y: Vector)
    requires SameVector(n, u, v) && SameVector(n, x, y)
    ensures Dot(n, u, x) == Dot(n, v, y)
  {
    SumExt(n, k => Mul(Conj(u(k)), x(k)), k => Mul(Conj(v(k)), y(k)));
  }

  /** u' (x + f y). */
  lemma DotLinear(n: nat, u: Vector, x: Vector, f: Complex, y: Vector, z: Vector)
    requires forall k :: 0 <= k < n ==> z(k) == Add(x(k), Mul(f, y(k)))
    ensures Dot(n, u, z) == Add(Dot(n, u, x), Mul(f, Dot(n, u, y)))
  {
    hide Mul;
    var p, q := (k: int) => Mul(Conj(u(k)), x(k)), (k: int) => Mul(Conj(u(k)), y(k));
    var fq := (k: int) => Mul(f, q(k));
    SumScale(n, f, q);
    SumExt(n, k => Mul(f, q(k)), fq);
    SumAdd(n, p, fq);
    forall k | 0 <= k < n ensures Mul(Conj(u(k)), z(k)) == Add(p(k), fq(k)) {
      MulAdd(Conj(u(k)), x(k), Mul(f, y(k)));
      MulSwap(Conj(u(k)), f, y(k));
    }
    SumExt(n, k => Mul(Conj(u(k)), z(k)), k => Add(p(k), fq(k)));
  }

  // ----- one reflection -----

  /** x - tau (u' x) u. */
  function Reflect(n: nat, tau: Complex, u: Vector, x: Vector): Vector {
    var f := Mul(tau, Dot(n, u, x));
    k => Sub(x(k), Mul(f, u(k)))
  }

  /** The condition that makes I - tau u u' unitary. */
  ghost predicate IsReflector(n: nat, tau: Complex, u: Vector) {
    Mul(Mul(tau, Conj(tau)), Dot(n, u, u)) == Add(tau, Conj(tau))
  }

  lemma ReflectExt(n: nat, tau: Complex, u: Vector, x: Vector, y: Vector)
    requires SameVector(n, x, y)
    ensures SameVector(n, Reflect(n, tau, u, x), Reflect(n, tau, u, y))
  {
    hide Dot, Mul;
    DotExt(n, u, x, u, y);
  }

  lemma ReflectLinear(n: nat, tau: Complex, u: Vector, x: Vector, f: Complex, y: Vector, z: Vector)
    requires forall k :: 0 <= k < n ==> z(k) == Add(x(k), Mul(f, y(k)))
    ensures forall k :: 0 <= k < n ==>
      Reflect(n, tau, u, z)(k) == Add(Reflect(n, tau, u, x)(k), Mul(f, Reflect(n, tau, u, y)(k)))
  {
    hide Dot, Mul;
    DotLinear(n, u, x, f, y, z);
    var p, q := Dot(n, u, x), Dot(n, u, y);
    MulAdd(tau, p, Mul(f, q));
    MulSwap(tau, f, q);
    forall k | 0 <= k < n
      ensures Reflect(n, tau, u, z)(k) == Add(Reflect(n, tau, u, x)(k), Mul(f, Reflect(n, tau, u, y)(k)))
    {
      // (tp + f tq) u == tp u + f (tq u)
      AddMul(Mul(tau, p), Mul(f, Mul(tau, q)), u(k));
      MulAssoc(f, Mul(tau, q), u(k));
      MulSub(f, y(k), Mul(Mul(tau, q), u(k)));
    }
  }

  /** The adjoint reflection undoes a reflection. */
  lemma ReflectInverse(n: nat, tau: Complex, u: Vector, x: Vector)
    requires IsReflector(n, tau, u)
    ensures SameVector(n, Reflect(n, Conj(tau), u, Reflect(n, tau, u, x)), x)
  {
    hide Dot, Mul;
    var y := Reflect(n, tau, u, x);
    var f, U := Dot(n, u, x), Dot(n, u, u);
    var t := Mul(tau, f);
    forall k | 0 <= k < n ensures y(k) == Add(x(k), Mul(Neg(t), u(k))) { MulNeg(t, u(k)); }
    DotLinear(n, u, x, Neg(t), u, y);
    MulNeg(t, U);
    var g := Mul(Conj(tau), Sub(f, Mul(t, U)));
    assert Dot(n, u, y) == Sub(f, Mul(t, U));
    InverseFactor(tau, f, U);
    forall k | 0 <= k < n ensures Sub(y(k), Mul(g, u(k))) == x(k) {
      AddMul(t, g, u(k));
      MulUnits(u(k));
    }
  }

  /** tau f + tau' (f - tau f U) vanishes. */
  lemma InverseFactor(tau: Complex, f: Complex, U: Complex)
    requires Mul(Mul(tau, Conj(tau)), U) == Add(tau, Conj(tau))
    ensures Add(Mul(tau, f), Mul(Conj(tau), Sub(f, Mul(Mul(tau, f), U)))) == Zero
  {
    hide Mul;
    var c := Conj(tau);
    MulSub(c, f, Mul(Mul(tau, f), U));
    // c ((tau f) U) == ((tau c) U) f
    MulAssoc(c, Mul(tau, f), U);
    MulAssoc(c, tau, f);
    MulComm(c, tau);
    MulAssoc(Mul(tau, c), f, U);
    MulComm(f, U);
    MulAssoc(Mul(tau, c), U, f);
    AddMul(tau, c, f);
  }

  // ----- sequences of reflections -----

  datatype Reflector = Reflector(tau: Complex, u: Vector)

  function ReflectAll(n: nat, rs: seq<Reflector>, x: Vector): Vector {
    if |rs| == 0 then x else
      var last := rs[|rs| - 1];
      Reflect(n, last.tau, last.u, ReflectAll(n, rs[..|rs| - 1], x))
  }

  ghost predicate AreReflectors(n: nat, rs: seq<Reflector>) {
    forall i :: 0 <= i < |rs| ==> IsReflector(n, rs[i].tau, rs[i].u)
  }

  lemma ReflectNext(n: nat, rs: seq<Reflector>, r: Reflector, x: Vector)
    ensures ReflectAll(n, rs + [r], x) == Reflect(n, r.tau, r.u, ReflectAll(n, rs, x))
  {
    assert (rs + [r])[..|rs|] == rs;
  }

  lemma {:induction false} ReflectAllExt(n: nat, rs: seq<Reflector>, x: Vector, y: Vector)
    requires SameVector(n, x, y)
    ensures SameVector(n, ReflectAll(n, rs, x), ReflectAll(n, rs, y))
  {
    hide Reflect, SameVector;
    if |rs| > 0 {
      ReflectAllExt(n, rs[..|rs| - 1], x, y);
      var last := rs[|rs| - 1];
      ReflectExt(n, last.tau, last.u, ReflectAll(n, rs[..|rs| - 1], x), ReflectAll(n, rs[..|rs| - 1], y));
    }
  }

  lemma {:induction false} ReflectAllLinear(n: nat, rs: seq<Reflector>, x: Vector, f: Complex, y: Vector, z: Vector)
    requires forall k :: 0 <= k < n ==> z(k) == Add(x(k), Mul(f, y(k)))
    ensures forall k :: 0 <= k < n ==>
      ReflectAll(n, rs, z)(k) == Add(ReflectAll(n, rs, x)(k), Mul(f, ReflectAll(n, rs, y)(k)))
  {
    hide Reflect, Mul;
    if |rs| > 0 {
      var init, last := rs[..|rs| - 1], rs[|rs| - 1];
      ReflectAllLinear(n, init, x, f, y, z);
      ReflectLinear(n, last.tau, last.u, ReflectAll(n, init, x), f, ReflectAll(n, init, y), ReflectAll(n, init, z));
    }
  }

  /** Reflections lose nothing: equal images come from equal vectors. */
  lemma {:induction false} ReflectAllInjective(n: nat, rs: seq<Reflector>, x: Vector, y: Vector)
    requires AreReflectors(n, rs) && SameVector(n, ReflectAll(n, rs, x), ReflectAll(n, rs, y))
    ensures SameVector(n, x, y)
  {
    hide Reflect, IsReflector;
    if |rs| > 0 {
      var init, last := rs[..|rs| - 1], rs[|rs| - 1];
      var p, q := ReflectAll(n, init, x), ReflectAll(n, init, y);
      ReflectInverse(n, last.tau, last.u, p);
      ReflectInverse(n, last.tau, last.u, q);
      ReflectExt(n, Conj(last.tau), last.u, Reflect(n, last.tau, last.u, p), Reflect(n, last.tau, last.u, q));
      ReflectAllInjective(n, init, x, y);
    }
  }

  // ----- factors -----

  /** The reflections take every column of A to the column of R. */
  ghost predicate TakesTo(n: nat, rs: seq<Reflector>, A: Matrix, R: Matrix) {
    forall c :: 0 <= c < n ==> SameVector(n, ReflectAll(n, rs, Column(A, c)), Column(R, c))
  }

  /** The image of a combination of columns. */
  lemma {:induction false} ReflectedApply(n: nat, rs: seq<Reflector>, A: Matrix, R: Matrix, y: Vector, m: nat,
                                          z: Vector)
    requires m <= n && TakesTo(n, rs, A, R) && forall k :: z(k) == Apply(m, A, y, k)
    ensures forall k :: 0 <= k < n ==> ReflectAll(n, rs, z)(k) == Apply(m, R, y, k)
  {
    hide ReflectAll, Mul;
    if m == 0 {
      ReflectZero(n, rs, z);
    } else {
      var w: Vector := k => Apply(m - 1, A, y, k);
      ReflectedApply(n, rs, A, R, y, m - 1, w);
      var col := Column(A, m - 1);
      forall k | 0 <= k < n ensures z(k) == Add(w(k), Mul(y(m - 1), col(k))) {
        ApplyLast(m - 1, A, y, k);
        MulComm(A(k, m - 1), y(m - 1));
      }
      ReflectAllLinear(n, rs, w, y(m - 1), col, z);
      forall k | 0 <= k < n ensures ReflectAll(n, rs, z)(k) == Apply(m, R, y, k) {
        ApplyLast(m - 1, R, y, k);
        MulComm(R(k, m - 1), y(m - 1));
        assert ReflectAll(n, rs, col)(k) == Column(R, m - 1)(k);
      }
    }
  }

  lemma {:induction false} ReflectZero(n: nat, rs: seq<Reflector>, z: Vector)
    requires forall k :: 0 <= k < n ==> z(k) == Zero
    ensures forall k :: 0 <= k < n ==> ReflectAll(n, rs, z)(k) == Zero
  {
    hide Mul;
    if |rs| > 0 {
      var init, last := rs[..|rs| - 1], rs[|rs| - 1];
      ReflectZero(n, init, z);
      var x := ReflectAll(n, init, z);
      forall k | 0 <= k < n ensures Mul(Conj(last.u(k)), x(k)) == Zero { MulUnits(Conj(last.u(k))); }
      SumZero(n, k => Mul(Conj(last.u(k)), x(k)));
      MulUnits(last.tau);
      forall k | 0 <= k < n ensures Sub(x(k), Mul(Mul(last.tau, Dot(n, last.u, x)), last.u(k))) == Zero {
        MulUnits(last.u(k));
      }
    }
  }

  /** A solution of R y == Q' b solves A y == b. */
  lemma ReflectedSolves(n: nat, rs: seq<Reflector>, A: Matrix, R: Matrix, y: Vector, b: Vector, b': Vector)
    requires AreReflectors(n, rs) && TakesTo(n, rs, A, R) && SameVector(n, ReflectAll(n, rs, b), b')
    requires Solves(n, R, y, b')
    ensures Solves(n, A, y, b)
  {
    hide ReflectAll, Mul, Apply, AreReflectors, TakesTo;
    var z: Vector := k => Apply(n, A, y, k);
    ReflectedApply(n, rs, A, R, y, n, z);
    ReflectAllInjective(n, rs, z, b);
  }
}
