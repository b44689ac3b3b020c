/** Norms of columns: what reflections keep, and how the norms that are recorded for pivoting
    differ from them. */
module ColumnNorms {
  import opened ComplexNumbers
  import opened Sums
  import opened LinearAlgebra
  import opened Reflections
  import opened Householder

  // ----- reflections keep norms -----

  lemma ConjDot(n: nat, u: Vector, x: Vector)
    ensures Conj(Dot(n, u, x)) == Dot(n, x, u)
  {
    hide Mul;
    var f, g := (k: int) => Mul(Conj(u(k)), x(k)), (k: int) => Mul(Conj(x(k)), u(k));
    forall k | 0 <= k < n ensures g(k) == Conj(f(k)) {
      ConjMul(Conj(u(k)), x(k));
      MulComm(u(k), Conj(x(k)));
    }
    ConjSum(n, f, g);
  }

  /** (x + f y)' w. */
  lemma DotLeft(n: nat, w: Vector, x: Vector, f: Complex, y: Vector, z: Vector)
    requires forall k :: 0 <= k < n ==> z(k) == Add(x(k), Mul(f, y(k)))
    ensures Dot(n, z, w) == Add(Dot(n, x, w), Mul(Conj(f), Dot(n, y, w)))
  {
    hide Mul, Dot;
    DotLinear(n, w, x, f, y, z);
    ConjDot(n, w, z);
    ConjDot(n, w, x);
    ConjDot(n, w, y);
    ConjMul(f, Dot(n, w, y));
  }

  /** (Hx)' (Hx) == x' x. */
  lemma SquareKept(n: nat, tau: Complex, u: Vector, x: Vector)
    requires IsReflector(n, tau, u)
    ensures Dot(n, Reflect(n, tau, u, x), Reflect(n, tau, u, x)) == Dot(n, x, x)
  {
    hide Mul, Dot;
    var y, d, U := Reflect(n, tau, u, x), Dot(n, u, x), Dot(n, u, u);
    var f := Mul(tau, d);
    forall k | 0 <= k < n ensures y(k) == Add(x(k), Mul(Neg(f), u(k))) { MulNeg(f, u(k)); }
    DotLeft(n, y, x, Neg(f), u, y);
    DotLinear(n, x, x, Neg(f), u, y);
    DotLinear(n, u, x, Neg(f), u, y);
    ConjDot(n, u, x);
    MulNeg(f, Conj(d));
    MulNeg(f, U);
    MulNeg(Conj(f), Sub(d, Mul(f, U)));
    KeptTerms(tau, d, U);
  }

  /** f conj(d) + conj(f) (d - f U) vanishes for f == tau d. */
  lemma KeptTerms(tau: Complex, d: Complex, U: Complex)
    requires Mul(Mul(tau, Conj(tau)), U) == Add(tau, Conj(tau))
    ensures var f := Mul(tau, d); Add(Mul(f, Conj(d)), Mul(Conj(f), Sub(d, Mul(f, U)))) == Zero
  {
    hide Mul;
    var f, t := Mul(tau, d), Conj(tau);
    InverseFactor(tau, d, U);
    ConjMul(tau, d);
    // conj(d) times (tau d + t (d - f U)), which vanishes
    MulAdd(Conj(d), f, Mul(t, Sub(d, Mul(f, U))));
    MulUnits(Conj(d));
    MulComm(f, Conj(d));
    MulAssoc(Conj(d), t, Sub(d, Mul(f, U)));
    MulComm(Conj(d), t);
  }

  lemma {:induction false} DotTail(n: nat, x: Vector)
    ensures Dot(n, x, x) == FromReal(TailNorm(n, 0, x))
  {
    hide Mul, Norm;
    if n > 0 {
      DotTail(n - 1, x);
      SquareNorm(x(n - 1));
    }
  }

  lemma {:induction false} TailSplit(n: nat, c: nat, x: Vector)
    requires c <= n
    ensures TailNorm(n, 0, x) == TailNorm(c, 0, x) + TailNorm(n, c, x)
  {
    hide Norm;
    if n > c { TailSplit(n - 1, c, x); }
  }

  lemma {:induction false} TailFirst(n: nat, c: nat, x: Vector)
    requires c < n
    ensures TailNorm(n, c, x) == Norm(x(c)) + TailNorm(n, c + 1, x)
  {
    hide Norm;
    if n > c + 1 { TailFirst(n - 1, c, x); }
  }

  lemma {:induction false} TailExt(n: nat, c: nat, x: Vector, y: Vector)
    requires forall k :: c <= k < n ==> x(k) == y(k)
    ensures TailNorm(n, c, x) == TailNorm(n, c, y)
  {
    hide Norm;
    if n > c { TailExt(n - 1, c, x, y); }
  }

  lemma {:induction false} TailPositive(n: nat, c: nat, x: Vector)
    ensures TailNorm(n, c, x) >= 0.0
  {
    hide Norm;
    if n > c {
      TailPositive(n - 1, c, x);
      NormPositive(x(n - 1));
    }
  }

  /** A reflection from row c on keeps the norm from any row up to c on. */
  lemma TailKept(n: nat, m: nat, c: nat, tau: Complex, u: Vector, x: Vector, y: Vector)
    requires m <= c <= n && IsReflector(n, tau, u) && (forall k :: 0 <= k < c ==> u(k) == Zero)
    requires SameVector(n, Reflect(n, tau, u, x), y)
    ensures TailNorm(n, m, y) == TailNorm(n, m, x)
  {
    hide Mul, Dot, TailNorm, IsReflector;
    var z := Reflect(n, tau, u, x);
    SquareKept(n, tau, u, x);
    DotTail(n, x);
    DotTail(n, z);
    forall k | 0 <= k < m ensures z(k) == x(k) { MulUnits(Mul(tau, Dot(n, u, x))); }
    TailSplit(n, m, x);
    TailSplit(n, m, z);
    TailExt(m, 0, z, x);
    TailExt(n, m, z, y);
  }

  // ----- recorded norms -----

  /** The recorded norms of the columns from `from` on are at most their norms from row c on,
      and short of them, in squares, by at most the element in the first row of A. */
  ghost predicate NormsWithin(n: nat, c: nat, from: nat, A: Matrix, p: seq<int>, W: Matrix, norms: seq<real>) {
    && |p| == |norms| == n
    && forall j :: from <= j < n ==> NormWithin(n, c, A, p, W, norms, j)
  }

  ghost predicate NormWithin(n: nat, c: nat, A: Matrix, p: seq<int>, W: Matrix, norms: seq<real>, j: nat)
    requires |p| == |norms| == n && j < n
  {
    norms[j] >= 0.0 && 0.0 <= TailNorm(n, c, Column(W, j)) - Square(norms[j]) <= Norm(A(0, p[j]))
  }

  /** Norms from the second row on are short of the first element. */
  lemma InitialNorms(n: nat, A: Matrix, p: seq<int>, norms: seq<real>)
    requires |p| == |norms| == n && forall j :: 0 <= j < n ==> p[j] == j
    requires forall j :: 0 <= j < n ==> norms[j] >= 0.0 && Square(norms[j]) == TailNorm(n, 1, Column(A, j))
    ensures NormsWithin(n, 0, 0, A, p, A, norms)
  {
    hide Norm, TailNorm, Square;
    forall j | 0 <= j < n ensures NormWithin(n, 0, A, p, A, norms, j) {
      TailFirst(n, 0, Column(A, j));
      NormPositive(A(0, j));
    }
  }

  /** The column of the largest recorded norm is, up to the elements in the first row of A, a
      column of largest norm. */
  lemma LargestRecorded(n: nat, c: nat, A: Matrix, p: seq<int>, W: Matrix, norms: seq<real>, pivot: nat, j: nat)
    requires NormsWithin(n, c, c, A, p, W, norms) && c <= pivot < n && c <= j < n && norms[j] <= norms[pivot]
    ensures TailNorm(n, c, Column(W, j)) <= TailNorm(n, c, Column(W, pivot)) + Norm(A(0, p[j]))
  {
    hide Norm, TailNorm, Square;
    assert NormWithin(n, c, A, p, W, norms, j) && NormWithin(n, c, A, p, W, norms, pivot);
    SquareMonotone(norms[j], norms[pivot]);
  }

  lemma SquareMonotone(x: real, y: real)
    requires 0.0 <= x <= y
    ensures Square(x) <= Square(y)
  {
    hide Times;
    TimesMonotone(x, y, x);
    TimesMonotone(x, y, y);
  }

  /** One recorded norm, updated: s before, a the element that leaves the column. */
  ghost predicate Updated(s: real, a: Complex, tail: real, s': real)
    requires s >= 0.0
  {
    if s == 0.0 then s' == 0.0 else s' >= 0.0 && (Square(s') == tail || Square(s') == Square(s) - Norm(a))
  }

  lemma UpdatedWithin(s: real, a: Complex, tail: real, s': real, e: real)
    requires s >= 0.0 && tail >= 0.0 && Updated(s, a, tail, s') && 0.0 <= Norm(a) + tail - Square(s) <= e
    ensures s' >= 0.0 && 0.0 <= tail - Square(s') <= e
  {
    hide Norm;
    NormPositive(a);
    SquareSign(s');
    SquareSign(s);
  }

  /** s sqrt(1 - |a/s|^2). */
  lemma ShortenedNorm(s: real, a: Complex, t: real, q: real)
    requires s > 0.0 && FromReal(s) != Zero && t == Norm(Div(a, FromReal(s))) && t < 1.0
    requires q >= 0.0 && Square(q) == 1.0 - t
    ensures Times(s, q) >= 0.0 && Square(Times(s, q)) == Square(s) - Norm(a)
  {
    hide Mul, Div;
    var b := Div(a, FromReal(s));
    DivMul(a, FromReal(s));
    NormMul(FromReal(s), b);
    assert Norm(FromReal(s)) == Square(s);
    assert (s * q) * (s * q) == (s * s) * (q * q);
    assert (s * s) * (1.0 - t) == s * s - (s * s) * t;
  }

  /** The norms before r hold from row c + 1 on, the other ones from row c on. */
  ghost predicate PartlyUpdated(n: nat, c: nat, A: Matrix, p: seq<int>, W: Matrix, norms: seq<real>, r: nat) {
    var next := c + 1;
    && |p| == |norms| == n
    && (forall j :: c < j < n && j < r ==> NormWithin(n, next, A, p, W, norms, j))
    && (forall j :: c < j < n && r <= j ==> NormWithin(n, c, A, p, W, norms, j))
  }

  lemma RecordedNorm(n: nat, c: nat, A: Matrix, p: seq<int>, W: Matrix, norms: seq<real>, r: nat)
    requires PartlyUpdated(n, c, A, p, W, norms, r) && c < r < n
    ensures norms[r] >= 0.0
  {
    hide TailNorm, Norm, Square;
    assert NormWithin(n, c, A, p, W, norms, r);
  }

  lemma UpdatedNorm(n: nat, c: nat, A: Matrix, p: seq<int>, W: Matrix, norms: seq<real>, norms': seq<real>, r: nat)
    requires PartlyUpdated(n, c, A, p, W, norms, r) && c < r < n && norms[r] >= 0.0
    requires |norms'| == n && forall j :: 0 <= j < n && j != r ==> norms'[j] == norms[j]
    requires Updated(norms[r], W(c, r), TailNorm(n, c + 1, Column(W, r)), norms'[r])
    ensures PartlyUpdated(n, c, A, p, W, norms', r + 1)
  {
    hide TailNorm, Norm, Square, Updated;
    var x := Column(W, r);
    TailFirst(n, c, x);
    TailPositive(n, c + 1, x);
    assert NormWithin(n, c, A, p, W, norms, r);
    UpdatedWithin(norms[r], W(c, r), TailNorm(n, c + 1, x), norms'[r], Norm(A(0, p[r])));
    var next := c + 1;
    forall j | c < j < n && j < r ensures NormWithin(n, next, A, p, W, norms', j) {
      assert NormWithin(n, next, A, p, W, norms, j);
    }
    forall j | c < j < n && r < j ensures NormWithin(n, c, A, p, W, norms', j) {
      assert NormWithin(n, c, A, p, W, norms, j);
    }
  }
}
