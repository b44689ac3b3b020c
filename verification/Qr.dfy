/** QR decomposition by householder transformations with column pivoting. */
module QrDecomposition {
  import opened ComplexNumbers
  import opened Sums
  import opened LinearAlgebra
  import opened Reflections
  import opened Householder
  import opened ColumnNorms
  import opened EqnSystem

  /** The machine epsilon of double precision numbers. */
  const EPSILON: real := 1.0 / 4503599627370496.0

  /** Square root and hypotenuse, by the equations that define them. */
  ghost predicate IsSqrt(sqrt: real -> real) {
    forall x :: x >= 0.0 ==> sqrt(x) >= 0.0 && Square(sqrt(x)) == x
  }

  ghost predicate IsHypot(hypot: (Complex, real) -> real) {
    forall z, s :: hypot(z, s) >= 0.0 && Square(hypot(z, s)) == Norm(z) + Square(s)
  }

  // ----- the scaled norm -----

  /** Adds a square to the scaled accumulator: scale^2 n is the sum of the squares so far. */
  method EuclidianUpdate(a: real, n: real, scale: real) returns (n': real, scale': real)
    requires n >= 1.0 && scale >= 0.0
    ensures n' >= 1.0 && scale' >= 0.0
    ensures Times(Square(scale'), n') == Times(Square(scale), n) + Square(a)
  {
    n', scale' := n, scale;
    if a != 0.0 {
      var ax := Abs(a);
      if scale < ax {
        var x := scale / ax;
        n' := 1.0 + Times(n, Square(x));
        scale' := ax;
        Rescaled(a, ax, scale, x, n);
      } else {
        var x := ax / scale;
        n' := n + Square(x);
        Enlarged(a, ax, scale, x, n);
      }
    } else {
      TimesUnits(0.0);
    }
  }

  lemma Rescaled(a: real, ax: real, scale: real, x: real, n: real)
    requires ax > 0.0 && (ax == a || ax == -a) && x == scale / ax && n >= 1.0
    ensures Times(Square(ax), 1.0 + Times(n, Square(x))) == Times(Square(scale), n) + Square(a)
    ensures 1.0 + Times(n, Square(x)) >= 1.0
  {
    assert x * ax == scale;
    assert (x * ax) * (x * ax) == (x * x) * (ax * ax);
    assert (ax * ax) * (n * (x * x)) == n * ((x * x) * (ax * ax));
    SquareSign(x);
    TimesNonNegative(n, Square(x));
  }

  lemma Enlarged(a: real, ax: real, scale: real, x: real, n: real)
    requires scale > 0.0 && (ax == a || ax == -a) && x == ax / scale && n >= 1.0
    ensures Times(Square(scale), n + Square(x)) == Times(Square(scale), n) + Square(a)
    ensures n + Square(x) >= 1.0
  {
    assert x * scale == ax;
    assert (x * scale) * (x * scale) == (x * x) * (scale * scale);
    SquareSign(x);
  }

  // ----- views of the packed matrix -----

  /** The householder vector packed into column c. */
  function PackedVector(W: Matrix, c: int): Vector {
    k => if k < c then Zero else if k == c then One else W(k, c)
  }

  lemma PackedValues(W: Matrix, c: int)
    ensures (forall k :: 0 <= k < c ==> PackedVector(W, c)(k) == Zero) && PackedVector(W, c)(c) == One
    ensures forall k :: k > c ==> PackedVector(W, c)(k) == W(k, c)
  {}

  lemma ColumnValues(W: Matrix, r: int)
    ensures forall k :: Column(W, r)(k) == W(k, r)
  {}

  /** The matrix while the columns before c are eliminated below the diagonal. */
  function QrView(W: Matrix, c: int): Matrix {
    (k, j) => if j < c && k > j then Zero else W(k, j)
  }

  /** The reflections stored in the columns of W and in T. */
  ghost predicate PackedIn(n: nat, W: Matrix, T: Vector, rs: seq<Reflector>) {
    forall i :: 0 <= i < |rs| ==> rs[i].tau == Conj(T(i)) && SameVector(n, rs[i].u, PackedVector(W, i))
  }

  /** Factors so far: the reflections take the permuted columns of A to the view of W. */
  ghost predicate QrFactors(n: nat, A: Matrix, p: seq<int>, W: Matrix, T: Vector, rs: seq<Reflector>) {
    && |rs| <= n && IsPermutation(n, p) && AreReflectors(n, rs) && PackedIn(n, W, T, rs)
    && TakesTo(n, rs, ColumnsPermuted(A, p), QrView(W, |rs|))
  }

  ghost predicate ColumnsExchanged(n: nat, W: Matrix, W': Matrix, i: int, j: int) {
    forall k, c :: 0 <= k < n && 0 <= c < n ==> W'(k, c) == W(k, if c == i then j else if c == j then i else c)
  }

  lemma ExchangeFactors(n: nat, A: Matrix, p: seq<int>, W: Matrix, W': Matrix, T: Vector, rs: seq<Reflector>, i: nat,
                        j: nat)
    requires QrFactors(n, A, p, W, T, rs) && |rs| <= i < n && |rs| <= j < n && ColumnsExchanged(n, W, W', i, j)
    ensures QrFactors(n, A, Exchange(p, i, j), W', T, rs)
  {
    hide ReflectAll, IsReflector;
    ExchangePermutation(n, p, i, j);
    var q, m := Exchange(p, i, j), |rs|;
    forall c | 0 <= c < n
      ensures SameVector(n, ReflectAll(n, rs, Column(ColumnsPermuted(A, q), c)), Column(QrView(W', m), c))
    {
      var d := if c == i then j else if c == j then i else c;
      var x, y := Column(ColumnsPermuted(A, p), d), Column(ColumnsPermuted(A, q), c);
      assert SameVector(n, ReflectAll(n, rs, x), Column(QrView(W, m), d));
      ReflectAllExt(n, rs, x, y);
    }
  }

  /** W' is W with the reflection for column c packed into that column. */
  ghost predicate ColumnCreated(n: nat, c: nat, W: Matrix, W': Matrix, t: Complex) {
    var u := PackedVector(W', c);
    && IsReflector(n, Conj(t), u)
    && (forall k, j :: 0 <= k < n && 0 <= j < n && j != c ==> W'(k, j) == W(k, j))
    && (forall k :: 0 <= k < n ==> Reflect(n, Conj(t), u, Column(W, c))(k) == if k > c then Zero else W'(k, c))
  }

  lemma NothingCreated(n: nat, c: nat, W: Matrix, s: real)
    requires s == 0.0 && Square(s) == TailNorm(n, c + 1, Column(W, c))
    ensures ColumnCreated(n, c, W, W, Zero)
  {
    hide Reflect, IsReflector, TailNorm, Square;
    ConjOne();
    ZeroTail(n, c, Column(W, c), s);
    ReflectNothing(n, PackedVector(W, c), Column(W, c));
  }

  lemma VectorCreated(n: nat, c: nat, W: Matrix, W': Matrix, s: real, g: real, b: Complex, t: Complex)
    requires c < n && IsHouseholder(W(c, c), Square(s), g, b, t) && Square(s) == TailNorm(n, c + 1, Column(W, c))
    requires forall k, j :: 0 <= k < n && 0 <= j < n && (j != c || k < c) ==> W'(k, j) == W(k, j)
    requires forall k :: c < k < n ==> Mul(b, W'(k, c)) == W(k, c)
    requires W'(c, c) == FromReal(-g)
    ensures ColumnCreated(n, c, W, W', t)
  {
    hide Reflect, IsReflector, TailNorm, Square, Mul, Norm, IsHouseholder;
    var x, u := Column(W, c), PackedVector(W', c);
    HouseholderIsReflector(n, c, x, g, b, t, u);
    HouseholderEliminates(n, c, x, g, b, t, u);
  }

  /** W' is W after the reflection for column c has been created and applied. */
  ghost predicate ColumnReflected(n: nat, c: nat, W: Matrix, W': Matrix, t: Complex) {
    var u := PackedVector(W', c);
    && IsReflector(n, Conj(t), u)
    && (forall k, j :: 0 <= k < n && 0 <= j < c && j < n ==> W'(k, j) == W(k, j))
    && (forall k :: 0 <= k < n ==> Reflect(n, Conj(t), u, Column(W, c))(k) == if k > c then Zero else W'(k, c))
    && (forall j :: c < j < n ==> SameVector(n, Reflect(n, Conj(t), u, Column(W, j)), Column(W', j)))
  }

  lemma ReflectFactors(n: nat, A: Matrix, p: seq<int>, W: Matrix, W': Matrix, T: Vector, T': Vector, rs: seq<Reflector>)
    requires QrFactors(n, A, p, W, T, rs) && |rs| < n && ColumnReflected(n, |rs|, W, W', T'(|rs|))
    requires forall i :: 0 <= i < |rs| ==> T'(i) == T(i)
    ensures QrFactors(n, A, p, W', T', rs + [Reflector(Conj(T'(|rs|)), PackedVector(W', |rs|))])
  {
    hide ReflectAll, IsReflector, Reflect;
    var c := |rs|;
    var tau, u := Conj(T'(c)), PackedVector(W', c);
    var all, P := rs + [Reflector(tau, u)], ColumnsPermuted(A, p);
    forall j | 0 <= j < n ensures SameVector(n, ReflectAll(n, all, Column(P, j)), Column(QrView(W', c + 1), j)) {
      var x := Column(P, j);
      ReflectNext(n, rs, Reflector(tau, u), x);
      var v := Column(QrView(W, c), j);
      ReflectExt(n, tau, u, ReflectAll(n, rs, x), v);
      if j < c {
        ReflectUntouched(n, c, tau, u, v);
      } else {
        ReflectExt(n, tau, u, v, Column(W, j));
      }
    }
    PackedAgain(n, c, W, W', T, T', rs, tau, u);
  }

  lemma PackedAgain(n: nat, c: nat, W: Matrix, W': Matrix, T: Vector, T': Vector, rs: seq<Reflector>, tau: Complex,
                    u: Vector)
    requires PackedIn(n, W, T, rs) && |rs| == c <= n && tau == Conj(T'(c)) && u == PackedVector(W', c)
    requires forall i :: 0 <= i < c ==> T'(i) == T(i)
    requires forall k, j :: 0 <= k < n && 0 <= j < c && j < n ==> W'(k, j) == W(k, j)
    ensures PackedIn(n, W', T', rs + [Reflector(tau, u)])
  {
    var all := rs + [Reflector(tau, u)];
    forall i | 0 <= i < |all| ensures all[i].tau == Conj(T'(i)) && SameVector(n, all[i].u, PackedVector(W', i)) {
      if i < c { assert all[i] == rs[i]; }
    }
  }

  lemma NoFactors(n: nat, A: Matrix, p: seq<int>, T: Vector)
    requires IsPermutation(n, p) && forall i :: 0 <= i < n ==> p[i] == i
    ensures QrFactors(n, A, p, A, T, [])
  {}

  // ----- what pivoting achieves -----

  /** Every column of R is, from row c on, at most as large as the diagonal element of row c,
      up to the element in the first row of A. */
  ghost predicate Dominated(n: nat, m: nat, A: Matrix, p: seq<int>, W: Matrix)
    requires |p| == n
  {
    forall c, j :: 0 <= c < m && c <= j < n ==> Dominates(n, m, A, p, W, c, j)
  }

  ghost predicate Dominates(n: nat, m: nat, A: Matrix, p: seq<int>, W: Matrix, c: nat, j: nat)
    requires |p| == n && c <= j < n
  {
    TailNorm(n, c, Column(QrView(W, m), j)) <= Norm(W(c, c)) + Norm(A(0, p[j]))
  }

  /** Exchanging columns that are not eliminated yet keeps both. */
  lemma ExchangeNorms(n: nat, m: nat, A: Matrix, p: seq<int>, W: Matrix, W': Matrix, norms: seq<real>, i: nat, j: nat)
    requires |p| == n && m <= i < n && m <= j < n && ColumnsExchanged(n, W, W', i, j)
    requires Dominated(n, m, A, p, W) && NormsWithin(n, m, m, A, p, W, norms)
    ensures Dominated(n, m, A, Exchange(p, i, j), W')
    ensures NormsWithin(n, m, m, A, Exchange(p, i, j), W', Exchange(norms, i, j))
  {
    hide Norm, Square, TailNorm;
    var q := Exchange(p, i, j);
    forall c, k | 0 <= c < m && c <= k < n ensures Dominates(n, m, A, q, W', c, k) {
      var d := if k == i then j else if k == j then i else k;
      assert Dominates(n, m, A, p, W, c, d);
      TailExt(n, c, Column(QrView(W', m), k), Column(QrView(W, m), d));
    }
    forall k | m <= k < n ensures NormWithin(n, m, A, q, W', Exchange(norms, i, j), k) {
      var d := if k == i then j else if k == j then i else k;
      assert NormWithin(n, m, A, p, W, norms, d);
      TailExt(n, m, Column(W', k), Column(W, d));
    }
  }

  /** The norm of a column from row c on, after the reflection for column m. */
  lemma ReflectedTail(n: nat, m: nat, W: Matrix, W': Matrix, t: Complex, c: nat, j: nat)
    requires c <= m <= j < n && ColumnReflected(n, m, W, W', t)
    ensures TailNorm(n, c, Column(QrView(W', m + 1), j)) == TailNorm(n, c, Column(W, j))
  {
    hide IsReflector, Reflect, TailNorm;
    var u, y := PackedVector(W', m), Column(QrView(W', m + 1), j);
    assert SameVector(n, Reflect(n, Conj(t), u, Column(W, j)), y);
    TailKept(n, c, m, Conj(t), u, Column(W, j), y);
  }

  lemma {:induction false} TailOfZeros(n: nat, m: nat, x: Vector)
    requires forall k :: m <= k < n ==> x(k) == Zero
    ensures TailNorm(n, m, x) == 0.0
  {
    hide Norm;
    if n > m {
      TailOfZeros(n - 1, m, x);
      NormPositive(x(n - 1));
    }
  }

  /** The reflected column has its norm on the diagonal. */
  lemma ReflectedDiagonal(n: nat, m: nat, W: Matrix, W': Matrix, t: Complex)
    requires m < n && ColumnReflected(n, m, W, W', t)
    ensures TailNorm(n, m, Column(W, m)) == Norm(W'(m, m))
  {
    hide IsReflector, Reflect, TailNorm, Norm;
    var y := Column(QrView(W', m + 1), m);
    ReflectedTail(n, m, W, W', t, m, m);
    TailFirst(n, m, y);
    TailOfZeros(n, m + 1, y);
  }

  lemma ReflectDominated(n: nat, m: nat, A: Matrix, p: seq<int>, W: Matrix, W': Matrix, t: Complex)
    requires |p| == n && m < n && ColumnReflected(n, m, W, W', t) && Dominated(n, m, A, p, W)
    requires forall j :: m <= j < n ==> TailNorm(n, m, Column(W, j)) <= TailNorm(n, m, Column(W, m)) + Norm(A(0, p[j]))
    ensures Dominated(n, m + 1, A, p, W')
  {
    hide IsReflector, Reflect, TailNorm, Norm;
    var next := m + 1;
    forall c, j | 0 <= c < next && c <= j < n ensures Dominates(n, next, A, p, W', c, j) {
      if c < m { assert Dominates(n, m, A, p, W, c, j); }
      if j < m {
        TailExt(n, c, Column(QrView(W', m + 1), j), Column(QrView(W, m), j));
      } else {
        ReflectedTail(n, m, W, W', t, c, j);
        TailExt(n, c, Column(QrView(W, m), j), Column(W, j));
      }
      if c == m { ReflectedDiagonal(n, m, W, W', t); }
    }
  }

  lemma ReflectNorms(n: nat, m: nat, A: Matrix, p: seq<int>, W: Matrix, W': Matrix, t: Complex, norms: seq<real>)
    requires m < n && ColumnReflected(n, m, W, W', t) && NormsWithin(n, m, m, A, p, W, norms)
    ensures NormsWithin(n, m, m + 1, A, p, W', norms)
  {
    hide IsReflector, Reflect, TailNorm, Norm, Square;
    forall j | m + 1 <= j < n ensures NormWithin(n, m, A, p, W', norms, j) {
      assert NormWithin(n, m, A, p, W, norms, j);
      ReflectedTail(n, m, W, W', t, m, j);
      TailExt(n, m, Column(QrView(W', m + 1), j), Column(W', j));
    }
  }

  lemma NoneDominated(n: nat, A: Matrix, p: seq<int>, W: Matrix)
    requires |p| == n
    ensures Dominated(n, 0, A, p, W)
  {}

  /** Reflecting the column of the largest recorded norm. */
  lemma PivotedColumn(n: nat, c: nat, A: Matrix, p: seq<int>, W: Matrix, W': Matrix, t: Complex, norms: seq<real>)
    requires |p| == n && c < n && ColumnReflected(n, c, W, W', t)
    requires Dominated(n, c, A, p, W) && NormsWithin(n, c, c, A, p, W, norms)
    requires forall j :: c <= j < n ==> norms[j] <= norms[c]
    ensures Dominated(n, c + 1, A, p, W') && NormsWithin(n, c, c + 1, A, p, W', norms)
  {
    hide ColumnReflected, Dominated, TailNorm, Norm, Square;
    forall j | c <= j < n ensures TailNorm(n, c, Column(W, j)) <= TailNorm(n, c, Column(W, c)) + Norm(A(0, p[j])) {
      LargestRecorded(n, c, A, p, W, norms, c, j);
    }
    ReflectDominated(n, c, A, p, W, W', t);
    ReflectNorms(n, c, A, p, W, W', t, norms);
  }

  /** The diagonal of R does not grow, up to the elements in the first row of A. */
  lemma DiagonalOrder(n: nat, A: Matrix, p: seq<int>, W: Matrix, c: nat, j: nat)
    requires |p| == n && Dominated(n, n, A, p, W) && c <= j < n
    ensures Norm(W(j, j)) <= Norm(W(c, c)) + Norm(A(0, p[j]))
    ensures A(0, p[j]) == Zero ==> Norm(W(j, j)) <= Norm(W(c, c))
  {
    hide TailNorm, Norm;
    assert Dominates(n, n, A, p, W, c, j);
    var x := Column(QrView(W, n), j);
    TailBelow(n, c, j, x);
    NormPositive(A(0, p[j]));
  }

  lemma {:induction false} TailBelow(n: nat, c: nat, j: nat, x: Vector)
    requires c <= j < n
    ensures Norm(x(j)) <= TailNorm(n, c, x)
  {
    hide Norm;
    NormPositive(x(n - 1));
    if j == n - 1 { TailPositive(n - 1, c, x); } else { TailBelow(n - 1, c, j, x); }
  }

  /** The column is the largest one from row c on. */
  ghost predicate IsLargest(n: nat, c: nat, A: Matrix, pivot: nat) {
    pivot < n && forall j :: 0 <= j < n ==> TailNorm(n, c, Column(A, j)) <= TailNorm(n, c, Column(A, pivot))
  }

  /** The first pivot, of largest norm from the second row on, has the largest norm if and
      only if no other column makes up for its shorter tail in the first row. */
  lemma FirstPivot(n: nat, A: Matrix, pivot: nat)
    requires IsLargest(n, 1, A, pivot)
    ensures IsLargest(n, 0, A, pivot) <==> forall j :: 0 <= j < n ==>
      Norm(A(0, j)) - Norm(A(0, pivot)) <= TailNorm(n, 1, Column(A, pivot)) - TailNorm(n, 1, Column(A, j))
    ensures (forall j :: 0 <= j < n ==> Norm(A(0, j)) <= Norm(A(0, pivot))) ==> IsLargest(n, 0, A, pivot)
  {
    hide TailNorm, Norm;
    forall j | 0 <= j < n ensures TailNorm(n, 0, Column(A, j)) == Norm(A(0, j)) + TailNorm(n, 1, Column(A, j)) {
      TailFirst(n, 0, Column(A, j));
    }
  }

  const FIVE_ONE: Matrix := (i, j) => if i != j then Zero else if i == 0 then FromReal(5.0) else One

  /** The matrix with 5 and 1 on the diagonal: the second column is the largest one from the
      second row on, but not as a whole. */
  lemma FirstPivotInput()
    ensures IsLargest(2, 1, FIVE_ONE, 1) && !IsLargest(2, 1, FIVE_ONE, 0)
    ensures IsLargest(2, 0, FIVE_ONE, 0) && !IsLargest(2, 0, FIVE_ONE, 1)
  {
    hide Norm, TailNorm;
    var x, y := Column(FIVE_ONE, 0), Column(FIVE_ONE, 1);
    NormOfReal(5.0);
    NormOfReal(1.0);
    NormOfReal(0.0);
    TailFirst(2, 0, x);
    TailFirst(2, 0, y);
    TailFirst(2, 1, x);
    TailFirst(2, 1, y);
    TailOfZeros(2, 2, x);
    TailOfZeros(2, 2, y);
  }

  lemma NormOfReal(x: real)
    ensures Norm(FromReal(x)) == x * x
  {}

  // ----- in place -----

  class QrSolver {
    const abs: Complex -> real
    const sqrt: real -> real
    const hypot: (Complex, real) -> real
    const N: nat
    var A: array2<Complex>
    var X: array<Complex>
    var B: array<Complex>
    var T: array<Complex>
    var cMap: array<int>
    var nPvt: array<real>
    ghost var rs: seq<Reflector>

    ghost predicate Valid()
      reads this
    {
      && IsModulus(abs) && IsSqrt(sqrt) && IsHypot(hypot)
      && A.Length0 == N && A.Length1 == N && X.Length == N && B.Length == N && T.Length == N
      && cMap.Length == N && nPvt.Length == N && X != B && X != T && B != T
    }

    /** A solver for A X == B, for the given modulus, square root and hypotenuse. */
    constructor (abs: Complex -> real, sqrt: real -> real, hypot: (Complex, real) -> real,
                 A: array2<Complex>, X: array<Complex>, B: array<Complex>)
      requires IsModulus(abs) && IsSqrt(sqrt) && IsHypot(hypot)
      requires A.Length0 == A.Length1 == X.Length == B.Length && X != B
      ensures Valid() && N == A.Length0 && this.A == A && this.X == X && this.B == B
      ensures this.abs == abs && this.sqrt == sqrt && this.hypot == hypot
      ensures fresh(T) && fresh(cMap) && fresh(nPvt)
    {
      hide IsModulus, IsSqrt, IsHypot;
      this.abs, this.sqrt, this.hypot, N := abs, sqrt, hypot, A.Length0;
      this.A, this.X, this.B := A, X, B;
      T := new Complex[A.Length0];
      cMap := new int[A.Length0];
      nPvt := new real[A.Length0];
      rs := [];
    }

    /** The euclidian norm of column c from row r on. */
    method EuclidianC(c: nat, r: nat) returns (s: real)
      requires Valid() && c < N
      ensures s >= 0.0 && Square(s) == TailNorm(N, r, Column(Entries(A), c))
    {
      hide IsModulus, IsHypot, IsSqrt, Norm, Times, Square, TailNorm, Column;
      var scale, n := 0.0, 1.0;
      ghost var x := Column(Entries(A), c);
      ColumnValues(Entries(A), c);
      NothingSummed();
      if r < N {
        NothingBehind(r, r, x);
        for i := r to N
          invariant n >= 1.0 && scale >= 0.0 && Times(Square(scale), n) == TailNorm(i, r, x)
        {
          n, scale := EuclidianUpdate(A[i, c].re, n, scale);
          n, scale := EuclidianUpdate(A[i, c].im, n, scale);
          NormSquares(A[i, c]);
          TailNext(i, r, x);
        }
      } else {
        NothingBehind(N, r, x);
      }
      s := Times(scale, sqrt(n));
      SqrtValue(sqrt, n);
      RootProduct(scale, sqrt(n), n);
    }

    /** Creates the householder vector of column c; returns the normalization factor. */
    method HouseholderCreateLeft(c: nat) returns (t: Complex)
      requires Valid() && c < N
      modifies A
      ensures ColumnCreated(N, c, old(Entries(A)), Entries(A), t)
    {
      hide IsModulus, IsSqrt, IsHypot, Norm, Square, Mul, Div, TailNorm, ColumnCreated;
      var s := EuclidianC(c, c + 1);
      ghost var W := Entries(A);
      if s == 0.0 && A[c, c].im == 0.0 {
        t := Zero;
        NothingCreated(N, c, W, s);
      } else {
        var a := A[c, c];
        var g := if a.re < 0.0 then -hypot(a, s) else hypot(a, s);
        var b := Add(a, FromReal(g));
        HypotNonzero(hypot, a, s, g, b);
        t := Div(b, FromReal(g));
        DivMul(b, FromReal(g));
        StoreVector(c, b);
        A[c, c] := FromReal(-g);
        VectorCreated(N, c, W, Entries(A), s, g, b, t);
      }
    }

    /** Divides the elements of column c below the diagonal by b. */
    method StoreVector(c: nat, b: Complex)
      requires Valid() && c < N && b != Zero
      modifies A
      ensures forall k, j :: 0 <= k < N && 0 <= j < N && (j != c || k <= c) ==> A[k, j] == old(A[k, j])
      ensures forall k :: c < k < N ==> Mul(b, A[k, c]) == old(A[k, c])
    {
      hide IsModulus, IsSqrt, IsHypot, Mul, Div;
      for r := c + 1 to N
        invariant forall k, j :: 0 <= k < N && 0 <= j < N && (j != c || k <= c || k >= r) ==> A[k, j] == old(A[k, j])
        invariant forall k :: c < k < r ==> Mul(b, A[k, c]) == old(A[k, c])
      {
        DivMul(A[r, c], b);
        A[r, c] := Div(A[r, c], b);
      }
    }

    /** The scalar product of the packed vector of column c with column r. */
    method ColumnProduct(c: nat, r: nat) returns (f: Complex)
      requires Valid() && c < N && r < N
      ensures f == Dot(N, PackedVector(Entries(A), c), Column(Entries(A), r))
    {
      hide IsModulus, IsSqrt, IsHypot, Mul, Dot, Conj, PackedVector, Column;
      ghost var u, x := PackedVector(Entries(A), c), Column(Entries(A), r);
      PackedValues(Entries(A), c);
      ColumnValues(Entries(A), r);
      f := A[c, r];
      DotStart(c, u, x);
      for k := c + 1 to N
        invariant f == Dot(k, u, x)
      {
        DotStep(k, u, x);
        f := Add(f, Mul(Conj(A[k, c]), A[k, r]));
      }
    }

    /** Subtracts f times the packed vector of column c from column r. */
    method SubtractColumn(c: nat, r: nat, f: Complex)
      requires Valid() && c < r < N
      modifies A
      ensures forall k, j :: 0 <= k < N && 0 <= j < N ==>
        A[k, j] == if j != r || k < c then old(A[k, j])
                   else Sub(old(A[k, j]), if k == c then f else Mul(f, old(A[k, c])))
    {
      hide IsModulus, IsSqrt, IsHypot, Mul;
      A[c, r] := Sub(A[c, r], f);
      for k := c + 1 to N
        invariant forall i, j :: 0 <= i < N && 0 <= j < N ==>
          A[i, j] == if j != r || i < c || i >= k then old(A[i, j])
                     else Sub(old(A[i, j]), if i == c then f else Mul(f, old(A[i, c])))
      {
        A[k, r] := Sub(A[k, r], Mul(f, A[k, c]));
      }
    }

    /** Applies the householder vector of column c to column r. */
    method ApplyColumn(c: nat, t: Complex, r: nat)
      requires Valid() && c < r < N
      modifies A
      ensures forall k, j :: 0 <= k < N && 0 <= j < N && j != r ==> A[k, j] == old(A[k, j])
      ensures SameVector(N, Reflect(N, Conj(t), PackedVector(old(Entries(A)), c), old(Column(Entries(A), r))),
                         Column(Entries(A), r))
    {
      hide IsModulus, IsSqrt, IsHypot, Mul, Dot, Reflect, SameVector, PackedVector, Column, Conj;
      ghost var W := Entries(A);
      var f := ColumnProduct(c, r);
      MulComm(f, Conj(t));
      f := Mul(f, Conj(t));
      SubtractColumn(c, r, f);
      ColumnApplied(N, c, r, W, Entries(A), t, f);
    }

    /** Computes the householder vector of column c and applies it to the columns behind. */
    method HouseholderLeft(c: nat) returns (t: Complex)
      requires Valid() && c < N
      modifies A
      ensures ColumnReflected(N, c, old(Entries(A)), Entries(A), t)
    {
      hide IsModulus, IsSqrt, IsHypot, Reflect, IsReflector;
      ghost var W := Entries(A);
      t := HouseholderCreateLeft(c);
      ghost var V := Entries(A);
      if t != Zero {
        for r := c + 1 to N
          invariant forall k, j :: 0 <= k < N && 0 <= j < N && (j <= c || j >= r) ==> Entries(A)(k, j) == V(k, j)
          invariant forall j :: c < j < r ==>
            SameVector(N, Reflect(N, Conj(t), PackedVector(V, c), Column(V, j)), Column(Entries(A), j))
        {
          ghost var E := Entries(A);
          ApplyColumn(c, t, r);
          ApplyStep(N, c, t, V, E, Entries(A), r);
        }
      } else {
        AppliedNothing(N, c, V);
      }
      Applied(N, c, W, V, Entries(A), t);
    }

    method ExchangeCols(i: nat, j: nat)
      requires Valid() && i < N && j < N
      modifies A
      ensures ColumnsExchanged(N, old(Entries(A)), Entries(A), i, j)
    {
      hide IsModulus, IsSqrt, IsHypot;
      for r := 0 to N
        invariant forall k, c :: 0 <= k < N && 0 <= c < N ==>
          A[k, c] == old(A[k, if k >= r then c else if c == i then j else if c == j then i else c])
      {
        A[r, i], A[r, j] := A[r, j], A[r, i];
      }
    }

    /** The column from c on with the largest norm in the work array. */
    method LargestColumn(c: nat) returns (pivot: nat)
      requires Valid() && c < N
      ensures c <= pivot < N && forall j :: c <= j < N ==> nPvt[j] <= nPvt[pivot]
    {
      hide IsModulus, IsSqrt, IsHypot;
      var maxPivot := nPvt[c];
      pivot := c;
      for r := c + 1 to N
        invariant c <= pivot < N && maxPivot == nPvt[pivot] && forall j :: c <= j < r ==> nPvt[j] <= maxPivot
      {
        if nPvt[r] > maxPivot {
          pivot := r;
          maxPivot := nPvt[r];
        }
      }
    }

    /** Puts the column with the largest norm into pivot position. */
    method PivotColumn(c: nat) returns (ghost pivot: nat)
      requires Valid() && c < N
      modifies A, cMap, nPvt
      ensures c <= pivot < N && ColumnsExchanged(N, old(Entries(A)), Entries(A), c, pivot)
      ensures cMap[..] == Exchange(old(cMap[..]), c, pivot) && nPvt[..] == Exchange(old(nPvt[..]), c, pivot)
      ensures forall j :: c <= j < N ==> nPvt[j] <= nPvt[c]
    {
      hide IsModulus, IsSqrt, IsHypot;
      var p := LargestColumn(c);
      pivot := p;
      if p != c {
        ExchangeCols(c, p);
        cMap[p], cMap[c] := cMap[c], cMap[p];
        nPvt[p], nPvt[c] := nPvt[c], nPvt[p];
      }
    }

    /** Updates the norm of column r, whose element in row c is behind it. */
    method UpdateNorm(c: nat, r: nat)
      requires Valid() && c < r < N && nPvt[r] >= 0.0
      modifies nPvt
      ensures forall j :: 0 <= j < N && j != r ==> nPvt[j] == old(nPvt[j])
      ensures Updated(old(nPvt[r]), A[c, r], TailNorm(N, c + 1, Column(Entries(A), r)), nPvt[r])
    {
      hide IsModulus, IsHypot, Norm, Div, Square, Times, TailNorm;
      var s := nPvt[r];
      if s > 0.0 {
        var y := 0.0;
        var t := Norm(Div(A[c, r], FromReal(s)));
        if t < 1.0 {
          y := Times(s, sqrt(1.0 - t));
          ShortenedNorm(s, A[c, r], t, sqrt(1.0 - t));
        }
        if Abs(y / s) < NR_TINY {
          var e := EuclidianC(r, c + 1);
          nPvt[r] := e;
        } else {
          nPvt[r] := y;
        }
      }
    }

    /** Updates the norms of the columns behind c: norms from row c on become norms from row
        c + 1 on, as far off as before or less. */
    method UpdateNorms(c: nat, ghost M: Matrix)
      requires Valid() && c < N && NormsWithin(N, c, c + 1, M, cMap[..], Entries(A), nPvt[..])
      modifies nPvt
      ensures NormsWithin(N, c + 1, c + 1, M, cMap[..], Entries(A), nPvt[..])
    {
      hide IsModulus, IsSqrt, IsHypot, Norm, Square, TailNorm, Updated, NormWithin;
      ghost var W, p := Entries(A), cMap[..];
      for r := c + 1 to N
        invariant Entries(A) == W && cMap[..] == p && PartlyUpdated(N, c, M, p, W, nPvt[..], r)
      {
        ghost var norms := nPvt[..];
        RecordedNorm(N, c, M, p, W, norms, r);
        UpdateNorm(c, r);
        UpdatedNorm(N, c, M, p, W, norms, nPvt[..], r);
      }
    }

    /** Initial column norms, from the second row on, and the identity permutation. */
    method InitializeColumns()
      requires Valid()
      modifies cMap, nPvt
      ensures IsPermutation(N, cMap[..]) && forall i :: 0 <= i < N ==> cMap[i] == i
      ensures forall j :: 0 <= j < N ==> nPvt[j] >= 0.0 && Square(nPvt[j]) == TailNorm(N, 1, Column(Entries(A), j))
    {
      hide IsModulus, IsSqrt, IsHypot, TailNorm, Square;
      for c := 0 to N
        invariant forall i :: 0 <= i < c ==> cMap[i] == i
        invariant forall j :: 0 <= j < c ==> nPvt[j] >= 0.0 && Square(nPvt[j]) == TailNorm(N, 1, Column(Entries(A), j))
      {
        var s := EuclidianC(c, 1);
        nPvt[c] := s;
        cMap[c] := c;
      }
      forall v | 0 <= v < N ensures v in cMap[..] { assert cMap[..][v] == v; }
    }

    /** Decomposes A P == Q R: householder vectors below the diagonal, R above and on it. */
    method FactorizeQrHouseholder()
      requires Valid()
      modifies this`T, this`rs, A, cMap, nPvt
      ensures Valid() && fresh(T)
      ensures |rs| == N && QrFactors(N, old(Entries(A)), cMap[..], Entries(A), Elements(T), rs)
      ensures Dominated(N, N, old(Entries(A)), cMap[..], Entries(A))
    {
      hide IsModulus, IsSqrt, IsHypot, QrFactors, ColumnReflected, ColumnsExchanged, IsPermutation, Dominated,
        NormsWithin, TailNorm, Square;
      ghost var M := Entries(A);
      T := new Complex[N];
      InitializeColumns();
      rs := [];
      NoFactors(N, M, cMap[..], Elements(T));
      InitialNorms(N, M, cMap[..], nPvt[..]);
      NoneDominated(N, M, cMap[..], M);
      for c := 0 to N
        invariant Valid() && fresh(T) && |rs| == c && QrFactors(N, M, cMap[..], Entries(A), Elements(T), rs)
        invariant Dominated(N, c, M, cMap[..], Entries(A)) && NormsWithin(N, c, c, M, cMap[..], Entries(A), nPvt[..])
      {
        EliminateColumn(c, M);
        ghost var F, q, H := Entries(A), cMap[..], Elements(T);
        UpdateNorms(c, M);
        assert Entries(A) == F && cMap[..] == q && Elements(T) == H;
      }
    }

    /** Pivoting and reflection of column c. */
    method EliminateColumn(c: nat, ghost M: Matrix)
      requires Valid() && c < N && |rs| == c && QrFactors(N, M, cMap[..], Entries(A), Elements(T), rs)
      requires Dominated(N, c, M, cMap[..], Entries(A)) && NormsWithin(N, c, c, M, cMap[..], Entries(A), nPvt[..])
      modifies this`rs, A, cMap, nPvt, T
      ensures |rs| == c + 1 && QrFactors(N, M, cMap[..], Entries(A), Elements(T), rs)
      ensures Dominated(N, c + 1, M, cMap[..], Entries(A))
      ensures NormsWithin(N, c, c + 1, M, cMap[..], Entries(A), nPvt[..])
    {
      hide IsModulus, IsSqrt, IsHypot, QrFactors, ColumnReflected, ColumnsExchanged, Dominated, NormsWithin;
      ghost var W, p, V, norms := Entries(A), cMap[..], Elements(T), nPvt[..];
      var pivot := PivotColumn(c);
      ghost var E, q, recorded := Entries(A), cMap[..], nPvt[..];
      ExchangeFactors(N, M, p, W, E, V, rs, c, pivot);
      ExchangeNorms(N, c, M, p, W, E, norms, c, pivot);
      var t := HouseholderLeft(c);
      T[c] := t;
      assert cMap[..] == q && nPvt[..] == recorded;
      ReflectFactors(N, M, q, E, Entries(A), V, Elements(T), rs);
      PivotedColumn(N, c, M, q, E, Entries(A), t, recorded);
      rs := rs + [Reflector(Conj(t), PackedVector(Entries(A), c))];
    }

    /** The scalar product of the packed vector of column c with the right hand side. */
    method RightProduct(c: nat) returns (f: Complex)
      requires Valid() && c < N
      ensures f == Dot(N, PackedVector(Entries(A), c), Elements(B))
    {
      hide IsModulus, IsSqrt, IsHypot, Mul, Dot, Conj;
      ghost var u, x := PackedVector(Entries(A), c), Elements(B);
      f := B[c];
      DotStart(c, u, x);
      for r := c + 1 to N
        invariant f == Dot(r, u, x)
      {
        DotStep(r, u, x);
        f := Add(f, Mul(Conj(A[r, c]), B[r]));
      }
    }

    /** Subtracts f times the packed vector of column c from the right hand side. */
    method SubtractRight(c: nat, f: Complex)
      requires Valid() && c < N
      modifies B
      ensures forall k :: 0 <= k < N ==>
        B[k] == if k < c then old(B[k]) else Sub(old(B[k]), if k == c then f else Mul(f, A[k, c]))
    {
      hide IsModulus, IsSqrt, IsHypot, Mul;
      B[c] := Sub(B[c], f);
      for r := c + 1 to N
        invariant forall k :: 0 <= k < N ==>
          B[k] == if k < c || k >= r then old(B[k]) else Sub(old(B[k]), if k == c then f else Mul(f, A[k, c]))
      {
        B[r] := Sub(B[r], Mul(f, A[r, c]));
      }
    }

    /** Reflects the right hand side with the vector of column c. */
    method ReflectRight(c: nat)
      requires Valid() && c < N
      modifies B
      ensures SameVector(N, Reflect(N, Conj(T[c]), PackedVector(Entries(A), c), old(Elements(B))), Elements(B))
    {
      hide IsModulus, IsSqrt, IsHypot, Mul, Dot, Conj, Reflect, SameVector, PackedVector, IsReflector;
      ghost var b, u := Elements(B), PackedVector(Entries(A), c);
      if T[c] != Zero {
        var f := RightProduct(c);
        MulComm(f, Conj(T[c]));
        f := Mul(f, Conj(T[c]));
        SubtractRight(c, f);
        RightReflected(N, c, Entries(A), b, Elements(B), T[c], f);
      } else {
        ConjOne();
        ReflectNothing(N, u, b);
      }
    }

    /** Forms the new right hand side Q' B. */
    method FormRightHandSide()
      requires Valid() && |rs| == N && PackedIn(N, Entries(A), Elements(T), rs)
      modifies B
      ensures SameVector(N, ReflectAll(N, rs, old(Elements(B))), Elements(B))
    {
      hide IsModulus, IsSqrt, IsHypot, Reflect, ReflectAll, PackedIn;
      ghost var b := Elements(B);
      NothingReflected(N, b, rs[..0]);
      for c := 0 to N
        invariant SameVector(N, ReflectAll(N, rs[..c], b), Elements(B))
      {
        ghost var x := Elements(B);
        ReflectRight(c);
        RightStep(N, rs, c, b, x, Elements(B), Entries(A), Elements(T));
      }
      assert rs[..N] == rs;
    }

    /** One row of the backward substitution. */
    method SubstituteRow(r: nat) returns (f: Complex)
      requires Valid() && IsPermutation(N, cMap[..]) && r < N
      ensures f == Sub(Elements(B)(r), OffSum(QrView(Entries(A), N), UnknownsOf(cMap[..], Elements(X)), r, N))
    {
      hide IsModulus, IsSqrt, IsHypot, Mul, OffSum, IsPermutation, UnknownsOf;
      ghost var R, y := QrView(Entries(A), N), UnknownsOf(cMap[..], Elements(X));
      Indices(N, cMap[..]);
      UnknownValues(N, cMap[..], Elements(X));
      f := B[r];
      NoOffSum(R, y, r, r + 1);
      for c := r + 1 to N
        invariant f == Sub(B[r], OffSum(R, y, r, c))
      {
        assert cMap[c] == cMap[..][c];
        OffStep(R, y, r, c);
        f := Sub(f, Mul(A[r, c], X[cMap[c]]));
      }
    }

    /** All diagonal elements are large enough to divide by. */
    ghost predicate Regular()
      requires Valid()
      reads this, A
    {
      forall r :: 0 <= r < N ==> abs(A[r, r]) > EPSILON
    }

    /** Solves R X == Q' B; unknowns whose pivot is too small become zero. */
    method BackSubstitute()
      requires Valid() && IsPermutation(N, cMap[..])
      modifies X
      ensures SolvedOrZero(N, abs, QrView(Entries(A), N), UnknownsOf(cMap[..], Elements(X)), Elements(B), 0)
    {
      hide IsModulus, IsSqrt, IsHypot, IsPermutation, Apply, UnknownsOf, Div, Mul, SolvedOrZero;
      ghost var R, b, p := QrView(Entries(A), N), Elements(B), cMap[..];
      NoneSolved(N, abs, R, UnknownsOf(p, Elements(X)), b);
      var r := N;
      while r > 0
        invariant 0 <= r <= N && Elements(B) == b && cMap[..] == p
        invariant SolvedOrZero(N, abs, R, UnknownsOf(p, Elements(X)), b, r)
      {
        r := r - 1;
        ghost var x := Elements(X);
        var f := SubstituteRow(r);
        Indices(N, p);
        assert cMap[r] == p[r];
        if abs(A[r, r]) > EPSILON {
          ModulusZero(abs, A[r, r]);
          X[cMap[r]] := Div(f, A[r, r]);
          DivMul(f, A[r, r]);
        } else {
          X[cMap[r]] := Zero;
        }
        assert Elements(B) == b;
        UnknownStep(N, p, x, Elements(X), r);
        RowSolved(N, abs, R, b, UnknownsOf(p, x), UnknownsOf(p, Elements(X)), r, f);
      }
    }

    /** Computes Q' B and solves R X == Q' B as far as the diagonal elements allow. */
    method SubstituteQrHouseholder(ghost M: Matrix)
      requires Valid() && |rs| == N && QrFactors(N, M, cMap[..], Entries(A), Elements(T), rs)
      modifies B, X
      ensures SameVector(N, ReflectAll(N, rs, old(Elements(B))), Elements(B))
      ensures SolvedOrZero(N, abs, QrView(Entries(A), N), UnknownsOf(cMap[..], Elements(X)), Elements(B), 0)
      ensures Regular() ==> Solves(N, M, Elements(X), old(Elements(B)))
    {
      hide IsModulus, IsSqrt, IsHypot, ReflectAll, Solves, UnknownsOf, TakesTo, AreReflectors, SolvedOrZero, SameVector;
      ghost var b, W, p, t := Elements(B), Entries(A), cMap[..], Elements(T);
      FormRightHandSide();
      ghost var b' := Elements(B);
      BackSubstitute();
      assert Entries(A) == W && cMap[..] == p && Elements(B) == b';
      if Regular() {
        ghost var y := UnknownsOf(p, Elements(X));
        AllSolved(N, abs, QrView(W, N), y, b');
        ReflectedSolves(N, rs, ColumnsPermuted(M, p), QrView(W, N), y, b, b');
        UnknownValues(N, p, Elements(X));
        PermutedSolves(N, M, p, Elements(X), y, b);
      }
    }

    /** Solves the equation system whenever no diagonal element of R is too small. */
    method SolveQr()
      requires Valid()
      modifies this`T, this`rs, A, B, X, cMap, nPvt
      ensures Valid() && (Regular() ==> Solves(N, old(Entries(A)), Elements(X), old(Elements(B))))
    {
      hide IsModulus, IsSqrt, IsHypot, Solves, QrFactors;
      ghost var M, b := Entries(A), Elements(B);
      FactorizeQrHouseholder();
      assert Elements(B) == b;
      SubstituteQrHouseholder(M);
    }
  }

  /** The unknowns in the order of the columns. */
  function UnknownsOf(p: seq<int>, x: Vector): Vector {
    c => if 0 <= c < |p| then x(p[c]) else Zero
  }

  lemma UnknownValues(n: nat, p: seq<int>, x: Vector)
    requires |p| == n
    ensures forall c :: 0 <= c < n ==> UnknownsOf(p, x)(c) == x(p[c])
  {}

  lemma Indices(n: nat, p: seq<int>)
    requires IsPermutation(n, p)
    ensures |p| == n && forall i :: 0 <= i < n ==> 0 <= p[i] < n
  {}

  lemma UnknownStep(n: nat, p: seq<int>, x: Vector, x': Vector, r: nat)
    requires IsPermutation(n, p) && r < n && forall k :: 0 <= k < n && k != p[r] ==> x'(k) == x(k)
    ensures forall c :: 0 <= c < n && c != r ==> UnknownsOf(p, x')(c) == UnknownsOf(p, x)(c)
    ensures UnknownsOf(p, x')(r) == x'(p[r])
  {}

  lemma OffStep(R: Matrix, y: Vector, r: nat, c: nat)
    requires r < c
    ensures OffSum(R, y, r, c + 1) == Add(OffSum(R, y, r, c), Mul(R(r, c), y(c)))
  {}

  lemma {:induction false} NoOffSum(R: Matrix, y: Vector, r: nat, m: nat)
    requires m <= r + 1 && forall c :: 0 <= c < r ==> R(r, c) == Zero
    ensures OffSum(R, y, r, m) == Zero
  {
    hide Mul;
    if m > 0 {
      NoOffSum(R, y, r, m - 1);
      MulUnits(y(m - 1));
    }
  }

  /** From row m on: rows with a large diagonal element are solved, the unknowns of the other
      ones are zero. */
  ghost predicate SolvedOrZero(n: nat, abs: Complex -> real, R: Matrix, y: Vector, b: Vector, m: nat) {
    forall r :: m <= r < n ==> if abs(R(r, r)) > EPSILON then Apply(n, R, y, r) == b(r) else y(r) == Zero
  }

  lemma NoneSolved(n: nat, abs: Complex -> real, R: Matrix, y: Vector, b: Vector)
    ensures SolvedOrZero(n, abs, R, y, b, n)
  {}

  lemma AllSolved(n: nat, abs: Complex -> real, R: Matrix, y: Vector, b: Vector)
    requires SolvedOrZero(n, abs, R, y, b, 0) && forall r :: 0 <= r < n ==> abs(R(r, r)) > EPSILON
    ensures Solves(n, R, y, b)
  {
    hide Apply;
  }

  /** Setting unknown r solves row r or leaves it at zero, and keeps the rows below, which do
      not see it. */
  lemma RowSolved(n: nat, abs: Complex -> real, R: Matrix, b: Vector, y: Vector, y': Vector, r: nat, f: Complex)
    requires r < n && (forall k, c :: 0 <= c < k < n ==> R(k, c) == Zero) && SolvedOrZero(n, abs, R, y, b, r + 1)
    requires forall c :: 0 <= c < n && c != r ==> y'(c) == y(c)
    requires f == Sub(b(r), OffSum(R, y, r, n))
    requires if abs(R(r, r)) > EPSILON then Mul(R(r, r), y'(r)) == f else y'(r) == Zero
    ensures SolvedOrZero(n, abs, R, y', b, r)
  {
    hide Mul, OffSum;
    OffSumApply(R, y', r, n);
    OffSumExt(R, y, y', r, n);
    forall k | r < k < n ensures Apply(n, R, y', k) == Apply(n, R, y, k) {
      MulUnits(y(r));
      MulUnits(y'(r));
      SumExt(n, c => Mul(R(k, c), y'(c)), c => Mul(R(k, c), y(c)));
    }
  }

  lemma RightReflected(n: nat, c: nat, W: Matrix, b: Vector, b': Vector, t: Complex, f: Complex)
    requires c < n && f == Mul(Conj(t), Dot(n, PackedVector(W, c), b))
    requires forall k :: 0 <= k < n ==>
      b'(k) == if k < c then b(k) else Sub(b(k), if k == c then f else Mul(f, W(k, c)))
    ensures SameVector(n, Reflect(n, Conj(t), PackedVector(W, c), b), b')
  {
    hide Mul, Dot, Conj;
    MulUnits(f);
    var u := PackedVector(W, c);
    forall k | 0 <= k < n ensures Reflect(n, Conj(t), u, b)(k) == b'(k) {
      assert Reflect(n, Conj(t), u, b)(k) == Sub(b(k), Mul(f, u(k)));
    }
  }

  lemma NothingReflected(n: nat, b: Vector, none: seq<Reflector>)
    requires |none| == 0
    ensures SameVector(n, ReflectAll(n, none, b), b)
  {}

  lemma RightStep(n: nat, rs: seq<Reflector>, c: nat, b: Vector, x: Vector, x': Vector, W: Matrix, T: Vector)
    requires c < |rs| && PackedIn(n, W, T, rs) && SameVector(n, ReflectAll(n, rs[..c], b), x)
    requires SameVector(n, Reflect(n, Conj(T(c)), PackedVector(W, c), x), x')
    ensures SameVector(n, ReflectAll(n, rs[..c + 1], b), x')
  {
    hide ReflectAll, Dot, Mul;
    assert rs[..c + 1] == rs[..c] + [rs[c]];
    var y := ReflectAll(n, rs[..c], b);
    ReflectNext(n, rs[..c], rs[c], b);
    DotExt(n, rs[c].u, y, PackedVector(W, c), x);
  }

  lemma ColumnApplied(n: nat, c: nat, r: nat, W: Matrix, W': Matrix, t: Complex, f: Complex)
    requires c < r < n && f == Mul(Conj(t), Dot(n, PackedVector(W, c), Column(W, r)))
    requires forall k :: 0 <= k < n ==>
      W'(k, r) == if k < c then W(k, r) else Sub(W(k, r), if k == c then f else Mul(f, W(k, c)))
    ensures SameVector(n, Reflect(n, Conj(t), PackedVector(W, c), Column(W, r)), Column(W', r))
  {
    hide Mul, Dot, Conj;
    MulUnits(f);
    var u, x := PackedVector(W, c), Column(W, r);
    forall k | 0 <= k < n ensures Reflect(n, Conj(t), u, x)(k) == W'(k, r) {
      assert Reflect(n, Conj(t), u, x)(k) == Sub(x(k), Mul(f, u(k)));
    }
  }

  lemma DotStep(k: nat, u: Vector, x: Vector)
    ensures Dot(k + 1, u, x) == Add(Dot(k, u, x), Mul(Conj(u(k)), x(k)))
  {
    hide Mul, Conj;
    SumStep(k, k => Mul(Conj(u(k)), x(k)));
  }

  lemma DotStart(c: nat, u: Vector, x: Vector)
    requires (forall k :: 0 <= k < c ==> u(k) == Zero) && u(c) == One
    ensures Dot(c + 1, u, x) == x(c)
  {
    hide Mul;
    ConjOne();
    forall k | 0 <= k < c ensures Mul(Conj(u(k)), x(k)) == Zero { MulUnits(x(k)); }
    SumZero(c, k => Mul(Conj(u(k)), x(k)));
    SumStep(c, k => Mul(Conj(u(k)), x(k)));
    MulUnits(x(c));
  }

  lemma ApplyStep(n: nat, c: nat, t: Complex, V: Matrix, E: Matrix, E': Matrix, r: nat)
    requires c < r < n
    requires forall k, j :: 0 <= k < n && 0 <= j < n && (j <= c || j >= r) ==> E(k, j) == V(k, j)
    requires forall j :: c < j < r ==>
      SameVector(n, Reflect(n, Conj(t), PackedVector(V, c), Column(V, j)), Column(E, j))
    requires forall k, j :: 0 <= k < n && 0 <= j < n && j != r ==> E'(k, j) == E(k, j)
    requires SameVector(n, Reflect(n, Conj(t), PackedVector(E, c), Column(E, r)), Column(E', r))
    ensures forall j :: c < j <= r ==>
      SameVector(n, Reflect(n, Conj(t), PackedVector(V, c), Column(V, j)), Column(E', j))
  {
    hide Dot, Mul;
    DotExt(n, PackedVector(V, c), Column(V, r), PackedVector(E, c), Column(E, r));
  }

  lemma AppliedNothing(n: nat, c: nat, V: Matrix)
    ensures forall j :: c < j < n ==>
      SameVector(n, Reflect(n, Conj(Zero), PackedVector(V, c), Column(V, j)), Column(V, j))
  {
    hide Reflect, IsReflector;
    ConjOne();
    forall j | c < j < n ensures SameVector(n, Reflect(n, Conj(Zero), PackedVector(V, c), Column(V, j)), Column(V, j)) {
      ReflectNothing(n, PackedVector(V, c), Column(V, j));
    }
  }

  lemma Applied(n: nat, c: nat, W: Matrix, V: Matrix, W': Matrix, t: Complex)
    requires c < n && ColumnCreated(n, c, W, V, t)
    requires forall k, j :: 0 <= k < n && 0 <= j < n && j <= c ==> W'(k, j) == V(k, j)
    requires forall j :: c < j < n ==>
      SameVector(n, Reflect(n, Conj(t), PackedVector(V, c), Column(V, j)), Column(W', j))
    ensures ColumnReflected(n, c, W, W', t)
  {
    hide Dot, Mul;
    var u, v := PackedVector(V, c), PackedVector(W', c);
    DotExt(n, u, u, v, v);
    DotExt(n, u, Column(W, c), v, Column(W, c));
    forall j | c < j < n ensures SameVector(n, Reflect(n, Conj(t), v, Column(W, j)), Column(W', j)) {
      DotExt(n, u, Column(V, j), v, Column(W, j));
    }
  }

  lemma NothingSummed()
    ensures Times(Square(0.0), 1.0) == 0.0
  {}

  lemma NothingBehind(n: nat, r: nat, x: Vector)
    requires n <= r
    ensures TailNorm(n, r, x) == 0.0
  {}

  lemma TailNext(i: nat, r: nat, x: Vector)
    requires r <= i
    ensures TailNorm(i + 1, r, x) == TailNorm(i, r, x) + Norm(x(i))
  {}

  lemma SqrtValue(sqrt: real -> real, x: real)
    requires IsSqrt(sqrt) && x >= 0.0
    ensures sqrt(x) >= 0.0 && Square(sqrt(x)) == x
  {}

  lemma NormSquares(z: Complex)
    ensures Norm(z) == Square(z.re) + Square(z.im)
  {}

  lemma RootProduct(x: real, r: real, n: real)
    requires x >= 0.0 && r >= 0.0 && Square(r) == n
    ensures Times(x, r) >= 0.0 && Square(Times(x, r)) == Times(Square(x), n)
  {
    assert (x * r) * (x * r) == (x * x) * (r * r);
  }

  /** A column of norm zero below the diagonal is zero there. */
  lemma ZeroTail(n: nat, c: nat, x: Vector, s: real)
    requires s == 0.0 && Square(s) == TailNorm(n, c + 1, x)
    ensures forall k :: c < k < n ==> x(k) == Zero
  {
    NothingSummed();
    TimesUnits(Square(s));
    ZeroNorms(n, c + 1, x);
  }

  lemma {:induction false} ZeroNorms(n: nat, m: nat, x: Vector)
    ensures TailNorm(n, m, x) >= 0.0
    ensures TailNorm(n, m, x) == 0.0 ==> forall k :: m <= k < n ==> x(k) == Zero
  {
    hide Norm;
    if n > m {
      ZeroNorms(n - 1, m, x);
      NormPositive(x(n - 1));
    }
  }

  lemma HypotNonzero(hypot: (Complex, real) -> real, a: Complex, s: real, g: real, b: Complex)
    requires IsHypot(hypot) && s >= 0.0 && !(s == 0.0 && a.im == 0.0)
    requires g == if a.re < 0.0 then -hypot(a, s) else hypot(a, s)
    requires b == Add(a, FromReal(g))
    ensures g != 0.0 && FromReal(g) != Zero && b != Zero && Square(g) == Norm(a) + Square(s)
  {
    hide Square, Norm;
    var h := hypot(a, s);
    assert h >= 0.0 && Square(h) == Norm(a) + Square(s);
    NegSquare(h);
    NormPositive(a);
    SquareSign(s);
    SquareSign(h);
  }

  lemma NegSquare(x: real)
    ensures Square(-x) == Square(x)
  {}
}
