/** Row operations on an equation system, and the views under which the elimination
    loops, which leave eliminated entries unwritten, perform exactly these. */
module GaussElimination {
  import opened ComplexNumbers
  import opened Sums
  import opened LinearAlgebra
  import opened Lu

  ghost predicate SameSolutions(n: nat, A: Matrix, a: Vector, B: Matrix, b: Vector) {
    forall x: Vector :: Solves(n, A, x, a) <==> Solves(n, B, x, b)
  }

  ghost predicate ElementsExchanged(n: nat, b: Vector, b': Vector, i: int, j: int) {
    forall r :: 0 <= r < n ==> b'(r) == b(if r == i then j else if r == j then i else r)
  }

  /** Row r of B is row r of A less f(r) times row i, likewise for the right hand sides. */
  ghost predicate RowsEliminated(n: nat, A: Matrix, a: Vector, B: Matrix, b: Vector, i: int, f: Vector) {
    && f(i) == Zero
    && (forall r, c :: 0 <= r < n && 0 <= c < n ==> B(r, c) == Sub(A(r, c), Mul(f(r), A(i, c))))
    && (forall r :: 0 <= r < n ==> b(r) == Sub(a(r), Mul(f(r), a(i))))
  }

  ghost predicate RowScaled(n: nat, A: Matrix, a: Vector, B: Matrix, b: Vector, i: int, f: Complex) {
    && (forall r, c :: 0 <= r < n && 0 <= c < n ==> if r == i then Mul(f, B(r, c)) == A(r, c) else B(r, c) == A(r, c))
    && (forall r :: 0 <= r < n ==> if r == i then Mul(f, b(r)) == a(r) else b(r) == a(r))
  }

  lemma ExchangeSolves(n: nat, A: Matrix, a: Vector, B: Matrix, b: Vector, i: int, j: int, x: Vector)
    requires 0 <= i < n && 0 <= j < n
    requires RowsExchanged(n, A, B, i, j) && ElementsExchanged(n, a, b, i, j)
    requires Solves(n, A, x, a)
    ensures Solves(n, B, x, b)
  {
    hide Apply;
    forall r | 0 <= r < n ensures Apply(n, B, x, r) == b(r) {
      var s := if r == i then j else if r == j then i else r;
      ApplyExt(n, B, x, A, x, r, s);
      assert Apply(n, A, x, s) == a(s);
    }
  }

  lemma ExchangeSolutions(n: nat, A: Matrix, a: Vector, B: Matrix, b: Vector, i: int, j: int)
    requires 0 <= i < n && 0 <= j < n
    requires RowsExchanged(n, A, B, i, j) && ElementsExchanged(n, a, b, i, j)
    ensures SameSolutions(n, A, a, B, b)
  {
    hide Solves;
    assert RowsExchanged(n, B, A, i, j) && ElementsExchanged(n, b, a, i, j);
    forall x: Vector ensures Solves(n, A, x, a) <==> Solves(n, B, x, b) {
      if Solves(n, A, x, a) { ExchangeSolves(n, A, a, B, b, i, j, x); }
      if Solves(n, B, x, b) { ExchangeSolves(n, B, b, A, a, i, j, x); }
    }
  }

  lemma EliminatedRow(n: nat, A: Matrix, B: Matrix, x: Vector, r: int, i: int, f: Complex)
    requires forall c :: 0 <= c < n ==> B(r, c) == Sub(A(r, c), Mul(f, A(i, c)))
    ensures Apply(n, B, x, r) == Sub(Apply(n, A, x, r), Mul(f, Apply(n, A, x, i)))
  {
    hide Mul;
    var g, h := (k: int) => Mul(A(r, k), x(k)), (k: int) => Mul(A(i, k), x(k));
    var fh := (k: int) => Mul(f, h(k));
    SumScale(n, f, h);
    SumSub(n, g, fh);
    forall k | 0 <= k < n ensures Mul(B(r, k), x(k)) == Sub(g(k), fh(k)) {
      SubMul(A(r, k), Mul(f, A(i, k)), x(k));
      MulAssoc(f, A(i, k), x(k));
    }
    SumExt(n, k => Mul(B(r, k), x(k)), k => Sub(g(k), fh(k)));
  }

  lemma EliminateSolutions(n: nat, A: Matrix, a: Vector, B: Matrix, b: Vector, i: int, f: Vector)
    requires 0 <= i < n && RowsEliminated(n, A, a, B, b, i, f)
    ensures SameSolutions(n, A, a, B, b)
  {
    hide Mul, Apply;
    forall x: Vector ensures Solves(n, A, x, a) <==> Solves(n, B, x, b) {
      forall r | 0 <= r < n
        ensures Apply(n, B, x, r) == Sub(Apply(n, A, x, r), Mul(f(r), Apply(n, A, x, i)))
      {
        EliminatedRow(n, A, B, x, r, i, f(r));
      }
      MulUnits(Apply(n, A, x, i));
      MulUnits(a(i));
      assert Apply(n, B, x, i) == Apply(n, A, x, i) && a(i) == b(i);
    }
  }

  lemma ScaledRow(n: nat, A: Matrix, B: Matrix, x: Vector, i: int, f: Complex)
    requires forall c :: 0 <= c < n ==> Mul(f, B(i, c)) == A(i, c)
    ensures Apply(n, A, x, i) == Mul(f, Apply(n, B, x, i))
  {
    hide Mul;
    var g := (k: int) => Mul(B(i, k), x(k));
    SumScale(n, f, g);
    forall k | 0 <= k < n ensures Mul(A(i, k), x(k)) == Mul(f, g(k)) {
      MulAssoc(f, B(i, k), x(k));
    }
    SumExt(n, k => Mul(A(i, k), x(k)), k => Mul(f, g(k)));
  }

  lemma ScaleSolutions(n: nat, A: Matrix, a: Vector, B: Matrix, b: Vector, i: int, f: Complex)
    requires 0 <= i < n && f != Zero && RowScaled(n, A, a, B, b, i, f)
    ensures SameSolutions(n, A, a, B, b)
  {
    hide Mul, Apply, Inv;
    forall x: Vector ensures Solves(n, A, x, a) <==> Solves(n, B, x, b) {
      forall r | 0 <= r < n && r != i ensures Apply(n, A, x, r) == Apply(n, B, x, r) {
        ApplyExt(n, A, x, B, x, r, r);
      }
      ScaledRow(n, A, B, x, i, f);
      DivMul(Apply(n, B, x, i), f);
      DivMul(b(i), f);
      assert Apply(n, A, x, i) == a(i) <==> Apply(n, B, x, i) == b(i);
    }
  }

  lemma SameSolutionsExt(n: nat, A: Matrix, a: Vector, B: Matrix, b: Vector)
    requires SameMatrix(n, A, B) && forall r :: 0 <= r < n ==> a(r) == b(r)
    ensures SameSolutions(n, A, a, B, b)
  {
    hide Apply;
    forall x: Vector ensures Solves(n, A, x, a) <==> Solves(n, B, x, b) {
      forall r | 0 <= r < n ensures Apply(n, A, x, r) == Apply(n, B, x, r) {
        ApplyExt(n, A, x, B, x, r, r);
      }
    }
  }

  // ----- the systems the loops work on -----

  /** Gauss: the entries below the diagonal of the first i columns count as zero. */
  function GaussView(W: Matrix, i: int): Matrix {
    (r, c) => if c < i && c < r then Zero else W(r, c)
  }

  /** Gauss-Jordan: the first i columns count as columns of the unit matrix. */
  function JordanView(W: Matrix, i: int): Matrix {
    (r, c) => if c < i then if r == c then One else Zero else W(r, c)
  }

  /** Eliminating the columns after i from the rows below i, and from then on taking the
      entries below the diagonal of column i as zero, is a row operation. */
  lemma EliminatedView(n: nat, A: Matrix, a: Vector, B: Matrix, b: Vector, i: nat, f: Vector)
    requires i < n && forall k :: k <= i ==> f(k) == Zero
    requires forall k, c :: 0 <= k < n && 0 <= c < n && (k <= i || c <= i) ==> B(k, c) == A(k, c)
    requires forall k :: 0 <= k <= i ==> b(k) == a(k)
    requires forall k, c :: i < k < n && i < c < n ==> B(k, c) == Sub(A(k, c), Mul(f(k), A(i, c)))
    requires forall k :: i < k < n ==> b(k) == Sub(a(k), Mul(f(k), a(i)))
    requires forall k :: i < k < n ==> Mul(f(k), A(i, i)) == A(k, i)
    ensures RowsEliminated(n, GaussView(A, i), a, GaussView(B, i + 1), b, i, f)
  {
    hide Mul;
    forall r, c | 0 <= r < n && 0 <= c < n
      ensures GaussView(B, i + 1)(r, c) == Sub(GaussView(A, i)(r, c), Mul(f(r), GaussView(A, i)(i, c)))
    {
      MulUnits(f(r));
      MulUnits(GaussView(A, i)(i, c));
    }
    forall r | 0 <= r < n ensures b(r) == Sub(a(r), Mul(f(r), a(i))) {
      MulUnits(a(i));
    }
  }

  /** A column without a pivot means a non-zero kernel vector. */
  lemma GaussFailure(n: nat, W: Matrix, i: nat)
    requires i < n && PivotsNonzero(i, W)
    requires forall r :: i <= r < n ==> W(r, i) == Zero
    ensures !Nonsingular(n, GaussView(W, i))
  {
    hide Apply;
    var E := GaussView(W, i);
    var v := UpperCombination(i, E, i + 1);
    forall r | 0 <= r < n ensures Apply(n, E, v, r) == Zero {
      ColumnsKernel(n, E, v, r, i + 1);
    }
    KernelWitness(n, E, v, i);
  }

  /** A vector that stops at `width` is in the kernel of a row when the row is zero so
      far, or when the vector is in the kernel of that part of the row. */
  lemma ColumnsKernel(n: nat, E: Matrix, v: Vector, r: int, width: nat)
    requires width <= n && forall k :: width <= k ==> v(k) == Zero
    requires (forall k :: 0 <= k < width ==> E(r, k) == Zero) || Apply(width, E, v, r) == Zero
    ensures Apply(n, E, v, r) == Zero
  {
    hide Mul;
    var f := (k: int) => Mul(E(r, k), v(k));
    forall k | width <= k < n ensures f(k) == Zero { MulUnits(E(r, k)); }
    SumTail(width, n, f);
    if forall k :: 0 <= k < width ==> E(r, k) == Zero {
      forall k | 0 <= k < width ensures f(k) == Zero { MulUnits(v(k)); }
      SumZero(width, f);
    }
  }

  lemma JordanFailure(n: nat, W: Matrix, i: nat)
    requires i < n
    requires forall r :: i <= r < n ==> W(r, i) == Zero
    ensures !Nonsingular(n, JordanView(W, i))
  {
    hide Mul, Apply;
    var E := JordanView(W, i);
    var v: Vector := k => if k == i then One else if k < i then Neg(W(k, i)) else Zero;
    forall r | 0 <= r < n ensures Apply(n, E, v, r) == Zero {
      if r < i {
        assert Apply(i + 1, E, v, r) == Zero by {
          ApplyLast(i, E, v, r);
          UnitRow(i, E, v, r);
          MulUnits(W(r, i));
        }
      }
      ColumnsKernel(n, E, v, r, i + 1);
    }
    KernelWitness(n, E, v, i);
  }

  lemma UnitRow(n: nat, E: Matrix, v: Vector, r: int)
    requires 0 <= r < n && forall c :: 0 <= c < n ==> E(r, c) == if r == c then One else Zero
    ensures Apply(n, E, v, r) == v(r)
  {
    hide Mul;
    var f := (k: int) => Mul(E(r, k), v(k));
    forall k | 0 <= k < n && k != r ensures f(k) == Zero { MulUnits(v(k)); }
    SumOnly(n, r, f);
    MulUnits(v(r));
  }

  /** Systems with the same kernel are singular together. */
  lemma SameKernel(n: nat, A: Matrix, B: Matrix)
    requires SameSolutions(n, A, ZeroVector, B, ZeroVector)
    ensures Nonsingular(n, A) <==> Nonsingular(n, B)
  {
    hide Solves;
    assert forall v: Vector :: InKernel(n, A, v) <==> Solves(n, A, v, ZeroVector);
    assert forall v: Vector :: InKernel(n, B, v) <==> Solves(n, B, v, ZeroVector);
  }

  // ----- steps keep the system -----

  /** (E, b) has the solutions of (A, a), and E the kernel of A. */
  ghost predicate Equivalent(n: nat, A: Matrix, a: Vector, E: Matrix, b: Vector) {
    SameSolutions(n, A, a, E, b) && SameSolutions(n, A, ZeroVector, E, ZeroVector)
  }

  lemma EquivalentExt(n: nat, A: Matrix, a: Vector, E: Matrix, b: Vector)
    requires SameMatrix(n, A, E) && forall r :: 0 <= r < n ==> a(r) == b(r)
    ensures Equivalent(n, A, a, E, b)
  {
    SameSolutionsExt(n, A, a, E, b);
    SameSolutionsExt(n, A, ZeroVector, E, ZeroVector);
  }

  lemma ExchangeStep(n: nat, A: Matrix, a: Vector, E: Matrix, b: Vector, E': Matrix, b': Vector, i: int, j: int)
    requires Equivalent(n, A, a, E, b) && 0 <= i < n && 0 <= j < n
    requires RowsExchanged(n, E, E', i, j) && ElementsExchanged(n, b, b', i, j)
    ensures Equivalent(n, A, a, E', b')
  {
    hide Solves;
    ExchangeSolutions(n, E, b, E', b', i, j);
    ExchangeSolutions(n, E, ZeroVector, E', ZeroVector, i, j);
  }

  lemma EliminateStep(n: nat, A: Matrix, a: Vector, E: Matrix, b: Vector, E': Matrix, b': Vector, i: int, f: Vector)
    requires Equivalent(n, A, a, E, b) && 0 <= i < n
    requires RowsEliminated(n, E, b, E', b', i, f)
    ensures Equivalent(n, A, a, E', b')
  {
    hide Solves, Mul;
    EliminateSolutions(n, E, b, E', b', i, f);
    forall r | 0 <= r < n ensures Mul(f(r), Zero) == Zero { MulUnits(f(r)); }
    EliminateSolutions(n, E, ZeroVector, E', ZeroVector, i, f);
  }

  lemma ScaleStep(n: nat, A: Matrix, a: Vector, E: Matrix, b: Vector, E': Matrix, b': Vector, i: int, f: Complex)
    requires Equivalent(n, A, a, E, b) && 0 <= i < n && f != Zero
    requires RowScaled(n, E, b, E', b', i, f)
    ensures Equivalent(n, A, a, E', b')
  {
    hide Solves, Mul;
    ScaleSolutions(n, E, b, E', b', i, f);
    MulUnits(f);
    ScaleSolutions(n, E, ZeroVector, E', ZeroVector, i, f);
  }

  /** Rows from i on look the same under both views, so exchanging them exchanges the views. */
  lemma ViewExchange(n: nat, W: Matrix, W': Matrix, i: nat, j: nat)
    requires i <= j < n && RowsExchanged(n, W, W', i, j)
    ensures RowsExchanged(n, GaussView(W, i), GaussView(W', i), i, j)
    ensures RowsExchanged(n, JordanView(W, i), JordanView(W', i), i, j)
  {}

  lemma EquivalentSingular(n: nat, A: Matrix, a: Vector, E: Matrix, b: Vector)
    requires Equivalent(n, A, a, E, b)
    ensures Nonsingular(n, A) <==> Nonsingular(n, E)
  {
    SameKernel(n, A, E);
  }

  lemma UpperNonsingular(n: nat, U: Matrix)
    requires IsUpper(n, U)
    ensures Nonsingular(n, U)
  {
    hide Apply;
    forall v: Vector | InKernel(n, U, v) ensures IsZeroVector(n, v) {
      UpperKernel(n, U, v, 0);
    }
  }

  // ----- Gauss-Jordan -----

  /** Row i of the view after its division by the pivot, whose own entry stays unwritten. */
  function ScaledView(W: Matrix, i: int): Matrix {
    (r, c) => if c < i then if r == c then One else Zero else if r == i && c == i then One else W(r, c)
  }

  lemma ScaledViewStep(n: nat, W: Matrix, b: Vector, W': Matrix, b': Vector, i: nat)
    requires i < n && forall k, c :: 0 <= k < n && 0 <= c < n && (k != i || c <= i) ==> W'(k, c) == W(k, c)
    requires forall k :: 0 <= k < n && k != i ==> b'(k) == b(k)
    requires forall c :: i < c < n ==> Mul(W(i, i), W'(i, c)) == W(i, c)
    requires Mul(W(i, i), b'(i)) == b(i)
    ensures RowScaled(n, JordanView(W, i), b, ScaledView(W', i), b', i, W(i, i))
  {
    hide Mul;
    MulUnits(W(i, i));
  }

  lemma JordanViewStep(n: nat, W: Matrix, b: Vector, W': Matrix, b': Vector, i: nat, f: Vector)
    requires i < n && f(i) == Zero
    requires forall k, c :: 0 <= k < n && 0 <= c < n && (k == i || c <= i) ==> W'(k, c) == W(k, c)
    requires forall k, c :: 0 <= k < n && k != i && i < c < n ==> W'(k, c) == Sub(W(k, c), Mul(f(k), W(i, c)))
    requires forall k :: 0 <= k < n && k != i ==> f(k) == W(k, i) && b'(k) == Sub(b(k), Mul(f(k), b(i)))
    requires b'(i) == b(i)
    ensures RowsEliminated(n, ScaledView(W, i), b, JordanView(W', i + 1), b', i, f)
  {
    hide Mul;
    forall r, c | 0 <= r < n && 0 <= c < n
      ensures JordanView(W', i + 1)(r, c) == Sub(ScaledView(W, i)(r, c), Mul(f(r), ScaledView(W, i)(i, c)))
    {
      MulUnits(f(r));
      MulUnits(ScaledView(W, i)(i, c));
    }
    forall r | 0 <= r < n ensures b'(r) == Sub(b(r), Mul(f(r), b(i))) {
      MulUnits(b(i));
    }
  }

  lemma UnitSystem(n: nat, E: Matrix, x: Vector)
    requires forall r, c :: 0 <= r < n && 0 <= c < n ==> E(r, c) == if r == c then One else Zero
    ensures Solves(n, E, x, x)
    ensures Nonsingular(n, E)
  {
    hide Apply;
    forall v: Vector, r | 0 <= r < n ensures Apply(n, E, v, r) == v(r) {
      UnitRow(n, E, v, r);
    }
  }

  lemma EquivalentSolves(n: nat, A: Matrix, a: Vector, E: Matrix, b: Vector, x: Vector)
    requires Equivalent(n, A, a, E, b) && Solves(n, E, x, b)
    ensures Solves(n, A, x, a)
  {}

  lemma NoPivots(W: Matrix)
    ensures PivotsNonzero(0, W)
  {}

  lemma TriangularView(n: nat, W: Matrix)
    requires PivotsNonzero(n, W)
    ensures IsUpper(n, GaussView(W, n))
  {}
}
