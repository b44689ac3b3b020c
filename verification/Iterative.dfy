/** The iterative solvers: sweeps after row exchanges and row scaling, with a fallback to the
    direct solver. */
module IterativeSolver {
  import opened ComplexNumbers
  import opened Sums
  import opened LinearAlgebra
  import opened Lu
  import opened GaussElimination
  import opened EqnSystem
  import opened Contraction

  const RELTOL: real := 0.0001

  /** Row exchanges of the kind that make the diagonal nonzero. */
  method EnsureDiagonal(eqns: EqnSys, swaps: seq<(nat, nat)>)
    requires eqns.Valid() && forall s :: 0 <= s < |swaps| ==> swaps[s].0 < eqns.N && swaps[s].1 < eqns.N
    modifies eqns.A, eqns.B
    ensures Equivalent(eqns.N, old(Entries(eqns.A)), old(Elements(eqns.B)), Entries(eqns.A), Elements(eqns.B))
  {
    hide IsModulus, Equivalent, RowsExchanged, ElementsExchanged;
    ghost var A, b := Entries(eqns.A), Elements(eqns.B);
    EquivalentExt(eqns.N, A, b, A, b);
    for s := 0 to |swaps|
      invariant Equivalent(eqns.N, A, b, Entries(eqns.A), Elements(eqns.B))
    {
      ghost var E, e := Entries(eqns.A), Elements(eqns.B);
      eqns.ExchangeEquations(swaps[s].0, swaps[s].1);
      ExchangeStep(eqns.N, A, b, E, e, Entries(eqns.A), Elements(eqns.B), swaps[s].0, swaps[s].1);
    }
  }

  /** Row r may be exchanged with row i: that would not lower the diagonal of row r. */
  predicate MayExchange(abs: Complex -> real, A: Matrix, i: int, r: int) {
    abs(A(r, i)) > 0.0 && abs(A(i, r)) >= abs(A(r, r))
  }

  /** The row to put at the diagonal of column i: one with the largest element of the column
      among those that may be exchanged. */
  method DominantRow(eqns: EqnSys, i: nat) returns (pivot: nat)
    requires eqns.Valid() && i < eqns.N
    ensures pivot < eqns.N && (pivot != i ==> MayExchange(eqns.abs, Entries(eqns.A), i, pivot))
    ensures forall r :: 0 <= r < eqns.N && MayExchange(eqns.abs, Entries(eqns.A), i, r) ==>
      && MayExchange(eqns.abs, Entries(eqns.A), i, pivot)
      && eqns.abs(Entries(eqns.A)(r, i)) <= eqns.abs(Entries(eqns.A)(pivot, i))
  {
    hide IsModulus;
    var maxPivot := 0.0;
    pivot := i;
    ghost var A := Entries(eqns.A);
    for r := 0 to eqns.N
      invariant pivot < eqns.N && maxPivot >= 0.0
      invariant maxPivot == 0.0 ==> pivot == i && forall k :: 0 <= k < r ==> !MayExchange(eqns.abs, A, i, k)
      invariant maxPivot > 0.0 ==> MayExchange(eqns.abs, A, i, pivot) && maxPivot == eqns.abs(A(pivot, i))
      invariant forall k :: 0 <= k < r && MayExchange(eqns.abs, A, i, k) ==> eqns.abs(A(k, i)) <= maxPivot
    {
      if eqns.abs(eqns.A[r, i]) > maxPivot && eqns.abs(eqns.A[i, r]) >= eqns.abs(eqns.A[r, r]) {
        maxPivot := eqns.abs(eqns.A[r, i]);
        pivot := r;
      }
    }
  }

  /** Tries to raise the diagonal by exchanging rows. */
  method Preconditioner(eqns: EqnSys)
    requires eqns.Valid()
    modifies eqns.A, eqns.B
    ensures Equivalent(eqns.N, old(Entries(eqns.A)), old(Elements(eqns.B)), Entries(eqns.A), Elements(eqns.B))
  {
    hide IsModulus, Equivalent, RowsExchanged, ElementsExchanged;
    ghost var A, b := Entries(eqns.A), Elements(eqns.B);
    EquivalentExt(eqns.N, A, b, A, b);
    for i := 0 to eqns.N
      invariant Equivalent(eqns.N, A, b, Entries(eqns.A), Elements(eqns.B))
    {
      var pivot := DominantRow(eqns, i);
      ghost var E, e := Entries(eqns.A), Elements(eqns.B);
      if i != pivot {
        eqns.ExchangeEquations(i, pivot);
        ExchangeStep(eqns.N, A, b, E, e, Entries(eqns.A), Elements(eqns.B), i, pivot);
      }
    }
  }

  /** Divides row r by its diagonal element. */
  method NormalizeRow(eqns: EqnSys, r: nat)
    requires eqns.Valid() && r < eqns.N && eqns.A[r, r] != Zero
    modifies eqns.A, eqns.B
    ensures RowScaled(eqns.N, old(Entries(eqns.A)), old(Elements(eqns.B)), Entries(eqns.A), Elements(eqns.B), r,
                      old(eqns.A[r, r]))
    ensures eqns.A[r, r] == One
  {
    hide Mul, Div, IsModulus;
    var f := eqns.A[r, r];
    for c := 0 to eqns.N
      invariant forall k, j :: 0 <= k < eqns.N && 0 <= j < eqns.N && (k != r || j >= c) ==>
        eqns.A[k, j] == old(eqns.A[k, j])
      invariant forall j :: 0 <= j < c ==> Mul(f, eqns.A[r, j]) == old(eqns.A[r, j])
      invariant eqns.B[..] == old(eqns.B[..])
    {
      DivMul(eqns.A[r, c], f);
      eqns.A[r, c] := Div(eqns.A[r, c], f);
    }
    DivMul(eqns.B[r], f);
    eqns.B[r] := Div(eqns.B[r], f);
    UnitQuotient(f, eqns.A[r, r]);
  }

  lemma UnitQuotient(f: Complex, q: Complex)
    requires f != Zero && Mul(f, q) == f
    ensures q == One
  {
    hide Mul;
    MulSub(f, q, One);
    MulUnits(f);
    if Sub(q, One) != Zero { MulNonzero(f, Sub(q, One)); }
  }

  /** Ones on the diagonal of the first r rows. */
  ghost predicate UnitDiagonal(A: Matrix, r: int) {
    forall k :: 0 <= k < r ==> A(k, k) == One
  }

  ghost predicate ZeroDiagonal(n: nat, A: Matrix) {
    exists k :: 0 <= k < n && A(k, k) == Zero
  }

  /** Normalizes the equation system; fails on a zero on the diagonal. */
  method Normalize(eqns: EqnSys) returns (ok: bool)
    requires eqns.Valid()
    modifies eqns.A, eqns.B
    ensures Equivalent(eqns.N, old(Entries(eqns.A)), old(Elements(eqns.B)), Entries(eqns.A), Elements(eqns.B))
    ensures if ok then UnitDiagonal(Entries(eqns.A), eqns.N) else ZeroDiagonal(eqns.N, Entries(eqns.A))
  {
    hide IsModulus, Equivalent, RowScaled, UnitDiagonal, ZeroDiagonal;
    NoDiagonal(Entries(eqns.A));
    ghost var A, b := Entries(eqns.A), Elements(eqns.B);
    EquivalentExt(eqns.N, A, b, A, b);
    for r := 0 to eqns.N
      invariant Equivalent(eqns.N, A, b, Entries(eqns.A), Elements(eqns.B))
      invariant UnitDiagonal(Entries(eqns.A), r)
    {
      ghost var E, e, f := Entries(eqns.A), Elements(eqns.B), eqns.A[r, r];
      if eqns.A[r, r] == Zero {
        ZeroFound(eqns.N, E, r);
        return false;
      }
      NormalizeRow(eqns, r);
      ScaleStep(eqns.N, A, b, E, e, Entries(eqns.A), Elements(eqns.B), r, f);
      KeptDiagonal(eqns.N, E, e, Entries(eqns.A), Elements(eqns.B), r, f);
    }
    ok := true;
  }

  lemma KeptDiagonal(n: nat, E: Matrix, e: Vector, E': Matrix, e': Vector, r: nat, f: Complex)
    requires r < n && RowScaled(n, E, e, E', e', r, f) && UnitDiagonal(E, r) && E'(r, r) == One
    ensures UnitDiagonal(E', r + 1)
  {}

  lemma NoDiagonal(A: Matrix)
    ensures UnitDiagonal(A, 0)
  {}

  lemma ZeroFound(n: nat, A: Matrix, r: nat)
    requires r < n && A(r, r) == Zero
    ensures ZeroDiagonal(n, A)
  {}

  /** One row of a sweep. */
  method SweepOne(eqns: EqnSys, prev: array<Complex>, seidel: bool, r: nat) returns (v: Complex)
    requires eqns.Valid() && prev.Length == eqns.N && r < eqns.N
    ensures v == Sub(Elements(eqns.B)(r),
                     OffSum(Entries(eqns.A), Seen(seidel, Elements(eqns.X), Elements(prev), r), r, eqns.N))
  {
    hide IsModulus, Mul;
    var f := Zero;
    ghost var seen := Seen(seidel, Elements(eqns.X), Elements(prev), r);
    for c := 0 to eqns.N
      invariant f == OffSum(Entries(eqns.A), seen, r, c)
    {
      if seidel {
        if c < r {
          f := Add(f, Mul(eqns.A[r, c], eqns.X[c]));
        } else if c > r {
          f := Add(f, Mul(eqns.A[r, c], prev[c]));
        }
      } else if c != r {
        f := Add(f, Mul(eqns.A[r, c], prev[c]));
      }
    }
    v := Sub(eqns.B[r], f);
  }

  /** Computes a new solution vector from the previous one. */
  method Sweep(eqns: EqnSys, prev: array<Complex>, seidel: bool)
    requires eqns.Valid() && prev.Length == eqns.N && prev != eqns.X
    modifies eqns.X
    ensures IsSweep(seidel, eqns.N, Entries(eqns.A), Elements(eqns.B), Elements(prev), Elements(eqns.X))
  {
    hide IsModulus, OffSum;
    ghost var A, b, p := Entries(eqns.A), Elements(eqns.B), Elements(prev);
    for r := 0 to eqns.N
      invariant Elements(eqns.B) == b && Elements(prev) == p
      invariant forall k :: 0 <= k < r ==>
        eqns.X[k] == Sub(b(k), OffSum(A, Seen(seidel, Elements(eqns.X), p, k), k, eqns.N))
    {
      ghost var x := Elements(eqns.X);
      var v := SweepOne(eqns, prev, seidel, r);
      eqns.X[r] := v;
      forall k | 0 <= k <= r
        ensures OffSum(A, Seen(seidel, x, p, k), k, eqns.N)
             == OffSum(A, Seen(seidel, Elements(eqns.X), p, k), k, eqns.N)
      {
        OffSumExt(A, Seen(seidel, x, p, k), Seen(seidel, Elements(eqns.X), p, k), k, eqns.N);
      }
    }
  }

  /** Checks for convergence. */
  method Converged(eqns: EqnSys, prev: array<Complex>) returns (conv: bool)
    requires eqns.Valid() && prev.Length == eqns.N
    ensures conv <==> IsSettled(eqns.abs, eqns.N, Elements(prev), Elements(eqns.X))
  {
    hide IsModulus;
    for r := 0 to eqns.N
      invariant forall k :: 0 <= k < r ==> Settled(eqns.abs, prev[k], eqns.X[k])
    {
      var diff := eqns.abs(Sub(eqns.X[r], prev[r]));
      if diff >= Tolerance(eqns.abs, eqns.X[r]) {
        assert !Settled(eqns.abs, Elements(prev)(r), Elements(eqns.X)(r));
        return false;
      }
    }
    conv := true;
  }

  /** How far an element may move and still count as settled. */
  function Tolerance(abs: Complex -> real, z: Complex): real { NR_TINY + RELTOL * abs(z) }

  predicate Settled(abs: Complex -> real, before: Complex, after: Complex) {
    abs(Sub(after, before)) < Tolerance(abs, after)
  }

  ghost predicate IsSettled(abs: Complex -> real, n: nat, prev: Vector, x: Vector) {
    forall r :: 0 <= r < n ==> Settled(abs, prev(r), x(r))
  }

  function Pow(q: real, k: nat): real { if k == 0 then 1.0 else Times(q, Pow(q, k - 1)) }

  /** k sweeps from the initial guess x0 have come at least q^k closer to the solution s. */
  ghost predicate Closer(abs: Complex -> real, n: nat, A: Matrix, x0: Vector, x: Vector, s: Vector, k: nat) {
    forall q :: Dominant(abs, n, A, q) ==> MaxDist(abs, n, x, s) <= Times(Pow(q, k), MaxDist(abs, n, x0, s))
  }

  lemma CloserStep(abs: Complex -> real, seidel: bool, n: nat, A: Matrix, b: Vector, x0: Vector, prev: Vector,
                   x: Vector, s: Vector, k: nat)
    requires IsModulus(abs) && IsSweep(seidel, n, A, b, prev, x) && Solves(n, A, s, b)
    requires Closer(abs, n, A, x0, prev, s, k)
    ensures Closer(abs, n, A, x0, x, s, k + 1)
  {
    hide IsModulus, IsSweep, Solves, Dominant, MaxDist, Times;
    forall q | Dominant(abs, n, A, q) ensures MaxDist(abs, n, x, s) <= Times(Pow(q, k + 1), MaxDist(abs, n, x0, s)) {
      SweepContracts(abs, seidel, n, A, b, prev, x, s, q);
      Ratio01(abs, n, A, q);
      TimesMonotone(MaxDist(abs, n, prev, s), Times(Pow(q, k), MaxDist(abs, n, x0, s)), q);
      TimesAssoc(q, Pow(q, k), MaxDist(abs, n, x0, s));
    }
  }

  lemma Ratio01(abs: Complex -> real, n: nat, A: Matrix, q: real)
    requires Dominant(abs, n, A, q)
    ensures 0.0 <= q < 1.0
  {}

  lemma TimesAssoc(x: real, y: real, z: real)
    ensures Times(x, Times(y, z)) == Times(Times(x, y), z)
  {}

  lemma CloserStart(abs: Complex -> real, n: nat, A: Matrix, x0: Vector, s: Vector)
    ensures Closer(abs, n, A, x0, x0, s, 0)
  {
    TimesUnits(MaxDist(abs, n, x0, s));
  }

  /** What a settled vector guarantees: the error is below q T / (1 - q) for any T above the
      tolerances. */
  ghost predicate NearSolution(abs: Complex -> real, n: nat, A: Matrix, x: Vector, s: Vector) {
    forall q, T :: Dominant(abs, n, A, q) && TolerancesBelow(abs, n, x, T) ==>
      Times(1.0 - q, MaxDist(abs, n, x, s)) <= Times(q, T)
  }

  /** T is above 1e-12 plus 1e-4 of each element. */
  ghost predicate TolerancesBelow(abs: Complex -> real, n: nat, x: Vector, T: real) {
    T >= 0.0 && forall r :: 0 <= r < n ==> 0.000000000001 + 0.0001 * abs(x(r)) <= T
  }

  lemma ToleranceNumbers(abs: Complex -> real, z: Complex)
    ensures Tolerance(abs, z) == 0.000000000001 + 0.0001 * abs(z)
  {}

  lemma SettledIsNear(abs: Complex -> real, seidel: bool, n: nat, A: Matrix, b: Vector, prev: Vector, x: Vector,
                      s: Vector)
    requires IsModulus(abs) && IsSweep(seidel, n, A, b, prev, x) && Solves(n, A, s, b) && IsSettled(abs, n, prev, x)
    ensures NearSolution(abs, n, A, x, s)
  {
    hide IsModulus, IsSweep, Solves, Dominant, MaxDist, Times, Tolerance;
    forall q, T | Dominant(abs, n, A, q) && TolerancesBelow(abs, n, x, T)
      ensures Times(1.0 - q, MaxDist(abs, n, x, s)) <= Times(q, T)
    {
      var d := MaxDist(abs, n, x, s);
      MaxDistBound(abs, n, x, s, 0.0);
      MaxDistBound(abs, n, x, s, d);
      forall r | 0 <= r < n ensures abs(Sub(prev(r), s(r))) <= T + d {
        ModulusAdd(abs, Sub(prev(r), x(r)), Sub(x(r), s(r)));
        assert Add(Sub(prev(r), x(r)), Sub(x(r), s(r))) == Sub(prev(r), s(r));
        ModulusSwap(abs, prev(r), x(r));
        assert Settled(abs, prev(r), x(r));
        ToleranceNumbers(abs, x(r));
      }
      MaxDistBound(abs, n, prev, s, T + d);
      SweepContracts(abs, seidel, n, A, b, prev, x, s, q);
      Ratio01(abs, n, A, q);
      TimesMonotone(MaxDist(abs, n, prev, s), T + d, q);
      TimesAdd(q, T, d);
      TimesAdd(d, 1.0 - q, q);
      TimesUnits(d);
    }
  }

  /** The iteration: sweeps until the vector settles or N of them have been made. */
  method Iterate(eqns: EqnSys, seidel: bool, ghost s: Vector) returns (conv: bool, i: nat, ghost prev: Vector)
    requires eqns.Valid()
    modifies eqns.X
    ensures i > 0 && (conv || i >= eqns.N)
    ensures IsSweep(seidel, eqns.N, Entries(eqns.A), Elements(eqns.B), prev, Elements(eqns.X))
    ensures conv <==> IsSettled(eqns.abs, eqns.N, prev, Elements(eqns.X))
    ensures Solves(eqns.N, Entries(eqns.A), s, Elements(eqns.B)) ==>
      Closer(eqns.abs, eqns.N, Entries(eqns.A), old(Elements(eqns.X)), Elements(eqns.X), s, i)
  {
    hide IsModulus, IsSweep, Solves, Closer, IsSettled;
    ghost var A, b, x0 := Entries(eqns.A), Elements(eqns.B), Elements(eqns.X);
    var xprev := new Complex[eqns.N](
      k requires 0 <= k < eqns.N reads eqns, eqns.X => if k < eqns.X.Length then eqns.X[k] else Zero);
    assert xprev[..] == eqns.X[..];
    assert Elements(xprev) == x0;
    CloserStart(eqns.abs, eqns.N, A, x0, s);
    conv, i, prev := false, 0, x0;
    while i == 0 || (i < eqns.N && !conv)
      invariant Elements(eqns.B) == b && fresh(xprev)
      invariant i > 0 ==> IsSweep(seidel, eqns.N, A, b, prev, Elements(eqns.X))
      invariant i > 0 ==> (conv <==> IsSettled(eqns.abs, eqns.N, prev, Elements(eqns.X)))
      invariant Elements(xprev) == Elements(eqns.X)
      invariant Solves(eqns.N, A, s, b) ==> Closer(eqns.abs, eqns.N, A, x0, Elements(eqns.X), s, i)
      decreases if i == 0 then 1 else 0, eqns.N - i
    {
      prev := Elements(xprev);
      Sweep(eqns, xprev, seidel);
      conv := Converged(eqns, xprev);
      if Solves(eqns.N, A, s, b) {
        CloserStep(eqns.abs, seidel, eqns.N, A, b, x0, prev, Elements(eqns.X), s, i);
      }
      ghost var x := Elements(eqns.X);
      forall k | 0 <= k < xprev.Length { xprev[k] := eqns.X[k]; }
      assert Elements(eqns.X) == x;
      assert xprev[..] == eqns.X[..];
      i := i + 1;
    }
  }

  // ----- the fallback without a new factorization -----

  ghost function Position(n: nat, p: seq<int>, v: int): (i: nat)
    requires IsPermutation(n, p) && 0 <= v < n
    ensures i < n && p[i] == v
  {
    assert v in p;
    var i :| 0 <= i < n && p[i] == v;
    i
  }

  /** The matrix whose packed factors W would be, with its rows in the order p. */
  ghost function Unfactored(n: nat, W: Matrix, p: seq<int>): Matrix
    requires IsPermutation(n, p)
  {
    (i, j) => if 0 <= i < n then Product(n, CroutL(W), CroutU(W), Position(n, p, i), j) else Zero
  }

  lemma PositionOf(n: nat, p: seq<int>, r: nat)
    requires IsPermutation(n, p) && r < n
    ensures 0 <= p[r] < n && Position(n, p, p[r]) == r
  {
    var i := Position(n, p, p[r]);
    assert p[i] == p[r];
  }

  lemma UnfactoredRow(n: nat, W: Matrix, p: seq<int>, r: nat, c: int)
    requires IsPermutation(n, p) && r < n
    ensures 0 <= p[r] < n && Unfactored(n, W, p)(p[r], c) == Product(n, CroutL(W), CroutU(W), r, c)
  {
    hide Product, IsPermutation, Position, CroutL, CroutU;
    PositionOf(n, p, r);
  }

  lemma UnfactoredFactors(n: nat, W: Matrix, p: seq<int>)
    requires IsPermutation(n, p) && UnitDiagonal(W, n)
    ensures Factors(n, Unfactored(n, W, p), p, CroutL(W), CroutU(W))
    ensures IsLower(n, CroutL(W)) && IsUpper(n, CroutU(W))
  {
    hide Product, IsPermutation, Unfactored;
    PermutationLength(n, p);
    forall r, c | 0 <= r < n && 0 <= c < n
      ensures Product(n, CroutL(W), CroutU(W), r, c) == Unfactored(n, W, p)(p[r], c)
    {
      UnfactoredRow(n, W, p, r, c);
    }
    forall r | 0 <= r < n ensures CroutL(W)(r, r) != Zero { assert W(r, r) == One; }
  }

  /** The inner product of row r and column c up to the diagonal. */
  function Inner(W: Matrix, r: nat, c: nat): Complex { Product(if r < c then r else c, W, W, r, c) }

  /** Row p[r] of the matrix exceeds row r by the inner products up to the diagonal. */
  ghost predicate IsOwnProduct(n: nat, W: Matrix, p: seq<int>)
    requires |p| == n
  {
    forall r, c :: 0 <= r < n && 0 <= c < n ==> W(p[r], c) == Add(Inner(W, r, c), W(r, c))
  }

  lemma UnfactoredEntry(n: nat, W: Matrix, p: seq<int>, r: nat, c: nat)
    requires IsPermutation(n, p) && UnitDiagonal(W, n) && r < n && c < n
    ensures 0 <= p[r] < n && Unfactored(n, W, p)(p[r], c) == Add(Inner(W, r, c), W(r, c))
  {
    hide Product, Mul, IsPermutation, Unfactored, CroutL, CroutU;
    UnfactoredRow(n, W, p, r, c);
    CroutProduct(n, W, r, c);
    ProductLast(r, W, W, r, c);
    assert W(r, r) == One;
    MulUnits(W(r, c));
  }

  /** Taken for packed factors, the scaled matrix stands for itself if and only if it is its
      own product. */
  lemma UnfactoredSame(n: nat, W: Matrix, p: seq<int>)
    requires IsPermutation(n, p) && UnitDiagonal(W, n)
    ensures SameMatrix(n, Unfactored(n, W, p), W) <==> IsOwnProduct(n, W, p)
  {
    hide Inner, Unfactored, UnitDiagonal;
    var M := Unfactored(n, W, p);
    forall r, c | 0 <= r < n && 0 <= c < n ensures M(p[r], c) == Add(Inner(W, r, c), W(r, c)) {
      UnfactoredEntry(n, W, p, r, c);
    }
    if IsOwnProduct(n, W, p) {
      forall i, c | 0 <= i < n && 0 <= c < n ensures M(i, c) == W(i, c) {
        var r := Position(n, p, i);
        assert M(p[r], c) == W(p[r], c);
      }
    }
  }

  /** The substitute system of the fallback solves the scaled one, whatever the right hand side. */
  ghost predicate FallbackSolves(n: nat, W: Matrix, p: seq<int>)
    requires IsPermutation(n, p)
  {
    forall x: Vector, e: Vector :: Solves(n, Unfactored(n, W, p), x, e) ==> Solves(n, W, x, e)
  }

  /** Without a new factorization, the solution of the fallback solves the scaled system for
      every right hand side if and only if the scaled matrix is its own product. */
  lemma FallbackExact(n: nat, W: Matrix, p: seq<int>)
    requires IsPermutation(n, p) && UnitDiagonal(W, n)
    ensures FallbackSolves(n, W, p) <==> IsOwnProduct(n, W, p)
  {
    hide Apply, Unfactored, UnitDiagonal, IsPermutation, Solves, IsOwnProduct;
    PermutationLength(n, p);
    UnfactoredSame(n, W, p);
    var M := Unfactored(n, W, p);
    if IsOwnProduct(n, W, p) {
      forall x: Vector, e: Vector | Solves(n, M, x, e) ensures Solves(n, W, x, e) { SolvesExt(n, M, x, W, x, e); }
    }
    if FallbackSolves(n, W, p) {
      forall r, c | 0 <= r < n && 0 <= c < n ensures M(r, c) == W(r, c) { UnitResponse(n, M, W, r, c); }
    }
  }

  /** One matrix solves all systems of another one only if its columns are the same. */
  lemma UnitResponse(n: nat, M: Matrix, W: Matrix, r: nat, c: nat)
    requires r < n && c < n && forall x: Vector, e: Vector :: Solves(n, M, x, e) ==> Solves(n, W, x, e)
    ensures M(r, c) == W(r, c)
  {
    hide Mul, Apply;
    var x: Vector := k => if k == c then One else Zero;
    var e: Vector := k => M(k, c);
    forall k | 0 <= k < n ensures Apply(n, M, x, k) == M(k, c) && Apply(n, W, x, k) == W(k, c) {
      UnitColumn(n, M, x, k, c);
      UnitColumn(n, W, x, k, c);
    }
    assert Solves(n, M, x, e);
    assert Solves(n, W, x, e);
  }

  lemma UnitColumn(n: nat, M: Matrix, x: Vector, r: nat, c: nat)
    requires c < n && forall k :: x(k) == if k == c then One else Zero
    ensures Apply(n, M, x, r) == M(r, c)
  {
    hide Mul;
    var g := (k: int) => Mul(M(r, k), x(k));
    forall k | 0 <= k < n ensures g(k) == if k == c then M(r, c) else Zero { MulUnits(M(r, k)); }
    SumOnly(n, c, g);
  }

  const ONE_TWO: Matrix := (i, j) => if i == j then One else FromReal(2.0)
  const THREE_SEVEN: Vector := k => FromReal(if k == 0 then 3.0 else 7.0)

  /** The matrix [[1, 2], [2, 1]] and the right hand side (3, 7): the system has the one
      solution (11/3, -1/3), and the fallback returns (1, 1). */
  lemma FallbackInput(x: Vector)
    requires IsPermutation(2, [0, 1]) && Solves(2, Unfactored(2, ONE_TWO, [0, 1]), x, THREE_SEVEN)
    ensures x(0) == x(1) == One && !Solves(2, ONE_TWO, x, THREE_SEVEN)
    ensures Solves(2, ONE_TWO, k => FromReal(if k == 0 then 11.0 / 3.0 else -1.0 / 3.0), THREE_SEVEN)
  {
    hide Mul, Apply, Product, Unfactored, IsPermutation;
    var M := Unfactored(2, ONE_TWO, [0, 1]);
    FallbackEntries([0, 1]);
    TwoTerms(M, x, 0);
    TwoTerms(M, x, 1);
    assert Apply(2, M, x, 0) == THREE_SEVEN(0) && Apply(2, M, x, 1) == THREE_SEVEN(1);
    FallbackSolution(x(0), x(1));
    TwoTerms(ONE_TWO, x, 1);
    RealFactors(One);
    assert Apply(2, ONE_TWO, x, 1) != THREE_SEVEN(1);
    GivenSolution(k => FromReal(if k == 0 then 11.0 / 3.0 else -1.0 / 3.0));
  }

  lemma FallbackSolution(a: Complex, b: Complex)
    requires Add(Mul(One, a), Mul(FromReal(2.0), b)) == FromReal(3.0)
    requires Add(Mul(FromReal(2.0), a), Mul(FromReal(5.0), b)) == FromReal(7.0)
    ensures a == One == b
  {
    hide Mul;
    RealFactors(a);
    RealFactors(b);
  }

  lemma GivenSolution(s: Vector)
    requires s(0) == FromReal(11.0 / 3.0) && s(1) == FromReal(-1.0 / 3.0)
    ensures Solves(2, ONE_TWO, s, THREE_SEVEN)
  {
    hide Mul, Apply;
    TwoTerms(ONE_TWO, s, 0);
    TwoTerms(ONE_TWO, s, 1);
    RealFactors(s(0));
    RealFactors(s(1));
    assert THREE_SEVEN(0) == FromReal(3.0) && THREE_SEVEN(1) == FromReal(7.0);
    assert Apply(2, ONE_TWO, s, 0) == THREE_SEVEN(0);
    assert Apply(2, ONE_TWO, s, 1) == THREE_SEVEN(1);
  }

  /** Unfactored, it is [[1, 2], [2, 5]]. */
  lemma FallbackEntries(p: seq<int>)
    requires p == [0, 1] && IsPermutation(2, p)
    ensures var M := Unfactored(2, ONE_TWO, p);
      M(0, 0) == One && M(0, 1) == FromReal(2.0) == M(1, 0) && M(1, 1) == FromReal(5.0)
  {
    hide Mul, Product, Unfactored, IsPermutation;
    var W := ONE_TWO;
    forall r, c | 0 <= r < 2 && 0 <= c < 2 ensures Unfactored(2, W, p)(r, c) == Add(Inner(W, r, c), W(r, c)) {
      UnfactoredEntry(2, W, p, r, c);
    }
    forall r, c ensures Product(0, W, W, r, c) == Zero { ProductEmpty(W, W, r, c); }
    ProductLast(0, W, W, 1, 1);
    RealFactors(FromReal(2.0));
  }

  lemma TwoTerms(M: Matrix, x: Vector, r: int)
    ensures Apply(2, M, x, r) == Add(Mul(M(r, 0), x(0)), Mul(M(r, 1), x(1)))
  {
    hide Mul;
    var g := (k: int) => Mul(M(r, k), x(k));
    SumNone(g);
    SumStep(0, g);
    SumStep(1, g);
  }

  lemma RealFactors(z: Complex)
    ensures Mul(One, z) == z
    ensures Mul(FromReal(2.0), z) == Complex(2.0 * z.re, 2.0 * z.im)
    ensures Mul(FromReal(5.0), z) == Complex(5.0 * z.re, 5.0 * z.im)
  {}

  /** Solves the equation system by Jacobi's or by the Gauss-Seidel method.  Either the sweeps
      settle, for a system that is equivalent to the given one, or the direct solver takes
      over: it solves the given system, unless it is told to keep its factors, which then are
      the scaled matrix itself. */
  method SolveIterative(eqns: EqnSys, seidel: bool, swaps: seq<(nat, nat)>, ghost s: Vector)
    returns (ok: bool, conv: bool, i: nat, singular: set<int>, ghost E: Matrix, ghost e: Vector)
    requires eqns.Valid() && forall k :: 0 <= k < |swaps| ==> swaps[k].0 < eqns.N && swaps[k].1 < eqns.N
    requires !eqns.update ==> IsPermutation(eqns.N, eqns.rMap[..])
    modifies eqns.A, eqns.B, eqns.X, eqns.rMap, eqns.nPvt
    ensures Equivalent(eqns.N, old(Entries(eqns.A)), old(Elements(eqns.B)), E, e)
    ensures if ok then UnitDiagonal(E, eqns.N) else ZeroDiagonal(eqns.N, E)
    ensures !ok || conv ==> E == Entries(eqns.A) && e == Elements(eqns.B)
    ensures ok && conv && Solves(eqns.N, old(Entries(eqns.A)), s, old(Elements(eqns.B))) ==>
      && Closer(eqns.abs, eqns.N, E, old(Elements(eqns.X)), Elements(eqns.X), s, i)
      && NearSolution(eqns.abs, eqns.N, E, Elements(eqns.X), s)
    ensures ok && !conv ==> i >= eqns.N
    ensures ok && !conv && eqns.update ==> (singular == {} <==> Nonsingular(eqns.N, old(Entries(eqns.A))))
    ensures ok && !conv && eqns.update && singular == {} ==>
      Solves(eqns.N, old(Entries(eqns.A)), Elements(eqns.X), old(Elements(eqns.B)))
    ensures ok && !conv && !eqns.update ==>
      Solves(eqns.N, Unfactored(eqns.N, E, old(eqns.rMap[..])), Elements(eqns.X), e)
    ensures ok && !conv && !eqns.update && IsOwnProduct(eqns.N, E, old(eqns.rMap[..])) ==>
      Solves(eqns.N, old(Entries(eqns.A)), Elements(eqns.X), old(Elements(eqns.B)))
  {
    hide IsModulus, Apply, Solves, Nonsingular, Product, Equivalent, Closer, IsSweep, IsSettled, NearSolution,
      UnitDiagonal, ZeroDiagonal, IsPermutation, Unfactored, IsOwnProduct;
    ghost var A, b, p := Entries(eqns.A), Elements(eqns.B), eqns.rMap[..];
    conv, i, singular := false, 0, {};
    ok := Prepare(eqns, swaps);
    E, e := Entries(eqns.A), Elements(eqns.B);
    if !ok { return; }
    EquivalentBack(eqns.N, A, b, E, e, s);
    ghost var prev;
    conv, i, prev := Iterate(eqns, seidel, s);
    assert Elements(eqns.B) == e;
    if conv {
      if Solves(eqns.N, E, s, e) { SettledIsNear(eqns.abs, seidel, eqns.N, E, e, prev, Elements(eqns.X), s); }
    } else {
      assert eqns.rMap[..] == p;
      if !eqns.update {
        UnfactoredFactors(eqns.N, E, p);
        FallbackExact(eqns.N, E, p);
      }
      singular := eqns.SolveLuCrout(if eqns.update then E else Unfactored(eqns.N, E, p));
      EquivalentSingular(eqns.N, A, b, E, e);
      if if eqns.update then singular == {} else IsOwnProduct(eqns.N, E, p) {
        EquivalentSolves(eqns.N, A, b, E, Elements(eqns.B), Elements(eqns.X));
      }
    }
  }

  lemma EquivalentBack(n: nat, A: Matrix, a: Vector, E: Matrix, b: Vector, x: Vector)
    requires Equivalent(n, A, a, E, b)
    ensures Solves(n, A, x, a) <==> Solves(n, E, x, b)
  {
    hide Solves;
  }

  /** Row exchanges and scaling before the iteration. */
  method Prepare(eqns: EqnSys, swaps: seq<(nat, nat)>) returns (ok: bool)
    requires eqns.Valid() && forall k :: 0 <= k < |swaps| ==> swaps[k].0 < eqns.N && swaps[k].1 < eqns.N
    modifies eqns.A, eqns.B
    ensures Equivalent(eqns.N, old(Entries(eqns.A)), old(Elements(eqns.B)), Entries(eqns.A), Elements(eqns.B))
    ensures if ok then UnitDiagonal(Entries(eqns.A), eqns.N) else ZeroDiagonal(eqns.N, Entries(eqns.A))
  {
    hide IsModulus, Solves, ZeroDiagonal, UnitDiagonal;
    EnsureDiagonal(eqns, swaps);
    Preconditioner(eqns);
    ok := Normalize(eqns);
  }
}
