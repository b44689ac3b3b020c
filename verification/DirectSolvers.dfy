/** The direct solvers of an equation system give the same solution. */
module DirectSolvers {
  import opened ComplexNumbers
  import opened LinearAlgebra
  import opened EqnSystem

  /** An equation system for a copy of the matrix, with a new vector for the solution. */
  method NewSystem(abs: Complex -> real, A: array2<Complex>, B: array<Complex>) returns (eqns: EqnSys)
    requires IsModulus(abs) && A.Length0 == A.Length1 == B.Length
    ensures fresh(eqns) && fresh(eqns.A) && fresh(eqns.X) && fresh(eqns.B) && fresh(eqns.rMap) && fresh(eqns.nPvt)
    ensures eqns.Valid() && eqns.update && eqns.N == B.Length
    ensures SameMatrix(B.Length, Entries(eqns.A), Entries(A)) && Elements(eqns.B) == Elements(B)
  {
    hide IsModulus;
    var copy := new Complex[A.Length0, A.Length1](
      (i, j) requires 0 <= i < A.Length0 && 0 <= j < A.Length1 reads A => A[i, j]);
    var x := new Complex[B.Length];
    eqns := new EqnSys(abs);
    eqns.PassEquationSys(copy, x, B);
    assert eqns.B[..] == B[..];
  }

  /** A solution of the copied system, or a report that it has none or many. */
  ghost predicate Answers(n: nat, A: Matrix, b: Vector, ok: bool, x: Vector) {
    (ok <==> Nonsingular(n, A)) && (ok ==> Solves(n, A, x, b))
  }

  lemma AnswersFor(n: nat, M: Matrix, A: Matrix, b: Vector, ok: bool, x: Vector)
    requires SameMatrix(n, M, A) && Answers(n, M, b, ok, x)
    ensures Answers(n, A, b, ok, x)
  {
    hide Nonsingular, Solves;
    if ok {
      SolvesExt(n, M, x, A, x, b);
      NonsingularExt(n, M, A);
    } else if Nonsingular(n, A) {
      NonsingularExt(n, A, M);
    }
  }

  lemma SameAnswers(n: nat, A: Matrix, b: Vector, ok: bool, x: Vector, ok': bool, x': Vector)
    requires Answers(n, A, b, ok, x) && Answers(n, A, b, ok', x')
    ensures ok == ok' && (ok ==> forall k :: 0 <= k < n ==> x(k) == x'(k))
  {
    hide Nonsingular, Solves;
    if ok { SolutionUnique(n, A, x, x', b); }
  }

  method Crout(abs: Complex -> real, A: array2<Complex>, B: array<Complex>) returns (ok: bool, x: array<Complex>)
    requires IsModulus(abs) && A.Length0 == A.Length1 == B.Length
    ensures fresh(x) && x.Length == B.Length && Answers(B.Length, Entries(A), Elements(B), ok, Elements(x))
  {
    hide IsModulus, Nonsingular, Solves;
    var eqns := NewSystem(abs, A, B);
    ghost var M := Entries(eqns.A);
    var singular := eqns.SolveLuCrout(M);
    ok, x := singular == {}, eqns.X;
    AnswersFor(B.Length, M, Entries(A), Elements(B), ok, Elements(x));
  }

  method Doolittle(abs: Complex -> real, A: array2<Complex>, B: array<Complex>) returns (ok: bool, x: array<Complex>)
    requires IsModulus(abs) && A.Length0 == A.Length1 == B.Length
    ensures fresh(x) && x.Length == B.Length && Answers(B.Length, Entries(A), Elements(B), ok, Elements(x))
  {
    hide IsModulus, Nonsingular, Solves;
    var eqns := NewSystem(abs, A, B);
    ghost var M := Entries(eqns.A);
    var singular := eqns.SolveLuDoolittle(M);
    ok, x := singular == {}, eqns.X;
    AnswersFor(B.Length, M, Entries(A), Elements(B), ok, Elements(x));
  }

  method Gauss(abs: Complex -> real, A: array2<Complex>, B: array<Complex>) returns (ok: bool, x: array<Complex>)
    requires IsModulus(abs) && A.Length0 == A.Length1 == B.Length
    ensures fresh(x) && x.Length == B.Length && Answers(B.Length, Entries(A), Elements(B), ok, Elements(x))
  {
    hide IsModulus, Nonsingular, Solves;
    var eqns := NewSystem(abs, A, B);
    ghost var M := Entries(eqns.A);
    ok := eqns.SolveGauss();
    x := eqns.X;
    AnswersFor(B.Length, M, Entries(A), Elements(B), ok, Elements(x));
  }

  method GaussJordan(abs: Complex -> real, A: array2<Complex>, B: array<Complex>) returns (ok: bool, x: array<Complex>)
    requires IsModulus(abs) && A.Length0 == A.Length1 == B.Length
    ensures fresh(x) && x.Length == B.Length && Answers(B.Length, Entries(A), Elements(B), ok, Elements(x))
  {
    hide IsModulus, Nonsingular, Solves;
    var eqns := NewSystem(abs, A, B);
    ghost var M := Entries(eqns.A);
    ok := eqns.SolveGaussJordan();
    x := eqns.X;
    AnswersFor(B.Length, M, Entries(A), Elements(B), ok, Elements(x));
  }

  /** Both LU decompositions, Gaussian elimination and Gauss-Jordan: all of them report the
      same, and where there is a unique solution all of them return it. */
  method SolveByAll(abs: Complex -> real, A: array2<Complex>, B: array<Complex>)
    returns (oks: seq<bool>, xs: seq<seq<Complex>>)
    requires IsModulus(abs) && A.Length0 == A.Length1 == B.Length
    ensures |oks| == |xs| == 4
    ensures forall i :: 0 <= i < 4 ==> (oks[i] <==> Nonsingular(B.Length, Entries(A)))
    ensures Nonsingular(B.Length, Entries(A)) ==> xs[0] == xs[1] == xs[2] == xs[3] && |xs[0]| == B.Length
  {
    hide IsModulus, Nonsingular, Solves, Answers;
    var ok0, x0 := Crout(abs, A, B);
    ghost var s0 := Elements(x0);
    var ok1, x1 := Doolittle(abs, A, B);
    ghost var s1 := Elements(x1);
    var ok2, x2 := Gauss(abs, A, B);
    ghost var s2 := Elements(x2);
    var ok3, x3 := GaussJordan(abs, A, B);
    ghost var s3 := Elements(x3);
    assert Elements(x0) == s0 && Elements(x1) == s1 && Elements(x2) == s2;
    oks, xs := [ok0, ok1, ok2, ok3], [x0[..], x1[..], x2[..], x3[..]];
    Reported(B.Length, Entries(A), Elements(B), ok0, s0);
    SameAnswers(B.Length, Entries(A), Elements(B), ok0, s0, ok1, s1);
    SameAnswers(B.Length, Entries(A), Elements(B), ok0, s0, ok2, s2);
    SameAnswers(B.Length, Entries(A), Elements(B), ok0, s0, ok3, s3);
  }

  lemma Reported(n: nat, A: Matrix, b: Vector, ok: bool, x: Vector)
    requires Answers(n, A, b, ok, x)
    ensures ok <==> Nonsingular(n, A)
  {}
}
