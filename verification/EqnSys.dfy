/** The equation system solver: direct solvers that overwrite the matrix in place. */
module EqnSystem {
  import opened ComplexNumbers
  import opened Sums
  import opened LinearAlgebra
  import opened Lu
  import opened GaussElimination
  import opened Pivoting

  /** The entries of an in-place matrix as a value. */
  ghost function Entries(a: array2<Complex>): (m: Matrix)
    reads a
    ensures forall i, j :: 0 <= i < a.Length0 && 0 <= j < a.Length1 ==> m(i, j) == a[i, j]
  {
    var s := seq(a.Length0, i requires 0 <= i < a.Length0 reads a =>
                   seq(a.Length1, j requires 0 <= j < a.Length1 reads a => a[i, j]));
    (i, j) => if 0 <= i < a.Length0 && 0 <= j < a.Length1 then s[i][j] else Zero
  }

  ghost function Elements(x: array<Complex>): (v: Vector)
    reads x
    ensures forall i :: 0 <= i < x.Length ==> v(i) == x[i]
  {
    var s := x[..];
    i => if 0 <= i < |s| then s[i] else Zero
  }

  /** What the virtual resistances add to the matrix: NR_TINY at row p[c] of every
      column c in `singular`, nothing elsewhere. */
  function WithResistances(A: Matrix, p: seq<int>, singular: set<int>): Matrix {
    (r, c) => if c in singular && 0 <= c < |p| && p[c] == r then Add(A(r, c), FromReal(NR_TINY)) else A(r, c)
  }

  /** Exchanging later rows does not disturb the resistances inserted so far, and a new
      one goes to the row that the table holds for its column. */
  lemma ResistanceStep(n: nat, A: Matrix, M: Matrix, p: seq<int>, q: seq<int>, singular: set<int>, c: nat)
    requires |p| == n && IsPermutation(n, q) && c < n
    requires forall i :: 0 <= i < c ==> p[i] == q[i]
    requires forall j :: j in singular ==> 0 <= j < c
    requires SameMatrix(n, M, WithResistances(A, p, singular))
    ensures SameMatrix(n, M, WithResistances(A, q, singular))
    ensures SameMatrix(n, Bumped(M, q[c], c, FromReal(NR_TINY)), WithResistances(A, q, singular + {c}))
  {}

  lemma NothingFactored(n: nat, A: Matrix, p: seq<int>)
    requires |p| == n && forall i :: 0 <= i < n ==> p[i] == i
    ensures Untouched(n, A, p, A, 0) && PivotsNonzero(0, A)
    ensures SameMatrix(n, A, WithResistances(A, p, {}))
  {}

  lemma NoResistances(n: nat, A: Matrix, M: Matrix, p: seq<int>)
    requires SameMatrix(n, M, WithResistances(A, p, {}))
    ensures SameMatrix(n, A, M) && SameMatrix(n, M, A)
  {}

  /** Stores a vector as column c of a matrix. */
  method SetColumn(H: array2<Complex>, c: nat, x: array<Complex>)
    requires c < H.Length1 && x.Length == H.Length0
    modifies H
    ensures forall i, j :: 0 <= i < H.Length0 && 0 <= j < H.Length1 ==> H[i, j] == if j == c then x[i] else old(H[i, j])
  {
    for r := 0 to H.Length0
      invariant forall i, j :: 0 <= i < H.Length0 && 0 <= j < H.Length1 ==>
        H[i, j] == if j == c && i < r then x[i] else old(H[i, j])
    {
      H[r, c] := x[r];
    }
  }

  class EqnSys {
    /** `abs` of the number type. */
    const abs: Complex -> real
    var N: nat
    var update: bool
    var A: array2<Complex>
    var X: array<Complex>
    var B: array<Complex>
    var rMap: array<int>
    var nPvt: array<real>

    ghost predicate Valid()
      reads this
    {
      && IsModulus(abs)
      && A.Length0 == N && A.Length1 == N
      && X.Length == N && B.Length == N && X != B
      && rMap.Length == N && nPvt.Length == N
    }

    constructor (abs: Complex -> real)
      requires IsModulus(abs)
      ensures Valid() && N == 0 && update && this.abs == abs
      ensures fresh(A) && fresh(X) && fresh(B) && fresh(rMap) && fresh(nPvt)
    {
      this.abs := abs;
      N, update := 0, true;
      A := new Complex[0, 0];
      X := new Complex[0];
      B := new Complex[0];
      rMap := new int[0];
      nPvt := new real[0];
    }

    /** Passes the matrix (or keeps the factors of the last one), the vector for the
        solution and the right hand side, which is copied. */
    method PassEquationSys(nA: array2?<Complex>, refX: array<Complex>, nB: array<Complex>)
      requires Valid() && refX.Length == nB.Length
      requires if nA == null then nB.Length == N else nA.Length0 == nA.Length1 == nB.Length
      modifies this
      ensures Valid() && X == refX && fresh(B) && B[..] == nB[..]
      ensures if nA == null then !update && A == old(A) && N == old(N) else update && A == nA && N == nA.Length1
      ensures if N == old(N) then rMap == old(rMap) && nPvt == old(nPvt) else fresh(rMap) && fresh(nPvt)
    {
      hide IsModulus;
      if nA != null {
        A := nA;
        update := true;
        if N != A.Length1 {
          N := A.Length1;
          rMap := new int[N];
          nPvt := new real[N];
        }
      } else {
        update := false;
      }
      B := new Complex[nB.Length](i requires 0 <= i < nB.Length reads nB => nB[i]);
      X := refX;
    }

    // ----- the loops shared by both factorizations -----

    /** Subtracts the products of the first m inner indices from entry (r, c). */
    method Reduce(r: nat, c: nat, m: nat) returns (f: Complex)
      requires Valid() && r < N && c < N && m <= N
      ensures f == Sub(A[r, c], Product(m, Entries(A), Entries(A), r, c))
    {
      hide Mul, Product, IsModulus;
      ghost var w := Entries(A);
      assert Product(0, w, w, r, c) == Zero by { ProductEmpty(w, w, r, c); }
      f := A[r, c];
      for k := 0 to m
        invariant f == Sub(A[r, c], Product(k, w, w, r, c))
      {
        ProductLast(k, w, w, r, c);
        f := Sub(f, Mul(A[r, k], A[k, c]));
      }
    }

    method ExchangeRows(a: nat, b: nat)
      requires Valid() && a < N && b < N
      modifies A
      ensures RowsExchanged(N, old(Entries(A)), Entries(A), a, b)
    {
      hide IsModulus;
      for c := 0 to N
        invariant forall i, j :: 0 <= i < N && 0 <= j < N ==>
          A[i, j] == old(A[if j < c && i == a then b else if j < c && i == b then a else i, j])
      {
        A[a, c], A[b, c] := A[b, c], A[a, c];
      }
    }

    method RowMaximum(r: nat) returns (maxPivot: real)
      requires Valid() && r < N
      ensures maxPivot > 0.0 && IsRowSize(abs, N, Entries(A), r, maxPivot)
    {
      hide IsModulus;
      maxPivot := 0.0;
      for c := 0 to N
        invariant maxPivot >= 0.0 && forall j :: 0 <= j < c ==> abs(A[r, j]) <= maxPivot
        invariant maxPivot > 0.0 ==> exists j :: 0 <= j < c && abs(A[r, j]) == maxPivot
      {
        var d := abs(A[r, c]);
        if d > maxPivot { maxPivot := d; }
      }
      if maxPivot <= 0.0 { maxPivot := NR_TINY; }
    }

    /** Initializes the pivot exchange table and the row scales. */
    method InitializePivots()
      requires Valid()
      modifies rMap, nPvt
      ensures IsPermutation(N, rMap[..]) && forall i :: 0 <= i < N ==> rMap[i] == i
      ensures forall i :: 0 <= i < N ==> nPvt[i] > 0.0 && IsScale(abs, N, Entries(A), i, nPvt[i])
      ensures IsScaled(abs, N, Entries(A), rMap[..], nPvt[..])
    {
      hide IsModulus, IsRowSize;
      for r := 0 to N
        invariant forall i :: 0 <= i < r ==> rMap[i] == i
        invariant forall i :: 0 <= i < r ==> nPvt[i] > 0.0 && IsScale(abs, N, Entries(A), i, nPvt[i])
      {
        var maxPivot := RowMaximum(r);
        nPvt[r] := 1.0 / maxPivot;
        assert IsRowSize(abs, N, Entries(A), r, maxPivot) && Times(nPvt[r], maxPivot) == 1.0;
        rMap[r] := r;
      }
      forall v | 0 <= v < N ensures v in rMap[..] { assert rMap[..][v] == v; }
    }

    /** Lower matrix entry (r, c). */
    method LowerEntry(r: nat, c: nat)
      requires Valid() && c <= r < N
      modifies A
      ensures forall i, j :: 0 <= i < N && 0 <= j < N && (i != r || j != c) ==> A[i, j] == old(A[i, j])
      ensures forall i :: c <= i < N ==>
        Product(c, Entries(A), Entries(A), i, c) == old(Product(c, Entries(A), Entries(A), i, c))
      ensures Add(Product(c, Entries(A), Entries(A), r, c), A[r, c]) == old(A[r, c])
    {
      hide Mul, Product, IsModulus;
      ghost var w := Entries(A);
      var f := Reduce(r, c, c);
      A[r, c] := f;
      forall i | c <= i < N
        ensures Product(c, Entries(A), Entries(A), i, c) == Product(c, w, w, i, c)
      {
        ProductExt(c, Entries(A), Entries(A), w, w, i, c, i, c);
      }
    }

    /** The scaled size of entry (r, c), by which pivots are chosen. */
    ghost function Weight(r: int, c: int): real
      requires Valid() && 0 <= r < N && 0 <= c < N
      reads this, A, nPvt
    {
      Times(nPvt[r], abs(A[r, c]))
    }

    lemma WeightSign(r: int, c: int)
      requires Valid() && 0 <= r < N && 0 <= c < N && nPvt[r] > 0.0
      ensures Weight(r, c) >= 0.0
      ensures Weight(r, c) == 0.0 <==> A[r, c] == Zero
    {
      hide Times;
      ModulusZero(abs, A[r, c]);
      TimesSign(nPvt[r], abs(A[r, c]));
    }

    lemma WeightsLargest(c: nat, pivot: nat)
      requires Valid() && c < N && pivot < N && forall i :: c <= i < N ==> Weight(i, c) <= Weight(pivot, c)
      ensures Largest(abs, N, Entries(A), nPvt[..], c, pivot)
    {
      hide IsModulus, Times;
      forall i | c <= i < N ensures Times(nPvt[..][i], abs(Entries(A)(i, c)))
        <= Times(nPvt[..][pivot], abs(Entries(A)(pivot, c)))
      {
        assert Weight(i, c) <= Weight(pivot, c);
      }
    }

    /** Lower matrix entries of column c, and the pivot search among them. */
    method LowerColumn(c: nat) returns (pivot: nat, maxPivot: real)
      requires Valid() && c < N
      requires forall i :: 0 <= i < N ==> nPvt[i] > 0.0
      modifies A
      ensures forall i, j :: 0 <= i < N && 0 <= j < N && (j != c || i < c) ==> A[i, j] == old(A[i, j])
      ensures forall i :: c <= i < N ==>
        Add(Product(c, Entries(A), Entries(A), i, c), A[i, c]) == old(A[i, c])
      ensures c <= pivot < N && maxPivot == Weight(pivot, c)
      ensures forall i :: c <= i < N ==> Weight(i, c) <= maxPivot
      ensures maxPivot <= 0.0 ==> pivot == c && forall i :: c <= i < N ==> A[i, c] == Zero
      ensures maxPivot > 0.0 ==> A[pivot, c] != Zero
    {
      hide Mul, Product, Times, IsModulus;
      pivot, maxPivot := c, 0.0;
      for r := c to N
        invariant forall i, j :: 0 <= i < N && 0 <= j < N && (j != c || i < c || i >= r) ==> A[i, j] == old(A[i, j])
        invariant forall i :: c <= i < r ==>
          Add(Product(c, Entries(A), Entries(A), i, c), A[i, c]) == old(A[i, c])
        invariant c <= pivot < N && (r > c ==> pivot < r) && maxPivot >= 0.0
        invariant forall i :: c <= i < r ==> Weight(i, c) <= maxPivot
        invariant if r == c then maxPivot == 0.0 else maxPivot == Weight(pivot, c)
        invariant maxPivot == 0.0 ==> pivot == c
      {
        label before:
        LowerEntry(r, c);
        assert forall i :: c <= i < r ==> Weight(i, c) == old@before(Weight(i, c));
        WeightSign(r, c);
        var d := Times(nPvt[r], abs(A[r, c]));
        if d > maxPivot {
          maxPivot := d;
          pivot := r;
        }
      }
      forall i | c <= i < N ensures maxPivot <= 0.0 ==> A[i, c] == Zero {
        WeightSign(i, c);
      }
      WeightSign(pivot, c);
    }

    // ----- Crout -----

    /** Upper matrix entry (r, c). */
    method UpperEntryCrout(r: nat, c: nat)
      requires Valid() && r < c < N && A[r, r] != Zero
      modifies A
      ensures forall i, j :: 0 <= i < N && 0 <= j < N && (i != r || j != c) ==> A[i, j] == old(A[i, j])
      ensures forall i: nat :: i < r ==> CroutEntry(Entries(A), i, c) == old(CroutEntry(Entries(A), i, c))
      ensures CroutEntry(Entries(A), r, c) == old(A[r, c])
    {
      hide Mul, Div, Product, IsModulus;
      ghost var w := Entries(A);
      var f := Reduce(r, c, r);
      A[r, c] := Div(f, A[r, r]);
      forall i: nat | i < r ensures CroutEntry(Entries(A), i, c) == CroutEntry(w, i, c) {
        CroutEntryExt(w, Entries(A), i, i, c);
      }
      ProductExt(r, Entries(A), Entries(A), w, w, r, c, r, c);
      ProductLast(r, Entries(A), Entries(A), r, c);
      DivMul(f, A[r, r]);
    }

    /** Upper matrix entries of column c. */
    method UpperColumnCrout(c: nat)
      requires Valid() && c < N && PivotsNonzero(c, Entries(A))
      modifies A
      ensures forall i, j :: 0 <= i < N && 0 <= j < N && (j != c || i >= c) ==> A[i, j] == old(A[i, j])
      ensures forall i: nat :: i < c ==> CroutEntry(Entries(A), i, c) == old(A[i, c])
      ensures SameBefore(N, old(Entries(A)), Entries(A), c)
    {
      hide CroutEntry, IsModulus;
      for r := 0 to c
        invariant forall i, j :: 0 <= i < N && 0 <= j < N && (j != c || i >= r) ==> A[i, j] == old(A[i, j])
        invariant forall i: nat :: i < r ==> CroutEntry(Entries(A), i, c) == old(A[i, c])
      {
        assert A[r, r] == old(Entries(A)(r, r));
        UpperEntryCrout(r, c);
      }
    }

    /** Inserts a virtual resistance to ground. */
    method VirtualResistance(c: nat)
      requires Valid() && c < N
      modifies A
      ensures forall r, j :: 0 <= r < N && 0 <= j < N ==>
        Entries(A)(r, j) == if r == c && j == c then FromReal(NR_TINY) else old(Entries(A))(r, j)
    {
      hide IsModulus;
      A[c, c] := FromReal(NR_TINY);
    }

    /** Swaps the matrix rows and remembers that step in the exchange table. */
    method MovePivot(c: nat, pivot: nat)
      requires Valid() && c < N && pivot < N
      modifies A, rMap, nPvt
      ensures RowsExchanged(N, old(Entries(A)), Entries(A), c, pivot)
      ensures rMap[..] == Exchange(old(rMap[..]), c, pivot)
      ensures nPvt[..] == Exchange(old(nPvt[..]), c, pivot)
      ensures rMap[c] == old(rMap[pivot]) && forall i :: 0 <= i < N && i != c && i != pivot ==> rMap[i] == old(rMap[i])
      ensures old(forall i :: 0 <= i < N ==> nPvt[i] > 0.0) ==> forall i :: 0 <= i < N ==> nPvt[i] > 0.0
    {
      hide IsModulus;
      if c != pivot {
        ExchangeRows(c, pivot);
        rMap[c], rMap[pivot] := rMap[pivot], rMap[c];
        nPvt[c], nPvt[pivot] := nPvt[pivot], nPvt[c];
      }
    }

    /** Reduces column c and finds its pivot. */
    method ReduceColumnCrout(c: nat, ghost M: Matrix) returns (pivot: nat, maxPivot: real)
      requires Valid() && c < N
      requires IsPermutation(N, rMap[..]) && forall i :: 0 <= i < N ==> nPvt[i] > 0.0
      requires CroutColumns(N, M, rMap[..], Entries(A), c) && PivotsNonzero(c, Entries(A))
      requires Untouched(N, M, rMap[..], Entries(A), c)
      modifies A
      ensures CroutColumns(N, M, rMap[..], Entries(A), c + 1) && PivotsNonzero(c, Entries(A))
      ensures Untouched(N, M, rMap[..], Entries(A), c + 1)
      ensures c <= pivot < N && (maxPivot > 0.0 ==> A[pivot, c] != Zero)
      ensures maxPivot <= 0.0 ==> pivot == c && forall i :: c <= i < N ==> A[i, c] == Zero
      ensures SameBefore(N, old(Entries(A)), Entries(A), c) && Largest(abs, N, Entries(A), nPvt[..], c, pivot)
    {
      hide Mul, Product, Apply, CroutEntry, Sum, CroutColumns, Weight, IsModulus, Nonsingular,
        SameBefore, Largest;
      ghost var w0, p := Entries(A), rMap[..];
      UpperColumnCrout(c);
      ghost var w1 := Entries(A);
      pivot, maxPivot := LowerColumn(c);
      CroutColumnDone(N, M, p, w0, w1, Entries(A), c);
      WeightsLargest(c, pivot);
      SameColumns(N, w1, Entries(A), c);
      SameTransitive(N, w0, w1, Entries(A), c);
    }

    /** Factors column c in place and searches its pivot; without a pivot the virtual
        resistance is inserted.  `M` is the matrix factored so far, resistances included. */
    method EliminateColumnCrout(c: nat, ghost M: Matrix) returns (failed: bool, pivot: nat)
      requires Valid() && c < N
      requires IsPermutation(N, rMap[..]) && forall i :: 0 <= i < N ==> nPvt[i] > 0.0
      requires CroutColumns(N, M, rMap[..], Entries(A), c) && PivotsNonzero(c, Entries(A))
      requires Untouched(N, M, rMap[..], Entries(A), c)
      modifies A
      ensures c <= pivot < N && A[pivot, c] != Zero
      ensures var M' := if failed then Bumped(M, rMap[c], c, FromReal(NR_TINY)) else M;
        && CroutColumns(N, M', rMap[..], Entries(A), c + 1)
        && PivotsNonzero(c, Entries(A))
        && Untouched(N, M', rMap[..], Entries(A), c + 1)
      ensures failed ==> pivot == c && !Nonsingular(N, M)
      ensures SameBefore(N, old(Entries(A)), Entries(A), c) && Largest(abs, N, Entries(A), nPvt[..], c, pivot)
    {
      hide Product, Apply, CroutEntry, Sum, CroutColumns, IsModulus, Nonsingular, IsPermutation, Bumped, Untouched,
        SameBefore, Largest;
      ghost var p := rMap[..];
      PermutationLength(N, p);
      var maxPivot;
      pivot, maxPivot := ReduceColumnCrout(c, M);
      failed := maxPivot <= 0.0;
      if failed {
        ghost var w := Entries(A);
        CroutFailure(N, M, p, w, c);
        VirtualResistance(c);
        ResistanceLargest(abs, N, w, Entries(A), nPvt[..], c);
        SameTransitive(N, old(Entries(A)), w, Entries(A), c);
        CroutResistance(N, M, p, w, Entries(A), c, FromReal(NR_TINY));
        UntouchedBumped(N, M, p, w, Entries(A), c, FromReal(NR_TINY));
      }
    }

    /** One round of the factorization: column c is factored, its pivot moved to the
        diagonal. */
    method CroutColumn(c: nat, ghost M: Matrix) returns (failed: bool, ghost pivot: nat)
      requires Valid() && c < N
      requires IsPermutation(N, rMap[..]) && forall i :: 0 <= i < N ==> nPvt[i] > 0.0
      requires CroutColumns(N, M, rMap[..], Entries(A), c) && PivotsNonzero(c, Entries(A))
      requires Untouched(N, M, rMap[..], Entries(A), c)
      modifies A, rMap, nPvt
      ensures IsPermutation(N, rMap[..]) && forall i :: 0 <= i < N ==> nPvt[i] > 0.0
      ensures forall i :: 0 <= i < c ==> rMap[i] == old(rMap[i])
      ensures var M' := if failed then Bumped(M, rMap[c], c, FromReal(NR_TINY)) else M;
        && CroutColumns(N, M', rMap[..], Entries(A), c + 1)
        && PivotsNonzero(c + 1, Entries(A))
        && Untouched(N, M', rMap[..], Entries(A), c + 1)
      ensures failed ==> !Nonsingular(N, M)
      ensures c <= pivot < N && rMap[..] == Exchange(old(rMap[..]), c, pivot)
      ensures nPvt[..] == Exchange(old(nPvt[..]), c, pivot)
      ensures old(CroutPivots(abs, N, Entries(A), nPvt[..], c)) ==> CroutPivots(abs, N, Entries(A), nPvt[..], c + 1)
    {
      hide Mul, CroutColumns, Untouched, IsModulus, Nonsingular, IsPermutation, Bumped, PivotsNonzero, RowsExchanged,
        Exchange, SameBefore, Largest, CroutPivots;
      ghost var p, s, w0 := rMap[..], nPvt[..], Entries(A);
      PermutationLength(N, p);
      var row;
      failed, row := EliminateColumnCrout(c, M);
      pivot := row;
      ghost var M' := if failed then Bumped(M, p[c], c, FromReal(NR_TINY)) else M;
      ghost var w := Entries(A);
      MovePivot(c, row);
      CroutPivotsStep(abs, N, w0, w, Entries(A), s, c, pivot);
      PivotMoved(N, w, Entries(A), c, pivot);
      CroutExchange(N, M', p, w, Entries(A), c + 1, c, pivot);
      UntouchedExchange(N, M', p, w, Entries(A), c + 1, c, pivot);
      ExchangePermutation(N, p, c, pivot);
    }

    /** The packed matrix and the exchange table are a Crout factorization of M. */
    ghost predicate PackedCrout(M: Matrix)
      requires Valid()
      reads this, A, rMap
    {
      && IsPermutation(N, rMap[..])
      && Factors(N, M, rMap[..], CroutL(Entries(A)), CroutU(Entries(A)))
      && IsLower(N, CroutL(Entries(A))) && IsUpper(N, CroutU(Entries(A)))
    }

    /** LU decomposition (Crout's definition) with implicit partial row pivoting.
        `singular` holds the columns that raised the singularity exception. */
    method FactorizeLuCrout() returns (singular: set<int>)
      requires Valid()
      modifies A, rMap, nPvt
      ensures forall c :: c in singular ==> 0 <= c < N
      ensures PackedCrout(WithResistances(old(Entries(A)), rMap[..], singular))
      ensures singular == {} <==> Nonsingular(N, old(Entries(A)))
      ensures IsScaled(abs, N, old(Entries(A)), rMap[..], nPvt[..]) && CroutPivots(abs, N, Entries(A), nPvt[..], N)
    {
      hide Mul, Product, Apply, CroutEntry, Sum, CroutColumns, IsModulus, Nonsingular, SameMatrix, Untouched,
        PivotsNonzero, IsLower, IsUpper, Factors, WithResistances, Exchange, IsScaled, CroutPivots,
        Bumped, IsPermutation;
      ghost var original := Entries(A);
      InitializePivots();
      singular := {};
      NothingPivoted(abs, N, original, nPvt[..]);
      ghost var M := original;
      NoColumns(N, M, rMap[..], original);
      NothingFactored(N, original, rMap[..]);
      for c := 0 to N
        invariant IsPermutation(N, rMap[..]) && forall i :: 0 <= i < N ==> nPvt[i] > 0.0
        invariant CroutColumns(N, M, rMap[..], Entries(A), c) && PivotsNonzero(c, Entries(A))
        invariant Untouched(N, M, rMap[..], Entries(A), c)
        invariant forall j :: j in singular ==> 0 <= j < c
        invariant SameMatrix(N, M, WithResistances(original, rMap[..], singular))
        invariant IsScaled(abs, N, original, rMap[..], nPvt[..]) && CroutPivots(abs, N, Entries(A), nPvt[..], c)
        invariant singular != {} ==> !Nonsingular(N, original)
      {
        ghost var p, s := rMap[..], nPvt[..];
        ghost var pivot;
        var failed;
        failed, pivot := CroutColumn(c, M);
        ScaledExchanged(abs, N, original, p, s, c, pivot);
        ResistanceStep(N, original, M, p, rMap[..], singular, c);
        if failed {
          if singular == {} && Nonsingular(N, original) {
            NoResistances(N, original, M, rMap[..]);
            NonsingularExt(N, original, M);
            assert false;
          }
          singular := singular + {c};
          M := Bumped(M, rMap[c], c, FromReal(NR_TINY));
        }
      }
      var M' := WithResistances(original, rMap[..], singular);
      CroutColumnsExt(N, M, M', rMap[..], Entries(A));
      CroutFactors(N, M', rMap[..], Entries(A));
      if singular == {} {
        FactorsNonsingular(N, M', rMap[..], CroutL(Entries(A)), CroutU(Entries(A)));
        NoResistances(N, original, M', rMap[..]);
        NonsingularExt(N, M', original);
      }
    }

    // ----- substitution -----

    /** Subtracts the products with the entries lo, ..., hi - 1 of X. */
    method SubtractRow(start: Complex, i: nat, lo: nat, hi: nat) returns (f: Complex)
      requires Valid() && i < N && lo <= hi <= N
      ensures f == Sub(start, Span(lo, hi, Entries(A), Elements(X), i))
    {
      hide Mul, IsModulus;
      f := start;
      for c := lo to hi
        invariant f == Sub(start, Span(lo, c, Entries(A), Elements(X), i))
      {
        f := Sub(f, Mul(A[i, c], X[c]));
      }
    }

    /** The right hand side in the order of the exchange table. */
    ghost function PermutedB(): (b: Vector)
      requires Valid() && IsPermutation(N, rMap[..])
      reads this, rMap, B
      ensures forall i :: 0 <= i < N ==> b(i) == B[rMap[i]]
    {
      var p, b := rMap[..], Elements(B);
      i => if 0 <= i < |p| then b(p[i]) else Zero
    }

    /** Forward substitution of entry i; Doolittle's L has ones on its diagonal. */
    method ForwardEntry(crout: bool, i: nat, ghost L: Matrix)
      requires Valid() && i < N && IsPermutation(N, rMap[..])
      requires L == if crout then CroutL(Entries(A)) else DoolittleL(Entries(A))
      requires IsLower(N, L)
      modifies X
      ensures Apply(N, L, Elements(X), i) == B[rMap[i]]
      ensures forall k :: 0 <= k < i ==> Apply(N, L, Elements(X), k) == old(Apply(N, L, Elements(X), k))
    {
      hide Mul, Apply, Div, IsModulus;
      ghost var y := Elements(X);
      var f := SubtractRow(B[rMap[i]], i, 0, i);
      if crout {
        assert L(i, i) == A[i, i];
        X[i] := Div(f, A[i, i]);
        DivMul(f, A[i, i]);
      } else {
        X[i] := f;
        MulUnits(f);
      }
      SpanExt(0, i, Entries(A), y, Entries(A), Elements(X), i);
      ForwardRow(N, L, Entries(A), Elements(X), i, B[rMap[i]]);
      forall k | 0 <= k < i ensures Apply(N, L, Elements(X), k) == Apply(N, L, y, k) {
        LowerRowExt(N, L, y, Elements(X), k);
      }
    }

    /** Forward substitution for LY = B. */
    method Forward(crout: bool, ghost L: Matrix)
      requires Valid() && IsPermutation(N, rMap[..])
      requires L == if crout then CroutL(Entries(A)) else DoolittleL(Entries(A))
      requires IsLower(N, L)
      modifies X
      ensures Solves(N, L, Elements(X), PermutedB())
    {
      hide Apply, IsModulus, IsLower;
      for i := 0 to N
        invariant forall k :: 0 <= k < i ==> Apply(N, L, Elements(X), k) == B[rMap[k]]
      {
        ForwardEntry(crout, i, L);
      }
    }

    /** Backward substitution of entry i; Crout's U has ones on its diagonal. */
    method BackwardEntry(crout: bool, i: nat, ghost U: Matrix)
      requires Valid() && i < N
      requires U == if crout then CroutU(Entries(A)) else DoolittleU(Entries(A))
      requires IsUpper(N, U)
      modifies X
      ensures forall k :: 0 <= k < N && k != i ==> X[k] == old(X[k])
      ensures Apply(N, U, Elements(X), i) == old(X[i])
      ensures forall k :: i < k < N ==> Apply(N, U, Elements(X), k) == old(Apply(N, U, Elements(X), k))
    {
      hide Mul, Apply, Div, IsModulus, Span;
      ghost var x := Elements(X);
      var f := SubtractRow(X[i], i, i + 1, N);
      if crout {
        X[i] := f;
        MulUnits(f);
      } else {
        assert U(i, i) == A[i, i];
        X[i] := Div(f, A[i, i]);
        DivMul(f, A[i, i]);
      }
      BackwardStep(N, U, Entries(A), x, Elements(X), i, x(i), f);
    }

    /** Backward substitution for UX = Y, where X holds Y at first. */
    method Backward(crout: bool, ghost U: Matrix)
      requires Valid()
      requires U == if crout then CroutU(Entries(A)) else DoolittleU(Entries(A))
      requires IsUpper(N, U)
      modifies X
      ensures Solves(N, U, Elements(X), old(Elements(X)))
    {
      hide Apply, IsModulus, IsUpper;
      for i := N downto 0
        invariant forall k :: 0 <= k < i ==> X[k] == old(X[k])
        invariant forall k :: i <= k < N ==> Apply(N, U, Elements(X), k) == old(X[k])
      {
        BackwardEntry(crout, i, U);
      }
    }

    /** The system the packed factors stand for is solved for the right hand side B. */
    method SubstituteLuCrout(ghost M: Matrix)
      requires Valid() && PackedCrout(M)
      modifies X
      ensures Solves(N, M, Elements(X), Elements(B))
    {
      hide Product, Apply, IsModulus;
      Forward(true, CroutL(Entries(A)));
      ghost var y := Elements(X);
      Backward(true, CroutU(Entries(A)));
      SubstitutionSolves(N, M, rMap[..], CroutL(Entries(A)), CroutU(Entries(A)), Elements(X), y, Elements(B));
    }

    method SubstituteLuDoolittle(ghost M: Matrix)
      requires Valid() && PackedDoolittle(M)
      modifies X
      ensures Solves(N, M, Elements(X), Elements(B))
    {
      hide Product, Apply, IsModulus;
      Forward(false, DoolittleL(Entries(A)));
      ghost var y := Elements(X);
      Backward(false, DoolittleU(Entries(A)));
      SubstitutionSolves(N, M, rMap[..], DoolittleL(Entries(A)), DoolittleU(Entries(A)), Elements(X), y, Elements(B));
    }

    // ----- Doolittle -----

    method UpperEntryDoolittle(r: nat, c: nat)
      requires Valid() && r < c < N
      modifies A
      ensures forall i, j :: 0 <= i < N && 0 <= j < N && (i != r || j != c) ==> A[i, j] == old(A[i, j])
      ensures forall i: nat :: i < r ==> DoolittleEntry(Entries(A), i, c) == old(DoolittleEntry(Entries(A), i, c))
      ensures DoolittleEntry(Entries(A), r, c) == old(A[r, c])
    {
      hide Product, IsModulus;
      ghost var w := Entries(A);
      var f := Reduce(r, c, r);
      A[r, c] := f;
      forall i: nat | i < r ensures DoolittleEntry(Entries(A), i, c) == DoolittleEntry(w, i, c) {
        DoolittleEntryExt(w, Entries(A), i, i, c);
      }
      ProductExt(r, Entries(A), Entries(A), w, w, r, c, r, c);
    }

    method UpperColumnDoolittle(c: nat)
      requires Valid() && c < N
      modifies A
      ensures forall i, j :: 0 <= i < N && 0 <= j < N && (j != c || i >= c) ==> A[i, j] == old(A[i, j])
      ensures forall i: nat :: i < c ==> DoolittleEntry(Entries(A), i, c) == old(A[i, c])
      ensures SameBefore(N, old(Entries(A)), Entries(A), c)
    {
      hide DoolittleEntry, IsModulus;
      for r := 0 to c
        invariant forall i, j :: 0 <= i < N && 0 <= j < N && (j != c || i >= r) ==> A[i, j] == old(A[i, j])
        invariant forall i: nat :: i < r ==> DoolittleEntry(Entries(A), i, c) == old(A[i, c])
      {
        UpperEntryDoolittle(r, c);
      }
    }

    /** Reduces column c and finds its pivot. */
    method ReduceColumnDoolittle(c: nat, ghost M: Matrix) returns (pivot: nat, maxPivot: real)
      requires Valid() && c < N
      requires IsPermutation(N, rMap[..]) && forall i :: 0 <= i < N ==> nPvt[i] > 0.0
      requires DoolittleColumns(N, M, rMap[..], Entries(A), c) && PivotsNonzero(c, Entries(A))
      requires Untouched(N, M, rMap[..], Entries(A), c)
      modifies A
      ensures DoolittlePartial(N, M, rMap[..], Entries(A), c) && PivotsNonzero(c, Entries(A))
      ensures Untouched(N, M, rMap[..], Entries(A), c + 1)
      ensures c <= pivot < N && (maxPivot > 0.0 ==> A[pivot, c] != Zero)
      ensures maxPivot <= 0.0 ==> pivot == c && forall i :: c <= i < N ==> A[i, c] == Zero
      ensures SameBefore(N, old(Entries(A)), Entries(A), c) && Largest(abs, N, Entries(A), nPvt[..], c, pivot)
    {
      hide Mul, Product, Apply, DoolittleEntry, Sum, DoolittlePartial, DoolittleColumns, Weight, IsModulus, Nonsingular,
        SameBefore, Largest;
      ghost var w0, p := Entries(A), rMap[..];
      UpperColumnDoolittle(c);
      ghost var w1 := Entries(A);
      pivot, maxPivot := LowerColumn(c);
      DoolittleColumnDone(N, M, p, w0, w1, Entries(A), c);
      WeightsLargest(c, pivot);
      SameColumns(N, w1, Entries(A), c);
      SameTransitive(N, w0, w1, Entries(A), c);
    }

    method EliminateColumnDoolittle(c: nat, ghost M: Matrix) returns (failed: bool, pivot: nat)
      requires Valid() && c < N
      requires IsPermutation(N, rMap[..]) && forall i :: 0 <= i < N ==> nPvt[i] > 0.0
      requires DoolittleColumns(N, M, rMap[..], Entries(A), c) && PivotsNonzero(c, Entries(A))
      requires Untouched(N, M, rMap[..], Entries(A), c)
      modifies A
      ensures c <= pivot < N && A[pivot, c] != Zero
      ensures var M' := if failed then Bumped(M, rMap[c], c, FromReal(NR_TINY)) else M;
        && DoolittlePartial(N, M', rMap[..], Entries(A), c)
        && PivotsNonzero(c, Entries(A))
        && Untouched(N, M', rMap[..], Entries(A), c + 1)
      ensures failed ==> pivot == c && !Nonsingular(N, M)
      ensures SameBefore(N, old(Entries(A)), Entries(A), c) && Largest(abs, N, Entries(A), nPvt[..], c, pivot)
    {
      hide Product, Apply, DoolittleEntry, Sum, DoolittlePartial, DoolittleColumns, IsModulus, Nonsingular,
        IsPermutation, Bumped, Untouched, SameBefore, Largest;
      ghost var p := rMap[..];
      PermutationLength(N, p);
      var maxPivot;
      pivot, maxPivot := ReduceColumnDoolittle(c, M);
      failed := maxPivot <= 0.0;
      if failed {
        ghost var w := Entries(A);
        DoolittleFailure(N, M, p, w, c);
        VirtualResistance(c);
        ResistanceLargest(abs, N, w, Entries(A), nPvt[..], c);
        SameTransitive(N, old(Entries(A)), w, Entries(A), c);
        DoolittleResistance(N, M, p, w, Entries(A), c, FromReal(NR_TINY));
        UntouchedBumped(N, M, p, w, Entries(A), c, FromReal(NR_TINY));
      }
    }

    /** Divides the lower entries of column c by the pivot element. */
    method DivideColumn(c: nat)
      requires Valid() && c < N && A[c, c] != Zero
      modifies A
      ensures forall i, j :: 0 <= i < N && 0 <= j < N && (j != c || i <= c) ==> A[i, j] == old(A[i, j])
      ensures forall i :: c < i < N ==> Mul(A[i, c], old(A[c, c])) == old(A[i, c])
      ensures SameBefore(N, old(Entries(A)), Entries(A), c)
    {
      hide Mul, Inv, IsModulus;
      if c < N - 1 {
        var f := Div(One, A[c, c]);
        for r := c + 1 to N
          invariant forall i, j :: 0 <= i < N && 0 <= j < N && (j != c || i <= c || i >= r) ==> A[i, j] == old(A[i, j])
          invariant forall i :: c < i < r ==> Mul(A[i, c], old(A[c, c])) == old(A[i, c])
        {
          DivMul(One, A[c, c]);
          MulAssoc(A[r, c], f, A[c, c]);
          MulComm(f, A[c, c]);
          MulUnits(A[r, c]);
          A[r, c] := Mul(A[r, c], f);
        }
      }
    }

    /** Moves the pivot of column c to the diagonal. */
    method MoveDoolittle(c: nat, pivot: nat, ghost M: Matrix)
      requires Valid() && c <= pivot < N && A[pivot, c] != Zero
      requires IsPermutation(N, rMap[..]) && forall i :: 0 <= i < N ==> nPvt[i] > 0.0
      requires DoolittlePartial(N, M, rMap[..], Entries(A), c) && PivotsNonzero(c, Entries(A))
      requires Untouched(N, M, rMap[..], Entries(A), c + 1)
      modifies A, rMap, nPvt
      ensures IsPermutation(N, rMap[..]) && forall i :: 0 <= i < N ==> nPvt[i] > 0.0
      ensures rMap[c] == old(rMap[pivot]) && forall i :: 0 <= i < c ==> rMap[i] == old(rMap[i])
      ensures DoolittlePartial(N, M, rMap[..], Entries(A), c) && PivotsNonzero(c + 1, Entries(A))
      ensures Untouched(N, M, rMap[..], Entries(A), c + 1)
      ensures rMap[..] == Exchange(old(rMap[..]), c, pivot) && nPvt[..] == Exchange(old(nPvt[..]), c, pivot)
      ensures RowsExchanged(N, old(Entries(A)), Entries(A), c, pivot)
    {
      hide Mul, DoolittlePartial, IsModulus, Untouched, IsPermutation, PivotsNonzero, RowsExchanged, Exchange;
      ghost var p, w := rMap[..], Entries(A);
      PermutationLength(N, p);
      MovePivot(c, pivot);
      PivotMoved(N, w, Entries(A), c, pivot);
      DoolittleExchange(N, M, p, w, Entries(A), c, c, pivot);
      UntouchedExchange(N, M, p, w, Entries(A), c + 1, c, pivot);
      ExchangePermutation(N, p, c, pivot);
    }

    /** Eliminates column c and moves its pivot to the diagonal. */
    method PivotColumnDoolittle(c: nat, ghost M: Matrix) returns (failed: bool, ghost pivot: nat, ghost w: Matrix)
      requires Valid() && c < N
      requires IsPermutation(N, rMap[..]) && forall i :: 0 <= i < N ==> nPvt[i] > 0.0
      requires DoolittleColumns(N, M, rMap[..], Entries(A), c) && PivotsNonzero(c, Entries(A))
      requires Untouched(N, M, rMap[..], Entries(A), c)
      modifies A, rMap, nPvt
      ensures IsPermutation(N, rMap[..]) && forall i :: 0 <= i < N ==> nPvt[i] > 0.0
      ensures forall i :: 0 <= i < c ==> rMap[i] == old(rMap[i])
      ensures var M' := if failed then Bumped(M, rMap[c], c, FromReal(NR_TINY)) else M;
        && DoolittlePartial(N, M', rMap[..], Entries(A), c)
        && PivotsNonzero(c + 1, Entries(A))
        && Untouched(N, M', rMap[..], Entries(A), c + 1)
      ensures failed ==> !Nonsingular(N, M)
      ensures c <= pivot < N && rMap[..] == Exchange(old(rMap[..]), c, pivot)
      ensures nPvt[..] == Exchange(old(nPvt[..]), c, pivot) && RowsExchanged(N, w, Entries(A), c, pivot)
      ensures SameBefore(N, old(Entries(A)), w, c) && Largest(abs, N, w, old(nPvt[..]), c, pivot)
    {
      hide Mul, DoolittleColumns, DoolittlePartial, IsModulus, Nonsingular, Untouched, IsPermutation, Bumped,
        PivotsNonzero, RowsExchanged, Exchange, SameBefore, Largest;
      var row;
      failed, row := EliminateColumnDoolittle(c, M);
      pivot, w := row, Entries(A);
      MoveDoolittle(c, row, if failed then Bumped(M, rMap[c], c, FromReal(NR_TINY)) else M);
    }

    method DoolittleColumn(c: nat, ghost M: Matrix) returns (failed: bool, ghost pivot: nat)
      requires Valid() && c < N
      requires IsPermutation(N, rMap[..]) && forall i :: 0 <= i < N ==> nPvt[i] > 0.0
      requires DoolittleColumns(N, M, rMap[..], Entries(A), c) && PivotsNonzero(c, Entries(A))
      requires Untouched(N, M, rMap[..], Entries(A), c)
      modifies A, rMap, nPvt
      ensures IsPermutation(N, rMap[..]) && forall i :: 0 <= i < N ==> nPvt[i] > 0.0
      ensures forall i :: 0 <= i < c ==> rMap[i] == old(rMap[i])
      ensures var M' := if failed then Bumped(M, rMap[c], c, FromReal(NR_TINY)) else M;
        && DoolittleColumns(N, M', rMap[..], Entries(A), c + 1)
        && PivotsNonzero(c + 1, Entries(A))
        && Untouched(N, M', rMap[..], Entries(A), c + 1)
      ensures failed ==> !Nonsingular(N, M)
      ensures c <= pivot < N && rMap[..] == Exchange(old(rMap[..]), c, pivot)
      ensures nPvt[..] == Exchange(old(nPvt[..]), c, pivot)
      ensures old(DoolittlePivots(abs, N, Entries(A), nPvt[..], c)) ==>
        DoolittlePivots(abs, N, Entries(A), nPvt[..], c + 1)
    {
      hide Mul, DoolittleColumns, DoolittlePartial, IsModulus, Nonsingular, Untouched, Bumped, IsPermutation,
        RowsExchanged, Exchange, SameBefore, Largest, DoolittlePivots;
      ghost var s, w0, reduced := nPvt[..], Entries(A), Entries(A);
      failed, pivot, reduced := PivotColumnDoolittle(c, M);
      ghost var M' := if failed then Bumped(M, rMap[c], c, FromReal(NR_TINY)) else M;
      ghost var w := Entries(A);
      DivideColumn(c);
      DoolittlePivotsStep(abs, N, w0, reduced, w, Entries(A), s, c, pivot);
      DoolittleDivided(N, M', rMap[..], w, Entries(A), c);
      UntouchedExt(N, M', rMap[..], w, Entries(A), c + 1);
    }

    /** The packed matrix and the exchange table are a Doolittle factorization of M. */
    ghost predicate PackedDoolittle(M: Matrix)
      requires Valid()
      reads this, A, rMap
    {
      && IsPermutation(N, rMap[..])
      && Factors(N, M, rMap[..], DoolittleL(Entries(A)), DoolittleU(Entries(A)))
      && IsLower(N, DoolittleL(Entries(A))) && IsUpper(N, DoolittleU(Entries(A)))
    }

    /** LU decomposition (Doolittle's definition) with implicit partial row pivoting. */
    method FactorizeLuDoolittle() returns (singular: set<int>)
      requires Valid()
      modifies A, rMap, nPvt
      ensures forall c :: c in singular ==> 0 <= c < N
      ensures PackedDoolittle(WithResistances(old(Entries(A)), rMap[..], singular))
      ensures singular == {} <==> Nonsingular(N, old(Entries(A)))
      ensures IsScaled(abs, N, old(Entries(A)), rMap[..], nPvt[..]) && DoolittlePivots(abs, N, Entries(A), nPvt[..], N)
    {
      hide Mul, Product, Apply, DoolittleEntry, Sum, DoolittleColumns, IsModulus, Nonsingular, SameMatrix, Untouched,
        PivotsNonzero, IsLower, IsUpper, Factors, WithResistances, Exchange, IsScaled,
        DoolittlePivots, Bumped, IsPermutation;
      ghost var original := Entries(A);
      InitializePivots();
      singular := {};
      NothingPivoted(abs, N, original, nPvt[..]);
      ghost var M := original;
      NoColumns(N, M, rMap[..], original);
      NothingFactored(N, original, rMap[..]);
      for c := 0 to N
        invariant IsPermutation(N, rMap[..]) && forall i :: 0 <= i < N ==> nPvt[i] > 0.0
        invariant DoolittleColumns(N, M, rMap[..], Entries(A), c) && PivotsNonzero(c, Entries(A))
        invariant Untouched(N, M, rMap[..], Entries(A), c)
        invariant forall j :: j in singular ==> 0 <= j < c
        invariant SameMatrix(N, M, WithResistances(original, rMap[..], singular))
        invariant IsScaled(abs, N, original, rMap[..], nPvt[..]) && DoolittlePivots(abs, N, Entries(A), nPvt[..], c)
        invariant singular != {} ==> !Nonsingular(N, original)
      {
        ghost var p, s := rMap[..], nPvt[..];
        ghost var pivot;
        var failed;
        failed, pivot := DoolittleColumn(c, M);
        ScaledExchanged(abs, N, original, p, s, c, pivot);
        ResistanceStep(N, original, M, p, rMap[..], singular, c);
        if failed {
          if singular == {} && Nonsingular(N, original) {
            NoResistances(N, original, M, rMap[..]);
            NonsingularExt(N, original, M);
            assert false;
          }
          singular := singular + {c};
          M := Bumped(M, rMap[c], c, FromReal(NR_TINY));
        }
      }
      var M' := WithResistances(original, rMap[..], singular);
      DoolittleColumnsExt(N, M, M', rMap[..], Entries(A));
      DoolittleFactors(N, M', rMap[..], Entries(A));
      if singular == {} {
        FactorsNonsingular(N, M', rMap[..], DoolittleL(Entries(A)), DoolittleU(Entries(A)));
        NoResistances(N, original, M', rMap[..]);
        NonsingularExt(N, M', original);
      }
    }

    // ----- solving with the factors -----

    /** Decomposes unless the factors of M are still in place, then substitutes. */
    method SolveLuCrout(ghost M: Matrix) returns (singular: set<int>)
      requires Valid() && (!update ==> PackedCrout(M))
      modifies A, rMap, nPvt, X
      ensures !update ==> Solves(N, M, Elements(X), Elements(B)) && Entries(A) == old(Entries(A))
      ensures update ==> (singular == {} <==> Nonsingular(N, old(Entries(A))))
      ensures update ==> Solves(N, WithResistances(old(Entries(A)), rMap[..], singular), Elements(X), Elements(B))
      ensures update && singular == {} ==> Solves(N, old(Entries(A)), Elements(X), Elements(B))
    {
      hide Apply, Solves, Nonsingular, IsModulus, Product;
      singular := {};
      ghost var M' := M;
      if update {
        singular := FactorizeLuCrout();
        M' := WithResistances(old(Entries(A)), rMap[..], singular);
      }
      SubstituteLuCrout(M');
      if update && singular == {} { SolvesExt(N, M', Elements(X), old(Entries(A)), Elements(X), Elements(B)); }
    }

    method SolveLuDoolittle(ghost M: Matrix) returns (singular: set<int>)
      requires Valid() && (!update ==> PackedDoolittle(M))
      modifies A, rMap, nPvt, X
      ensures !update ==> Solves(N, M, Elements(X), Elements(B)) && Entries(A) == old(Entries(A))
      ensures update ==> (singular == {} <==> Nonsingular(N, old(Entries(A))))
      ensures update ==> Solves(N, WithResistances(old(Entries(A)), rMap[..], singular), Elements(X), Elements(B))
      ensures update && singular == {} ==> Solves(N, old(Entries(A)), Elements(X), Elements(B))
    {
      hide Apply, Solves, Nonsingular, IsModulus, Product;
      singular := {};
      ghost var M' := M;
      if update {
        singular := FactorizeLuDoolittle();
        M' := WithResistances(old(Entries(A)), rMap[..], singular);
      }
      SubstituteLuDoolittle(M');
      if update && singular == {} { SolvesExt(N, M', Elements(X), old(Entries(A)), Elements(X), Elements(B)); }
    }

    // ----- Gaussian elimination -----

    /** Finds the row with the largest entry of column i, from row i on. */
    method FindPivot(i: nat) returns (pivot: nat, maxPivot: real)
      requires Valid() && i < N
      ensures i <= pivot < N && maxPivot == abs(A[pivot, i])
      ensures forall r :: i <= r < N ==> abs(A[r, i]) <= maxPivot
      ensures maxPivot == 0.0 <==> forall r :: i <= r < N ==> A[r, i] == Zero
    {
      pivot, maxPivot := i, 0.0;
      for r := i to N
        invariant i <= pivot < N
        invariant forall k :: i <= k < r ==> abs(A[k, i]) <= maxPivot
        invariant if r == i then maxPivot == 0.0 && pivot == i else maxPivot == abs(A[pivot, i])
      {
        ModulusZero(abs, A[r, i]);
        if abs(A[r, i]) > maxPivot {
          maxPivot := abs(A[r, i]);
          pivot := r;
        }
      }
      forall r | i <= r < N ensures maxPivot == 0.0 ==> A[r, i] == Zero {
        ModulusZero(abs, A[r, i]);
      }
      ModulusZero(abs, A[pivot, i]);
    }

    method ExchangeEquations(i: nat, j: nat)
      requires Valid() && i < N && j < N
      modifies A, B
      ensures RowsExchanged(N, old(Entries(A)), Entries(A), i, j)
      ensures ElementsExchanged(N, old(Elements(B)), Elements(B), i, j)
    {
      hide IsModulus;
      if i != j {
        ExchangeRows(i, j);
        B[i], B[j] := B[j], B[i];
      }
    }

    /** Row r loses f times row i in the columns after i and in the right hand side. */
    method SubtractEquation(r: nat, i: nat, f: Complex)
      requires Valid() && i < N && r < N && r != i
      modifies A, B
      ensures forall k, c :: 0 <= k < N && 0 <= c < N && (k != r || c <= i) ==> A[k, c] == old(A[k, c])
      ensures forall c :: i < c < N ==> A[r, c] == Sub(old(A[r, c]), Mul(f, old(A[i, c])))
      ensures forall k :: 0 <= k < N && k != r ==> B[k] == old(B[k])
      ensures B[r] == Sub(old(B[r]), Mul(f, old(B[i])))
    {
      hide Mul, IsModulus;
      for c := i + 1 to N
        invariant forall k, j :: 0 <= k < N && 0 <= j < N && (k != r || j <= i || j >= c) ==> A[k, j] == old(A[k, j])
        invariant forall j :: i < j < c ==> A[r, j] == Sub(old(A[r, j]), Mul(f, old(A[i, j])))
        invariant B[..] == old(B[..])
      {
        A[r, c] := Sub(A[r, c], Mul(f, A[i, c]));
      }
      B[r] := Sub(B[r], Mul(f, B[i]));
    }

    /** Eliminates column i from the rows below row i. */
    method EliminateBelow(i: nat) returns (ghost f: Vector)
      requires Valid() && i < N && A[i, i] != Zero
      modifies A, B
      ensures forall k, c :: 0 <= k < N && 0 <= c < N && (k <= i || c <= i) ==> A[k, c] == old(A[k, c])
      ensures forall k :: 0 <= k <= i ==> B[k] == old(B[k])
      ensures RowsEliminated(N, GaussView(old(Entries(A)), i), old(Elements(B)), GaussView(Entries(A), i + 1),
                             Elements(B), i, f)
    {
      hide Mul, Div, IsModulus;
      f := ZeroVector;
      for r := i + 1 to N
        invariant forall k, c :: 0 <= k < N && 0 <= c < N && (k <= i || k >= r || c <= i) ==> A[k, c] == old(A[k, c])
        invariant forall k :: 0 <= k < N && (k <= i || k >= r) ==> B[k] == old(B[k])
        invariant forall k :: k <= i ==> f(k) == Zero
        invariant forall k, c :: i < k < r && i < c < N ==> A[k, c] == Sub(old(A[k, c]), Mul(f(k), old(A[i, c])))
        invariant forall k :: i < k < r ==> B[k] == Sub(old(B[k]), Mul(f(k), old(B[i])))
        invariant forall k :: i < k < r ==> Mul(f(k), old(A[i, i])) == old(A[k, i])
      {
        var t := Div(A[r, i], A[i, i]);
        DivMul(A[r, i], A[i, i]);
        MulComm(t, A[i, i]);
        SubtractEquation(r, i, t);
        f := Assigned(f, r, t);
      }
      EliminatedView(N, old(Entries(A)), old(Elements(B)), Entries(A), Elements(B), i, f);
    }

    /** Backward substitution with the triangulated matrix and right hand side. */
    method BackSubstitute()
      requires Valid() && PivotsNonzero(N, Entries(A))
      modifies X
      ensures Solves(N, GaussView(Entries(A), N), Elements(X), Elements(B))
    {
      hide Mul, Div, Apply, IsModulus, Span;
      ghost var U := GaussView(Entries(A), N);
      for i := N downto 0
        invariant forall k :: i <= k < N ==> Apply(N, U, Elements(X), k) == B[k]
      {
        ghost var x := Elements(X);
        var f := SubtractRow(B[i], i, i + 1, N);
        assert A[i, i] == Entries(A)(i, i) == U(i, i);
        X[i] := Div(f, A[i, i]);
        DivMul(f, A[i, i]);
        BackwardStep(N, U, Entries(A), x, Elements(X), i, B[i], f);
      }
    }

    /** One round of the triangulation; fails when column i has no pivot. */
    method GaussColumn(i: nat, ghost M: Matrix, ghost b: Vector) returns (ok: bool)
      requires Valid() && i < N
      requires PivotsNonzero(i, Entries(A)) && Equivalent(N, M, b, GaussView(Entries(A), i), Elements(B))
      modifies A, B
      ensures !ok ==> !Nonsingular(N, M)
      ensures ok ==> PivotsNonzero(i + 1, Entries(A)) && Equivalent(N, M, b, GaussView(Entries(A), i + 1), Elements(B))
    {
      hide Mul, Equivalent, IsModulus, Nonsingular, RowsEliminated, GaussView;
      var pivot, maxPivot := FindPivot(i);
      ok := maxPivot != 0.0;
      ghost var w, u := Entries(A), Elements(B);
      if !ok {
        GaussFailure(N, w, i);
        EquivalentSingular(N, M, b, GaussView(w, i), u);
        return;
      }
      ModulusZero(abs, A[pivot, i]);
      ExchangeEquations(i, pivot);
      ghost var w', u' := Entries(A), Elements(B);
      ViewExchange(N, w, w', i, pivot);
      ExchangeStep(N, M, b, GaussView(w, i), u, GaussView(w', i), u', i, pivot);
      ghost var f := EliminateBelow(i);
      EliminateStep(N, M, b, GaussView(w', i), u', GaussView(Entries(A), i + 1), Elements(B), i, f);
    }

    /** Gaussian elimination with column pivoting.  The result is false when the pivot
        assertion of the program fails. */
    method SolveGauss() returns (ok: bool)
      requires Valid()
      modifies A, B, X
      ensures ok <==> Nonsingular(N, old(Entries(A)))
      ensures ok ==> Solves(N, old(Entries(A)), Elements(X), old(Elements(B)))
    {
      hide Apply, Solves, Equivalent, IsModulus, Nonsingular, PivotsNonzero;
      ghost var M, b := Entries(A), Elements(B);
      EquivalentExt(N, M, b, GaussView(M, 0), b);
      NoPivots(M);
      for i := 0 to N
        invariant PivotsNonzero(i, Entries(A)) && Equivalent(N, M, b, GaussView(Entries(A), i), Elements(B))
      {
        ok := GaussColumn(i, M, b);
        if !ok { return; }
      }
      ok := true;
      BackSubstitute();
      ghost var U := GaussView(Entries(A), N);
      TriangularView(N, Entries(A));
      UpperNonsingular(N, U);
      EquivalentSingular(N, M, b, U, Elements(B));
      EquivalentSolves(N, M, b, U, Elements(B), Elements(X));
    }

    // ----- Gauss-Jordan -----

    /** Divides row i by its pivot, from the column after it on. */
    method ScaleEquation(i: nat)
      requires Valid() && i < N && A[i, i] != Zero
      modifies A, B
      ensures forall k, c :: 0 <= k < N && 0 <= c < N && (k != i || c <= i) ==> A[k, c] == old(A[k, c])
      ensures forall k :: 0 <= k < N && k != i ==> B[k] == old(B[k])
      ensures forall c :: i < c < N ==> Mul(old(A[i, i]), A[i, c]) == old(A[i, c])
      ensures Mul(old(A[i, i]), B[i]) == old(B[i])
    {
      hide Mul, Div, IsModulus;
      var f := A[i, i];
      for c := i + 1 to N
        invariant forall k, j :: 0 <= k < N && 0 <= j < N && (k != i || j <= i || j >= c) ==> A[k, j] == old(A[k, j])
        invariant forall j :: i < j < c ==> Mul(f, A[i, j]) == old(A[i, j])
        invariant B[..] == old(B[..])
      {
        DivMul(A[i, c], f);
        A[i, c] := Div(A[i, c], f);
      }
      DivMul(B[i], f);
      B[i] := Div(B[i], f);
    }

    /** Eliminates column i from all rows but row i. */
    method EliminateOthers(i: nat) returns (ghost f: Vector)
      requires Valid() && i < N
      modifies A, B
      ensures RowsEliminated(N, ScaledView(old(Entries(A)), i), old(Elements(B)), JordanView(Entries(A), i + 1),
                             Elements(B), i, f)
    {
      hide Mul, IsModulus;
      f := ZeroVector;
      for r := 0 to N
        invariant forall k, c :: 0 <= k < N && 0 <= c < N && (k == i || k >= r || c <= i) ==> A[k, c] == old(A[k, c])
        invariant forall k :: 0 <= k < N && (k == i || k >= r) ==> B[k] == old(B[k])
        invariant f(i) == Zero
        invariant forall k, c :: 0 <= k < r && k != i && i < c < N ==>
          A[k, c] == Sub(old(A[k, c]), Mul(f(k), old(A[i, c])))
        invariant forall k :: 0 <= k < r && k != i ==>
          f(k) == old(A[k, i]) && B[k] == Sub(old(B[k]), Mul(f(k), old(B[i])))
      {
        if r != i {
          f := Assigned(f, r, A[r, i]);
          SubtractEquation(r, i, A[r, i]);
        }
      }
      JordanViewStep(N, old(Entries(A)), old(Elements(B)), Entries(A), Elements(B), i, f);
    }

    method JordanColumn(i: nat, ghost M: Matrix, ghost b: Vector) returns (ok: bool)
      requires Valid() && i < N && Equivalent(N, M, b, JordanView(Entries(A), i), Elements(B))
      modifies A, B
      ensures !ok ==> !Nonsingular(N, M)
      ensures ok ==> Equivalent(N, M, b, JordanView(Entries(A), i + 1), Elements(B))
    {
      hide Mul, Equivalent, IsModulus, Nonsingular, RowsEliminated, RowScaled, JordanView, ScaledView;
      var pivot, maxPivot := FindPivot(i);
      ok := maxPivot != 0.0;
      ghost var w, u := Entries(A), Elements(B);
      if !ok {
        JordanFailure(N, w, i);
        EquivalentSingular(N, M, b, JordanView(w, i), u);
        return;
      }
      ModulusZero(abs, A[pivot, i]);
      ExchangeEquations(i, pivot);
      ghost var w', u' := Entries(A), Elements(B);
      ViewExchange(N, w, w', i, pivot);
      ExchangeStep(N, M, b, JordanView(w, i), u, JordanView(w', i), u', i, pivot);
      ScaleEquation(i);
      ghost var w'', u'' := Entries(A), Elements(B);
      ScaledViewStep(N, w', u', w'', u'', i);
      ScaleStep(N, M, b, JordanView(w', i), u', ScaledView(w'', i), u'', i, w'(i, i));
      ghost var f := EliminateOthers(i);
      EliminateStep(N, M, b, ScaledView(w'', i), u'', JordanView(Entries(A), i + 1), Elements(B), i, f);
    }

    method SolveGaussJordan() returns (ok: bool)
      requires Valid()
      modifies A, B, X
      ensures ok <==> Nonsingular(N, old(Entries(A)))
      ensures ok ==> Solves(N, old(Entries(A)), Elements(X), old(Elements(B)))
    {
      hide Apply, Solves, Equivalent, IsModulus, Nonsingular;
      ghost var M, b := Entries(A), Elements(B);
      EquivalentExt(N, M, b, JordanView(M, 0), b);
      for i := 0 to N
        invariant Equivalent(N, M, b, JordanView(Entries(A), i), Elements(B))
      {
        ok := JordanColumn(i, M, b);
        if !ok { return; }
      }
      ok := true;
      ghost var E, u := JordanView(Entries(A), N), Elements(B);
      UnitSystem(N, E, u);
      EquivalentSingular(N, M, b, E, u);
      EquivalentSolves(N, M, b, E, u, u);
      // right hand side is now the solution
      forall k | 0 <= k < N { X[k] := B[k]; }
      SolvesExt(N, M, u, M, Elements(X), b);
    }
  }
}
