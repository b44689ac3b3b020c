/** The packed triangular factors that the LU factorizations leave in place of the
    matrix, and what they say about the system. */
module Lu {
  import opened ComplexNumbers
  import opened Sums
  import opened LinearAlgebra

  /** Crout: the diagonal belongs to L, the diagonal of U is one. */
  function CroutL(W: Matrix): Matrix {
    (r, k) => if k <= r then W(r, k) else Zero
  }

  function CroutU(W: Matrix): Matrix {
    (k, c) => if k < c then W(k, c) else if k == c then One else Zero
  }

  /** Doolittle: the diagonal belongs to U, the diagonal of L is one. */
  function DoolittleL(W: Matrix): Matrix {
    (r, k) => if k < r then W(r, k) else if k == r then One else Zero
  }

  function DoolittleU(W: Matrix): Matrix {
    (k, c) => if k <= c then W(k, c) else Zero
  }

  ghost predicate PivotsNonzero(c: nat, W: Matrix) {
    forall j :: 0 <= j < c ==> W(j, j) != Zero
  }

  /** The rows of M in the order p are the product of L and U. */
  ghost predicate Factors(n: nat, M: Matrix, p: seq<int>, L: Matrix, U: Matrix)
    requires |p| == n
  {
    forall r, c :: 0 <= r < n && 0 <= c < n ==> Product(n, L, U, r, c) == M(p[r], c)
  }

  // ----- entries of the packed product -----

  /** Entry (r, c) of the product of the packed factors, as the loops accumulate it. */
  function CroutEntry(W: Matrix, r: nat, c: nat): Complex {
    if r < c then Product(r + 1, W, W, r, c) else Add(Product(c, W, W, r, c), W(r, c))
  }

  function DoolittleEntry(W: Matrix, r: nat, c: nat): Complex {
    if r <= c then Add(Product(r, W, W, r, c), W(r, c)) else Product(c + 1, W, W, r, c)
  }

  lemma ProductEmpty(L: Matrix, U: Matrix, r: int, c: int)
    ensures Product(0, L, U, r, c) == Zero
  {}

  lemma ProductLast(m: nat, L: Matrix, U: Matrix, r: int, c: int)
    ensures Product(m + 1, L, U, r, c) == Add(Product(m, L, U, r, c), Mul(L(r, m), U(m, c)))
  {}

  /** Inner indices whose factor on either side is zero do not contribute. */
  lemma ProductTail(m: nat, n: nat, L: Matrix, U: Matrix, r: int, c: int)
    requires m <= n
    requires forall k :: m <= k < n ==> L(r, k) == Zero || U(k, c) == Zero
    ensures Product(n, L, U, r, c) == Product(m, L, U, r, c)
  {
    hide Mul;
    var f := (k: int) => Mul(L(r, k), U(k, c));
    forall k | m <= k < n ensures f(k) == Zero {
      MulUnits(L(r, k));
      MulUnits(U(k, c));
    }
    SumTail(m, n, f);
  }

  lemma CroutProduct(n: nat, W: Matrix, r: nat, c: nat)
    requires r < n && c < n
    ensures Product(n, CroutL(W), CroutU(W), r, c) == CroutEntry(W, r, c)
  {
    hide Mul, Product;
    var L, U := CroutL(W), CroutU(W);
    var m := if r < c then r else c;
    ProductTail(m + 1, n, L, U, r, c);
    ProductLast(m, L, U, r, c);
    ProductExt(m, L, U, W, W, r, c, r, c);
    ProductLast(m, W, W, r, c);
    MulUnits(W(r, c));
  }

  lemma DoolittleProduct(n: nat, W: Matrix, r: nat, c: nat)
    requires r < n && c < n
    ensures Product(n, DoolittleL(W), DoolittleU(W), r, c) == DoolittleEntry(W, r, c)
  {
    hide Mul, Product;
    var L, U := DoolittleL(W), DoolittleU(W);
    var m := if r <= c then r else c;
    ProductTail(m + 1, n, L, U, r, c);
    ProductLast(m, L, U, r, c);
    ProductExt(m, L, U, W, W, r, c, r, c);
    ProductLast(m, W, W, r, c);
    MulUnits(W(r, c));
  }

  // ----- the column invariant -----

  /** The first `cols` columns of the permuted matrix M are factored. */
  ghost predicate CroutColumns(n: nat, M: Matrix, p: seq<int>, W: Matrix, cols: nat)
    requires |p| == n
  {
    forall r: nat, j: nat :: r < n && j < cols ==> CroutEntry(W, r, j) == M(p[r], j)
  }

  ghost predicate DoolittleColumns(n: nat, M: Matrix, p: seq<int>, W: Matrix, cols: nat)
    requires |p| == n
  {
    forall r: nat, j: nat :: r < n && j < cols ==> DoolittleEntry(W, r, j) == M(p[r], j)
  }

  /** W' is W with rows a and b exchanged. */
  ghost predicate RowsExchanged(n: nat, W: Matrix, W': Matrix, a: int, b: int) {
    forall r, c :: 0 <= r < n && 0 <= c < n ==>
      W'(r, c) == W(if r == a then b else if r == b then a else r, c)
  }

  /** The columns from `cols` on still hold the entries of the permuted matrix M. */
  ghost predicate Untouched(n: nat, M: Matrix, p: seq<int>, W: Matrix, cols: nat)
    requires |p| == n
  {
    forall r, j :: 0 <= r < n && cols <= j < n ==> W(r, j) == M(p[r], j)
  }

  /** Changing column c leaves the columns behind it alone. */
  lemma UntouchedBumped(n: nat, M: Matrix, p: seq<int>, W: Matrix, W': Matrix, c: nat, t: Complex)
    requires IsPermutation(n, p) && c < n && Untouched(n, M, p, W, c + 1)
    requires forall r, j :: 0 <= r < n && 0 <= j < n ==> W'(r, j) == if r == c && j == c then t else W(r, j)
    ensures Untouched(n, Bumped(M, p[c], c, t), p, W', c + 1)
  {}

  /** The pivot moves to the diagonal. */
  lemma PivotMoved(n: nat, W: Matrix, W': Matrix, c: nat, pivot: nat)
    requires c <= pivot < n && PivotsNonzero(c, W) && W(pivot, c) != Zero && RowsExchanged(n, W, W', c, pivot)
    ensures PivotsNonzero(c + 1, W')
  {}

  lemma UntouchedExchange(n: nat, M: Matrix, p: seq<int>, W: Matrix, W': Matrix, cols: nat, a: nat, b: nat)
    requires |p| == n && a < n && b < n
    requires Untouched(n, M, p, W, cols) && RowsExchanged(n, W, W', a, b)
    ensures Untouched(n, M, Exchange(p, a, b), W', cols)
  {
    forall r, j | 0 <= r < n && cols <= j < n ensures W'(r, j) == M(Exchange(p, a, b)[r], j) {
      var s := if r == a then b else if r == b then a else r;
      assert W(s, j) == M(p[s], j);
    }
  }

  lemma UntouchedExt(n: nat, M: Matrix, p: seq<int>, W: Matrix, W': Matrix, cols: nat)
    requires |p| == n && Untouched(n, M, p, W, cols)
    requires forall r, j :: 0 <= r < n && cols <= j < n ==> W'(r, j) == W(r, j)
    ensures Untouched(n, M, p, W', cols)
  {}

  lemma CroutEntryExt(W: Matrix, W': Matrix, r: nat, s: nat, c: nat)
    requires r < c ==> s == r
    requires r >= c ==> s >= c
    requires forall k :: 0 <= k <= c ==> W'(r, k) == W(s, k)
    requires forall k :: 0 <= k < c && k <= r ==> W'(k, c) == W(k, c)
    ensures CroutEntry(W', r, c) == CroutEntry(W, s, c)
  {
    hide Product;
    var m := if r < c then r + 1 else c;
    ProductExt(m, W', W', W, W, r, c, s, c);
  }

  lemma DoolittleEntryExt(W: Matrix, W': Matrix, r: nat, s: nat, c: nat)
    requires r <= c ==> s == r
    requires r > c ==> s > c
    requires forall k :: 0 <= k <= c ==> W'(r, k) == W(s, k)
    requires forall k :: 0 <= k <= c && k <= r ==> W'(k, c) == W(k, c)
    ensures DoolittleEntry(W', r, c) == DoolittleEntry(W, s, c)
  {
    hide Product;
    var m := if r <= c then r else c + 1;
    ProductExt(m, W', W', W, W, r, c, s, c);
  }

  lemma NoColumns(n: nat, M: Matrix, p: seq<int>, W: Matrix)
    requires |p| == n
    ensures CroutColumns(n, M, p, W, 0) && DoolittleColumns(n, M, p, W, 0)
  {}

  lemma CroutColumnsExt(n: nat, M: Matrix, M': Matrix, p: seq<int>, W: Matrix)
    requires IsPermutation(n, p) && CroutColumns(n, M, p, W, n) && SameMatrix(n, M, M')
    ensures CroutColumns(n, M', p, W, n)
  {}

  lemma DoolittleColumnsExt(n: nat, M: Matrix, M': Matrix, p: seq<int>, W: Matrix)
    requires IsPermutation(n, p) && DoolittleColumns(n, M, p, W, n) && SameMatrix(n, M, M')
    ensures DoolittleColumns(n, M', p, W, n)
  {}

  /** Exchanging two rows that lie below every factored column keeps the columns factored. */
  lemma CroutExchange(n: nat, M: Matrix, p: seq<int>, W: Matrix, W': Matrix, cols: nat, a: nat, b: nat)
    requires |p| == n && a < n && b < n && cols <= a + 1 && cols <= b + 1 && cols <= n
    requires CroutColumns(n, M, p, W, cols)
    requires RowsExchanged(n, W, W', a, b)
    ensures CroutColumns(n, M, Exchange(p, a, b), W', cols)
  {
    hide CroutEntry;
    forall r: nat, j: nat | r < n && j < cols ensures CroutEntry(W', r, j) == M(Exchange(p, a, b)[r], j) {
      var s := if r == a then b else if r == b then a else r;
      CroutEntryExt(W, W', r, s, j);
      assert CroutEntry(W, s, j) == M(p[s], j);
    }
  }

  lemma DoolittleExchange(n: nat, M: Matrix, p: seq<int>, W: Matrix, W': Matrix, c: nat, a: nat, b: nat)
    requires |p| == n && a < n && b < n && c <= a && c <= b
    requires DoolittlePartial(n, M, p, W, c)
    requires RowsExchanged(n, W, W', a, b)
    ensures DoolittlePartial(n, M, Exchange(p, a, b), W', c)
  {
    hide DoolittleEntry, Product;
    var q := Exchange(p, a, b);
    forall r: nat, j: nat | r < n && (j < c || (j == c && r < c)) ensures DoolittleEntry(W', r, j) == M(q[r], j) {
      var s := if r == a then b else if r == b then a else r;
      DoolittleEntryExt(W, W', r, s, j);
      assert DoolittleEntry(W, s, j) == M(p[s], j);
    }
    forall r | c <= r < n ensures Add(Product(c, W', W', r, c), W'(r, c)) == M(q[r], c) {
      var s := if r == a then b else if r == b then a else r;
      ProductExt(c, W', W', W, W, r, c, s, c);
      assert Add(Product(c, W, W, s, c), W(s, c)) == M(p[s], c);
    }
  }

  /** Column c is factored once its upper entries (W1) and then its lower entries (W2)
      have been computed; nothing else has changed. */
  lemma CroutColumnDone(n: nat, M: Matrix, p: seq<int>, W0: Matrix, W1: Matrix, W2: Matrix, c: nat)
    requires |p| == n && c < n && CroutColumns(n, M, p, W0, c)
    requires forall r, j :: 0 <= r < n && 0 <= j < n && j != c ==> W0(r, j) == W1(r, j) == W2(r, j)
    requires forall r :: 0 <= r < c ==> W1(r, c) == W2(r, c)
    requires forall r: nat :: r < c ==> CroutEntry(W1, r, c) == M(p[r], c)
    requires forall r :: c <= r < n ==> Add(Product(c, W2, W2, r, c), W2(r, c)) == M(p[r], c)
    ensures CroutColumns(n, M, p, W2, c + 1)
  {
    hide Product;
    forall r: nat, j: nat | r < n && j <= c ensures CroutEntry(W2, r, j) == M(p[r], j) {
      if j < c {
        CroutEntryExt(W0, W2, r, r, j);
      } else if r < c {
        CroutEntryExt(W1, W2, r, r, c);
      }
    }
  }

  /** The columns before c are factored, and column c is but for the division of its
      lower entries by the pivot. */
  ghost predicate DoolittlePartial(n: nat, M: Matrix, p: seq<int>, W: Matrix, c: nat)
    requires |p| == n
  {
    && DoolittleColumns(n, M, p, W, c)
    && (forall r: nat :: r < c < n ==> DoolittleEntry(W, r, c) == M(p[r], c))
    && (forall r :: c <= r < n ==> Add(Product(c, W, W, r, c), W(r, c)) == M(p[r], c))
  }

  lemma DoolittleColumnDone(n: nat, M: Matrix, p: seq<int>, W0: Matrix, W1: Matrix, W2: Matrix, c: nat)
    requires |p| == n && c < n && DoolittleColumns(n, M, p, W0, c)
    requires forall r, j :: 0 <= r < n && 0 <= j < n && j != c ==> W0(r, j) == W1(r, j) == W2(r, j)
    requires forall r :: 0 <= r < c ==> W1(r, c) == W2(r, c)
    requires forall r: nat :: r < c ==> DoolittleEntry(W1, r, c) == M(p[r], c)
    requires forall r :: c <= r < n ==> Add(Product(c, W2, W2, r, c), W2(r, c)) == M(p[r], c)
    ensures DoolittlePartial(n, M, p, W2, c)
  {
    hide DoolittleEntry, Product;
    forall r: nat, j: nat | r < n && j < c ensures DoolittleEntry(W2, r, j) == M(p[r], j) {
      DoolittleEntryExt(W0, W2, r, r, j);
    }
    forall r: nat | r < c ensures DoolittleEntry(W2, r, c) == M(p[r], c) {
      DoolittleEntryExt(W1, W2, r, r, c);
    }
  }

  /** The division by the pivot completes the column. */
  lemma DoolittleDivided(n: nat, M: Matrix, p: seq<int>, W: Matrix, W': Matrix, c: nat)
    requires |p| == n && c < n && DoolittlePartial(n, M, p, W, c)
    requires forall r, j :: 0 <= r < n && 0 <= j < n && (j != c || r <= c) ==> W'(r, j) == W(r, j)
    requires forall r :: c < r < n ==> Mul(W'(r, c), W(c, c)) == W(r, c)
    ensures DoolittleColumns(n, M, p, W', c + 1)
  {
    hide Product, Mul;
    forall r: nat, j: nat | r < n && j <= c ensures DoolittleEntry(W', r, j) == M(p[r], j) {
      if j < c || r < c {
        DoolittleEntryExt(W, W', r, r, j);
      } else {
        ProductExt(c, W', W', W, W, r, c, r, c);
        ProductLast(c, W', W', r, c);
        assert Add(Product(c, W, W, r, c), W(r, c)) == M(p[r], c);
      }
    }
  }

  /** M with t added at one entry. */
  function Bumped(M: Matrix, r: int, c: int, t: Complex): Matrix {
    (i, j) => if i == r && j == c then Add(M(i, j), t) else M(i, j)
  }

  /** Writing a virtual resistance t over the zero pivot of column c factors the
      matrix that has t added at row p[c] of that column. */
  lemma CroutResistance(n: nat, M: Matrix, p: seq<int>, W: Matrix, W': Matrix, c: nat, t: Complex)
    requires IsPermutation(n, p) && c < n && CroutColumns(n, M, p, W, c + 1) && W(c, c) == Zero
    requires forall r, j :: 0 <= r < n && 0 <= j < n ==> W'(r, j) == if r == c && j == c then t else W(r, j)
    ensures CroutColumns(n, Bumped(M, p[c], c, t), p, W', c + 1)
  {
    hide Product;
    forall r: nat, j: nat | r < n && j <= c ensures CroutEntry(W', r, j) == Bumped(M, p[c], c, t)(p[r], j) {
      if r == c && j == c {
        ProductExt(c, W', W', W, W, c, c, c, c);
        assert CroutEntry(W, c, c) == M(p[c], c);
      } else if r > c && j == c {
        ProductExt(c, W', W', W, W, r, c, r, c);
        assert CroutEntry(W, r, c) == M(p[r], c);
      } else {
        CroutEntryExt(W, W', r, r, j);
      }
    }
  }

  lemma DoolittleResistance(n: nat, M: Matrix, p: seq<int>, W: Matrix, W': Matrix, c: nat, t: Complex)
    requires IsPermutation(n, p) && c < n && DoolittlePartial(n, M, p, W, c) && W(c, c) == Zero
    requires forall r, j :: 0 <= r < n && 0 <= j < n ==> W'(r, j) == if r == c && j == c then t else W(r, j)
    ensures DoolittlePartial(n, Bumped(M, p[c], c, t), p, W', c)
  {
    hide DoolittleEntry, Product;
    var M' := Bumped(M, p[c], c, t);
    forall r: nat, j: nat | r < n && (j < c || (j == c && r < c)) ensures DoolittleEntry(W', r, j) == M'(p[r], j) {
      DoolittleEntryExt(W, W', r, r, j);
    }
    forall r | c <= r < n ensures Add(Product(c, W', W', r, c), W'(r, c)) == M'(p[r], c) {
      ProductExt(c, W', W', W, W, r, c, r, c);
      assert Add(Product(c, W, W, r, c), W(r, c)) == M(p[r], c);
    }
  }

  // ----- what a factorization means -----

  lemma CroutFactors(n: nat, M: Matrix, p: seq<int>, W: Matrix)
    requires |p| == n && CroutColumns(n, M, p, W, n) && PivotsNonzero(n, W)
    ensures Factors(n, M, p, CroutL(W), CroutU(W))
    ensures IsLower(n, CroutL(W)) && IsUpper(n, CroutU(W))
  {
    hide CroutEntry, Product;
    forall r, c | 0 <= r < n && 0 <= c < n
      ensures Product(n, CroutL(W), CroutU(W), r, c) == M(p[r], c)
    {
      CroutProduct(n, W, r, c);
    }
  }

  lemma DoolittleFactors(n: nat, M: Matrix, p: seq<int>, W: Matrix)
    requires |p| == n && DoolittleColumns(n, M, p, W, n) && PivotsNonzero(n, W)
    ensures Factors(n, M, p, DoolittleL(W), DoolittleU(W))
    ensures IsLower(n, DoolittleL(W)) && IsUpper(n, DoolittleU(W))
  {
    hide DoolittleEntry, Product;
    forall r, c | 0 <= r < n && 0 <= c < n
      ensures Product(n, DoolittleL(W), DoolittleU(W), r, c) == M(p[r], c)
    {
      DoolittleProduct(n, W, r, c);
    }
  }

  /** M x, taken row by row in the order p, is L(Ux). */
  lemma FactorsApply(n: nat, M: Matrix, p: seq<int>, L: Matrix, U: Matrix, x: Vector, y: Vector, i: int)
    requires |p| == n && Factors(n, M, p, L, U) && 0 <= i < n
    requires forall k :: 0 <= k < n ==> Apply(n, U, x, k) == y(k)
    ensures Apply(n, M, x, p[i]) == Apply(n, L, y, i)
  {
    hide Mul, Product;
    SumExt(n, j => Mul(M(p[i], j), x(j)), j => Mul(Product(n, L, U, i, j), x(j)));
    ProductApply(n, n, L, U, x, i);
    SumExt(n, k => Mul(L(i, k), Apply(n, U, x, k)), k => Mul(L(i, k), y(k)));
  }

  /** Forward and backward substitution solve the system. */
  lemma SubstitutionSolves(n: nat, M: Matrix, p: seq<int>, L: Matrix, U: Matrix, x: Vector, y: Vector, b: Vector)
    requires IsPermutation(n, p) && Factors(n, M, p, L, U)
    requires Solves(n, U, x, y)
    requires Solves(n, L, y, i => if 0 <= i < n then b(p[i]) else Zero)
    ensures Solves(n, M, x, b)
  {
    hide Apply, Product;
    forall r | 0 <= r < n ensures Apply(n, M, x, r) == b(r) {
      assert r in p;
      var i :| 0 <= i < n && p[i] == r;
      FactorsApply(n, M, p, L, U, x, y, i);
      assert Apply(n, L, y, i) == b(p[i]);
    }
  }

  /** A matrix with triangular factors has a trivial kernel. */
  lemma FactorsNonsingular(n: nat, M: Matrix, p: seq<int>, L: Matrix, U: Matrix)
    requires IsPermutation(n, p) && Factors(n, M, p, L, U)
    requires IsLower(n, L) && IsUpper(n, U)
    ensures Nonsingular(n, M)
  {
    hide Apply, Product;
    forall v: Vector | InKernel(n, M, v) ensures IsZeroVector(n, v) {
      var y: Vector := k => Apply(n, U, v, k);
      forall i | 0 <= i < n ensures Apply(n, L, y, i) == Zero {
        FactorsApply(n, M, p, L, U, v, y, i);
        assert Apply(n, M, v, p[i]) == Zero;
      }
      LowerKernel(n, L, y, n);
      assert forall k :: 0 <= k < n ==> Apply(n, U, v, k) == y(k);
      UpperKernel(n, U, v, 0);
    }
  }

  /** A kernel vector of the row-permuted matrix is one of the matrix. */
  lemma KernelUnpermuted(n: nat, A: Matrix, p: seq<int>, v: Vector)
    requires IsPermutation(n, p) && InKernel(n, Permuted(A, p), v)
    ensures InKernel(n, A, v)
  {
    hide Mul;
    forall r | 0 <= r < n ensures Apply(n, A, v, r) == Zero {
      assert r in p;
      var i :| 0 <= i < n && p[i] == r;
      ApplyExt(n, Permuted(A, p), v, A, v, i, r);
      assert Apply(n, Permuted(A, p), v, i) == Zero;
    }
  }

  /** A failed pivot search at column c, when the columns before it are factored
      exactly, exhibits a non-zero kernel vector. */
  lemma CroutFailure(n: nat, A: Matrix, p: seq<int>, W: Matrix, c: nat)
    requires IsPermutation(n, p) && c < n
    requires CroutColumns(n, A, p, W, c + 1) && PivotsNonzero(c, W)
    requires forall r :: c <= r < n ==> W(r, c) == Zero
    ensures !Nonsingular(n, A)
  {
    hide CroutEntry, Product;
    var L, U := CroutL(W), CroutU(W);
    forall r, j | 0 <= r < n && 0 <= j <= c ensures Permuted(A, p)(r, j) == Product(c, L, U, r, j) {
      CroutProduct(n, W, r, j);
      ProductTail(c, n, L, U, r, j);
    }
    var v := DependentColumn(n, Permuted(A, p), L, U, c);
    KernelUnpermuted(n, A, p, v);
    KernelWitness(n, A, v, c);
  }

  lemma DoolittleFailure(n: nat, A: Matrix, p: seq<int>, W: Matrix, c: nat)
    requires IsPermutation(n, p) && c < n
    requires DoolittlePartial(n, A, p, W, c) && PivotsNonzero(c, W)
    requires forall r :: c <= r < n ==> W(r, c) == Zero
    ensures !Nonsingular(n, A)
  {
    hide DoolittleEntry, Product;
    var L, U := DoolittleL(W), DoolittleU(W);
    forall r, j | 0 <= r < n && 0 <= j <= c ensures Permuted(A, p)(r, j) == Product(c, L, U, r, j) {
      if r >= c && j == c {
        ProductExt(c, L, U, W, W, r, j, r, j);
        assert Add(Product(c, W, W, r, c), W(r, c)) == A(p[r], c);
      } else {
        DoolittleProduct(n, W, r, j);
        ProductTail(c, n, L, U, r, j);
        assert DoolittleEntry(W, r, j) == A(p[r], j);
      }
    }
    var v := DependentColumn(n, Permuted(A, p), L, U, c);
    KernelUnpermuted(n, A, p, v);
    KernelWitness(n, A, v, c);
  }

  // ----- substitution -----

  lemma LowerRow(n: nat, L: Matrix, y: Vector, i: int)
    requires IsLower(n, L) && 0 <= i < n
    ensures Apply(n, L, y, i) == Add(Span(0, i, L, y, i), Mul(L(i, i), y(i)))
  {
    hide Mul, Apply;
    SpanDiagonal(n, L, y, i);
    SpanZero(i + 1, n, L, y, i);
  }

  lemma UpperRow(n: nat, U: Matrix, x: Vector, i: int)
    requires IsUpper(n, U) && 0 <= i < n
    ensures Apply(n, U, x, i) == Add(Mul(U(i, i), x(i)), Span(i + 1, n, U, x, i))
  {
    hide Mul, Apply;
    SpanDiagonal(n, U, x, i);
    SpanZero(0, i, U, x, i);
  }

  /** Row i of L y, once y(i) is the quotient that forward substitution computes. */
  lemma ForwardRow(n: nat, L: Matrix, W: Matrix, y: Vector, i: int, b: Complex)
    requires IsLower(n, L) && 0 <= i < n
    requires forall k :: 0 <= k < i ==> L(i, k) == W(i, k)
    requires Mul(L(i, i), y(i)) == Sub(b, Span(0, i, W, y, i))
    ensures Apply(n, L, y, i) == b
  {
    hide Mul, Apply;
    LowerRow(n, L, y, i);
    SpanExt(0, i, L, y, W, y, i);
  }

  /** Row i of U x, once x(i) is the quotient that backward substitution computes. */
  lemma BackwardRow(n: nat, U: Matrix, W: Matrix, x: Vector, i: int, y: Complex)
    requires IsUpper(n, U) && 0 <= i < n
    requires forall k :: i < k < n ==> U(i, k) == W(i, k)
    requires Mul(U(i, i), x(i)) == Sub(y, Span(i + 1, n, W, x, i))
    ensures Apply(n, U, x, i) == y
  {
    hide Mul, Apply;
    UpperRow(n, U, x, i);
    SpanExt(i + 1, n, U, x, W, x, i);
  }

  /** Rows of a triangular product do not see the entries beyond the triangle. */
  lemma UpperRowExt(n: nat, U: Matrix, x: Vector, x': Vector, i: int)
    requires IsUpper(n, U) && 0 <= i < n
    requires forall k :: i <= k < n ==> x(k) == x'(k)
    ensures Apply(n, U, x, i) == Apply(n, U, x', i)
  {
    hide Mul, Apply;
    UpperRow(n, U, x, i);
    UpperRow(n, U, x', i);
    SpanExt(i + 1, n, U, x, U, x', i);
  }

  /** Setting unknown i solves row i and keeps the rows below. */
  lemma BackwardStep(n: nat, U: Matrix, W: Matrix, x: Vector, x': Vector, i: nat, y: Complex, f: Complex)
    requires IsUpper(n, U) && i < n && forall k :: i < k < n ==> U(i, k) == W(i, k)
    requires forall k :: 0 <= k < n && k != i ==> x'(k) == x(k)
    requires f == Sub(y, Span(i + 1, n, W, x, i)) && Mul(U(i, i), x'(i)) == f
    ensures Apply(n, U, x', i) == y
    ensures forall k :: i < k < n ==> Apply(n, U, x', k) == Apply(n, U, x, k)
  {
    hide Mul, Apply, Span, IsUpper;
    SpanExt(i + 1, n, W, x, W, x', i);
    BackwardRow(n, U, W, x', i, y);
    forall k | i < k < n ensures Apply(n, U, x', k) == Apply(n, U, x, k) { UpperRowExt(n, U, x, x', k); }
  }

  lemma LowerRowExt(n: nat, L: Matrix, y: Vector, y': Vector, i: int)
    requires IsLower(n, L) && 0 <= i < n
    requires forall k :: 0 <= k <= i ==> y(k) == y'(k)
    ensures Apply(n, L, y, i) == Apply(n, L, y', i)
  {
    hide Mul, Apply;
    LowerRow(n, L, y, i);
    LowerRow(n, L, y', i);
    SpanExt(0, i, L, y, L, y', i);
  }
}
