/** Matrices and vectors as functions of their indices; only the entries with
    indices below the dimension `n` matter. */
module LinearAlgebra {
  import opened ComplexNumbers
  import opened Sums

  type Vector = int -> Complex
  type Matrix = (int, int) -> Complex

  /** Row r of the product of A with the vector x. */
  function Apply(n: nat, A: Matrix, x: Vector, r: int): Complex {
    Sum(n, k => Mul(A(r, k), x(k)))
  }

  /** Entry (r, c) of the product of L and U, over the first n inner indices. */
  function Product(n: nat, L: Matrix, U: Matrix, r: int, c: int): Complex {
    Sum(n, k => Mul(L(r, k), U(k, c)))
  }

  ghost predicate Solves(n: nat, A: Matrix, x: Vector, b: Vector) {
    forall r :: 0 <= r < n ==> Apply(n, A, x, r) == b(r)
  }

  function Column(M: Matrix, c: int): Vector { k => M(k, c) }

  /** The vector v with entry i replaced by t. */
  function Assigned(v: Vector, i: int, t: Complex): Vector {
    k => if k == i then t else v(k)
  }

  const ZeroVector: Vector := _ => Zero

  ghost predicate IsZeroVector(n: nat, v: Vector) {
    forall r :: 0 <= r < n ==> v(r) == Zero
  }

  ghost predicate InKernel(n: nat, A: Matrix, v: Vector) {
    Solves(n, A, v, ZeroVector)
  }

  ghost predicate Nonsingular(n: nat, A: Matrix) {
    forall v: Vector :: InKernel(n, A, v) ==> IsZeroVector(n, v)
  }

  ghost predicate SameMatrix(n: nat, A: Matrix, B: Matrix) {
    forall r, c :: 0 <= r < n && 0 <= c < n ==> A(r, c) == B(r, c)
  }

  // ----- products -----

  lemma ApplyExt(n: nat, A: Matrix, x: Vector, B: Matrix, y: Vector, r: int, s: int)
    requires forall k :: 0 <= k < n ==> A(r, k) == B(s, k) && x(k) == y(k)
    ensures Apply(n, A, x, r) == Apply(n, B, y, s)
  {
    SumExt(n, k => Mul(A(r, k), x(k)), k => Mul(B(s, k), y(k)));
  }

  lemma SolvesExt(n: nat, A: Matrix, x: Vector, B: Matrix, y: Vector, b: Vector)
    requires Solves(n, A, x, b) && SameMatrix(n, A, B) && forall k :: 0 <= k < n ==> x(k) == y(k)
    ensures Solves(n, B, y, b)
  {
    hide Apply;
    forall r | 0 <= r < n ensures Apply(n, B, y, r) == b(r) { ApplyExt(n, A, x, B, y, r, r); }
  }

  lemma ApplyLast(n: nat, A: Matrix, x: Vector, r: int)
    ensures Apply(n + 1, A, x, r) == Add(Apply(n, A, x, r), Mul(A(r, n), x(n)))
  {}

  lemma ProductExt(n: nat, L: Matrix, U: Matrix, L': Matrix, U': Matrix, r: int, c: int, r': int, c': int)
    requires forall k :: 0 <= k < n ==> L(r, k) == L'(r', k) && U(k, c) == U'(k, c')
    ensures Product(n, L, U, r, c) == Product(n, L', U', r', c')
  {
    SumExt(n, k => Mul(L(r, k), U(k, c)), k => Mul(L'(r', k), U'(k, c')));
  }

  /** (LU)x = L(Ux), for any inner dimension m and outer dimension n. */
  lemma ProductApply(m: nat, n: nat, L: Matrix, U: Matrix, x: Vector, r: int)
    ensures Sum(n, j => Mul(Product(m, L, U, r, j), x(j))) == Sum(m, k => Mul(L(r, k), Apply(n, U, x, k)))
  {
    hide Mul;
    var f := (j: int, k: int) => Mul(L(r, k), Mul(U(k, j), x(j)));
    forall j | 0 <= j < n
      ensures Mul(Product(m, L, U, r, j), x(j)) == Sum(m, k => f(j, k))
    {
      var t := (k: int) => Mul(L(r, k), U(k, j));
      MulComm(Sum(m, t), x(j));
      SumScale(m, x(j), t);
      forall k | 0 <= k < m ensures Mul(x(j), t(k)) == f(j, k) {
        MulSwap(x(j), L(r, k), U(k, j));
        MulComm(x(j), U(k, j));
      }
      SumExt(m, k => Mul(x(j), t(k)), k => f(j, k));
    }
    SumExt(n, j => Mul(Product(m, L, U, r, j), x(j)), j => Sum(m, k => f(j, k)));
    SumSwap(n, m, f);
    forall k | 0 <= k < m
      ensures Mul(L(r, k), Apply(n, U, x, k)) == Sum(n, j => f(j, k))
    {
      var t := (j: int) => Mul(U(k, j), x(j));
      SumScale(n, L(r, k), t);
      SumExt(n, j => Mul(L(r, k), t(j)), j => f(j, k));
    }
    SumExt(m, k => Sum(n, j => f(j, k)), k => Mul(L(r, k), Apply(n, U, x, k)));
  }

  lemma ApplyCombine(n: nat, A: Matrix, x: Vector, a: Complex, y: Vector, z: Vector, r: int)
    requires forall k :: 0 <= k < n ==> z(k) == Add(x(k), Mul(a, y(k)))
    ensures Apply(n, A, z, r) == Add(Apply(n, A, x, r), Mul(a, Apply(n, A, y, r)))
  {
    hide Mul;
    var f, g := (k: int) => Mul(A(r, k), x(k)), (k: int) => Mul(A(r, k), y(k));
    SumScale(n, a, g);
    SumAdd(n, f, k => Mul(a, g(k)));
    forall k | 0 <= k < n
      ensures Mul(A(r, k), z(k)) == Add(f(k), Mul(a, g(k)))
    {
      MulAdd(A(r, k), x(k), Mul(a, y(k)));
      MulSwap(A(r, k), a, y(k));
    }
    SumExt(n, k => Mul(A(r, k), z(k)), k => Add(f(k), Mul(a, g(k))));
    SumExt(n, k => Add(f(k), Mul(a, g(k))), k => Add(f(k), ((k: int) => Mul(a, g(k)))(k)));
  }

  lemma ApplySub(n: nat, A: Matrix, x: Vector, y: Vector, z: Vector, r: int)
    requires forall k :: 0 <= k < n ==> z(k) == Sub(x(k), y(k))
    ensures Apply(n, A, z, r) == Sub(Apply(n, A, x, r), Apply(n, A, y, r))
  {
    hide Mul;
    var f, g := (k: int) => Mul(A(r, k), x(k)), (k: int) => Mul(A(r, k), y(k));
    SumSub(n, f, g);
    forall k | 0 <= k < n ensures Mul(A(r, k), z(k)) == Sub(f(k), g(k)) {
      MulSub(A(r, k), x(k), y(k));
    }
    SumExt(n, k => Mul(A(r, k), z(k)), k => Sub(f(k), g(k)));
  }

  // ----- parts of a row -----

  /** The terms lo, ..., hi - 1 of row r of the product of A with x. */
  function Span(lo: int, hi: int, A: Matrix, x: Vector, r: int): Complex
    decreases hi - lo
  {
    if hi <= lo then Zero else Add(Span(lo, hi - 1, A, x, r), Mul(A(r, hi - 1), x(hi - 1)))
  }

  lemma {:induction false} SpanExt(lo: int, hi: int, A: Matrix, x: Vector, B: Matrix, y: Vector, r: int)
    requires forall k :: lo <= k < hi ==> A(r, k) == B(r, k) && x(k) == y(k)
    ensures Span(lo, hi, A, x, r) == Span(lo, hi, B, y, r)
    decreases hi - lo
  {
    hide Mul;
    if lo < hi {
      SpanExt(lo, hi - 1, A, x, B, y, r);
    }
  }

  lemma {:induction false} SpanZero(lo: int, hi: int, A: Matrix, x: Vector, r: int)
    requires forall k :: lo <= k < hi ==> A(r, k) == Zero
    ensures Span(lo, hi, A, x, r) == Zero
    decreases hi - lo
  {
    hide Mul;
    if lo < hi {
      SpanZero(lo, hi - 1, A, x, r);
      MulUnits(x(hi - 1));
    }
  }

  lemma {:induction false} SpanJoin(lo: int, mid: int, hi: int, A: Matrix, x: Vector, r: int)
    requires lo <= mid <= hi
    ensures Span(lo, hi, A, x, r) == Add(Span(lo, mid, A, x, r), Span(mid, hi, A, x, r))
    decreases hi - mid
  {
    hide Mul;
    if mid < hi {
      SpanJoin(lo, mid, hi - 1, A, x, r);
    }
  }

  lemma {:induction false} SpanWhole(n: nat, A: Matrix, x: Vector, r: int)
    ensures Span(0, n, A, x, r) == Apply(n, A, x, r)
  {
    hide Mul;
    if n > 0 {
      SpanWhole(n - 1, A, x, r);
    }
  }

  /** A row splits at its diagonal entry. */
  lemma SpanDiagonal(n: nat, A: Matrix, x: Vector, r: int)
    requires 0 <= r < n
    ensures Apply(n, A, x, r) == Add(Add(Span(0, r, A, x, r), Mul(A(r, r), x(r))), Span(r + 1, n, A, x, r))
  {
    hide Mul, Apply;
    SpanWhole(n, A, x, r);
    SpanJoin(0, r + 1, n, A, x, r);
  }

  // ----- uniqueness -----

  lemma SolutionUnique(n: nat, A: Matrix, x: Vector, y: Vector, b: Vector)
    requires Nonsingular(n, A)
    requires Solves(n, A, x, b) && Solves(n, A, y, b)
    ensures forall k :: 0 <= k < n ==> x(k) == y(k)
  {
    var d: Vector := k => Sub(x(k), y(k));
    forall r | 0 <= r < n ensures Apply(n, A, d, r) == Zero {
      ApplySub(n, A, x, y, d, r);
    }
    assert InKernel(n, A, d);
    forall k | 0 <= k < n ensures x(k) == y(k) {
      assert d(k) == Zero;
    }
  }

  lemma KernelWitness(n: nat, A: Matrix, v: Vector, i: nat)
    requires i < n && InKernel(n, A, v) && v(i) != Zero
    ensures !Nonsingular(n, A)
  {
    assert !IsZeroVector(n, v);
  }

  lemma NonsingularExt(n: nat, A: Matrix, B: Matrix)
    requires SameMatrix(n, A, B) && Nonsingular(n, A)
    ensures Nonsingular(n, B)
  {
    hide Apply;
    forall v: Vector | InKernel(n, B, v) ensures IsZeroVector(n, v) {
      forall r | 0 <= r < n ensures Apply(n, A, v, r) == Zero {
        ApplyExt(n, A, v, B, v, r, r);
      }
      assert InKernel(n, A, v);
    }
  }

  // ----- triangular systems -----

  ghost predicate IsLower(n: nat, L: Matrix) {
    && (forall r, c :: 0 <= r < c < n ==> L(r, c) == Zero)
    && (forall r :: 0 <= r < n ==> L(r, r) != Zero)
  }

  ghost predicate IsUpper(n: nat, U: Matrix) {
    && (forall r, c :: 0 <= c < r < n ==> U(r, c) == Zero)
    && (forall r :: 0 <= r < n ==> U(r, r) != Zero)
  }

  /** The first i entries of a kernel vector of a lower triangular matrix vanish. */
  lemma {:induction false} LowerKernel(n: nat, L: Matrix, y: Vector, i: nat)
    requires IsLower(n, L) && InKernel(n, L, y)
    requires i <= n
    ensures IsZeroVector(i, y)
  {
    hide Mul;
    if i > 0 {
      LowerKernel(n, L, y, i - 1);
      var f := (k: int) => Mul(L(i - 1, k), y(k));
      forall k | 0 <= k < n && k != i - 1 ensures f(k) == Zero {
        MulUnits(y(k));
        MulUnits(L(i - 1, k));
      }
      SumOnly(n, i - 1, f);
      assert Apply(n, L, y, i - 1) == Zero;
      MulNonzero(L(i - 1, i - 1), y(i - 1));
    }
  }

  /** The entries from i on of a kernel vector of an upper triangular matrix vanish. */
  lemma {:induction false} UpperKernel(n: nat, U: Matrix, y: Vector, i: nat)
    requires IsUpper(n, U) && InKernel(n, U, y)
    requires i <= n
    ensures forall k :: i <= k < n ==> y(k) == Zero
    decreases n - i
  {
    hide Mul;
    if i < n {
      UpperKernel(n, U, y, i + 1);
      var f := (k: int) => Mul(U(i, k), y(k));
      forall k | 0 <= k < n && k != i ensures f(k) == Zero {
        MulUnits(y(k));
        MulUnits(U(i, k));
      }
      SumOnly(n, i, f);
      assert Apply(n, U, y, i) == Zero;
      MulNonzero(U(i, i), y(i));
    }
  }

  /** An upper triangular system has a solution for every right hand side. */
  lemma {:induction false} UpperSolvable(n: nat, U: Matrix, b: Vector) returns (x: Vector)
    requires IsUpper(n, U)
    ensures Solves(n, U, x, b)
  {
    hide Mul;
    if n == 0 {
      x := ZeroVector;
    } else {
      var m := n - 1;
      var last := Div(b(m), U(m, m));
      var rest := UpperSolvable(m, U, k => Sub(b(k), Mul(U(k, m), last)));
      x := k => if k == m then last else rest(k);
      forall r | 0 <= r < n ensures Apply(n, U, x, r) == b(r) {
        var f := (k: int) => Mul(U(r, k), x(k));
        if r == m {
          forall k | 0 <= k < m ensures f(k) == Zero { MulUnits(x(k)); }
          SumZero(m, f);
          DivMul(b(m), U(m, m));
        } else {
          ApplyExt(m, U, x, U, rest, r, r);
        }
      }
    }
  }

  /** Column m of U as a combination of the columns before it. */
  lemma UpperCombination(m: nat, U: Matrix, width: nat) returns (v: Vector)
    requires IsUpper(m, U) && width == m + 1
    ensures v(m) == One && forall k :: width <= k ==> v(k) == Zero
    ensures forall k :: 0 <= k < m ==> Apply(width, U, v, k) == Zero
  {
    hide Mul, Apply;
    var w := UpperSolvable(m, U, k => Neg(U(k, m)));
    v := k => if k == m then One else if k < m then w(k) else Zero;
    forall k | 0 <= k < m ensures Apply(width, U, v, k) == Zero {
      ApplyExt(m, U, v, U, w, k, k);
      ApplyLast(m, U, v, k);
      MulUnits(U(k, m));
    }
  }

  /** A matrix whose column m repeats what an invertible upper triangular block of
      the first m columns can produce has a non-zero kernel vector. */
  lemma DependentColumn(n: nat, A: Matrix, L: Matrix, U: Matrix, m: nat) returns (v: Vector)
    requires m < n && IsUpper(m, U)
    requires forall r, c :: 0 <= r < n && 0 <= c <= m ==> A(r, c) == Product(m, L, U, r, c)
    ensures InKernel(n, A, v) && v(m) == One
  {
    hide Mul, Product, Apply;
    v := UpperCombination(m, U, m + 1);
    forall r | 0 <= r < n ensures Apply(n, A, v, r) == Zero {
      KernelRow(n, A, L, U, m, m + 1, v, r);
    }
  }

  lemma KernelRow(n: nat, A: Matrix, L: Matrix, U: Matrix, m: nat, width: nat, v: Vector, r: int)
    requires width <= n && forall k :: width <= k < n ==> v(k) == Zero
    requires forall c :: 0 <= c < width ==> A(r, c) == Product(m, L, U, r, c)
    requires forall k :: 0 <= k < m ==> Apply(width, U, v, k) == Zero
    ensures Apply(n, A, v, r) == Zero
  {
    hide Mul;
    var f := (k: int) => Mul(A(r, k), v(k));
    forall k | width <= k < n ensures f(k) == Zero { MulUnits(A(r, k)); }
    SumTail(width, n, f);
    SumExt(width, f, j => Mul(Product(m, L, U, r, j), v(j)));
    ProductApply(m, width, L, U, v, r);
    var g := (k: int) => Mul(L(r, k), Apply(width, U, v, k));
    forall k | 0 <= k < m ensures g(k) == Zero { MulUnits(L(r, k)); }
    SumZero(m, g);
  }

  // ----- permutations -----

  predicate IsPermutation(n: nat, p: seq<int>) {
    && |p| == n
    && (forall i :: 0 <= i < n ==> 0 <= p[i] < n)
    && (forall i, j :: 0 <= i < j < n ==> p[i] != p[j])
    && (forall v :: 0 <= v < n ==> v in p)
  }

  lemma PermutationLength(n: nat, p: seq<int>)
    requires IsPermutation(n, p)
    ensures |p| == n
  {}

  function Exchange<T>(p: seq<T>, i: int, j: int): seq<T>
    requires 0 <= i < |p| && 0 <= j < |p|
  {
    p[i := p[j]][j := p[i]]
  }

  lemma ExchangePermutation(n: nat, p: seq<int>, i: int, j: int)
    requires IsPermutation(n, p) && 0 <= i < n && 0 <= j < n
    ensures IsPermutation(n, Exchange(p, i, j))
  {
    var q := Exchange(p, i, j);
    forall v | 0 <= v < n ensures v in q {
      assert v in p;
      var k :| 0 <= k < |p| && p[k] == v;
      assert v == q[if k == i then j else if k == j then i else k];
    }
  }

  /** The rows of A in the order given by p. */
  function Permuted(A: Matrix, p: seq<int>): Matrix {
    (r, c) => if 0 <= r < |p| then A(p[r], c) else Zero
  }

  /** Row r times x over the first m columns, the diagonal left out. */
  function OffSum(A: Matrix, x: Vector, r: int, m: nat): Complex {
    if m == 0 then Zero
    else if m - 1 == r then OffSum(A, x, r, m - 1)
    else Add(OffSum(A, x, r, m - 1), Mul(A(r, m - 1), x(m - 1)))
  }

  lemma {:induction false} OffSumApply(A: Matrix, x: Vector, r: int, m: nat)
    ensures Apply(m, A, x, r) == if 0 <= r < m then Add(OffSum(A, x, r, m), Mul(A(r, r), x(r))) else OffSum(A, x, r, m)
  {
    hide Mul;
    if m > 0 { OffSumApply(A, x, r, m - 1); }
  }

  lemma {:induction false} OffSumExt(A: Matrix, x: Vector, y: Vector, r: int, m: nat)
    requires forall c :: 0 <= c < m && c != r ==> x(c) == y(c)
    ensures OffSum(A, x, r, m) == OffSum(A, y, r, m)
  {
    hide Mul;
    if m > 0 { OffSumExt(A, x, y, r, m - 1); }
  }

  // ----- permuted columns -----

  function ColumnsPermuted(A: Matrix, p: seq<int>): Matrix {
    (r, c) => if 0 <= c < |p| then A(r, p[c]) else Zero
  }

  /** Reordering the terms does not change a sum. */
  lemma {:induction false} SumPermuted(n: nat, p: seq<int>, f: int -> Complex, g: int -> Complex)
    requires IsPermutation(n, p) && forall c :: 0 <= c < n ==> g(c) == f(p[c])
    ensures Sum(n, g) == Sum(n, f)
  {
    if n > 0 {
      assert n - 1 in p;
      var k :| 0 <= k < n && p[k] == n - 1;
      var q := Exchange(p, k, n - 1);
      var h := (c: int) => if 0 <= c < n then f(q[c]) else Zero;
      SumExchange(n, g, h, k, n - 1);
      PermutationInit(n, p, k);
      SumPermuted(n - 1, q[..n - 1], f, h);
    }
  }

  lemma PermutationInit(n: nat, p: seq<int>, k: nat)
    requires n > 0 && IsPermutation(n, p) && k < n && p[k] == n - 1
    ensures Exchange(p, k, n - 1)[n - 1] == n - 1 && IsPermutation(n - 1, Exchange(p, k, n - 1)[..n - 1])
  {
    ExchangePermutation(n, p, k, n - 1);
    var q := Exchange(p, k, n - 1);
    forall i | 0 <= i < n - 1 ensures q[i] != n - 1 {}
    var init := q[..n - 1];
    forall v | 0 <= v < n - 1 ensures v in init {
      assert v in q;
      var i :| 0 <= i < n && q[i] == v;
      assert init[i] == v;
    }
  }

  /** Columns and unknowns in another order give the same equations. */
  lemma PermutedSolves(n: nat, A: Matrix, p: seq<int>, x: Vector, y: Vector, b: Vector)
    requires IsPermutation(n, p) && Solves(n, ColumnsPermuted(A, p), y, b) && forall c :: 0 <= c < n ==> y(c) == x(p[c])
    ensures Solves(n, A, x, b)
  {
    hide Mul;
    forall r | 0 <= r < n ensures Apply(n, A, x, r) == b(r) {
      var P := ColumnsPermuted(A, p);
      var f, g := (c: int) => Mul(A(r, c), x(c)), (c: int) => Mul(P(r, c), y(c));
      SumPermuted(n, p, f, g);
      assert Apply(n, P, y, r) == b(r);
      SumExt(n, k => Mul(P(r, k), y(k)), g);
      SumExt(n, k => Mul(A(r, k), x(k)), f);
    }
  }
}
