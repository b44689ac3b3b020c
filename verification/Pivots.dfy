/** Pivots of the factorization: the largest entries of their columns, scaled by their rows. */
module Pivoting {
  import opened ComplexNumbers
  import opened LinearAlgebra
  import opened Contraction
  import opened Lu

  /** m is the largest modulus of row r, or NR_TINY for a row of zeros. */
  ghost predicate IsRowSize(abs: Complex -> real, n: nat, W: Matrix, r: int, m: real) {
    if forall c :: 0 <= c < n ==> abs(W(r, c)) <= 0.0 then m == NR_TINY
    else (forall c :: 0 <= c < n ==> abs(W(r, c)) <= m) && exists c :: 0 <= c < n && abs(W(r, c)) == m
  }

  ghost predicate IsScale(abs: Complex -> real, n: nat, W: Matrix, r: int, s: real) {
    s > 0.0 && exists m :: IsRowSize(abs, n, W, r, m) && Times(s, m) == 1.0
  }

  /** The scales are the inverse sizes of the rows in the order of the exchange table. */
  ghost predicate IsScaled(abs: Complex -> real, n: nat, W: Matrix, p: seq<int>, s: seq<real>)
    requires |p| == |s| == n
  {
    forall i :: 0 <= i < n ==> IsScale(abs, n, W, p[i], s[i])
  }

  lemma ScaledExchanged(abs: Complex -> real, n: nat, W: Matrix, p: seq<int>, s: seq<real>, a: nat, b: nat)
    requires |p| == |s| == n && a < n && b < n && IsScaled(abs, n, W, p, s)
    ensures IsScaled(abs, n, W, Exchange(p, a, b), Exchange(s, a, b))
  {
    hide IsScale;
  }

  /** Entry (k, c) is the largest one of column c from row c on, scaled by the rows. */
  ghost predicate Largest(abs: Complex -> real, n: nat, W: Matrix, s: seq<real>, c: nat, k: nat)
    requires |s| == n && k < n
  {
    forall i :: c <= i < n ==> Times(s[i], abs(W(i, c))) <= Times(s[k], abs(W(k, c)))
  }

  /** The diagonal entries of the first c columns are the largest ones. */
  ghost predicate CroutPivots(abs: Complex -> real, n: nat, W: Matrix, s: seq<real>, c: nat)
    requires |s| == n && c <= n
  {
    forall j :: 0 <= j < c ==> Largest(abs, n, W, s, j, j)
  }

  /** The same for columns that have been divided by the diagonal entry. */
  ghost predicate DoolittlePivots(abs: Complex -> real, n: nat, W: Matrix, s: seq<real>, c: nat)
    requires |s| == n && c <= n
  {
    forall i, j :: 0 <= j < c && j < i < n ==> Times(s[i], abs(W(i, j))) <= s[j]
  }

  lemma NothingPivoted(abs: Complex -> real, n: nat, W: Matrix, s: seq<real>)
    requires |s| == n
    ensures CroutPivots(abs, n, W, s, 0) && DoolittlePivots(abs, n, W, s, 0)
  {}

  /** The columns before c are the same. */
  ghost predicate SameBefore(n: nat, W: Matrix, W': Matrix, c: nat) {
    forall i, j :: 0 <= i < n && 0 <= j < c ==> W'(i, j) == W(i, j)
  }

  lemma SameColumns(n: nat, W: Matrix, W': Matrix, c: nat)
    requires c < n && forall i, j :: 0 <= i < n && 0 <= j < n && (j != c || i < c) ==> W'(i, j) == W(i, j)
    ensures SameBefore(n, W, W', c)
  {}

  lemma SameTransitive(n: nat, W: Matrix, W': Matrix, W'': Matrix, c: nat)
    requires SameBefore(n, W, W', c) && SameBefore(n, W', W'', c)
    ensures SameBefore(n, W, W'', c)
  {}

  /** The virtual resistance is the largest entry of a column of zeros. */
  lemma ResistanceLargest(abs: Complex -> real, n: nat, W: Matrix, W': Matrix, s: seq<real>, c: nat)
    requires IsModulus(abs) && |s| == n && c < n && s[c] > 0.0
    requires forall i :: c <= i < n ==> W(i, c) == Zero
    requires forall r, j :: 0 <= r < n && 0 <= j < n ==>
      W'(r, j) == if r == c && j == c then FromReal(NR_TINY) else W(r, j)
    ensures Largest(abs, n, W', s, c, c) && SameBefore(n, W, W', c)
  {
    hide IsModulus, Times;
    ModulusZero(abs, Zero);
    Modulus(abs, W'(c, c));
    TimesNonNegative(s[c], abs(W'(c, c)));
    forall i | c <= i < n ensures Times(s[i], abs(W'(i, c))) <= Times(s[c], abs(W'(c, c))) {
      TimesUnits(s[i]);
    }
  }

  lemma LargestMoved(abs: Complex -> real, n: nat, W: Matrix, W': Matrix, s: seq<real>, c: nat, pivot: nat)
    requires |s| == n && c <= pivot < n && Largest(abs, n, W, s, c, pivot) && RowsExchanged(n, W, W', c, pivot)
    ensures Largest(abs, n, W', Exchange(s, c, pivot), c, c)
  {
    hide Times;
    var s' := Exchange(s, c, pivot);
    forall i | c <= i < n ensures Times(s'[i], abs(W'(i, c))) <= Times(s'[c], abs(W'(c, c))) {
      var k := if i == c then pivot else if i == pivot then c else i;
      assert s'[i] == s[k] && W'(i, c) == W(k, c);
    }
  }

  lemma CroutPivotsMoved(abs: Complex -> real, n: nat, W: Matrix, W': Matrix, s: seq<real>, c: nat, pivot: nat)
    requires |s| == n && c <= pivot < n && CroutPivots(abs, n, W, s, c) && RowsExchanged(n, W, W', c, pivot)
    ensures CroutPivots(abs, n, W', Exchange(s, c, pivot), c)
  {
    hide Times;
    var s' := Exchange(s, c, pivot);
    forall j | 0 <= j < c ensures Largest(abs, n, W', s', j, j) {
      assert Largest(abs, n, W, s, j, j);
      forall i | j <= i < n ensures Times(s'[i], abs(W'(i, j))) <= Times(s'[j], abs(W'(j, j))) {
        var k := if i == c then pivot else if i == pivot then c else i;
        assert s'[i] == s[k] && W'(i, j) == W(k, j) && s'[j] == s[j] && W'(j, j) == W(j, j);
      }
    }
  }

  /** One more column of Crout's definition: reduced from W0 to W, then its pivot moved. */
  lemma CroutPivotsStep(abs: Complex -> real, n: nat, W0: Matrix, W: Matrix, W': Matrix, s: seq<real>, c: nat,
                        pivot: nat)
    requires |s| == n && c <= pivot < n && SameBefore(n, W0, W, c) && Largest(abs, n, W, s, c, pivot)
    requires RowsExchanged(n, W, W', c, pivot)
    ensures CroutPivots(abs, n, W0, s, c) ==> CroutPivots(abs, n, W', Exchange(s, c, pivot), c + 1)
  {
    hide Times, RowsExchanged, Exchange;
    if CroutPivots(abs, n, W0, s, c) {
      forall j | 0 <= j < c ensures Largest(abs, n, W, s, j, j) { assert Largest(abs, n, W0, s, j, j); }
      CroutPivotsMoved(abs, n, W, W', s, c, pivot);
      LargestMoved(abs, n, W, W', s, c, pivot);
    }
  }

  lemma DoolittlePivotsMoved(abs: Complex -> real, n: nat, W: Matrix, W': Matrix, s: seq<real>, c: nat, pivot: nat)
    requires |s| == n && c <= pivot < n && DoolittlePivots(abs, n, W, s, c) && RowsExchanged(n, W, W', c, pivot)
    ensures DoolittlePivots(abs, n, W', Exchange(s, c, pivot), c)
  {
    hide Times;
    var s' := Exchange(s, c, pivot);
    forall i, j | 0 <= j < c && j < i < n ensures Times(s'[i], abs(W'(i, j))) <= s'[j] {
      var k := if i == c then pivot else if i == pivot then c else i;
      assert s'[i] == s[k] && W'(i, j) == W(k, j) && s'[j] == s[j];
    }
  }

  /** The division of a column by its largest entry. */
  lemma LargestDivided(abs: Complex -> real, n: nat, W: Matrix, W': Matrix, s: seq<real>, c: nat)
    requires IsModulus(abs) && |s| == n && c < n && Largest(abs, n, W, s, c, c) && W(c, c) != Zero
    requires forall i :: c < i < n ==> Mul(W'(i, c), W(c, c)) == W(i, c)
    ensures forall i :: c < i < n ==> Times(s[i], abs(W'(i, c))) <= s[c]
  {
    hide IsModulus, Times, Mul;
    var d := abs(W(c, c));
    ModulusZero(abs, W(c, c));
    Modulus(abs, W(c, c));
    forall i | c < i < n ensures Times(s[i], abs(W'(i, c))) <= s[c] {
      ModulusMul(abs, W'(i, c), W(c, c));
      DividedWeight(s[i], abs(W'(i, c)), d, s[c]);
    }
  }

  lemma DividedWeight(s: real, x: real, d: real, t: real)
    requires d > 0.0 && Times(s, Times(x, d)) <= Times(t, d)
    ensures Times(s, x) <= t
  {
    assert (t - s * x) * d >= 0.0;
    if s * x > t { assert (s * x - t) * d > 0.0; }
  }

  /** One more column of Doolittle's definition: reduced from W0 to W, its pivot moved, then
      divided. */
  lemma DoolittlePivotsStep(abs: Complex -> real, n: nat, W0: Matrix, W: Matrix, V: Matrix, V': Matrix, s: seq<real>,
                            c: nat, pivot: nat)
    requires IsModulus(abs) && |s| == n && c <= pivot < n && SameBefore(n, W0, W, c) && Largest(abs, n, W, s, c, pivot)
    requires RowsExchanged(n, W, V, c, pivot) && V(c, c) != Zero && SameBefore(n, V, V', c)
    requires forall i :: c < i < n ==> Mul(V'(i, c), V(c, c)) == V(i, c)
    ensures DoolittlePivots(abs, n, W0, s, c) ==> DoolittlePivots(abs, n, V', Exchange(s, c, pivot), c + 1)
  {
    hide IsModulus, Times, Mul, RowsExchanged;
    if DoolittlePivots(abs, n, W0, s, c) {
      assert DoolittlePivots(abs, n, W, s, c);
      DoolittlePivotsMoved(abs, n, W, V, s, c, pivot);
      LargestMoved(abs, n, W, V, s, c, pivot);
      LargestDivided(abs, n, V, V', Exchange(s, c, pivot), c);
    }
  }
}
