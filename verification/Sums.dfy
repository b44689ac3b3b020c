/** Finite sums of complex terms. */
module Sums {
  import opened Integers
  import opened ComplexNumbers

  function Sum(n: nat, f: int -> Complex): Complex {
    if n == 0 then Zero else Add(Sum(n - 1, f), f(n - 1))
  }

  lemma {:induction false} SumExt(n: nat, f: int -> Complex, g: int -> Complex)
    requires forall k :: 0 <= k < n ==> f(k) == g(k)
    ensures Sum(n, f) == Sum(n, g)
  {
    if n > 0 {
      SumExt(n - 1, f, g);
    }
  }

  lemma {:induction false} SumAdd(n: nat, f: int -> Complex, g: int -> Complex)
    ensures Sum(n, k => Add(f(k), g(k))) == Add(Sum(n, f), Sum(n, g))
  {
    if n > 0 {
      SumAdd(n - 1, f, g);
    }
  }

  lemma {:induction false} SumSub(n: nat, f: int -> Complex, g: int -> Complex)
    ensures Sum(n, k => Sub(f(k), g(k))) == Sub(Sum(n, f), Sum(n, g))
  {
    if n > 0 {
      SumSub(n - 1, f, g);
    }
  }

  lemma {:induction false} SumScale(n: nat, a: Complex, f: int -> Complex)
    ensures Sum(n, k => Mul(a, f(k))) == Mul(a, Sum(n, f))
  {
    hide Mul;
    if n == 0 {
      MulUnits(a);
    } else {
      SumScale(n - 1, a, f);
      MulAdd(a, Sum(n - 1, f), f(n - 1));
    }
  }

  lemma {:induction false} ConjSum(n: nat, f: int -> Complex, g: int -> Complex)
    requires forall k :: 0 <= k < n ==> g(k) == Conj(f(k))
    ensures Conj(Sum(n, f)) == Sum(n, g)
  {
    if n > 0 { ConjSum(n - 1, f, g); }
  }

  lemma {:induction false} SumZero(n: nat, f: int -> Complex)
    requires forall k :: 0 <= k < n ==> f(k) == Zero
    ensures Sum(n, f) == Zero
  {
    if n > 0 {
      SumZero(n - 1, f);
    }
  }

  /** All terms from index m on vanish. */
  lemma {:induction false} SumTail(m: nat, n: nat, f: int -> Complex)
    requires m <= n
    requires forall k :: m <= k < n ==> f(k) == Zero
    ensures Sum(n, f) == Sum(m, f)
  {
    if m < n {
      SumTail(m, n - 1, f);
    }
  }

  /** All terms but the one at index i vanish. */
  lemma SumOnly(n: nat, i: nat, f: int -> Complex)
    requires i < n
    requires forall k :: 0 <= k < n && k != i ==> f(k) == Zero
    ensures Sum(n, f) == f(i)
  {
    SumTail(i + 1, n, f);
    SumZero(i, f);
  }

  lemma {:induction false} SumSwap(n: nat, m: nat, f: (int, int) -> Complex)
    ensures Sum(n, i => Sum(m, j => f(i, j))) == Sum(m, j => Sum(n, i => f(i, j)))
  {
    var col := (j: int) => Sum(n, i => f(i, j));
    if n == 0 {
      SumZero(m, col);
    } else {
      var col' := (j: int) => Sum(n - 1, i => f(i, j));
      var last := (j: int) => f(n - 1, j);
      SumSwap(n - 1, m, f);
      SumAdd(m, col', last);
      SumExt(m, col, j => Add(col'(j), last(j)));
      var inner := (i: int) => Sum(m, j => f(i, j));
      assert Sum(n, inner) == Add(Sum(n - 1, inner), inner(n - 1));
      assert inner(n - 1) == Sum(m, last) by {
        SumExt(m, j => f(n - 1, j), last);
      }
    }
  }

  /** A sum of an even number of terms, split by the parity of the index. */
  lemma SumNone(f: int -> Complex)
    ensures Sum(0, f) == Zero
  {}

  lemma SumEvenOdd(n: nat, f: int -> Complex)
    ensures Sum(2 * n, f) == Add(Sum(n, k => f(2 * k)), Sum(n, k => f(2 * k + 1)))
  {
    hide Sum;
    EvenOdd(n, f, k => f(2 * k), k => f(2 * k + 1));
  }

  lemma {:induction false} EvenOdd(n: nat, f: int -> Complex, e: int -> Complex, o: int -> Complex)
    requires forall k :: 0 <= k < n ==> e(k) == f(2 * k) && o(k) == f(2 * k + 1)
    ensures Sum(2 * n, f) == Add(Sum(n, e), Sum(n, o))
  {
    hide Sum;
    if n == 0 {
      SumNone(f);
      SumNone(e);
      SumNone(o);
    } else {
      var m := n - 1;
      EvenOdd(m, f, e, o);
      SumStep(2 * m, f);
      SumStep(2 * m + 1, f);
      SumStep(m, e);
      SumStep(m, o);
    }
  }

  lemma SumStep(n: nat, f: int -> Complex)
    ensures Sum(n + 1, f) == Add(Sum(n, f), f(n))
  {}

  lemma {:induction false} SumSplit(m: nat, k: nat, f: int -> Complex)
    ensures Sum(m + k, f) == Add(Sum(m, f), Sum(k, j => f(m + j)))
  {
    if k > 0 {
      SumSplit(m, k - 1, f);
    }
  }

  /** Exchanging two terms does not change a sum. */
  function Residue(q: int, d: nat): int
    requires d > 0
  {
    q % d
  }

  /** A sum whose terms are zero but for one residue. */
  lemma {:induction false} SumResidue(d: nat, m: nat, size: nat, r: nat, f: int -> Complex, h: int -> Complex)
    requires size == m * d && r < d && forall q :: 0 <= q < size && Residue(q, d) != r ==> f(q) == Zero
    requires forall b :: 0 <= b < m ==> h(b) == f(b * d + r)
    ensures Sum(size, f) == Sum(m, h)
  {
    hide Sum, Residue;
    if m == 0 {
      SumNone(f);
      SumNone(h);
    } else {
      var base := LastBase(m, d);
      SumResidue(d, m - 1, base, r, f, h);
      LastResidue(d, m - 1, base, r, f, f(base + r));
      SumStep(m - 1, h);
    }
  }

  /** The last block of such a sum. */
  lemma LastResidue(d: nat, m: nat, base: nat, r: nat, f: int -> Complex, last: Complex)
    requires base == m * d && r < d && last == f(base + r)
    requires forall q :: 0 <= q < base + d && Residue(q, d) != r ==> f(q) == Zero
    ensures Sum(base + d, f) == Add(Sum(base, f), last)
  {
    hide Sum;
    SumSplit(base, d, f);
    var g := (j: int) => f(base + j);
    forall j | 0 <= j < d && j != r ensures g(j) == Zero {
      DivMod(m, j, d);
      assert Residue(base + j, d) == j;
    }
    SumOnly(d, r, g);
  }

  lemma LastBase(m: nat, d: nat) returns (base: nat)
    requires m > 0
    ensures base == (m - 1) * d && m * d == base + d
  {
    base := (m - 1) * d;
  }

  lemma SumExchange(n: nat, f: int -> Complex, g: int -> Complex, i: nat, j: nat)
    requires i < n && j < n && forall k :: 0 <= k < n ==> g(k) == f(if k == i then j else if k == j then i else k)
    ensures Sum(n, f) == Sum(n, g)
  {
    if i == j {
      SumExt(n, f, g);
    } else {
      var d := Sub(f(i), f(j));
      var p, q := (k: int) => if k == i then d else Zero, (k: int) => if k == j then d else Zero;
      SumOnly(n, i, p);
      SumOnly(n, j, q);
      SumSub(n, f, p);
      SumSub(n, g, q);
      SumExt(n, k => Sub(f(k), p(k)), k => Sub(g(k), q(k)));
    }
  }
}
