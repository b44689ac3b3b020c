/** The in-place radix-2 fast Fourier transform. */
module FastFourier {
  import opened Integers
  import opened ComplexNumbers
  import opened Sums
  import opened LinearAlgebra
  import opened FourierTransform

  // ----- bit reversal -----

  /** The index b < n with its bits in reversed order. */
  function Rev(n: nat, b: nat): (r: nat)
    requires IsPow2(n) && b < n
    ensures r < n
  {
    if n == 1 then 0 else Rev(n / 2, b / 2) + (if b % 2 == 0 then 0 else n / 2)
  }

  /** Reversal in terms of the highest bit. */
  lemma {:induction false} RevHigh(n: nat, b: nat)
    requires n > 1 && IsPow2(n) && b < n
    ensures b < n / 2 ==> Rev(n, b) == 2 * Rev(n / 2, b)
    ensures b >= n / 2 ==> Rev(n, b) == 2 * Rev(n / 2, b - n / 2) + 1
  {
    if n > 2 {
      RevHigh(n / 2, b / 2);
      var h := n / 2;
      assert h % 2 == 0;
      if b >= h {
        assert (b - h) / 2 == b / 2 - h / 2 && (b - h) % 2 == b % 2;
      }
    }
  }

  lemma {:induction false} RevInvolution(n: nat, b: nat)
    requires IsPow2(n) && b < n
    ensures Rev(n, Rev(n, b)) == b
  {
    if n > 1 {
      RevInvolution(n / 2, b / 2);
      RevHigh(n, Rev(n, b));
    }
  }

  /** The next swap index, in steps of two as the loop computes it. */
  function Next(m: nat, j: nat): nat {
    if m >= 2 && j >= m then Next(m / 2, j - m) else j + m
  }

  lemma {:induction false} NextReversed(n: nat, b: nat)
    requires IsPow2(n) && b + 1 < n
    ensures Next(n, 2 * Rev(n, b)) == 2 * Rev(n, b + 1)
  {
    var h := n / 2;
    if b % 2 == 0 {
      assert (b + 1) / 2 == b / 2;
    } else {
      assert (b + 1) / 2 == b / 2 + 1;
      NextReversed(h, b / 2);
    }
  }

  /** Lane p of every block of size 2L spans the two positions p and p + L of the block. */
  lemma LanePair(b: int, p: int, L: int, i: int)
    requires 0 <= p < L && b % (2 * L) == 0 && b <= i < b + 2 * L
    ensures i % L == p <==> i == b + p || i == b + p + L
    ensures (b + p) % (2 * L) == p && (b + p + L) % (2 * L) == p + L
  {
    var k := b / (2 * L);
    assert b == (2 * L) * k;
    ModShift(2 * L, k, p);
    ModShift(2 * L, k, p + L);
    assert b == L * (2 * k);
    if i < b + L {
      ModShift(L, 2 * k, i - b);
    } else {
      assert L * (2 * k + 1) == L * (2 * k) + L;
      ModShift(L, 2 * k + 1, i - b - L);
    }
  }

  // ----- the stages -----

  /** Entry p of the transform of size L over every B-th entry of x from entry r on. */
  function StageSum(t: Trig, s: int, L: nat, B: nat, x: Vector, r: int, p: int): Complex
    requires L > 0
  {
    Sum(L, q => Mul(x(q * B + r), t.Root(s, L, p * q)))
  }

  lemma EvenOddTerm(t: Trig, s: int, L: nat, B: nat, C: nat, x: Vector, r: int, p: int, q: int)
    requires t.Valid() && L > 0 && B == 2 * C
    ensures Mul(x((2 * q) * C + r), t.Root(s, 2 * L, p * (2 * q))) == Mul(x(q * B + r), t.Root(s, L, p * q))
    ensures Mul(x((2 * q + 1) * C + r), t.Root(s, 2 * L, p * (2 * q + 1)))
         == Mul(t.Root(s, 2 * L, p), Mul(x(q * B + (r + C)), t.Root(s, L, p * q)))
  {
    hide Mul, Trig.Root, Trig.Valid;
    var e := p * q;
    assert (2 * q) * C + r == q * B + r && (2 * q + 1) * C + r == q * B + (r + C);
    assert p * (2 * q) == 2 * e && p * (2 * q + 1) == p + 2 * e;
    RootDouble(t, s, L, e);
    RootAdd(t, s, 2 * L, p, 2 * e);
    MulSwap(t.Root(s, 2 * L, p), x(q * B + (r + C)), t.Root(s, L, e));
  }

  lemma EvenOddSums(n: nat, f: int -> Complex, e: int -> Complex, o: int -> Complex, w: Complex)
    requires forall q :: 0 <= q < n ==> f(2 * q) == e(q) && f(2 * q + 1) == Mul(w, o(q))
    ensures Sum(2 * n, f) == Add(Sum(n, e), Mul(w, Sum(n, o)))
  {
    hide Mul;
    SumEvenOdd(n, f);
    SumExt(n, q => f(2 * q), e);
    SumExt(n, q => f(2 * q + 1), q => Mul(w, o(q)));
    SumScale(n, w, o);
  }

  /** The Danielson-Lanczos identity: a transform of size 2L from two of size L. */
  lemma DanielsonLanczos(t: Trig, s: int, L: nat, B: nat, C: nat, x: Vector, r: int, p: int)
    requires t.Valid() && L > 0 && B == 2 * C
    ensures StageSum(t, s, 2 * L, C, x, r, p)
         == Add(StageSum(t, s, L, B, x, r, p), Mul(t.Root(s, 2 * L, p), StageSum(t, s, L, B, x, r + C, p)))
  {
    hide Mul, Trig.Root, Trig.Valid;
    var w := t.Root(s, 2 * L, p);
    var f := (q: int) => Mul(x(q * C + r), t.Root(s, 2 * L, p * q));
    var e := (q: int) => Mul(x(q * B + r), t.Root(s, L, p * q));
    var o := (q: int) => Mul(x(q * B + (r + C)), t.Root(s, L, p * q));
    forall q | 0 <= q < L ensures f(2 * q) == e(q) && f(2 * q + 1) == Mul(w, o(q)) {
      EvenOddTerm(t, s, L, B, C, x, r, p, q);
    }
    EvenOddSums(L, f, e, o, w);
  }

  /** The second half of the merged block repeats the sums of the first half. */
  lemma StagePeriod(t: Trig, s: int, L: nat, B: nat, x: Vector, r: int, p: int)
    requires t.Valid() && L > 0 && (s == 1 || s == -1)
    ensures StageSum(t, s, L, B, x, r, p + L) == StageSum(t, s, L, B, x, r, p)
    ensures t.Root(s, 2 * L, p + L) == Neg(t.Root(s, 2 * L, p))
  {
    hide Mul, Trig.Root, Trig.Valid;
    forall q | 0 <= q < L ensures t.Root(s, L, (p + L) * q) == t.Root(s, L, p * q) {
      assert (p + L) * q == p * q + q * L;
      RootMod(t, s, L, (p + L) * q, p * q, q);
    }
    SumExt(L, q => Mul(x(q * B + r), t.Root(s, L, (p + L) * q)), q => Mul(x(q * B + r), t.Root(s, L, p * q)));
    RootAdd(t, s, 2 * L, p, L);
    RootHalf(t, s, L);
    MulNeg(t.Root(s, 2 * L, p), One);
    MulUnits(t.Root(s, 2 * L, p));
  }

  /** The signal v holds the transforms of size L of the B interleaved parts of x, each in
      its block, the blocks in bit-reversed order. */
  ghost predicate Staged(t: Trig, s: int, L: nat, B: nat, x: Vector, v: Vector)
    requires L > 0 && IsPow2(B)
  {
    forall b: nat, p: nat :: b < B && p < L ==> v(L * b + p) == StageSum(t, s, L, B, x, Rev(B, b), p)
  }

  /** One stage of butterflies between the halves of blocks of size 2L, at position i. */
  function Stepped(t: Trig, s: int, L: nat, v: Vector, i: int): Complex
    requires L > 0
  {
    var p := i % (2 * L);
    if p < L then Add(v(i), Mul(t.Root(s, 2 * L, p), v(i + L)))
    else Sub(v(i - L), Mul(t.Root(s, 2 * L, p - L), v(i)))
  }

  lemma StageStep(t: Trig, s: int, L: nat, B: nat, C: nat, x: Vector, v: Vector, v': Vector)
    requires t.Valid() && (s == 1 || s == -1) && L > 0 && IsPow2(B) && B == 2 * C
    requires Staged(t, s, L, B, x, v)
    requires forall i :: 0 <= i < L * B ==> v'(i) == Stepped(t, s, L, v, i)
    ensures IsPow2(C) && Staged(t, s, 2 * L, C, x, v')
  {
    hide Mul, Trig.Root, Trig.Valid, StageSum;
    assert B / 2 == C;
    forall b: nat, p: nat | b < C && p < 2 * L
      ensures v'((2 * L) * b + p) == StageSum(t, s, 2 * L, C, x, Rev(C, b), p)
    {
      StageEntry(t, s, L, B, C, x, v, v', b, p);
    }
  }

  lemma BlockIndex(L: nat, C: nat, b: nat, p: nat) returns (i: nat, lo: nat)
    requires L > 0 && b < C && p < 2 * L
    ensures i == (2 * L) * b + p && i < L * (2 * C) && i % (2 * L) == p
    ensures lo == if p < L then i else i - L
    ensures lo == L * (2 * b) + lo - i + p && lo + L == L * (2 * b + 1) + lo - i + p
  {
    var D := 2 * L;
    ModShift(D, b, p);
    Scale(D, b + 1, C);
    DoubledFactor(L, D, b);
    DoubledFactor(L, D, C);
    i := D * b + p;
    lo := if p < L then i else i - L;
  }

  lemma DoubledFactor(L: int, D: int, b: int)
    requires D == 2 * L
    ensures D * b == L * (2 * b) && L * (2 * b + 1) == L * (2 * b) + L && D * (b + 1) == D * b + D
  {}

  lemma RevPair(B: nat, C: nat, b: nat)
    requires IsPow2(B) && IsPow2(C) && B == 2 * C && b < C
    ensures Rev(B, 2 * b) == Rev(C, b) && Rev(B, 2 * b + 1) == Rev(C, b) + C
  {
    assert (2 * b) / 2 == b && (2 * b) % 2 == 0 && (2 * b + 1) / 2 == b && (2 * b + 1) % 2 == 1;
  }

  lemma StageEntry(t: Trig, s: int, L: nat, B: nat, C: nat, x: Vector, v: Vector, v': Vector, b: nat, p: nat)
    requires t.Valid() && (s == 1 || s == -1) && L > 0 && IsPow2(B) && IsPow2(C) && B == 2 * C && b < C && p < 2 * L
    requires Staged(t, s, L, B, x, v)
    requires forall i :: 0 <= i < L * B ==> v'(i) == Stepped(t, s, L, v, i)
    ensures v'((2 * L) * b + p) == StageSum(t, s, 2 * L, C, x, Rev(C, b), p)
  {
    hide Mul, Trig.Root, Trig.Valid, StageSum, Rev, IsPow2;
    var i, lo := BlockIndex(L, C, b, p);
    var q, r := (if p < L then p else p - L), Rev(C, b);
    RevPair(B, C, b);
    assert v(L * (2 * b) + q) == StageSum(t, s, L, B, x, r, q);
    assert v(L * (2 * b + 1) + q) == StageSum(t, s, L, B, x, r + C, q);
    assert v'(i) == Stepped(t, s, L, v, i);
    MergedEntry(t, s, L, B, C, x, r, p, v(lo), v(lo + L));
  }

  lemma MergedEntry(t: Trig, s: int, L: nat, B: nat, C: nat, x: Vector, r: int, p: nat, lo: Complex, hi: Complex)
    requires t.Valid() && (s == 1 || s == -1) && L > 0 && B == 2 * C && p < 2 * L
    requires var q := if p < L then p else p - L;
      lo == StageSum(t, s, L, B, x, r, q) && hi == StageSum(t, s, L, B, x, r + C, q)
    ensures StageSum(t, s, 2 * L, C, x, r, p)
         == if p < L then Add(lo, Mul(t.Root(s, 2 * L, p), hi)) else Sub(lo, Mul(t.Root(s, 2 * L, p - L), hi))
  {
    hide Mul, Trig.Root, Trig.Valid, StageSum;
    DanielsonLanczos(t, s, L, B, C, x, r, p);
    if p >= L {
      StagePeriod(t, s, L, B, x, r, p - L);
      StagePeriod(t, s, L, B, x, r + C, p - L);
      MulNeg(t.Root(s, 2 * L, p - L), hi);
    }
  }

  /** Bit-reversed order is the first stage. */
  lemma FirstStage(t: Trig, s: int, n: nat, x: Vector, v: Vector)
    requires t.Valid() && IsPow2(n)
    requires forall i: nat :: i < n ==> v(i) == x(Rev(n, i))
    ensures Staged(t, s, 1, n, x, v)
  {
    hide Mul, Trig.Root, Trig.Valid;
    hide StageSum, Rev, IsPow2;
    forall b: nat, p: nat | b < n && p < 1 ensures v(1 * b + p) == StageSum(t, s, 1, n, x, Rev(n, b), p) {
      FirstEntry(t, s, n, x, Rev(n, b), p);
    }
  }

  lemma FirstEntry(t: Trig, s: int, n: nat, x: Vector, r: int, p: nat)
    requires t.Valid()
    ensures StageSum(t, s, 1, n, x, r, p) == x(r)
  {
    hide Mul, Trig.Root, Trig.Valid;
    var f := (q: int) => Mul(x(q * n + r), t.Root(s, 1, p * q));
    assert Sum(1, f) == Add(Sum(0, f), f(0));
    assert f(0) == Mul(x(r), t.Root(s, 1, 0)) by { assert 0 * n + r == r && p * 0 == 0; }
    RootZero(t, s, 1);
    MulUnits(x(r));
  }

  /** A single block is the transform. */
  lemma LastStage(t: Trig, s: int, n: nat, x: Vector, v: Vector)
    requires n > 0 && Staged(t, s, n, 1, x, v)
    ensures forall i :: 0 <= i < n ==> v(i) == Dft(t, s, n, x, i)
  {
    hide Mul, Trig.Root;
    forall i | 0 <= i < n ensures v(i) == Dft(t, s, n, x, i) {
      assert v(n * 0 + i) == StageSum(t, s, n, 1, x, Rev(1, 0), i);
      SumExt(n, q => Mul(x(q * 1 + 0), t.Root(s, n, i * q)), q => Mul(x(q), t.Root(s, n, i * q)));
    }
  }

  // ----- in place -----

  /** The `len` complex items stored as pairs from index o on. */
  ghost function Signal(data: array<real>, o: nat, len: nat): (v: Vector)
    reads data
    requires o + 2 * len <= data.Length
    ensures forall k :: 0 <= k < len ==> v(k) == Complex(data[o + 2 * k], data[o + 2 * k + 1])
  {
    var d := data[..];
    k => if 0 <= k < len && o + 2 * len <= |d| then Complex(d[o + 2 * k], d[o + 2 * k + 1]) else Zero
  }

  /** Nothing outside the items has changed. */
  twostate predicate Framed(data: array<real>, o: nat, len: nat)
    reads data
  {
    forall k :: 0 <= k < data.Length && (k < o || k >= o + 2 * len) ==> data[k] == old(data[k])
  }

  /** v' is v with items I and J exchanged. */
  ghost predicate ItemsSwapped(len: nat, v: Vector, v': Vector, I: int, J: int) {
    forall k :: 0 <= k < len ==> v'(k) == v(if k == I then J else if k == J then I else k)
  }

  method SwapItems(data: array<real>, o: nat, len: nat, i: nat, j: nat, ghost I: nat, ghost J: nat)
    requires o + 2 * len <= data.Length && i == 2 * I && j == 2 * J && I < J < len
    modifies data
    ensures Framed(data, o, len)
    ensures ItemsSwapped(len, old(Signal(data, o, len)), Signal(data, o, len), I, J)
  {
    data[o + j], data[o + i] := data[o + i], data[o + j];
    data[o + j + 1], data[o + i + 1] := data[o + i + 1], data[o + j + 1];
    ghost var v, v' := old(Signal(data, o, len)), Signal(data, o, len);
    forall k | 0 <= k < len ensures v'(k) == v(if k == I then J else if k == J then I else k) {
      if k != I && k != J {
        assert data[o + 2 * k] == old(data[o + 2 * k]) && data[o + 2 * k + 1] == old(data[o + 2 * k + 1]);
      }
    }
  }

  /** Calculates the next swap index. */
  method NextSwap(len: nat, j0: nat) returns (j: nat)
    ensures j == Next(len, j0)
  {
    j := j0;
    var m := len;
    while m >= 2 && j >= m
      invariant Next(m, j) == Next(len, j0)
      decreases m
    {
      j := j - m;
      m := m / 2;
    }
    j := j + m;
  }

  /** The items that the first I rounds have reached are reversed, the others are not. */
  ghost predicate Reversed(len: nat, x: Vector, v: Vector, I: int)
    requires IsPow2(len)
  {
    forall k: nat :: k < len ==> v(k) == if k < I || Rev(len, k) < I then x(Rev(len, k)) else x(k)
  }

  lemma ReverseStep(len: nat, x: Vector, v: Vector, v': Vector, I: nat)
    requires IsPow2(len) && I < len && Reversed(len, x, v, I)
    requires ItemsSwapped(len, v, v', I, if Rev(len, I) > I then Rev(len, I) else I)
    ensures Reversed(len, x, v', I + 1)
  {
    hide Rev, IsPow2;
    var J := Rev(len, I);
    RevInvolution(len, I);
    forall k: nat | k < len ensures v'(k) == if k <= I || Rev(len, k) <= I then x(Rev(len, k)) else x(k) {
      RevInvolution(len, k);
    }
  }

  /** One round: the item is swapped unless it was already. */
  method ReverseItem(data: array<real>, o: nat, len: nat, i: nat, j: nat, ghost I: nat, ghost x: Vector)
    requires o + 2 * len <= data.Length && IsPow2(len) && I < len && i == 2 * I && j == 2 * Rev(len, I)
    requires Reversed(len, x, Signal(data, o, len), I)
    modifies data
    ensures Framed(data, o, len)
    ensures Reversed(len, x, Signal(data, o, len), I + 1)
  {
    hide Rev, IsPow2, Reversed;
    ghost var v := Signal(data, o, len);
    if j > i {
      SwapItems(data, o, len, i, j, I, Rev(len, I));
    }
    ReverseStep(len, x, v, Signal(data, o, len), I);
  }

  /** The bit reversal method. */
  method BitReverse(data: array<real>, o: nat, len: nat)
    requires o + 2 * len <= data.Length && IsPow2(len)
    modifies data
    ensures Framed(data, o, len)
    ensures forall k: nat :: k < len ==> Signal(data, o, len)(k) == old(Signal(data, o, len))(Rev(len, k))
  {
    hide Rev, IsPow2, Reversed;
    var n := 2 * len;
    var j := 0;
    var i := 0;
    RevZero(len);
    ghost var x, I := Signal(data, o, len), 0;
    NoneReversed(len, x);
    while i < n
      invariant i == 2 * I && I <= len
      invariant I < len ==> j == 2 * Rev(len, I)
      invariant Framed(data, o, len)
      invariant Reversed(len, x, Signal(data, o, len), I)
    {
      ReverseItem(data, o, len, i, j, I, x);
      if I + 1 < len { NextReversed(len, I); }
      j := NextSwap(len, j);
      i := i + 2;
      I := I + 1;
    }
    AllReversed(len, x, Signal(data, o, len));
  }

  lemma AllReversed(len: nat, x: Vector, v: Vector)
    requires IsPow2(len) && Reversed(len, x, v, len)
    ensures forall k: nat :: k < len ==> v(k) == x(Rev(len, k))
  {}

  lemma NoneReversed(len: nat, x: Vector)
    requires IsPow2(len)
    ensures Reversed(len, x, x, 0)
  {
    hide Rev;
    forall k: nat | k < len ensures Rev(len, k) >= 0 { RevInvolution(len, k); }
  }

  lemma RevZero(n: nat)
    requires IsPow2(n)
    ensures Rev(n, 0) == 0
  {}

  /** v' is v with a butterfly of factor w between items I and J. */
  ghost predicate Crossed(len: nat, v: Vector, v': Vector, I: int, J: int, w: Complex) {
    forall k :: 0 <= k < len ==> v'(k) == Crossing(v, I, J, w, k)
  }

  function Crossing(v: Vector, I: int, J: int, w: Complex, k: int): Complex {
    if k == I then Add(v(I), Mul(w, v(J))) else if k == J then Sub(v(I), Mul(w, v(J))) else v(k)
  }

  /** A butterfly between the items with imaginary parts at i and j, whose factor is the
      conjugate of the twiddle variables. */
  method Butterfly(data: array<real>, o: nat, len: nat, i: nat, j: nat, wr: real, wi: real, ghost I: nat, ghost J: nat)
    requires o + 2 * len <= data.Length && i == 2 * I + 1 && j == 2 * J + 1 && I < J < len
    modifies data
    ensures Framed(data, o, len)
    ensures Crossed(len, old(Signal(data, o, len)), Signal(data, o, len), I, J, Complex(wr, -wi))
  {
    var tr := wr * data[o + j] - wi * data[o + j - 1];
    var ti := wr * data[o + j - 1] + wi * data[o + j];
    assert Mul(Complex(wr, -wi), Complex(data[o + j - 1], data[o + j])) == Complex(ti, tr);
    hide Mul;
    data[o + j] := data[o + i] - tr;
    data[o + j - 1] := data[o + i - 1] - ti;
    data[o + i] := data[o + i] + tr;
    data[o + i - 1] := data[o + i - 1] + ti;
  }

  /** Lane p of the blocks before b0 has been stepped. */
  ghost predicate LaneDone(t: Trig, s: int, L: nat, len: nat, v: Vector, u: Vector, p: int, b0: int)
    requires L > 0
  {
    forall k :: 0 <= k < len ==> u(k) == if k % L == p && k < b0 then Stepped(t, s, L, v, k) else v(k)
  }

  lemma LaneStep(t: Trig, s: int, L: nat, len: nat, v: Vector, u: Vector, u': Vector, p: nat, b0: nat)
    requires p < L && b0 % (2 * L) == 0 && b0 + 2 * L <= len
    requires LaneDone(t, s, L, len, v, u, p, b0)
    requires Crossed(len, u, u', b0 + p, b0 + p + L, t.Root(s, 2 * L, p))
    ensures LaneDone(t, s, L, len, v, u', p, b0 + 2 * L)
  {
    hide Mul, Trig.Root;
    LanePair(b0, p, L, b0 + p);
    LanePair(b0, p, L, b0 + p + L);
    var I, J, w := b0 + p, b0 + p + L, t.Root(s, 2 * L, p);
    forall k | 0 <= k < len
      ensures u'(k) == if k % L == p && k < b0 + 2 * L then Stepped(t, s, L, v, k) else v(k)
    {
      if b0 <= k < b0 + 2 * L { LanePair(b0, p, L, k); }
      assert u'(k) == Crossing(u, I, J, w, k);
    }
  }

  /** Multiples of d below a multiple of d are at least d below it. */
  lemma NextMultiple(a: int, b: int, d: int)
    requires d > 0 && a % d == 0 && b % d == 0 && a < b
    ensures a + d <= b && (a + d) % d == 0
  {
    var x, y := a / d, b / d;
    assert a == d * x && b == d * y;
    if x >= y {
      Scale(d, y, x);
    } else {
      Scale(d, x + 1, y);
      ModShift(d, x + 1, 0);
    }
  }

  /** The butterflies of one twiddle factor, over all blocks. */
  method Lane(t: Trig, data: array<real>, o: nat, len: nat, isign: int, mmax: nat, m: nat, wr: real, wi: real,
              ghost L: nat, ghost p: nat)
    requires o + 2 * len <= data.Length && mmax == 2 * L && m == 2 * p + 1 && p < L && len % (2 * L) == 0
    requires Complex(wr, -wi) == t.Root(isign, 2 * L, p)
    modifies data
    ensures Framed(data, o, len)
    ensures LaneDone(t, isign, L, len, old(Signal(data, o, len)), Signal(data, o, len), p, len)
  {
    hide Mul, Trig.Root, Stepped;
    var n, istep := 2 * len, 2 * mmax;
    ghost var v, b0 := Signal(data, o, len), 0;
    var i := m;
    while i <= n
      invariant i == 2 * (b0 + p) + 1 && b0 % (2 * L) == 0 && 0 <= b0 <= len
      invariant Framed(data, o, len)
      invariant LaneDone(t, isign, L, len, v, Signal(data, o, len), p, b0)
    {
      NextMultiple(b0, len, 2 * L);
      ghost var u := Signal(data, o, len);
      Butterfly(data, o, len, i, i + mmax, wr, wi, b0 + p, b0 + p + L);
      LaneStep(t, isign, L, len, v, u, Signal(data, o, len), p, b0);
      i := i + istep;
      b0 := b0 + 2 * L;
    }
    if b0 < len { NextMultiple(b0, len, 2 * L); }
  }

  /** The lanes before p have been stepped. */
  ghost predicate LanesDone(t: Trig, s: int, L: nat, len: nat, v: Vector, u: Vector, p: int)
    requires L > 0
  {
    forall k :: 0 <= k < len ==> u(k) == if k % L < p then Stepped(t, s, L, v, k) else v(k)
  }

  lemma LanesStep(t: Trig, s: int, L: nat, len: nat, v: Vector, u: Vector, u': Vector, p: nat)
    requires p < L && len % (2 * L) == 0
    requires LanesDone(t, s, L, len, v, u, p) && LaneDone(t, s, L, len, u, u', p, len)
    ensures LanesDone(t, s, L, len, v, u', p + 1)
  {
    hide Mul, Trig.Root, Stepped;
    forall k | 0 <= k < len ensures u'(k) == if k % L < p + 1 then Stepped(t, s, L, v, k) else v(k) {
      if k % L == p {
        PartnerLane(L, len, k);
        PartnerStep(t, s, L, len, v, u, p, k);
        assert u'(k) == Stepped(t, s, L, u, k);
      }
    }
  }

  lemma PartnerStep(t: Trig, s: int, L: nat, len: nat, v: Vector, u: Vector, p: nat, k: nat)
    requires p < L && LanesDone(t, s, L, len, v, u, p) && k < len && k % L == p
    requires k % (2 * L) < L ==> k + L < len && (k + L) % L == k % L
    requires k % (2 * L) >= L ==> 0 <= k - L && (k - L) % L == k % L
    ensures Stepped(t, s, L, u, k) == Stepped(t, s, L, v, k)
  {
    hide Mul, Trig.Root;
    assert u(k) == v(k);
    if k % (2 * L) < L { assert u(k + L) == v(k + L); } else { assert u(k - L) == v(k - L); }
  }

  /** The partner of a position in its block has the same lane. */
  lemma PartnerLane(L: nat, len: nat, k: nat)
    requires L > 0 && len % (2 * L) == 0 && k < len
    ensures k % (2 * L) < L ==> k + L < len && (k + L) % L == k % L
    ensures k % (2 * L) >= L ==> 0 <= k - L && (k - L) % L == k % L
  {
    var d := 2 * L;
    var b, q := Divided(k, d);
    PartnerBlock(L, d, len, b, q, k);
  }

  lemma Divided(k: nat, d: nat) returns (b: nat, q: nat)
    requires d > 0
    ensures q < d && k == d * b + q && q == k % d
  {
    b, q := k / d, k % d;
  }

  lemma PartnerBlock(L: nat, d: nat, len: nat, b: nat, q: nat, k: nat)
    requires L > 0 && d == 2 * L && len % d == 0 && q < d && k == d * b + q && k < len
    ensures q < L ==> k + L < len && (k + L) % L == k % L
    ensures q >= L ==> 0 <= k - L && (k - L) % L == k % L
  {
    var h := d * b;
    assert h == L * (2 * b);
    ModShift(d, b, 0);
    NextMultiple(h, len, d);
    TwoLanes(L, b, if q < L then q else q - L);
  }

  lemma TwoLanes(L: nat, b: nat, r: nat)
    requires r < L
    ensures (L * (2 * b) + r) % L == r && (L * (2 * b) + r + L) % L == r
  {
    assert L * (2 * b + 1) == L * (2 * b) + L;
    ModShift(L, 2 * b, r);
    ModShift(L, 2 * b + 1, r);
  }

  /** The twiddle recurrence steps through the powers of the root. */
  lemma TwiddleStep(t: Trig, s: int, size: nat, p: int, wr: real, wi: real, th: real, wpr: real, wpi: real)
    requires t.Valid() && size > 0
    requires th == (s as real) * (2.0 * t.pi / (size as real))
    requires wpr == -2.0 * Square(t.sin(0.5 * th)) && wpi == t.sin(th)
    requires Complex(wr, -wi) == t.Root(s, size, p)
    ensures Complex(wr * wpr - wi * wpi + wr, -(wi * wpr + wr * wpi + wi)) == t.Root(s, size, p + 1)
  {
    CosDouble(t, th);
    assert t.Parity(th);
    assert t.Root(s, size, 1) == t.Cis(-th) by {
      hide Trig.Cis, Trig.Valid;
      StepAngle(t, s, size, th);
    }
    assert t.Cis(-th) == Complex(1.0 + wpr, -wpi);
    hide Trig.Root, Trig.Valid, Square;
    RootAdd(t, s, size, p, 1);
    var c := 1.0 + wpr;
    assert Mul(Complex(wr, -wi), Complex(c, -wpi)) == Complex(wr * c - wi * wpi, -(wr * wpi + wi * c));
    assert wr * c == wr * wpr + wr && wi * c == wi * wpr + wi;
  }

  lemma StepAngle(t: Trig, s: int, size: nat, th: real)
    requires size > 0 && th == (s as real) * (2.0 * t.pi / (size as real))
    ensures Times(1.0, t.Angle(s, size)) == -th
  {
    NegatedQuotient(s as real, 2.0 * t.pi, size as real);
  }

  lemma NegatedQuotient(s: real, c: real, n: real)
    requires n != 0.0
    ensures (-s * c) / n == -(s * (c / n))
  {
    var d := 1.0 / n;
    assert c / n == c * d && (-s * c) / n == (-s * c) * d;
  }

  /** One stage: all butterflies between blocks of mmax / 2 items. */
  method Stage(t: Trig, data: array<real>, o: nat, len: nat, isign: int, mmax: nat, ghost L: nat)
    requires t.Valid() && o + 2 * len <= data.Length && L > 0 && mmax == 2 * L && len % (2 * L) == 0
    modifies data
    ensures Framed(data, o, len)
    ensures forall k :: 0 <= k < len ==> Signal(data, o, len)(k) == Stepped(t, isign, L, old(Signal(data, o, len)), k)
  {
    hide Mul, Trig.Root, Trig.Valid, Stepped, Square;
    ghost var v, p := Signal(data, o, len), 0;
    var th := (isign as real) * (2.0 * t.pi / (mmax as real));
    var wt := t.sin(0.5 * th);
    var wpr := -2.0 * Square(wt);
    var wpi := t.sin(th);
    var wr, wi := 1.0, 0.0;
    RootZero(t, isign, 2 * L);
    var m := 1;
    while m < mmax
      invariant m == 2 * p + 1 && 0 <= p <= L
      invariant Framed(data, o, len)
      invariant Complex(wr, -wi) == t.Root(isign, 2 * L, p)
      invariant LanesDone(t, isign, L, len, v, Signal(data, o, len), p)
    {
      ghost var u := Signal(data, o, len);
      Lane(t, data, o, len, isign, mmax, m, wr, wi, L, p);
      LanesStep(t, isign, L, len, v, u, Signal(data, o, len), p);
      TwiddleStep(t, isign, 2 * L, p, wr, wi, th, wpr, wpi);
      wr, wi := wr * wpr - wi * wpi + wr, wi * wpr + wr * wpi + wi;
      m := m + 2;
      p := p + 1;
    }
  }

  /** A 1-dimensional fast Fourier transform in place, of a binary number of items. */
  method Fft1d(t: Trig, data: array<real>, o: nat, len: nat, isign: int)
    requires t.Valid() && o + 2 * len <= data.Length && IsPow2(len) && (isign == 1 || isign == -1)
    modifies data
    ensures Framed(data, o, len)
    ensures forall k :: 0 <= k < len ==> Signal(data, o, len)(k) == Dft(t, isign, len, old(Signal(data, o, len)), k)
  {
    hide Mul, Trig.Root, Trig.Valid, Stepped, Dft, Rev, IsPow2, Staged;
    ghost var x, L, B := Signal(data, o, len), 1, len;
    BitReverse(data, o, len);
    FirstStage(t, isign, len, x, Signal(data, o, len));
    Pow2Positive(len);
    var n, mmax := 2 * len, 2;
    while n > mmax
      invariant mmax == 2 * L && L > 0 && L * B == len && IsPow2(B)
      invariant Framed(data, o, len)
      invariant Staged(t, isign, L, B, x, Signal(data, o, len))
      decreases n - mmax
    {
      var istep := 2 * mmax;
      ghost var C := HalfBlocks(L, B, len);
      ghost var v := Signal(data, o, len);
      Stage(t, data, o, len, isign, mmax, L);
      StageStep(t, isign, L, B, C, x, v, Signal(data, o, len));
      mmax := istep;
      L, B := 2 * L, C;
    }
    SingleBlock(L, B, len);
    LastStage(t, isign, len, x, Signal(data, o, len));
  }

  lemma Pow2Positive(n: nat)
    requires IsPow2(n)
    ensures n > 0
  {}

  lemma HalfBlocks(L: nat, B: nat, len: nat) returns (C: nat)
    requires L > 0 && L * B == len && IsPow2(B) && len > L
    ensures B == 2 * C && (2 * L) * C == len && IsPow2(C) && len % (2 * L) == 0
  {
    assert B != 1;
    C := B / 2;
    assert B == 2 * C;
    assert L * (2 * C) == (2 * L) * C;
    ModShift(2 * L, C, 0);
  }

  lemma SingleBlock(L: nat, B: nat, len: nat)
    requires L > 0 && L * B == len && IsPow2(B) && len <= L
    ensures B == 1 && L == len
  {
    Pow2Positive(B);
    if B > 1 {
      Scale(L, 2, B);
    }
  }

  // ----- transforms of vectors -----

  /** Inverse transforms are divided by the number of items. */
  function Normalized(s: int, size: nat, z: Complex): Complex
    requires size > 0
  {
    if s < 0 then Div(z, FromReal(size as real)) else z
  }

  /** A sequence as a vector, zero beyond its end. */
  function Padded(x: seq<Complex>): Vector {
    k => if 0 <= k < |x| then x[k] else Zero
  }

  /** The discrete Fourier transform of a sequence. */
  function DftSeq(t: Trig, s: int, x: seq<Complex>): (r: seq<Complex>)
    ensures |r| == |x|
  {
    seq(|x|, n requires 0 <= n < |x| => Normalized(s, |x|, Dft(t, s, |x|, Padded(x), n)))
  }

  /** x filled up with zeros to the given size. */
  function FilledUp(x: seq<Complex>, size: nat): (r: seq<Complex>)
    requires |x| <= size
    ensures |r| == size
  {
    x + seq(size - |x|, _ => Zero)
  }

  lemma PolarRoot(t: Trig, s: int, size: nat, n: int, k: int, th: real, angle: real)
    requires size > 0 && th == -(s as real) * 2.0 * t.pi * (n as real) / (size as real) && angle == th * (k as real)
    ensures t.Cis(angle) == t.Root(s, size, n * k)
  {
    var c, d, a, b := -(s as real) * 2.0 * t.pi, size as real, n as real, k as real;
    assert t.Angle(s, size) == c / d;
    assert (n * k) as real == a * b;
    PolarAngle(c, d, a, b);
    hide Trig.Cis, Trig.Angle, Times;
    assert angle == Times((n * k) as real, t.Angle(s, size));
  }

  lemma PolarAngle(c: real, d: real, a: real, b: real)
    requires d > 0.0
    ensures c * a / d * b == Times(a * b, c / d)
  {
    assert c * a / d == a * (c / d);
    assert (a * (c / d)) * b == (a * b) * (c / d);
  }

  /** A 1-dimensional discrete Fourier transform, term by term. */
  method Dft1d(t: Trig, x: seq<Complex>, isign: int) returns (res: seq<Complex>)
    ensures res == DftSeq(t, isign, x)
  {
    hide Mul, Trig.Root, Trig.Cis, Div;
    var len := |x|;
    res := [];
    for n := 0 to len
      invariant |res| == n
      invariant forall i :: 0 <= i < n ==> res[i] == DftSeq(t, isign, x)[i]
    {
      var th := -(isign as real) * 2.0 * t.pi * (n as real) / (len as real);
      var val := Zero;
      for k := 0 to len
        invariant val == Sum(k, j => Mul(Padded(x)(j), t.Root(isign, len, n * j)))
      {
        var angle := th * (k as real);
        PolarRoot(t, isign, len, n, k, th, angle);
        var term := Mul(x[k], t.Cis(angle));
        assert term == Mul(Padded(x)(k), t.Root(isign, len, n * k));
        val := Add(val, term);
      }
      res := res + [if isign < 0 then Div(val, FromReal(len as real)) else val];
    }
  }

  /** The factor of the in-place transform: cosine and signed sine of the angle. */
  lemma PairRoot(t: Trig, s: int, size: nat, n: nat, k: nat, th: real, a: real)
    requires t.Valid() && size > 0 && (s == 1 || s == -1)
    requires th == (2 * n) as real * t.pi / 2.0 / (size as real) && a == (2 * k) as real * th
    ensures Complex(t.cos(a), -((s as real) * t.sin(a))) == t.Root(s, size, n * k)
  {
    var th' := -(s as real) * 2.0 * t.pi * (n as real) / (size as real);
    var angle := th' * (k as real);
    PairAngle(s as real, t.pi, n as real, k as real, size as real, th, th');
    PolarRoot(t, s, size, n, k, th', angle);
    hide Trig.AngleSum, Trig.Root;
    assert t.Parity(a);
    if s == 1 { assert angle == -a; } else { assert angle == a; }
  }

  lemma PairAngle(s: real, pi: real, n: real, k: real, d: real, th: real, th': real)
    requires d > 0.0 && th == 2.0 * n * pi / 2.0 / d && th' == -s * 2.0 * pi * n / d
    ensures th' * k == -s * (2.0 * k * th)
  {
    assert th * d == n * pi && th' * d == -s * 2.0 * pi * n;
    assert th' * d == (-s * 2.0 * th) * d;
    assert th' == -s * 2.0 * th;
  }

  /** One entry of the in-place transform. */
  method PairSum(t: Trig, data: array<real>, len: nat, isign: int, n: nat) returns (re: real, im: real)
    requires t.Valid() && data.Length == 2 * len && n < len && (isign == 1 || isign == -1)
    ensures Complex(re, im) == Dft(t, isign, len, Signal(data, 0, len), n)
  {
    hide Trig.Root, Trig.Valid, Mul;
    var th := (2 * n) as real * t.pi / 2.0 / (len as real);
    re, im := 0.0, 0.0;
    ghost var x := Signal(data, 0, len);
    for k := 0 to len
      invariant Complex(re, im) == Sum(k, j => Mul(x(j), t.Root(isign, len, n * j)))
    {
      var a := (2 * k) as real * th;
      var c, s := t.cos(a), (isign as real) * t.sin(a);
      PairRoot(t, isign, len, n, k, th, a);
      PairProduct(data[2 * k], data[2 * k + 1], c, s);
      re := re + (Times(data[2 * k], c) + Times(data[2 * k + 1], s));
      im := im + (Times(data[2 * k + 1], c) - Times(data[2 * k], s));
    }
  }

  lemma PairProduct(p: real, q: real, c: real, s: real)
    ensures Mul(Complex(p, q), Complex(c, -s)) == Complex(Times(p, c) + Times(q, s), Times(q, c) - Times(p, s))
  {}

  /** The plain discrete Fourier transform of an array of pairs, in place. */
  method DftPairs(t: Trig, data: array<real>, len: nat, isign: int)
    requires t.Valid() && data.Length == 2 * len && (isign == 1 || isign == -1)
    modifies data
    ensures forall k :: 0 <= k < len ==> Signal(data, 0, len)(k) == Dft(t, isign, len, old(Signal(data, 0, len)), k)
  {
    hide Trig.Valid, Dft;
    var res := new real[2 * len];
    ghost var x := Signal(data, 0, len);
    for n := 0 to len
      invariant Signal(data, 0, len) == x
      invariant forall k :: 0 <= k < n ==> Complex(res[2 * k], res[2 * k + 1]) == Dft(t, isign, len, x, k)
    {
      var re, im := PairSum(t, data, len, isign, n);
      res[2 * n], res[2 * n + 1] := re, im;
    }
    forall i | 0 <= i < data.Length { data[i] := res[i]; }
    forall k | 0 <= k < len ensures Signal(data, 0, len)(k) == Dft(t, isign, len, x, k) {
      assert Complex(res[2 * k], res[2 * k + 1]) == Dft(t, isign, len, x, k);
    }
  }

  /** Computes the necessary binary size. */
  method BinarySize(len: nat) returns (size: nat)
    ensures IsPow2(size) && size >= 2 && size >= len
    ensures size == 2 || size / 2 < len
  {
    size := 2;
    while size < len
      invariant IsPow2(size) && size >= 2 && (size == 2 || size / 2 < len)
      decreases len - size
    {
      size := 2 * size;
    }
  }

  /** A 1-dimensional fast Fourier transform: the discrete transform of the vector filled
      up to the next binary size. */
  method Fft1dVector(t: Trig, x: seq<Complex>, isign: int) returns (res: seq<Complex>)
    requires t.Valid() && (isign == 1 || isign == -1)
    ensures IsPow2(|res|) && |res| >= 2 && |res| >= |x| && (|res| == 2 || |res| / 2 < |x|)
    ensures res == DftSeq(t, isign, FilledUp(x, |res|))
  {
    hide Mul, Trig.Root, Trig.Valid, Div, Dft, IsPow2, Sum;
    var len := |x|;
    var size := BinarySize(len);
    var data := PairsOf(x, size);
    ghost var v := Signal(data, 0, size);
    Fft1d(t, data, 0, size, isign);
    ghost var y := FilledUp(x, size);
    forall k | 0 <= k < size ensures Complex(data[2 * k], data[2 * k + 1]) == Dft(t, isign, size, Padded(y), k) {
      DftExt(t, isign, size, v, Padded(y), k);
    }
    res := [];
    for i := 0 to size
      invariant |res| == i
      invariant forall k :: 0 <= k < i ==> res[k] == DftSeq(t, isign, y)[k]
    {
      var z := Complex(data[2 * i], data[2 * i + 1]);
      if isign < 0 { z := Div(z, FromReal(size as real)); }
      res := res + [z];
    }
  }

  /** Puts the vector into an array of pairs with zeros behind. */
  method PairsOf(x: seq<Complex>, size: nat) returns (data: array<real>)
    requires |x| <= size
    ensures fresh(data) && data.Length == 2 * size
    ensures forall k :: 0 <= k < size ==> Complex(data[2 * k], data[2 * k + 1]) == Padded(FilledUp(x, size))(k)
  {
    data := new real[2 * size](_ => 0.0);
    for i := 0 to |x|
      invariant forall k :: 0 <= k < size ==>
        Complex(data[2 * k], data[2 * k + 1]) == if k < i then x[k] else Zero
    {
      data[2 * i] := x[i].re;
      data[2 * i + 1] := x[i].im;
    }
  }

  lemma DftExt(t: Trig, s: int, size: nat, x: Vector, y: Vector, n: int)
    requires size > 0 && forall k :: 0 <= k < size ==> x(k) == y(k)
    ensures Dft(t, s, size, x, n) == Dft(t, s, size, y, n)
  {
    hide Mul, Trig.Root;
    SumExt(size, k => Mul(x(k), t.Root(s, size, n * k)), k => Mul(y(k), t.Root(s, size, n * k)));
  }

  // ----- the inverse -----

  /** The powers of a root of unity sum to zero unless the root is one. */
  lemma {:induction false} RootSum(t: Trig, s: int, n: nat, d: int)
    requires t.Valid() && IsPow2(n) && (s == 1 || s == -1)
    ensures Sum(n, k => t.Root(s, n, d * k)) == if d % n == 0 then FromReal(n as real) else Zero
  {
    hide Mul, Trig.Root, Trig.Valid;
    var f := (k: int) => t.Root(s, n, d * k);
    if n == 1 {
      assert Sum(1, f) == Add(Sum(0, f), f(0));
      RootZero(t, s, 1);
    } else {
      var h := n / 2;
      var g := (k: int) => t.Root(s, h, d * k);
      var w := t.Root(s, n, d);
      forall q | 0 <= q < h ensures f(2 * q) == g(q) && f(2 * q + 1) == Mul(w, g(q)) {
        var e := d * q;
        assert d * (2 * q) == 2 * e && d * (2 * q + 1) == d + 2 * e;
        RootDouble(t, s, h, e);
        RootAdd(t, s, n, d, 2 * e);
      }
      EvenOddSums(h, f, g, g, w);
      RootSum(t, s, h, d);
      RootSumHalves(t, s, n, h, d, w);
    }
  }

  lemma RootSumHalves(t: Trig, s: int, n: nat, h: nat, d: int, w: Complex)
    requires t.Valid() && n == 2 * h && h > 0 && (s == 1 || s == -1) && w == t.Root(s, n, d)
    ensures var S := if d % h == 0 then FromReal(h as real) else Zero;
      Add(S, Mul(w, S)) == if d % n == 0 then FromReal(n as real) else Zero
  {
    hide Trig.Root, Trig.Valid, Mul;
    var m := Halves(d, h, n);
    if d % h != 0 {
      MulUnits(w);
    } else {
      var S := FromReal(h as real);
      MulUnits(S);
      if d % n == 0 {
        RootMod(t, s, n, d, 0, m);
        RootZero(t, s, n);
      } else {
        RootMod(t, s, n, d, h, m);
        RootHalf(t, s, h);
        MulNeg(One, S);
      }
    }
  }

  lemma Halves(d: int, h: int, n: int) returns (m: int)
    requires h > 0 && n == 2 * h
    ensures d % n == 0 ==> d % h == 0 && d == 0 + m * n
    ensures d % n != 0 && d % h == 0 ==> d == h + m * n
  {
    m := d / n;
    var r := d % n;
    assert d == n * m + r && n * m == h * (2 * m);
    if r < h {
      ModShift(h, 2 * m, r);
    } else {
      assert h * (2 * m + 1) == h * (2 * m) + h;
      ModShift(h, 2 * m + 1, r - h);
    }
  }

  /** Roots of this size sum up to zero: for binary sizes anyway, for any size by the least period. */
  ghost predicate Orthogonal(t: Trig, n: nat) {
    IsPow2(n) || (n > 0 && t.LeastPeriod())
  }

  /** The powers of a primitive root, a geometric series. */
  lemma RootSeries(t: Trig, s: int, n: nat, d: int)
    requires t.Valid() && t.LeastPeriod() && n > 0 && (s == 1 || s == -1)
    ensures Sum(n, k => t.Root(s, n, d * k)) == if d % n == 0 then FromReal(n as real) else Zero
  {
    hide Mul, Trig.Root, Trig.Valid, Trig.LeastPeriod, Sum;
    var f := (k: int) => t.Root(s, n, d * k);
    if d % n == 0 {
      forall k | 0 <= k < n ensures f(k) == One { WholeRoot(t, s, n, d, k); }
      SumExt(n, f, k => One);
      SumOnes(n);
    } else {
      var z, S := t.Root(s, n, d), Sum(n, f);
      SeriesEnds(t, s, n, d, f);
      forall k | 0 <= k < n ensures Mul(z, f(k)) == f(k + 1) { NextRoot(t, s, n, d, k); }
      Geometric(n, z, f);
      DivMod(d / n, d % n, n);
      RootMod(t, s, n, d, d % n, d / n);
      RootPrimitive(t, s, n, d % n);
      SubMul(z, One, S);
      MulUnits(S);
      MulNonzero(Sub(z, One), S);
    }
  }

  lemma WholeRoot(t: Trig, s: int, n: nat, d: int, k: int)
    requires t.Valid() && n > 0 && (s == 1 || s == -1) && d % n == 0
    ensures t.Root(s, n, d * k) == One
  {
    hide Trig.Root, Trig.Valid;
    var m := d / n;
    assert d == m * n;
    assert d * k == (m * k) * n;
    RootPeriod(t, s, n, m * k);
  }

  lemma {:induction false} SumOnes(n: nat)
    ensures Sum(n, k => One) == FromReal(n as real)
  {
    if n > 0 { SumOnes(n - 1); }
  }

  /** Multiplying by the ratio shifts the series by one, and the ends agree. */
  lemma Geometric(n: nat, z: Complex, f: int -> Complex)
    requires f(0) == f(n) && forall k :: 0 <= k < n ==> Mul(z, f(k)) == f(k + 1)
    ensures Mul(z, Sum(n, f)) == Sum(n, f)
  {
    hide Mul, Sum;
    var g := (k: int) => f(k + 1);
    SumScale(n, z, f);
    SumExt(n, k => Mul(z, f(k)), g);
    SumShift(n, f, g);
  }

  lemma NextRoot(t: Trig, s: int, n: nat, d: int, k: int)
    requires t.Valid() && n > 0
    ensures Mul(t.Root(s, n, d), t.Root(s, n, d * k)) == t.Root(s, n, d * (k + 1))
  {
    hide Mul, Trig.Root, Trig.Valid;
    assert d * (k + 1) == d + d * k;
    RootAdd(t, s, n, d, d * k);
  }

  lemma {:induction false} SumShift(n: nat, f: int -> Complex, g: int -> Complex)
    requires forall k :: 0 <= k < n ==> g(k) == f(k + 1)
    ensures Sum(n, g) == Add(Sub(Sum(n, f), f(0)), f(n))
  {
    if n > 0 { SumShift(n - 1, f, g); }
  }

  lemma SeriesEnds(t: Trig, s: int, n: nat, d: int, f: int -> Complex)
    requires t.Valid() && n > 0 && (s == 1 || s == -1) && f(0) == t.Root(s, n, d * 0) && f(n) == t.Root(s, n, d * n)
    ensures f(0) == One == f(n)
  {
    hide Trig.Root, Trig.Valid;
    assert d * 0 == 0;
    RootZero(t, s, n);
    RootPeriod(t, s, n, d);
  }

  lemma ColumnSum(t: Trig, s: int, n: nat, x: Vector, k: int, j: int, f: (int, int) -> Complex)
    requires t.Valid() && Orthogonal(t, n) && (s == 1 || s == -1) && 0 <= k < n && 0 <= j < n
    requires forall i :: f(i, j) == Mul(x(j), t.Root(s, n, i * (j - k)))
    ensures Sum(n, i => f(i, j)) == if j == k then Mul(x(k), FromReal(n as real)) else Zero
  {
    hide Mul, Trig.Root, Trig.Valid, IsPow2, Trig.LeastPeriod;
    var d := j - k;
    var r := (i: int) => t.Root(s, n, d * i);
    if IsPow2(n) { RootSum(t, s, n, d); } else { RootSeries(t, s, n, d); }
    SumScale(n, x(j), r);
    forall i | 0 <= i < n ensures f(i, j) == Mul(x(j), r(i)) { assert i * d == d * i; }
    SumExt(n, i => f(i, j), i => Mul(x(j), r(i)));
    MulUnits(x(j));
    SmallResidue(d, n);
  }

  /** The inverse transform of the transform, before the division. */
  lemma InverseSum(t: Trig, s: int, n: nat, x: Vector, y: Vector, k: int)
    requires t.Valid() && Orthogonal(t, n) && (s == 1 || s == -1) && 0 <= k < n
    requires n > 0 && forall i :: 0 <= i < n ==> y(i) == Dft(t, s, n, x, i)
    ensures Dft(t, -s, n, y, k) == Mul(x(k), FromReal(n as real))
  {
    hide Mul, Trig.Root, Trig.Valid, IsPow2, Dft, Trig.LeastPeriod;
    if IsPow2(n) { Pow2Positive(n); }
    var f := (i: int, j: int) => Mul(x(j), t.Root(s, n, i * (j - k)));
    InverseSumTerms(t, s, n, x, y, k, f);
    var g := (j: int) => Sum(n, i => f(i, j));
    forall j | 0 <= j < n ensures g(j) == if j == k then Mul(x(k), FromReal(n as real)) else Zero {
      ColumnSum(t, s, n, x, k, j, f);
    }
    SumOnly(n, k, g);
  }

  lemma InverseSumTerms(t: Trig, s: int, n: nat, x: Vector, y: Vector, k: int, f: (int, int) -> Complex)
    requires t.Valid() && n > 0
    requires forall i :: 0 <= i < n ==> y(i) == Dft(t, s, n, x, i)
    requires forall i, j :: f(i, j) == Mul(x(j), t.Root(s, n, i * (j - k)))
    ensures Dft(t, -s, n, y, k) == Sum(n, j => Sum(n, i => f(i, j)))
  {
    hide Mul, Trig.Root, Trig.Valid;
    forall i | 0 <= i < n ensures Mul(y(i), t.Root(-s, n, k * i)) == Sum(n, j => f(i, j)) {
      InverseTerm(t, s, n, x, y, k, i);
      SumExt(n, j => Mul(x(j), t.Root(s, n, i * (j - k))), j => f(i, j));
    }
    SumExt(n, i => Mul(y(i), t.Root(-s, n, k * i)), i => Sum(n, j => f(i, j)));
    SumSwap(n, n, f);
  }

  lemma SmallResidue(d: int, n: int)
    requires -n < d < n
    ensures d % n == 0 <==> d == 0
  {}

  lemma InverseTerm(t: Trig, s: int, n: nat, x: Vector, y: Vector, k: int, i: int)
    requires t.Valid() && n > 0 && 0 <= i < n && y(i) == Dft(t, s, n, x, i)
    ensures Mul(y(i), t.Root(-s, n, k * i)) == Sum(n, j => Mul(x(j), t.Root(s, n, i * (j - k))))
  {
    hide Mul, Trig.Root, Trig.Valid;
    var w := t.Root(-s, n, k * i);
    RootInverse(t, s, n, k * i);
    var a := (j: int) => Mul(x(j), t.Root(s, n, i * j));
    MulComm(y(i), w);
    SumScale(n, w, a);
    forall j | 0 <= j < n ensures Mul(w, a(j)) == Mul(x(j), t.Root(s, n, i * (j - k))) {
      assert i * (j - k) == -(k * i) + i * j;
      RootAdd(t, s, n, -(k * i), i * j);
      MulSwap(w, x(j), t.Root(s, n, i * j));
    }
    SumExt(n, j => Mul(w, a(j)), j => Mul(x(j), t.Root(s, n, i * (j - k))));
  }

  /** The inverse transform undoes the transform, for any number of items. */
  lemma RoundTrip(t: Trig, x: seq<Complex>)
    requires t.Valid() && (|x| == 0 || Orthogonal(t, |x|))
    ensures DftSeq(t, -1, DftSeq(t, 1, x)) == x
  {
    hide Mul, Dft, Trig.Root, Trig.Valid, Orthogonal, Inv;
    var n, y := |x|, DftSeq(t, 1, x);
    forall k | 0 <= k < n ensures DftSeq(t, -1, y)[k] == x[k] {
      assert forall i :: 0 <= i < n ==> Padded(y)(i) == Dft(t, 1, n, Padded(x), i);
      InverseSum(t, 1, n, Padded(x), Padded(y), k);
      MulComm(x[k], FromReal(n as real));
      DivMul(x[k], FromReal(n as real));
    }
  }
}
