/** Transforms of node vectors and of the Jacobian between time and frequency domain,
    for a single tone. */
module HbTransforms {
  import opened Integers
  import opened ComplexNumbers
  import opened Sums
  import opened LinearAlgebra
  import opened EqnSystem
  import opened FourierTransform
  import opened FastFourier

  /** A transform as the harmonic balance normalizes it: time to frequency is divided by
      the number of samples. */
  function Spectrum(t: Trig, s: int, n: nat, x: Vector, f: int): Complex
    requires n > 0
  {
    if s > 0 then Div(Dft(t, s, n, x, f), FromReal(n as real)) else Dft(t, s, n, x, f)
  }

  /** Index of entry f of node r. */
  function At(n: nat, r: int, f: int): int { r * n + f }

  /** The n entries of node r. */
  function NodeBlock(n: nat, V: Vector, r: int): Vector {
    f => V(At(n, r, f))
  }

  /** V' holds the transform of every node block of V. */
  ghost predicate BlocksTransformed(t: Trig, s: int, n: nat, nodes: nat, V: Vector, V': Vector)
    requires n > 0
  {
    forall r, f :: 0 <= r < nodes && 0 <= f < n ==> V'(At(n, r, f)) == Spectrum(t, s, n, NodeBlock(n, V, r), f)
  }

  lemma AtBounds(n: nat, r: int, f: int, nodes: int)
    requires 0 <= r < nodes && 0 <= f < n
    ensures 0 <= At(n, r, 0) <= At(n, r, f) == At(n, r, 0) + f < nodes * n
    ensures At(n, r, 0) + n == At(n, r + 1, 0) <= nodes * n
  {
    Scale(n, 0, r);
    Scale(n, r + 1, nodes);
  }

  /** Blocks follow one another. */
  lemma AtOrder(n: nat, r: int, f: int, i: int)
    requires 0 <= f < n && 0 <= r && 0 <= i
    ensures r < i ==> At(n, r, f) < At(n, i, 0)
    ensures r > i ==> At(n, r, f) >= At(n, i, 0) + n
  {
    if r < i {
      AtBounds(n, r, f, i);
    } else if r > i {
      AtBounds(n, i, 0, r);
    }
  }

  /** Divides the n pairs from k on by n. */
  method DivideBlock(d: array<real>, k: nat, n: nat)
    requires n > 0 && k + 2 * n <= d.Length
    modifies d
    ensures Framed(d, k, n)
    ensures forall i :: k <= i < k + 2 * n ==> d[i] == old(d[i]) / (n as real)
  {
    for r := 0 to 2 * n
      invariant Framed(d, k, n)
      invariant forall i :: k <= i < k + 2 * n ==> d[i] == if i < k + r then old(d[i]) / (n as real) else old(d[i])
    {
      d[k + r] := d[k + r] / (n as real);
    }
  }

  /** Transforms one block of the data array and normalizes it. */
  method TransformBlock(t: Trig, d: array<real>, k: nat, n: nat, isign: int)
    requires t.Valid() && IsPow2(n) && k + 2 * n <= d.Length && (isign == 1 || isign == -1)
    modifies d
    ensures Framed(d, k, n)
    ensures n > 0 && forall f :: 0 <= f < n ==> Signal(d, k, n)(f) == Spectrum(t, isign, n, old(Signal(d, k, n)), f)
  {
    hide Trig.Valid, IsPow2, Dft;
    Pow2Positive(n);
    Fft1d(t, d, k, n, isign);
    if isign > 0 {
      ghost var v := Signal(d, k, n);
      DivideBlock(d, k, n);
      forall f | 0 <= f < n ensures Signal(d, k, n)(f) == Div(v(f), FromReal(n as real)) {
        RealQuotient(v(f), n as real);
        assert d[k + 2 * f] == PairPart(v, 2 * f) / (n as real);
        assert d[k + (2 * f + 1)] == PairPart(v, 2 * f + 1) / (n as real);
      }
    }
  }

  /** The real parts of the items at even positions, the imaginary parts at odd ones. */
  function PairPart(v: Vector, i: int): real {
    if i % 2 == 0 then v(i / 2).re else v(i / 2).im
  }

  lemma RealQuotient(z: Complex, n: real)
    requires n > 0.0
    ensures Div(z, FromReal(n)) == Complex(z.re / n, z.im / n)
  {
    var w := Complex(z.re / n, z.im / n);
    assert Mul(FromReal(n), w) == z;
    hide Mul, Inv;
    DivMul(w, FromReal(n));
  }

  lemma SpectrumExt(t: Trig, s: int, n: nat, x: Vector, y: Vector, f: int)
    requires n > 0 && forall k :: 0 <= k < n ==> x(k) == y(k)
    ensures Spectrum(t, s, n, x, f) == Spectrum(t, s, n, y, f)
  {
    hide Dft;
    DftExt(t, s, n, x, y, f);
  }

  /** The blocks of the first i nodes are transformed. */
  ghost predicate PartlyTransformed(t: Trig, s: int, n: nat, nodes: nat, V: Vector, U: Vector, i: int)
    requires n > 0
  {
    forall r, f :: 0 <= r < nodes && 0 <= f < n ==>
      U(At(n, r, f)) == if r < i then Spectrum(t, s, n, NodeBlock(n, V, r), f) else V(At(n, r, f))
  }

  lemma BlockStep(t: Trig, s: int, n: nat, nodes: nat, V: Vector, U: Vector, U': Vector, i: nat, x: Vector)
    requires n > 0 && i < nodes && PartlyTransformed(t, s, n, nodes, V, U, i)
    requires forall f :: 0 <= f < n ==> x(f) == U(At(n, i, f))
    requires forall f :: 0 <= f < n ==> U'(At(n, i, f)) == Spectrum(t, s, n, x, f)
    requires forall k :: 0 <= k < nodes * n && (k < At(n, i, 0) || k >= At(n, i, 0) + n) ==> U'(k) == U(k)
    ensures PartlyTransformed(t, s, n, nodes, V, U', i + 1)
  {
    hide Spectrum, At;
    forall r, f | 0 <= r < nodes && 0 <= f < n
      ensures U'(At(n, r, f)) == if r < i + 1 then Spectrum(t, s, n, NodeBlock(n, V, r), f) else V(At(n, r, f))
    {
      AtBounds(n, r, f, nodes);
      AtOrder(n, r, f, i);
      if r == i {
        SpectrumExt(t, s, n, x, NodeBlock(n, V, r), f);
      }
    }
  }

  /** Transforms the block of node i. */
  method TransformNode(t: Trig, d: array<real>, k: nat, n: nat, isign: int, ghost nodes: nat, ghost i: nat,
                       ghost v: Vector)
    requires t.Valid() && IsPow2(n) && (isign == 1 || isign == -1) && n > 0
    requires d.Length == 2 * (nodes * n) && i < nodes && k == 2 * At(n, i, 0)
    requires PartlyTransformed(t, isign, n, nodes, v, Signal(d, 0, nodes * n), i)
    modifies d
    ensures PartlyTransformed(t, isign, n, nodes, v, Signal(d, 0, nodes * n), i + 1)
  {
    hide Trig.Valid, IsPow2, Spectrum, PartlyTransformed, At;
    ghost var len := nodes * n;
    AtBounds(n, i, 0, nodes);
    forall f | 0 <= f < n ensures At(n, i, f) == At(n, i, 0) + f { AtBounds(n, i, f, nodes); }
    ghost var u, x := Signal(d, 0, len), Signal(d, k, n);
    OffsetSignal(d, len, At(n, i, 0), n, u, x);
    TransformBlock(t, d, k, n, isign);
    ghost var u' := Signal(d, 0, len);
    OffsetSignal(d, len, At(n, i, 0), n, u', Signal(d, k, n));
    BlockStep(t, isign, n, nodes, v, u, u', i, x);
  }

  /** Transforms each node block of the vector in place. */
  method VectorFFT(t: Trig, V: array<Complex>, n: nat, isign: int, ghost nodes: nat)
    requires t.Valid() && IsPow2(n) && V.Length == nodes * n && (isign == 1 || isign == -1)
    modifies V
    ensures n > 0 && BlocksTransformed(t, isign, n, nodes, old(Elements(V)), Elements(V))
  {
    hide Trig.Valid, IsPow2, Spectrum, PartlyTransformed;
    Pow2Positive(n);
    var m := V.Length / n;
    assert m == nodes by { assert V.Length == n * nodes + 0; ModShift(n, nodes, 0); }
    ghost var v := Elements(V);
    var d := new real[2 * V.Length](
      i requires 0 <= i < 2 * V.Length reads V => if i % 2 == 0 then V[i / 2].re else V[i / 2].im);
    PairsAreSignal(d, V);
    NoBlocks(t, isign, n, nodes, v, Signal(d, 0, V.Length));
    var k := 0;
    for i := 0 to m
      invariant k == 2 * At(n, i, 0)
      invariant PartlyTransformed(t, isign, n, nodes, v, Signal(d, 0, V.Length), i)
    {
      TransformNode(t, d, k, n, isign, nodes, i, v);
      AtBounds(n, i, 0, nodes);
      k := k + 2 * n;
    }
    forall j | 0 <= j < V.Length { V[j] := Complex(d[2 * j], d[2 * j + 1]); }
    TransformedSame(t, isign, n, nodes, v, Signal(d, 0, V.Length), Elements(V));
  }

  lemma PairsAreSignal(d: array<real>, V: array<Complex>)
    requires d.Length == 2 * V.Length
    requires forall i :: 0 <= i < d.Length ==> d[i] == if i % 2 == 0 then V[i / 2].re else V[i / 2].im
    ensures forall k :: 0 <= k < V.Length ==> Signal(d, 0, V.Length)(k) == V[k]
  {
    forall k | 0 <= k < V.Length ensures Signal(d, 0, V.Length)(k) == V[k] {
      assert d[2 * k] == V[k].re && d[2 * k + 1] == V[k].im;
    }
  }

  lemma OffsetSignal(d: array<real>, len: nat, b: nat, n: nat, u: Vector, x: Vector)
    requires d.Length == 2 * len && b + n <= len
    requires u == Signal(d, 0, len) && x == Signal(d, 2 * b, n)
    ensures forall f :: 0 <= f < n ==> x(f) == u(b + f)
  {
    forall f | 0 <= f < n ensures x(f) == u(b + f) {
      assert 2 * b + 2 * f == 2 * (b + f);
    }
  }

  lemma NoBlocks(t: Trig, s: int, n: nat, nodes: nat, V: Vector, U: Vector)
    requires n > 0 && forall k :: 0 <= k < nodes * n ==> U(k) == V(k)
    ensures PartlyTransformed(t, s, n, nodes, V, U, 0)
  {
    hide Spectrum, At;
    forall r, f | 0 <= r < nodes && 0 <= f < n ensures U(At(n, r, f)) == V(At(n, r, f)) {
      AtBounds(n, r, f, nodes);
    }
  }

  lemma TransformedSame(t: Trig, s: int, n: nat, nodes: nat, V: Vector, U: Vector, W: Vector)
    requires n > 0 && PartlyTransformed(t, s, n, nodes, V, U, nodes)
    requires forall k :: 0 <= k < nodes * n ==> U(k) == W(k)
    ensures BlocksTransformed(t, s, n, nodes, V, W)
  {
    hide Spectrum, At;
    forall r, f | 0 <= r < nodes && 0 <= f < n ensures W(At(n, r, f)) == Spectrum(t, s, n, NodeBlock(n, V, r), f) {
      AtBounds(n, r, f, nodes);
    }
  }

  // ----- matrices -----

  /** The lag fr - fc, modulo n. */
  function Lag(n: nat, fr: int, fc: int): int {
    if fr >= fc then fr - fc else fr - fc + n
  }

  lemma LagRange(n: nat, fr: nat, fc: nat)
    requires fr < n && fc < n
    ensures 0 <= Lag(n, fr, fc) < n
  {}

  /** The diagonal of the block of nodes r and c. */
  function Diagonal(n: nat, M: Matrix, r: int, c: int): Vector {
    f => M(At(n, r, f), At(n, c, f))
  }

  /** Entry (fr, fc) of the transformed block of nodes r and c. */
  function Circulant(t: Trig, n: nat, M: Matrix, r: int, c: int, fr: int, fc: int): Complex
    requires n > 0
  {
    Spectrum(t, 1, n, Diagonal(n, M, r, c), Lag(n, fr, fc))
  }

  /** The node blocks before block (r, c), column by column, are transformed. */
  ghost predicate PartlyCirculant(t: Trig, n: nat, nodes: nat, M: Matrix, W: Matrix, c: int, r: int)
    requires n > 0
  {
    forall a, b, fr, fc :: 0 <= a < nodes && 0 <= b < nodes && 0 <= fr < n && 0 <= fc < n ==>
      W(At(n, a, fr), At(n, b, fc)) ==
        (if b < c || (b == c && a < r) then Circulant(t, n, M, a, b, fr, fc) else M(At(n, a, fr), At(n, b, fc)))
  }

  ghost predicate MatrixTransformed(t: Trig, n: nat, nodes: nat, M: Matrix, W: Matrix)
    requires n > 0
  {
    forall a, b, fr, fc :: 0 <= a < nodes && 0 <= b < nodes && 0 <= fr < n && 0 <= fc < n ==>
      W(At(n, a, fr), At(n, b, fc)) == Circulant(t, n, M, a, b, fr, fc)
  }

  /** Fills the block at (nr, nc) circulantly with the entries of V. */
  method FillCirculant(M: array2<Complex>, n: nat, nr: nat, nc: nat, V: array<Complex>)
    requires V.Length == n && nr + n <= M.Length0 && nc + n <= M.Length1
    modifies M
    ensures forall i, j :: 0 <= i < M.Length0 && 0 <= j < M.Length1 ==>
      M[i, j] == if nr <= i < nr + n && nc <= j < nc + n then V[Lag(n, i - nr, j - nc)] else old(M[i, j])
  {
    for fc := 0 to n
      invariant forall i, j :: 0 <= i < M.Length0 && 0 <= j < M.Length1 ==>
        M[i, j] == if nr <= i < nr + n && nc <= j < nc + fc then V[Lag(n, i - nr, j - nc)] else old(M[i, j])
    {
      var fi := n - 1 - fc;
      for fr := 0 to n
        invariant fr > 0 ==> fi == Lag(n, fr - 1, fc)
        invariant fr == 0 ==> fi == n - 1 - fc
        invariant forall i, j :: 0 <= i < M.Length0 && 0 <= j < M.Length1 ==>
          M[i, j] == if nr <= i < nr + n && (nc <= j < nc + fc || (j == nc + fc && i < nr + fr))
                     then V[Lag(n, i - nr, j - nc)]
                     else old(M[i, j])
      {
        fi := fi + 1;
        if fi >= n { fi := 0; }
        M[nr + fr, nc + fc] := V[fi];
      }
    }
  }

  /** The diagonal of the block at (nr, nc). */
  method CopyDiagonal(M: array2<Complex>, n: nat, nr: nat, nc: nat) returns (V: array<Complex>)
    requires nr + n <= M.Length0 && nc + n <= M.Length1
    ensures fresh(V) && V.Length == n && forall k :: 0 <= k < n ==> V[k] == M[nr + k, nc + k]
  {
    V := new Complex[n];
    for fc := 0 to n
      invariant forall k :: 0 <= k < fc ==> V[k] == M[nr + k, nc + k]
    {
      V[fc] := M[nr + fc, nc + fc];
    }
  }

  /** The transform of the diagonal of the block of nodes r and c. */
  method DiagonalFFT(t: Trig, M: array2<Complex>, n: nat, nr: nat, nc: nat, ghost r: nat, ghost c: nat,
                     ghost nodes: nat) returns (V: array<Complex>)
    requires t.Valid() && IsPow2(n) && n > 0 && r < nodes && c < nodes && M.Length0 == M.Length1 == nodes * n
    requires nr == At(n, r, 0) && nc == At(n, c, 0)
    ensures fresh(V) && V.Length == n
    ensures forall f :: 0 <= f < n ==> V[f] == Spectrum(t, 1, n, Diagonal(n, Entries(M), r, c), f)
  {
    hide Trig.Valid, IsPow2, BlocksTransformed, Spectrum, At;
    AtBounds(n, r, 0, nodes);
    AtBounds(n, c, 0, nodes);
    V := CopyDiagonal(M, n, nr, nc);
    ghost var v := Elements(V);
    VectorFFT(t, V, n, 1, 1);
    DiagonalSpectrum(t, n, nodes, Entries(M), v, Elements(V), r, c);
  }

  lemma DiagonalSpectrum(t: Trig, n: nat, nodes: nat, W: Matrix, v: Vector, v': Vector, r: nat, c: nat)
    requires n > 0 && r < nodes && c < nodes && BlocksTransformed(t, 1, n, 1, v, v')
    requires forall k :: 0 <= k < n ==> v(k) == W(At(n, r, 0) + k, At(n, c, 0) + k)
    ensures forall f :: 0 <= f < n ==> v'(f) == Spectrum(t, 1, n, Diagonal(n, W, r, c), f)
  {
    hide Spectrum, At;
    var x, y := NodeBlock(n, v, 0), Diagonal(n, W, r, c);
    forall k | 0 <= k < n ensures x(k) == y(k) {
      SingleNode(n, k);
      AtBounds(n, r, k, nodes);
      AtBounds(n, c, k, nodes);
    }
    forall f | 0 <= f < n ensures v'(f) == Spectrum(t, 1, n, y, f) {
      SingleNode(n, f);
      assert v'(At(n, 0, f)) == Spectrum(t, 1, n, x, f);
      SpectrumExt(t, 1, n, x, y, f);
    }
  }

  /** Transforms one node block: its diagonal only, which then fills the block. */
  method TransformPair(t: Trig, M: array2<Complex>, n: nat, nr: nat, nc: nat, ghost r: nat, ghost c: nat,
                       ghost nodes: nat)
    requires t.Valid() && IsPow2(n) && n > 0 && r < nodes && c < nodes && M.Length0 == M.Length1 == nodes * n
    requires nr == At(n, r, 0) && nc == At(n, c, 0)
    modifies M
    ensures forall fr, fc :: 0 <= fr < n && 0 <= fc < n ==>
      Entries(M)(At(n, r, fr), At(n, c, fc)) == Circulant(t, n, old(Entries(M)), r, c, fr, fc)
    ensures forall i, j :: 0 <= i < nodes * n && 0 <= j < nodes * n && !(nr <= i < nr + n && nc <= j < nc + n) ==>
      M[i, j] == old(M[i, j])
  {
    hide Trig.Valid, IsPow2, Spectrum, At, Lag;
    AtBounds(n, r, 0, nodes);
    AtBounds(n, c, 0, nodes);
    var V := DiagonalFFT(t, M, n, nr, nc, r, c, nodes);
    FillCirculant(M, n, nr, nc, V);
    forall fr, fc | 0 <= fr < n && 0 <= fc < n
      ensures 0 <= Lag(n, fr, fc) < n && Entries(M)(At(n, r, fr), At(n, c, fc)) == V[Lag(n, fr, fc)]
    {
      AtBounds(n, r, fr, nodes);
      AtBounds(n, c, fc, nodes);
      LagRange(n, fr, fc);
    }
  }

  lemma SingleNode(n: nat, f: int)
    ensures At(n, 0, f) == f
  {}

  lemma PairStep(t: Trig, n: nat, nodes: nat, M: Matrix, W: Matrix, W': Matrix, c: nat, r: nat)
    requires n > 0 && r < nodes && c < nodes && PartlyCirculant(t, n, nodes, M, W, c, r)
    requires forall fr, fc :: 0 <= fr < n && 0 <= fc < n ==>
      W'(At(n, r, fr), At(n, c, fc)) == Circulant(t, n, W, r, c, fr, fc)
    requires forall i, j :: 0 <= i < nodes * n && 0 <= j < nodes * n ==>
      ((At(n, r, 0) <= i < At(n, r, 0) + n && At(n, c, 0) <= j < At(n, c, 0) + n) || W'(i, j) == W(i, j))
    ensures PartlyCirculant(t, n, nodes, M, W', c, r + 1)
  {
    hide Spectrum, At;
    forall a, b, fr, fc | 0 <= a < nodes && 0 <= b < nodes && 0 <= fr < n && 0 <= fc < n
      ensures W'(At(n, a, fr), At(n, b, fc)) ==
        (if b < c || (b == c && a < r + 1) then Circulant(t, n, M, a, b, fr, fc) else M(At(n, a, fr), At(n, b, fc)))
    {
      AtBounds(n, a, fr, nodes);
      AtBounds(n, b, fc, nodes);
      AtOrder(n, a, fr, r);
      AtOrder(n, b, fc, c);
      if a == r && b == c {
        assert forall k :: 0 <= k < n ==> Diagonal(n, W, r, c)(k) == Diagonal(n, M, r, c)(k);
        SpectrumExt(t, 1, n, Diagonal(n, W, r, c), Diagonal(n, M, r, c), Lag(n, fr, fc));
      }
    }
  }

  /** Transforms the matrix block by block. */
  method MatrixFFT(t: Trig, M: array2<Complex>, n: nat, nodes: nat)
    requires t.Valid() && IsPow2(n) && n > 0 && M.Length0 == M.Length1 == nodes * n
    modifies M
    ensures MatrixTransformed(t, n, nodes, old(Entries(M)), Entries(M))
  {
    hide Trig.Valid, IsPow2, Circulant;
    ghost var w := Entries(M);
    var nc := 0;
    for c := 0 to nodes
      invariant nc == At(n, c, 0)
      invariant PartlyCirculant(t, n, nodes, w, Entries(M), c, 0)
    {
      var nr := 0;
      for r := 0 to nodes
        invariant nr == At(n, r, 0)
        invariant PartlyCirculant(t, n, nodes, w, Entries(M), c, r)
      {
        ghost var u := Entries(M);
        AtBounds(n, r, 0, nodes);
        AtBounds(n, c, 0, nodes);
        TransformPair(t, M, n, nr, nc, r, c, nodes);
        PairStep(t, n, nodes, w, u, Entries(M), c, r);
        nr := nr + n;
      }
      AtBounds(n, c, 0, nodes);
      NextColumn(t, n, nodes, w, Entries(M), c);
      nc := nc + n;
    }
  }

  lemma NextColumn(t: Trig, n: nat, nodes: nat, M: Matrix, W: Matrix, c: nat)
    requires n > 0 && PartlyCirculant(t, n, nodes, M, W, c, nodes)
    ensures PartlyCirculant(t, n, nodes, M, W, c + 1, 0)
  {
    hide Circulant, At;
  }

  // ----- the slow algorithm -----

  function RowOf(M: Matrix, i: int): Vector { j => M(i, j) }

  /** Transforms every column into the frequency domain. */
  method TransformColumns(t: Trig, M: array2<Complex>, n: nat, nodes: nat)
    requires t.Valid() && IsPow2(n) && n > 0 && M.Length0 == M.Length1 == nodes * n
    modifies M
    ensures forall j :: 0 <= j < nodes * n ==>
      BlocksTransformed(t, 1, n, nodes, Column(old(Entries(M)), j), Column(Entries(M), j))
  {
    hide Trig.Valid, IsPow2, Spectrum, BlocksTransformed;
    ghost var w := Entries(M);
    for c := 0 to M.Length1
      invariant forall i, j :: 0 <= i < nodes * n && c <= j < nodes * n ==> Entries(M)(i, j) == w(i, j)
      invariant forall j :: 0 <= j < c ==> BlocksTransformed(t, 1, n, nodes, Column(w, j), Column(Entries(M), j))
    {
      ghost var u := Entries(M);
      TransformColumn(t, M, n, nodes, c);
      TransformedExt(t, 1, n, nodes, Column(u, c), Column(Entries(M), c), Column(w, c), Column(Entries(M), c));
      forall j | 0 <= j < c ensures BlocksTransformed(t, 1, n, nodes, Column(w, j), Column(Entries(M), j)) {
        TransformedExt(t, 1, n, nodes, Column(w, j), Column(u, j), Column(w, j), Column(Entries(M), j));
      }
    }
  }

  /** Transforms column c. */
  method TransformColumn(t: Trig, M: array2<Complex>, n: nat, ghost nodes: nat, c: nat)
    requires t.Valid() && IsPow2(n) && n > 0 && M.Length0 == M.Length1 == nodes * n && c < M.Length1
    modifies M
    ensures BlocksTransformed(t, 1, n, nodes, Column(old(Entries(M)), c), Column(Entries(M), c))
    ensures forall i, j :: 0 <= i < nodes * n && 0 <= j < nodes * n && j != c ==>
      Entries(M)(i, j) == old(Entries(M))(i, j)
  {
    hide Trig.Valid, IsPow2, Spectrum, BlocksTransformed;
    ghost var u := Entries(M);
    var V := new Complex[M.Length0];
    forall i | 0 <= i < M.Length0 { V[i] := M[i, c]; }
    ghost var v := Elements(V);
    VectorFFT(t, V, n, 1, nodes);
    SetColumn(M, c, V);
    TransformedExt(t, 1, n, nodes, v, Elements(V), Column(u, c), Column(Entries(M), c));
  }

  method SetRow(M: array2<Complex>, r: nat, V: array<Complex>)
    requires r < M.Length0 && V.Length == M.Length1
    modifies M
    ensures forall i, j :: 0 <= i < M.Length0 && 0 <= j < M.Length1 ==> M[i, j] == if i == r then V[j] else old(M[i, j])
  {
    for c := 0 to M.Length1
      invariant forall i, j :: 0 <= i < M.Length0 && 0 <= j < M.Length1 ==>
        M[i, j] == if i == r && j < c then V[j] else old(M[i, j])
    {
      M[r, c] := V[c];
    }
  }

  lemma TransformedExt(t: Trig, s: int, n: nat, nodes: nat, x: Vector, y: Vector, x': Vector, y': Vector)
    requires n > 0 && BlocksTransformed(t, s, n, nodes, x, y)
    requires forall k :: 0 <= k < nodes * n ==> x(k) == x'(k) && y(k) == y'(k)
    ensures BlocksTransformed(t, s, n, nodes, x', y')
  {
    hide Spectrum, At;
    forall r, f | 0 <= r < nodes && 0 <= f < n ensures y'(At(n, r, f)) == Spectrum(t, s, n, NodeBlock(n, x', r), f) {
      AtBounds(n, r, f, nodes);
      forall k | 0 <= k < n ensures NodeBlock(n, x, r)(k) == NodeBlock(n, x', r)(k) { AtBounds(n, r, k, nodes); }
      SpectrumExt(t, s, n, NodeBlock(n, x, r), NodeBlock(n, x', r), f);
    }
  }

  /** Transforms every row back. */
  method TransformRows(t: Trig, M: array2<Complex>, n: nat, nodes: nat)
    requires t.Valid() && IsPow2(n) && n > 0 && M.Length0 == M.Length1 == nodes * n
    modifies M
    ensures forall i :: 0 <= i < nodes * n ==>
      BlocksTransformed(t, -1, n, nodes, RowOf(old(Entries(M)), i), RowOf(Entries(M), i))
  {
    hide Trig.Valid, IsPow2, Spectrum, BlocksTransformed;
    ghost var w := Entries(M);
    for r := 0 to M.Length0
      invariant forall i, j :: r <= i < nodes * n && 0 <= j < nodes * n ==> Entries(M)(i, j) == w(i, j)
      invariant forall i :: 0 <= i < r ==> BlocksTransformed(t, -1, n, nodes, RowOf(w, i), RowOf(Entries(M), i))
    {
      ghost var u := Entries(M);
      TransformRow(t, M, n, nodes, r);
      TransformedExt(t, -1, n, nodes, RowOf(u, r), RowOf(Entries(M), r), RowOf(w, r), RowOf(Entries(M), r));
      forall i | 0 <= i < r ensures BlocksTransformed(t, -1, n, nodes, RowOf(w, i), RowOf(Entries(M), i)) {
        TransformedExt(t, -1, n, nodes, RowOf(w, i), RowOf(u, i), RowOf(w, i), RowOf(Entries(M), i));
      }
    }
  }

  /** Transforms row r back. */
  method TransformRow(t: Trig, M: array2<Complex>, n: nat, ghost nodes: nat, r: nat)
    requires t.Valid() && IsPow2(n) && n > 0 && M.Length0 == M.Length1 == nodes * n && r < M.Length0
    modifies M
    ensures BlocksTransformed(t, -1, n, nodes, RowOf(old(Entries(M)), r), RowOf(Entries(M), r))
    ensures forall i, j :: 0 <= i < nodes * n && 0 <= j < nodes * n && i != r ==>
      Entries(M)(i, j) == old(Entries(M))(i, j)
  {
    hide Trig.Valid, IsPow2, Spectrum, BlocksTransformed;
    ghost var u := Entries(M);
    var V := new Complex[M.Length1];
    forall j | 0 <= j < M.Length1 { V[j] := M[r, j]; }
    ghost var v := Elements(V);
    VectorFFT(t, V, n, -1, nodes);
    SetRow(M, r, V);
    TransformedExt(t, -1, n, nodes, v, Elements(V), RowOf(u, r), RowOf(Entries(M), r));
  }

  /** The node blocks of the matrix are diagonal. */
  ghost predicate BlockDiagonal(n: nat, nodes: nat, M: Matrix) {
    forall a, b, k, l :: 0 <= a < nodes && 0 <= b < nodes && 0 <= k < n && 0 <= l < n && k != l ==>
      M(At(n, a, k), At(n, b, l)) == Zero
  }

  /** A column of a diagonal block has a single term. */
  lemma DiagonalColumn(t: Trig, n: nat, x: Vector, k: nat, f: int)
    requires n > 0 && k < n && forall m :: 0 <= m < n && m != k ==> x(m) == Zero
    ensures Spectrum(t, 1, n, x, f) == Div(Mul(x(k), t.Root(1, n, f * k)), FromReal(n as real))
  {
    hide Mul, Inv, Trig.Root;
    var g := (m: int) => Mul(x(m), t.Root(1, n, f * m));
    forall m | 0 <= m < n && m != k ensures g(m) == Zero { MulUnits(t.Root(1, n, f * m)); }
    SumOnly(n, k, g);
  }

  /** Transforming a diagonal along its columns and back along its rows gives the
      spectrum of the diagonal at the lag. */
  lemma LagSpectrum(t: Trig, n: nat, d: Vector, y: Vector, fr: nat, fc: nat)
    requires t.Valid() && n > 0 && fr < n && fc < n
    requires forall k :: 0 <= k < n ==> y(k) == Div(Mul(d(k), t.Root(1, n, fr * k)), FromReal(n as real))
    ensures Dft(t, -1, n, y, fc) == Spectrum(t, 1, n, d, Lag(n, fr, fc))
  {
    hide Mul, Inv, Trig.Root, Trig.Valid;
    var e, w := Lag(n, fr, fc), Inv(FromReal(n as real));
    var g := (k: int) => Mul(d(k), t.Root(1, n, e * k));
    forall k | 0 <= k < n ensures Mul(y(k), t.Root(-1, n, fc * k)) == Mul(w, g(k)) {
      LagTerm(t, n, d(k), y(k), fr, fc, k, w);
    }
    SumExt(n, k => Mul(y(k), t.Root(-1, n, fc * k)), k => Mul(w, g(k)));
    SumScale(n, w, g);
    MulComm(w, Sum(n, g));
  }

  lemma LagTerm(t: Trig, n: nat, d: Complex, y: Complex, fr: nat, fc: nat, k: int, w: Complex)
    requires t.Valid() && n > 0 && fr < n && fc < n
    requires y == Mul(Mul(d, t.Root(1, n, fr * k)), w)
    ensures Mul(y, t.Root(-1, n, fc * k)) == Mul(w, Mul(d, t.Root(1, n, Lag(n, fr, fc) * k)))
  {
    hide Mul, Trig.Root, Trig.Valid;
    var a, b, e := t.Root(1, n, fr * k), t.Root(1, n, -(fc * k)), Lag(n, fr, fc);
    RootInverse(t, 1, n, fc * k);
    RootAdd(t, 1, n, fr * k, -(fc * k));
    if fr >= fc {
      assert fr * k + -(fc * k) == e * k;
    } else {
      assert e * k == (fr * k + -(fc * k)) + k * n;
      RootMod(t, 1, n, e * k, fr * k + -(fc * k), k);
    }
    MulComm(Mul(d, a), w);
    MulAssoc(w, Mul(d, a), b);
    MulAssoc(d, a, b);
  }

  /** Column by column and then row by row, or diagonal by diagonal: for matrices with
      diagonal node blocks both algorithms give the same matrix. */
  method SlowMatrixFFT(t: Trig, M: array2<Complex>, n: nat, nodes: nat)
    requires t.Valid() && IsPow2(n) && n > 0 && M.Length0 == M.Length1 == nodes * n
    modifies M
    ensures BlockDiagonal(n, nodes, old(Entries(M))) ==> MatrixTransformed(t, n, nodes, old(Entries(M)), Entries(M))
  {
    hide Trig.Valid, IsPow2, Spectrum, BlocksTransformed, BlockDiagonal, MatrixTransformed;
    ghost var w := Entries(M);
    TransformColumns(t, M, n, nodes);
    ghost var u := Entries(M);
    TransformRows(t, M, n, nodes);
    if BlockDiagonal(n, nodes, w) {
      SlowIsFast(t, n, nodes, w, u, Entries(M));
    }
  }

  lemma SlowIsFast(t: Trig, n: nat, nodes: nat, M: Matrix, U: Matrix, W: Matrix)
    requires t.Valid() && n > 0 && BlockDiagonal(n, nodes, M)
    requires forall j :: 0 <= j < nodes * n ==> BlocksTransformed(t, 1, n, nodes, Column(M, j), Column(U, j))
    requires forall i :: 0 <= i < nodes * n ==> BlocksTransformed(t, -1, n, nodes, RowOf(U, i), RowOf(W, i))
    ensures MatrixTransformed(t, n, nodes, M, W)
  {
    hide At, Trig.Valid, Spectrum, BlocksTransformed, BlockDiagonal;
    forall a, b, fr, fc | 0 <= a < nodes && 0 <= b < nodes && 0 <= fr < n && 0 <= fc < n
      ensures W(At(n, a, fr), At(n, b, fc)) == Circulant(t, n, M, a, b, fr, fc)
    {
      SlowEntry(t, n, nodes, M, U, W, a, b, fr, fc);
    }
  }

  lemma SlowEntry(t: Trig, n: nat, nodes: nat, M: Matrix, U: Matrix, W: Matrix, a: nat, b: nat, fr: nat, fc: nat)
    requires t.Valid() && n > 0 && BlockDiagonal(n, nodes, M) && a < nodes && b < nodes && fr < n && fc < n
    requires forall j :: 0 <= j < nodes * n ==> BlocksTransformed(t, 1, n, nodes, Column(M, j), Column(U, j))
    requires forall i :: 0 <= i < nodes * n ==> BlocksTransformed(t, -1, n, nodes, RowOf(U, i), RowOf(W, i))
    ensures W(At(n, a, fr), At(n, b, fc)) == Circulant(t, n, M, a, b, fr, fc)
  {
    hide At, Trig.Valid, Dft, Mul, Inv, Trig.Root;
    var i, d := At(n, a, fr), Diagonal(n, M, a, b);
    AtBounds(n, a, fr, nodes);
    var y := NodeBlock(n, RowOf(U, i), b);
    forall k | 0 <= k < n ensures y(k) == Div(Mul(d(k), t.Root(1, n, fr * k)), FromReal(n as real)) {
      var j := At(n, b, k);
      AtBounds(n, b, k, nodes);
      var x := NodeBlock(n, Column(M, j), a);
      assert BlocksTransformed(t, 1, n, nodes, Column(M, j), Column(U, j));
      assert Column(U, j)(At(n, a, fr)) == Spectrum(t, 1, n, x, fr);
      DiagonalColumn(t, n, x, k, fr);
    }
    assert BlocksTransformed(t, -1, n, nodes, RowOf(U, i), RowOf(W, i));
    assert RowOf(W, i)(At(n, b, fc)) == Spectrum(t, -1, n, y, fc);
    LagSpectrum(t, n, d, y, fr, fc);
  }
}
