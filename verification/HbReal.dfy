/** Spectra of real signals, and the conjugate continuation that is meant to produce them. */
module HbReal {
  import opened Integers
  import opened ComplexNumbers
  import opened Sums
  import opened LinearAlgebra
  import opened FourierTransform
  import opened FastFourier
  import opened HbTransforms

  // ----- conjugates -----

  lemma ConjRoot(t: Trig, s: int, n: nat, e: int)
    requires t.Valid() && n > 0
    ensures Conj(t.Root(s, n, e)) == t.Root(s, n, -e)
  {
    hide Trig.AngleSum, Trig.Angle;
    var x := Times(e as real, t.Angle(s, n));
    assert t.Parity(x);
    assert Times((-e) as real, t.Angle(s, n)) == -x;
  }

  // ----- mirrored frequencies -----

  /** The index of the frequency with the opposite sign. */
  function Mirror(n: nat, f: int): int { if f == 0 then 0 else n - f }

  lemma MirrorRoot(t: Trig, s: int, n: nat, a: int, b: int)
    requires t.Valid() && n > 0 && (s == 1 || s == -1) && 0 <= a < n
    ensures t.Root(s, n, Mirror(n, a) * b) == t.Root(s, n, -(a * b))
  {
    hide Trig.Root, Trig.Valid;
    if a == 0 {
      assert 0 * b == 0;
    } else {
      assert (n - a) * b == -(a * b) + b * n;
      RootMod(t, s, n, (n - a) * b, -(a * b), b);
    }
  }

  /** The transform of the conjugate signal, at the mirrored frequency. */
  lemma ConjDft(t: Trig, s: int, n: nat, x: Vector, y: Vector, k: int)
    requires t.Valid() && n > 0 && (s == 1 || s == -1) && 0 <= k < n
    requires forall j :: 0 <= j < n ==> y(j) == Conj(x(j))
    ensures Conj(Dft(t, s, n, x, k)) == Dft(t, s, n, y, Mirror(n, k))
  {
    hide Mul, Trig.Root, Trig.Valid, Conj;
    var f := (j: int) => Mul(x(j), t.Root(s, n, k * j));
    var g := (j: int) => Mul(y(j), t.Root(s, n, Mirror(n, k) * j));
    forall j | 0 <= j < n ensures g(j) == Conj(f(j)) {
      ConjMul(x(j), t.Root(s, n, k * j));
      ConjRoot(t, s, n, k * j);
      MirrorRoot(t, s, n, k, j);
    }
    ConjSum(n, f, g);
    SumExt(n, j => Mul(x(j), t.Root(s, n, k * j)), f);
    SumExt(n, j => Mul(y(j), t.Root(s, n, Mirror(n, k) * j)), g);
  }

  /** The transform of the mirrored signal. */
  lemma MirrorDft(t: Trig, s: int, n: nat, x: Vector, y: Vector, k: int)
    requires t.Valid() && n > 0 && (s == 1 || s == -1) && 0 <= k < n
    requires forall j :: 0 <= j < n ==> y(j) == x(Mirror(n, j))
    ensures Dft(t, s, n, y, Mirror(n, k)) == Dft(t, s, n, x, k)
  {
    hide Mul, Trig.Root, Trig.Valid;
    var p := seq(n, j requires 0 <= j < n => Mirror(n, j));
    var f := (j: int) => Mul(x(j), t.Root(s, n, k * j));
    var g := (j: int) => Mul(y(j), t.Root(s, n, Mirror(n, k) * j));
    forall j | 0 <= j < n ensures g(j) == f(p[j]) { MirrorTerm(t, s, n, k, j); }
    MirrorPermutation(n, p);
    SumPermuted(n, p, f, g);
    SumExt(n, j => Mul(x(j), t.Root(s, n, k * j)), f);
    SumExt(n, j => Mul(y(j), t.Root(s, n, Mirror(n, k) * j)), g);
  }

  lemma MirrorTerm(t: Trig, s: int, n: nat, k: int, j: int)
    requires t.Valid() && n > 0 && (s == 1 || s == -1) && 0 <= k < n && 0 <= j < n
    ensures t.Root(s, n, Mirror(n, k) * j) == t.Root(s, n, k * Mirror(n, j))
  {
    hide Trig.Root, Trig.Valid, Mirror;
    MirrorRoot(t, s, n, k, j);
    MirrorRoot(t, s, n, j, k);
    assert k * Mirror(n, j) == Mirror(n, j) * k && j * k == k * j;
  }

  lemma MirrorPermutation(n: nat, p: seq<int>)
    requires |p| == n && forall j :: 0 <= j < n ==> p[j] == Mirror(n, j)
    ensures IsPermutation(n, p)
  {
    forall v | 0 <= v < n ensures v in p { assert p[Mirror(n, v)] == v; }
  }

  // ----- real signals -----

  /** Opposite frequencies are conjugate. */
  ghost predicate ConjSymmetric(n: nat, V: Vector) {
    forall f :: 0 <= f < n ==> V(Mirror(n, f)) == Conj(V(f))
  }

  lemma SymmetricIsReal(t: Trig, n: nat, V: Vector, k: int)
    requires t.Valid() && n > 0 && ConjSymmetric(n, V) && 0 <= k < n
    ensures Dft(t, -1, n, V, k).im == 0.0
  {
    hide Mul, Trig.Root, Trig.Valid, Dft;
    var y: Vector := j => Conj(V(j));
    ConjDft(t, -1, n, V, y, k);
    MirrorDft(t, -1, n, V, y, k);
    assert Conj(Dft(t, -1, n, V, k)) == Dft(t, -1, n, V, k);
  }

  lemma RealIsSymmetric(t: Trig, n: nat, V: Vector, v: Vector, f: int)
    requires t.Valid() && Orthogonal(t, n) && n > 0 && 0 <= f < n
    requires forall k :: 0 <= k < n ==> v(k) == Dft(t, -1, n, V, k) && v(k).im == 0.0
    ensures V(Mirror(n, f)) == Conj(V(f))
  {
    hide Mul, Trig.Root, Trig.Valid, Dft, Orthogonal;
    var N := FromReal(n as real);
    InverseSum(t, -1, n, V, v, f);
    InverseSum(t, -1, n, V, v, Mirror(n, f));
    ConjDft(t, 1, n, v, v, f);
    ConjMul(V(f), N);
    assert Conj(N) == N;
    MulComm(Conj(V(f)), N);
    MulComm(V(Mirror(n, f)), N);
    Cancel(N, Conj(V(f)), V(Mirror(n, f)));
  }

  /** A signal is real if and only if opposite frequencies of its spectrum are conjugate. */
  lemma RealSignal(t: Trig, n: nat, V: Vector)
    requires t.Valid() && Orthogonal(t, n) && n > 0
    ensures (forall k :: 0 <= k < n ==> Dft(t, -1, n, V, k).im == 0.0) <==> ConjSymmetric(n, V)
  {
    hide Trig.Valid, Dft, Orthogonal;
    if ConjSymmetric(n, V) {
      forall k | 0 <= k < n ensures Dft(t, -1, n, V, k).im == 0.0 { SymmetricIsReal(t, n, V, k); }
    }
    if forall k :: 0 <= k < n ==> Dft(t, -1, n, V, k).im == 0.0 {
      var v: Vector := k => Dft(t, -1, n, V, k);
      forall f | 0 <= f < n ensures V(Mirror(n, f)) == Conj(V(f)) { RealIsSymmetric(t, n, V, v, f); }
    }
  }

  // ----- conjugate continuation -----

  /** Entry f of L entries that are continued conjugately, in reverse from the last but one. */
  function Continued(L: nat, V: Vector, f: int): Complex {
    if f < L then V(f) else Conj(V(2 * L - 2 - f))
  }

  ghost predicate IsContinued(L: nat, n: nat, V: Vector, W: Vector) {
    forall f :: 0 <= f < n ==> W(f) == Continued(L, V, f)
  }

  /** The continued spectrum belongs to a real signal if and only if direct current and the
      highest frequency are real. */
  lemma ContinuedIsReal(t: Trig, L: nat, n: nat, V: Vector, W: Vector)
    requires t.Valid() && Orthogonal(t, n) && L >= 2 && n == 2 * (L - 1) && IsContinued(L, n, V, W)
    ensures (forall k :: 0 <= k < n ==> Dft(t, -1, n, W, k).im == 0.0) <==> V(0).im == 0.0 && V(L - 1).im == 0.0
  {
    hide Trig.Valid, Dft, Orthogonal;
    RealSignal(t, n, W);
    ContinuedSymmetry(L, n, V, W);
  }

  /** Two entries, the second one imaginary: their continuation belongs to no real signal. */
  lemma ContinuedInput(t: Trig, V: Vector, W: Vector)
    requires t.Valid() && V(0) == Zero && V(1) == Complex(0.0, 1.0) && IsContinued(2, 2, V, W)
    ensures !(forall k :: 0 <= k < 2 ==> Dft(t, -1, 2, W, k).im == 0.0)
  {
    hide Trig.Valid, Dft, IsContinued;
    assert IsPow2(2) by { assert IsPow2(1); }
    ContinuedIsReal(t, 2, 2, V, W);
  }

  lemma ContinuedSymmetry(L: nat, n: nat, V: Vector, W: Vector)
    requires L >= 2 && n == 2 * (L - 1) && IsContinued(L, n, V, W)
    ensures ConjSymmetric(n, W) <==> V(0).im == 0.0 && V(L - 1).im == 0.0
  {
    assert W(0) == V(0);
    assert W(L - 1) == V(L - 1);
    if ConjSymmetric(n, W) {
      assert W(Mirror(n, 0)) == Conj(W(0));
      assert W(Mirror(n, L - 1)) == Conj(W(L - 1));
    }
    if V(0).im == 0.0 && V(L - 1).im == 0.0 {
      forall f | 0 <= f < n ensures W(Mirror(n, f)) == Conj(W(f)) {
        assert f == 0 || W(n - f) == Continued(L, V, n - f);
      }
    }
  }

  // ----- signals node by node -----

  lemma ScaledDft(t: Trig, s: int, n: nat, y: Vector, x: Vector, w: Complex, k: int)
    requires n > 0 && forall f :: 0 <= f < n ==> x(f) == Mul(y(f), w)
    ensures Dft(t, s, n, x, k) == Mul(Dft(t, s, n, y, k), w)
  {
    hide Mul, Trig.Root;
    var g := (f: int) => Mul(y(f), t.Root(s, n, k * f));
    SumScale(n, w, g);
    MulComm(w, Sum(n, g));
    forall f | 0 <= f < n ensures Mul(x(f), t.Root(s, n, k * f)) == Mul(w, g(f)) {
      MulComm(y(f), w);
      MulAssoc(w, y(f), t.Root(s, n, k * f));
    }
    SumExt(n, f => Mul(x(f), t.Root(s, n, k * f)), f => Mul(w, g(f)));
    SumExt(n, f => Mul(y(f), t.Root(s, n, k * f)), g);
  }

  /** The signal of the spectrum of a signal. */
  lemma SpectrumInverse(t: Trig, n: nat, x: Vector, X: Vector, k: int)
    requires t.Valid() && Orthogonal(t, n) && n > 0 && 0 <= k < n
    requires forall f :: 0 <= f < n ==> X(f) == Spectrum(t, 1, n, x, f)
    ensures Dft(t, -1, n, X, k) == x(k)
  {
    hide Mul, Inv, Trig.Root, Trig.Valid, Dft, Orthogonal;
    var N := FromReal(n as real);
    var Y: Vector := f => Dft(t, 1, n, x, f);
    InverseSum(t, 1, n, x, Y, k);
    ScaledDft(t, -1, n, Y, X, Inv(N), k);
    MulComm(x(k), N);
    DivMul(x(k), N);
  }

  /** The spectrum of the signal of a spectrum. */
  lemma SignalInverse(t: Trig, n: nat, X: Vector, x: Vector, f: int)
    requires t.Valid() && Orthogonal(t, n) && n > 0 && 0 <= f < n
    requires forall k :: 0 <= k < n ==> x(k) == Dft(t, -1, n, X, k)
    ensures Spectrum(t, 1, n, x, f) == X(f)
  {
    hide Mul, Inv, Trig.Root, Trig.Valid, Dft, Orthogonal;
    var N := FromReal(n as real);
    InverseSum(t, -1, n, X, x, f);
    MulComm(X(f), N);
    DivMul(X(f), N);
  }

  /** Signals without imaginary part. */
  ghost predicate IsReal(size: nat, vs: Vector) {
    forall k :: 0 <= k < size ==> vs(k).im == 0.0
  }

  function RealParts(vs: Vector): Vector { k => FromReal(vs(k).re) }

  /** The spectra of the real parts of the signals, node by node. */
  function RealSpectrum(t: Trig, n: nat, vs: Vector): Vector
    requires n > 0
  {
    i => Spectrum(t, 1, n, NodeBlock(n, RealParts(vs), i / n), i % n)
  }

  lemma SplitIndex(n: nat, r: nat, f: nat)
    requires f < n
    ensures At(n, r, f) / n == r && At(n, r, f) % n == f
  {
    DivMod(r, f, n);
  }

  /** The inverse transform of the spectra of the real parts are the real parts. */
  lemma RealSpectrumSignal(t: Trig, n: nat, nodes: nat, vs: Vector)
    requires t.Valid() && Orthogonal(t, n) && n > 0
    ensures BlocksTransformed(t, -1, n, nodes, RealSpectrum(t, n, vs), RealParts(vs))
  {
    hide Trig.Valid, Dft, At, Orthogonal, Inv, Mul;
    var v, W := RealParts(vs), RealSpectrum(t, n, vs);
    forall r, k | 0 <= r < nodes && 0 <= k < n ensures v(At(n, r, k)) == Spectrum(t, -1, n, NodeBlock(n, W, r), k) {
      var X, x := NodeBlock(n, W, r), NodeBlock(n, v, r);
      forall f | 0 <= f < n ensures X(f) == Spectrum(t, 1, n, x, f) { SplitIndex(n, r, f); }
      SpectrumInverse(t, n, x, X, k);
    }
  }

  /** For real signals these are the spectra themselves. */
  lemma RealSpectrumOfReal(t: Trig, n: nat, nodes: nat, VS: Vector, vs: Vector, r: nat, f: nat)
    requires t.Valid() && Orthogonal(t, n) && n > 0 && r < nodes && f < n
    requires BlocksTransformed(t, -1, n, nodes, VS, vs) && IsReal(nodes * n, vs)
    ensures RealSpectrum(t, n, vs)(At(n, r, f)) == VS(At(n, r, f))
  {
    hide Trig.Valid, Dft, At, Orthogonal, Inv, Mul;
    var X, x := NodeBlock(n, VS, r), NodeBlock(n, RealParts(vs), r);
    forall k | 0 <= k < n ensures x(k) == Dft(t, -1, n, X, k) {
      AtBounds(n, r, k, nodes);
      assert vs(At(n, r, k)) == Spectrum(t, -1, n, X, k);
    }
    SplitIndex(n, r, f);
    SignalInverse(t, n, X, x, f);
  }

  /** The signals are real if and only if every node's spectrum is conjugate symmetric. */
  lemma RealSignals(t: Trig, n: nat, nodes: nat, VS: Vector, vs: Vector)
    requires t.Valid() && Orthogonal(t, n) && n > 0 && BlocksTransformed(t, -1, n, nodes, VS, vs)
    ensures IsReal(nodes * n, vs) <==> forall r :: 0 <= r < nodes ==> ConjSymmetric(n, NodeBlock(n, VS, r))
  {
    hide Trig.Valid, Dft, At, Orthogonal, ConjSymmetric;
    forall r | 0 <= r < nodes
      ensures ConjSymmetric(n, NodeBlock(n, VS, r)) <==> forall k :: 0 <= k < n ==> vs(At(n, r, k)).im == 0.0
    {
      var X := NodeBlock(n, VS, r);
      forall k | 0 <= k < n ensures vs(At(n, r, k)) == Dft(t, -1, n, X, k) {
        assert vs(At(n, r, k)) == Spectrum(t, -1, n, X, k);
      }
      RealSignal(t, n, X);
    }
    if forall r :: 0 <= r < nodes ==> ConjSymmetric(n, NodeBlock(n, VS, r)) {
      forall i | 0 <= i < nodes * n ensures vs(i).im == 0.0 {
        var r, k := Located(n, nodes, i);
        assert ConjSymmetric(n, NodeBlock(n, VS, r));
      }
    }
    if IsReal(nodes * n, vs) {
      forall r | 0 <= r < nodes ensures ConjSymmetric(n, NodeBlock(n, VS, r)) {
        forall k | 0 <= k < n ensures vs(At(n, r, k)).im == 0.0 { AtBounds(n, r, k, nodes); }
      }
    }
  }

  /** Node and frequency of an entry. */
  lemma Located(n: nat, nodes: nat, i: nat) returns (r: nat, f: nat)
    requires n > 0 && i < nodes * n
    ensures r < nodes && f < n && i == At(n, r, f)
  {
    r, f := i / n, i % n;
    assert i == r * n + f;
    if r >= nodes { Scale(n, nodes, r); }
  }
}
