/** One Newton step of the harmonic balance solver. */
module HbNewton {
  import opened Integers
  import opened ComplexNumbers
  import opened Sums
  import opened LinearAlgebra
  import opened EqnSystem
  import opened FourierTransform
  import opened FastFourier
  import opened HbTransforms
  import opened HbReal
  import opened HbLoad
  import opened HbBalance
  import opened HbDevices

  // ----- convolution -----

  /** A sum over all entries of a vector, node by node. */
  lemma SumBlocks(n: nat, nodes: nat, size: nat, f: int -> Complex)
    requires size == nodes * n
    ensures Sum(size, f) == Sum(nodes, b => Sum(n, k => f(At(n, b, k))))
  {
    hide Sum, At;
    BlockSums(n, nodes, size, f, b => Sum(n, k => f(At(n, b, k))));
  }

  lemma {:induction false} BlockSums(n: nat, nodes: nat, size: nat, f: int -> Complex, g: int -> Complex)
    requires size == nodes * n && forall b :: g(b) == Sum(n, k => f(At(n, b, k)))
    ensures Sum(size, f) == Sum(nodes, g)
  {
    hide Sum, At;
    if nodes == 0 {
      SumNone(f);
      SumNone(g);
    } else {
      var m := nodes - 1;
      var base := Before(n, nodes, size);
      BlockSums(n, m, base, f, g);
      LastBlock(n, m, base, f, g(m));
      SumStep(m, g);
    }
  }

  lemma LastBlock(n: nat, m: nat, base: nat, f: int -> Complex, last: Complex)
    requires base == m * n && last == Sum(n, k => f(At(n, m, k)))
    ensures Sum(base + n, f) == Add(Sum(base, f), last)
  {
    hide Sum, At;
    SumSplit(base, n, f);
    forall k | 0 <= k < n ensures At(n, m, k) == base + k { AtValue(n, m, k); }
    SumExt(n, j => f(base + j), k => f(At(n, m, k)));
  }

  lemma Before(n: nat, nodes: nat, size: nat) returns (base: nat)
    requires size == nodes * n && nodes > 0
    ensures base == (nodes - 1) * n && size == base + n
  {
    base := (nodes - 1) * n;
  }

  lemma AtValue(n: nat, r: int, f: int)
    ensures At(n, r, f) == r * n + f
  {}

  /** One frequency of the convolution, as terms of a double sum. */
  lemma ConvolutionTerm(t: Trig, n: nat, d: Vector, V: Vector, fr: nat, fc: nat, w: Complex, f: (int, int) -> Complex)
    requires t.Valid() && n > 0 && fr < n && fc < n && w == Inv(FromReal(n as real))
    requires forall c, k :: f(c, k) == Mul(Mul(w, Mul(d(k), t.Root(1, n, fr * k))), Mul(V(c), t.Root(-1, n, k * c)))
    ensures Mul(Spectrum(t, 1, n, d, Lag(n, fr, fc)), V(fc)) == Sum(n, k => f(fc, k))
  {
    hide Mul, Inv, Trig.Root, Trig.Valid;
    var e := Lag(n, fr, fc);
    var g := (k: int) => Mul(d(k), t.Root(1, n, e * k));
    var z := Mul(w, V(fc));
    MulAssoc(Sum(n, g), w, V(fc));
    MulComm(Sum(n, g), z);
    SumScale(n, z, g);
    forall k | 0 <= k < n ensures Mul(z, g(k)) == f(fc, k) {
      var y := Mul(Mul(d(k), t.Root(1, n, fr * k)), w);
      LagTerm(t, n, d(k), y, fr, fc, k, w);
      assert fc * k == k * fc;
      MulComm(Mul(d(k), t.Root(1, n, fr * k)), w);
      var r := t.Root(-1, n, k * fc);
      // w V g == (w g) V == (y r) V == y (V r)
      MulAssoc(w, V(fc), g(k));
      MulComm(V(fc), g(k));
      MulAssoc(w, g(k), V(fc));
      MulAssoc(y, r, V(fc));
      MulComm(r, V(fc));
    }
    SumExt(n, k => Mul(z, g(k)), k => f(fc, k));
  }

  /** The convolution theorem: a circulant block times a spectrum is the spectrum of the
      product of the signals. */
  lemma Convolution(t: Trig, n: nat, d: Vector, V: Vector, v: Vector, x: Vector, fr: nat)
    requires t.Valid() && n > 0 && fr < n
    requires forall k :: 0 <= k < n ==> v(k) == Dft(t, -1, n, V, k) && x(k) == Mul(d(k), v(k))
    ensures Sum(n, fc => Mul(Spectrum(t, 1, n, d, Lag(n, fr, fc)), V(fc))) == Spectrum(t, 1, n, x, fr)
  {
    hide Mul, Inv, Trig.Root, Trig.Valid, Spectrum;
    var w := Inv(FromReal(n as real));
    var f := (c: int, k: int) => Mul(Mul(w, Mul(d(k), t.Root(1, n, fr * k))), Mul(V(c), t.Root(-1, n, k * c)));
    forall fc | 0 <= fc < n ensures Mul(Spectrum(t, 1, n, d, Lag(n, fr, fc)), V(fc)) == Sum(n, k => f(fc, k)) {
      ConvolutionTerm(t, n, d, V, fr, fc, w, f);
    }
    SumExt(n, fc => Mul(Spectrum(t, 1, n, d, Lag(n, fr, fc)), V(fc)), fc => Sum(n, k => f(fc, k)));
    SumSwap(n, n, f);
    ProductSpectrum(t, n, d, V, v, x, fr, w, f);
  }

  lemma ProductSpectrum(t: Trig, n: nat, d: Vector, V: Vector, v: Vector, x: Vector, fr: nat, w: Complex,
                        f: (int, int) -> Complex)
    requires t.Valid() && n > 0 && fr < n && w == Inv(FromReal(n as real))
    requires forall k :: 0 <= k < n ==> v(k) == Dft(t, -1, n, V, k) && x(k) == Mul(d(k), v(k))
    requires forall c, k :: f(c, k) == Mul(Mul(w, Mul(d(k), t.Root(1, n, fr * k))), Mul(V(c), t.Root(-1, n, k * c)))
    ensures Spectrum(t, 1, n, x, fr) == Sum(n, k => Sum(n, c => f(c, k)))
  {
    hide Mul, Inv, Trig.Root, Trig.Valid;
    var g := (k: int) => Mul(x(k), t.Root(1, n, fr * k));
    MulComm(Sum(n, g), w);
    SumScale(n, w, g);
    forall k | 0 <= k < n ensures Mul(w, g(k)) == Sum(n, c => f(c, k)) {
      var r := t.Root(1, n, fr * k);
      var a, h := Mul(w, Mul(d(k), r)), (c: int) => Mul(V(c), t.Root(-1, n, k * c));
      SumScale(n, a, h);
      SumExt(n, c => Mul(a, h(c)), c => f(c, k));
      // w ((d v) r) == (w (d r)) v
      MulAssoc(d(k), v(k), r);
      MulComm(v(k), r);
      MulAssoc(d(k), r, v(k));
      MulAssoc(w, Mul(d(k), r), v(k));
    }
    SumExt(n, k => Mul(w, g(k)), k => Sum(n, c => f(c, k)));
  }

  // ----- linearity of the transform -----

  lemma SpectrumAdd(t: Trig, n: nat, x: Vector, y: Vector, z: Vector, f: int)
    requires n > 0 && forall k :: 0 <= k < n ==> z(k) == Add(x(k), y(k))
    ensures Spectrum(t, 1, n, z, f) == Add(Spectrum(t, 1, n, x, f), Spectrum(t, 1, n, y, f))
  {
    hide Mul, Inv, Trig.Root;
    var r := (k: int) => t.Root(1, n, f * k);
    WeightedAdd(n, x, y, z, r);
    SumExt(n, k => Mul(x(k), t.Root(1, n, f * k)), k => Mul(x(k), r(k)));
    SumExt(n, k => Mul(y(k), t.Root(1, n, f * k)), k => Mul(y(k), r(k)));
    SumExt(n, k => Mul(z(k), t.Root(1, n, f * k)), k => Mul(z(k), r(k)));
    AddMul(Dft(t, 1, n, x, f), Dft(t, 1, n, y, f), Inv(FromReal(n as real)));
  }

  lemma {:induction false} SpectrumSum(t: Trig, n: nat, m: nat, xs: (int, int) -> Complex, z: Vector, f: int)
    requires n > 0 && forall k :: 0 <= k < n ==> z(k) == Sum(m, b => xs(b, k))
    ensures Sum(m, b => Spectrum(t, 1, n, k => xs(b, k), f)) == Spectrum(t, 1, n, z, f)
  {
    if m == 0 {
      ZeroSpectrum(t, n, z, f);
    } else {
      hide Spectrum;
      var y: Vector := k => Sum(m - 1, b => xs(b, k));
      SpectrumSum(t, n, m - 1, xs, y, f);
      SpectrumAdd(t, n, y, k => xs(m - 1, k), z, f);
    }
  }

  lemma ZeroSpectrum(t: Trig, n: nat, z: Vector, f: int)
    requires n > 0 && forall k :: 0 <= k < n ==> z(k) == Zero
    ensures Spectrum(t, 1, n, z, f) == Zero
  {
    hide Mul, Inv, Trig.Root;
    var g := (k: int) => Mul(z(k), t.Root(1, n, f * k));
    forall k | 0 <= k < n ensures g(k) == Zero { MulUnits(t.Root(1, n, f * k)); }
    SumZero(n, g);
    MulUnits(Inv(FromReal(n as real)));
  }

  lemma ZeroSignals(t: Trig, n: nat, nodes: nat, V: Vector, v: Vector)
    requires n > 0 && forall i :: 0 <= i < nodes * n ==> V(i) == Zero == v(i)
    ensures BlocksTransformed(t, -1, n, nodes, V, v) && IsReal(nodes * n, v)
  {
    hide Mul, Trig.Root, At;
    forall r, k | 0 <= r < nodes && 0 <= k < n ensures v(At(n, r, k)) == Spectrum(t, -1, n, NodeBlock(n, V, r), k) {
      AtBounds(n, r, k, nodes);
      var x := NodeBlock(n, V, r);
      var g := (f: int) => Mul(x(f), t.Root(-1, n, k * f));
      forall f | 0 <= f < n ensures g(f) == Zero {
        AtBounds(n, r, f, nodes);
        MulUnits(t.Root(-1, n, k * f));
      }
      SumZero(n, g);
    }
  }

  // ----- the Jacobian in the frequency domain -----

  /** Row (a, fr) of the transformed Jacobian times the voltage spectra is the spectrum of
      the time domain products z of node a. */
  lemma JacobianSpectrum(t: Trig, n: nat, nodes: nat, size: nat, J: Matrix, J': Matrix, VS: Vector, vs: Vector,
                         z: Vector, a: nat, fr: nat)
    requires t.Valid() && n > 0 && size == nodes * n && a < nodes && fr < n
    requires MatrixTransformed(t, n, nodes, J, J') && BlocksTransformed(t, -1, n, nodes, VS, vs)
    requires forall k :: 0 <= k < n ==> z(k) == Sum(nodes, b => Mul(J(At(n, a, k), At(n, b, k)), vs(At(n, b, k))))
    ensures Apply(size, J', VS, At(n, a, fr)) == Spectrum(t, 1, n, z, fr)
  {
    hide Mul, At, Trig.Valid, Spectrum, MatrixTransformed, BlocksTransformed;
    var i := At(n, a, fr);
    var xs := (b: int, k: int) => Mul(J(At(n, a, k), At(n, b, k)), vs(At(n, b, k)));
    var g := (j: int) => Mul(J'(i, j), VS(j));
    SumBlocks(n, nodes, size, g);
    var blocks := (b: int) => Sum(n, k => g(At(n, b, k)));
    var spectra := (b: int) => Spectrum(t, 1, n, k => xs(b, k), fr);
    forall b | 0 <= b < nodes ensures blocks(b) == spectra(b) {
      NodePair(t, n, nodes, J, J', VS, vs, a, fr, b, g, k => xs(b, k));
    }
    SumExt(nodes, blocks, spectra);
    forall k | 0 <= k < n ensures z(k) == Sum(nodes, b => xs(b, k)) {
      SumExt(nodes, b => Mul(J(At(n, a, k), At(n, b, k)), vs(At(n, b, k))), b => xs(b, k));
    }
    SpectrumSum(t, n, nodes, xs, z, fr);
  }

  lemma NodePair(t: Trig, n: nat, nodes: nat, J: Matrix, J': Matrix, VS: Vector, vs: Vector, a: nat, fr: nat, b: nat,
                 g: int -> Complex, x: Vector)
    requires t.Valid() && n > 0 && a < nodes && b < nodes && fr < n
    requires MatrixTransformed(t, n, nodes, J, J') && BlocksTransformed(t, -1, n, nodes, VS, vs)
    requires forall j :: g(j) == Mul(J'(At(n, a, fr), j), VS(j))
    requires forall k :: 0 <= k < n ==> x(k) == Mul(J(At(n, a, k), At(n, b, k)), vs(At(n, b, k)))
    ensures Sum(n, k => g(At(n, b, k))) == Spectrum(t, 1, n, x, fr)
  {
    hide Mul, At, Trig.Valid, Dft, Inv;
    var d, V := Diagonal(n, J, a, b), NodeBlock(n, VS, b);
    var v: Vector := k => vs(At(n, b, k));
    forall k | 0 <= k < n ensures v(k) == Dft(t, -1, n, V, k) {
      assert vs(At(n, b, k)) == Spectrum(t, -1, n, NodeBlock(n, VS, b), k);
    }
    hide Spectrum;
    forall fc | 0 <= fc < n ensures g(At(n, b, fc)) == Mul(Spectrum(t, 1, n, d, Lag(n, fr, fc)), V(fc)) {
      assert J'(At(n, a, fr), At(n, b, fc)) == Circulant(t, n, J, a, b, fr, fc);
    }
    SumExt(n, k => g(At(n, b, k)), fc => Mul(Spectrum(t, 1, n, d, Lag(n, fr, fc)), V(fc)));
    Convolution(t, n, d, V, v, x, fr);
  }

  /** The voltages that are saved into the circuits for sample f: real parts. */
  function SavedVoltages(n: nat, vs: Vector, f: int): Vector {
    b => FromReal(vs(At(n, b, f)).re)
  }

  /** Every circuit reports its products with the saved voltages. */
  ghost predicate AllReport(n: nat, samples: seq<seq<Device>>, vs: Vector) {
    forall f :: 0 <= f < |samples| ==> SampleReports(samples[f], SavedVoltages(n, vs, f))
  }

  /** Time domain: Jacobian times saved voltages, at node a and sample k. */
  lemma TimeBalance(n: nat, nodes: nat, samples: seq<seq<Device>>, charge: bool, vs: Vector, v: Vector, J: Matrix,
                    a: nat, k: nat)
    requires n > 0 && |samples| == n && ValidSamples(samples, nodes) && AllReport(n, samples, vs)
    requires a < nodes && k < n && v == RealParts(vs)
    requires forall i, j :: 0 <= i < nodes * n && 0 <= j < nodes * n ==>
      J(i, j) == TotalMatrix(n, samples, charge, i, j, n)
    ensures Sum(nodes, b => Mul(J(At(n, a, k), At(n, b, k)), v(At(n, b, k))))
         == Sub(TotalVector(n, samples, Rhs(charge), At(n, a, k), n),
                TotalVector(n, samples, Plain(charge), At(n, a, k), n))
  {
    hide Mul, At, TotalMatrix, TotalVector, SampleMatrix, SampleVector, SampleReports, Rhs, Plain;
    var devs, saved := samples[k], SavedVoltages(n, vs, k);
    var g := (b: int) => SampleMatrix(n, devs, charge, k, At(n, a, k), At(n, b, k), |devs|);
    AtBounds(n, a, k, nodes);
    forall b | 0 <= b < nodes ensures Mul(J(At(n, a, k), At(n, b, k)), v(At(n, b, k))) == Mul(g(b), saved(b)) {
      AtBounds(n, b, k, nodes);
      TotalsBySample(n, samples, charge, a, k, b, k);
    }
    SumExt(nodes, b => Mul(J(At(n, a, k), At(n, b, k)), v(At(n, b, k))), b => Mul(g(b), saved(b)));
    SampleBalance(n, nodes, devs, charge, k, a, saved, |devs|, g);
    TotalVectorBySample(n, samples, Rhs(charge), a, k);
    TotalVectorBySample(n, samples, Plain(charge), a, k);
  }

  /** Frequency domain: the transformed Jacobian times the spectra W of the saved voltages is
      the sum of the transformed right hand side and the transformed plain term. */
  lemma FrequencyBalance(t: Trig, n: nat, nodes: nat, size: nat, samples: seq<seq<Device>>, charge: bool,
                         W: Vector, vs: Vector, J: Matrix, J': Matrix,
                         p: Vector, p': Vector, q: Vector, q': Vector, a: nat, fr: nat)
    requires t.Valid() && n > 0 && size == nodes * n && |samples| == n && ValidSamples(samples, nodes)
    requires a < nodes && fr < n
    requires AllReport(n, samples, vs) && BlocksTransformed(t, -1, n, nodes, W, RealParts(vs))
    requires forall i, j :: 0 <= i < size && 0 <= j < size ==> J(i, j) == TotalMatrix(n, samples, charge, i, j, n)
    requires MatrixTransformed(t, n, nodes, J, J')
    requires forall i :: 0 <= i < size ==>
      p(i) == Neg(TotalVector(n, samples, Plain(charge), i, n)) && q(i) == TotalVector(n, samples, Rhs(charge), i, n)
    requires BlocksTransformed(t, 1, n, nodes, p, p') && BlocksTransformed(t, 1, n, nodes, q, q')
    ensures Apply(size, J', W, At(n, a, fr)) == Add(q'(At(n, a, fr)), p'(At(n, a, fr)))
  {
    hide Mul, Apply, At, Trig.Valid, Spectrum, TotalMatrix, TotalVector, MatrixTransformed, AllReport, RealParts;
    var x, y, v := NodeBlock(n, q, a), NodeBlock(n, p, a), RealParts(vs);
    var z: Vector := k => Add(x(k), y(k));
    forall k | 0 <= k < n ensures z(k) == Sum(nodes, b => Mul(J(At(n, a, k), At(n, b, k)), v(At(n, b, k)))) {
      TimeBalance(n, nodes, samples, charge, vs, v, J, a, k);
      AtBounds(n, a, k, nodes);
      assert z(k) == Add(q(At(n, a, k)), p(At(n, a, k)));
    }
    JacobianSpectrum(t, n, nodes, size, J, J', W, v, z, a, fr);
    SpectrumAdd(t, n, x, y, z, fr);
  }

  /** What the devices add in the time domain, sample by sample. */
  function TimePlain(n: nat, samples: seq<seq<Device>>, kind: Kind): Vector {
    i => Neg(TotalVector(n, samples, kind, i, n))
  }

  function TimeRhs(n: nat, samples: seq<seq<Device>>, kind: Kind): Vector {
    i => TotalVector(n, samples, kind, i, n)
  }

  function TimeMatrix(n: nat, samples: seq<seq<Device>>, charge: bool): Matrix {
    (i, j) => TotalMatrix(n, samples, charge, i, j, n)
  }

  lemma SameDiagonals(t: Trig, n: nat, nodes: nat, V: Matrix, W: Matrix, V': Matrix)
    requires n > 0 && MatrixTransformed(t, n, nodes, V, V')
    requires forall i, j :: 0 <= i < nodes * n && 0 <= j < nodes * n ==> V(i, j) == W(i, j)
    ensures MatrixTransformed(t, n, nodes, W, V')
  {
    hide At, Dft, Div;
    forall a, b, fr, fc | 0 <= a < nodes && 0 <= b < nodes && 0 <= fr < n && 0 <= fc < n
      ensures V'(At(n, a, fr), At(n, b, fc)) == Circulant(t, n, W, a, b, fr, fc)
    {
      forall k | 0 <= k < n ensures V(At(n, a, k), At(n, b, k)) == W(At(n, a, k), At(n, b, k)) {
        AtBounds(n, a, k, nodes);
        AtBounds(n, b, k, nodes);
      }
      DftExt(t, 1, n, Diagonal(n, V, a, b), Diagonal(n, W, a, b), Lag(n, fr, fc));
    }
  }

  /** p and q are the spectra of the plain and of the right hand side terms. */
  ghost predicate TermSpectra(t: Trig, n: nat, nodes: nat, samples: seq<seq<Device>>, charge: bool, p: Vector,
                              q: Vector)
    requires n > 0
  {
    && BlocksTransformed(t, 1, n, nodes, TimePlain(n, samples, Plain(charge)), p)
    && BlocksTransformed(t, 1, n, nodes, TimeRhs(n, samples, Rhs(charge)), q)
  }

  /** The terms of the equation are the spectra of the sums over the terminals at each node. */
  lemma SpectraByNode(t: Trig, n: nat, nodes: nat, samples: seq<seq<Device>>, IG: Vector, FQ: Vector, IR: Vector,
                      QR: Vector)
    requires n > 0 && |samples| == n
    requires TermSpectra(t, n, nodes, samples, false, IG, IR) && TermSpectra(t, n, nodes, samples, true, FQ, QR)
    ensures DeviceSpectra(t, n, nodes, samples, IG, FQ, IR, QR)
  {
    hide At, TotalVector, BlocksTransformed, IsSpectrumOf, CurrentSignal, ChargeSignal, CurrentRhsSignal,
      ChargeRhsSignal, TimePlain, TimeRhs;
    forall a, k | 0 <= a < nodes && 0 <= k < n
      ensures TimePlain(n, samples, Current)(At(n, a, k)) == CurrentSignal(samples, a)(k)
      ensures TimePlain(n, samples, Charge)(At(n, a, k)) == ChargeSignal(samples, a)(k)
      ensures TimeRhs(n, samples, CurrentRhs)(At(n, a, k)) == CurrentRhsSignal(samples, a)(k)
      ensures TimeRhs(n, samples, ChargeRhs)(At(n, a, k)) == ChargeRhsSignal(samples, a)(k)
    {
      TimeSignals(n, samples, a, k);
    }
    BlockSpectra(t, n, nodes, TimePlain(n, samples, Current), IG, a => CurrentSignal(samples, a));
    BlockSpectra(t, n, nodes, TimePlain(n, samples, Charge), FQ, a => ChargeSignal(samples, a));
    BlockSpectra(t, n, nodes, TimeRhs(n, samples, CurrentRhs), IR, a => CurrentRhsSignal(samples, a));
    BlockSpectra(t, n, nodes, TimeRhs(n, samples, ChargeRhs), QR, a => ChargeRhsSignal(samples, a));
  }

  lemma TimeSignals(n: nat, samples: seq<seq<Device>>, a: nat, k: nat)
    requires |samples| == n && k < n
    ensures TimePlain(n, samples, Current)(At(n, a, k)) == CurrentSignal(samples, a)(k)
    ensures TimePlain(n, samples, Charge)(At(n, a, k)) == ChargeSignal(samples, a)(k)
    ensures TimeRhs(n, samples, CurrentRhs)(At(n, a, k)) == CurrentRhsSignal(samples, a)(k)
    ensures TimeRhs(n, samples, ChargeRhs)(At(n, a, k)) == ChargeRhsSignal(samples, a)(k)
  {
    hide At, TotalVector, CurrentsAt, ChargesAt, ConductedAt, StoredAt;
    TotalVectorsAt(n, samples, a, k);
  }

  /** Circuits without charges leave the charge terms zero, circuits without currents the
      current terms. */
  lemma AbsentTerms(t: Trig, n: nat, nodes: nat, samples: seq<seq<Device>>, IG: Vector, FQ: Vector, IR: Vector,
                    QR: Vector, a: nat, f: nat)
    requires n > 0 && DeviceSpectra(t, n, nodes, samples, IG, FQ, IR, QR) && a < nodes && f < n
    ensures NoCharges(samples) ==> FQ(At(n, a, f)) == Zero == QR(At(n, a, f))
    ensures NoCurrents(samples) ==> IG(At(n, a, f)) == Zero == IR(At(n, a, f))
  {
    hide At, Spectrum, NoCharges, NoCurrents, CurrentSignal, ChargeSignal, CurrentRhsSignal, ChargeRhsSignal;
    if NoCharges(samples) {
      forall k ensures ChargeSignal(samples, a)(k) == Zero == ChargeRhsSignal(samples, a)(k) {
        NothingStored(samples, a, k);
      }
      ZeroSpectrum(t, n, ChargeSignal(samples, a), f);
      ZeroSpectrum(t, n, ChargeRhsSignal(samples, a), f);
    }
    if NoCurrents(samples) {
      forall k ensures CurrentSignal(samples, a)(k) == Zero == CurrentRhsSignal(samples, a)(k) {
        NothingConducted(samples, a, k);
      }
      ZeroSpectrum(t, n, CurrentSignal(samples, a), f);
      ZeroSpectrum(t, n, CurrentRhsSignal(samples, a), f);
    }
  }

  lemma SameBlocks(t: Trig, s: int, n: nat, nodes: nat, V: Vector, W: Vector, V': Vector)
    requires n > 0 && BlocksTransformed(t, s, n, nodes, V, V') && forall i :: 0 <= i < nodes * n ==> V(i) == W(i)
    ensures BlocksTransformed(t, s, n, nodes, W, V')
  {
    hide At, Dft, Div;
    forall r, f | 0 <= r < nodes && 0 <= f < n ensures V'(At(n, r, f)) == Spectrum(t, s, n, NodeBlock(n, W, r), f) {
      forall k | 0 <= k < n ensures V(At(n, r, k)) == W(At(n, r, k)) { AtBounds(n, r, k, nodes); }
      DftExt(t, s, n, NodeBlock(n, V, r), NodeBlock(n, W, r), f);
    }
  }

  // ----- the equation and its Jacobian -----

  /** F(V) = IC + [YV] VS + j[O] FQ + IG at entry r of frequency index f. */
  function ErrorTerm(size: nat, IC: Vector, YV: Matrix, VS: Vector, omega: Complex, FQ: Vector, IG: Vector,
                     r: int): Complex {
    Add(Add(IC(r), Apply(size, YV, VS, r)), Add(Mul(omega, FQ(r)), IG(r)))
  }

  /** The assembled right hand side, without any product with a Jacobian. */
  function RightHandSide(IC: Vector, omega: Complex, IR: Vector, QR: Vector, r: int): Complex {
    Add(Add(Neg(IC(r)), IR(r)), Mul(omega, QR(r)))
  }

  method CopyVector(to: array<Complex>, from: array<Complex>)
    requires to != from && to.Length == from.Length
    modifies to
    ensures Elements(to) == Elements(from)
  {
    forall i | 0 <= i < to.Length { to[i] := from[i]; }
    assert to[..] == from[..];
  }

  method NewVoltages(size: nat) returns (a: array<Complex>, b: array<Complex>)
    ensures fresh(a) && fresh(b) && a != b && a.Length == b.Length == size
    ensures forall i :: 0 <= i < size ==> a[i] == Zero == b[i]
  {
    a := new Complex[size](i => Zero);
    b := new Complex[size](i => Zero);
  }

  method NewVectors(size: nat) returns (a: array<Complex>, b: array<Complex>, c: array<Complex>, d: array<Complex>)
    ensures fresh(a) && fresh(b) && fresh(c) && fresh(d) && a.Length == b.Length == c.Length == d.Length == size
    ensures a != b && a != c && a != d && b != c && b != d && c != d
  {
    a, b := NewVoltages(size);
    c, d := NewVoltages(size);
  }

  /** Voltages, device terms and terms of the equation, apart from the given vectors. */
  method NewState(size: nat, IC: array<Complex>, OM: array<Complex>)
    returns (VS: array<Complex>, vs: array<Complex>,
             IG: array<Complex>, FQ: array<Complex>, IR: array<Complex>, QR: array<Complex>,
             RH: array<Complex>, FV: array<Complex>, IL: array<Complex>, IN: array<Complex>)
    ensures fresh(VS) && fresh(vs) && VS != vs && VS.Length == vs.Length == size && {VS, vs} !! {IC, OM}
    ensures forall i :: 0 <= i < size ==> VS[i] == Zero == vs[i]
    ensures fresh(IG) && fresh(FQ) && fresh(IR) && fresh(QR) && {IG, FQ, IR, QR} !! {IC, OM, VS, vs}
    ensures IG.Length == FQ.Length == IR.Length == QR.Length == size
    ensures IG != FQ && IG != IR && IG != QR && FQ != IR && FQ != QR && IR != QR
    ensures fresh(RH) && fresh(FV) && fresh(IL) && fresh(IN) && {RH, FV, IL, IN} !! {IC, OM, VS, vs, IG, FQ, IR, QR}
    ensures RH.Length == FV.Length == IL.Length == IN.Length == size
    ensures RH != FV && RH != IL && RH != IN && FV != IL && FV != IN && IL != IN
  {
    VS, vs := NewVoltages(size);
    IG, FQ, IR, QR := NewVectors(size);
    RH, FV, IL, IN := NewVectors(size);
  }

  method NewMatrices(size: nat) returns (a: array2<Complex>, b: array2<Complex>, c: array2<Complex>)
    ensures fresh(a) && fresh(b) && fresh(c) && a != b && a != c && b != c
    ensures a.Length0 == a.Length1 == b.Length0 == b.Length1 == c.Length0 == c.Length1 == size
  {
    a := new Complex[size, size]((i, j) => Zero);
    b := new Complex[size, size]((i, j) => Zero);
    c := new Complex[size, size]((i, j) => Zero);
  }

  /** The matrices and vectors of the solver, for n frequencies at `nodes` balanced nodes. */
  class HbSolver {
    const t: Trig
    const abs: Complex -> real
    const n: nat
    const nodes: nat
    var YV: array2<Complex>
    var JG: array2<Complex>
    var JQ: array2<Complex>
    var JF: array2<Complex>
    var IC: array<Complex>
    var OM: array<Complex>
    var VS: array<Complex>
    var vs: array<Complex>
    var VP: array<Complex>
    var IG: array<Complex>
    var FQ: array<Complex>
    var IR: array<Complex>
    var QR: array<Complex>
    var RH: array<Complex>
    var FV: array<Complex>
    var IL: array<Complex>
    var IN: array<Complex>

    /** Sizes and distinctness of what loading fills. */
    ghost predicate LoadShapes()
      reads this
    {
      && n > 0
      && JG.Length0 == JG.Length1 == JQ.Length0 == JQ.Length1 == nodes * n && JG != JQ
      && IG.Length == FQ.Length == IR.Length == QR.Length == nodes * n
      && IG != FQ && IG != IR && IG != QR && FQ != IR && FQ != QR && IR != QR
    }

    /** Sizes and distinctness of what the HB equation reads and writes. */
    ghost predicate SolveShapes()
      reads this
    {
      && n > 0 && OM.Length == n && YV.Length0 == YV.Length1 == nodes * n
      && IC.Length == VS.Length == IG.Length == FQ.Length == IR.Length == QR.Length == nodes * n
      && RH.Length == FV.Length == IL.Length == IN.Length == nodes * n
      && {RH, FV, IL, IN} !! {IC, OM, VS, vs, IG, FQ, IR, QR}
      && RH != FV && RH != IL && RH != IN && FV != IL && FV != IN && IL != IN
    }

    /** Sizes and distinctness of the parts of the Jacobian. */
    ghost predicate JacobianShapes()
      reads this
    {
      && n > 0 && OM.Length == n && JF.Length0 == JF.Length1 == nodes * n && JF != YV && JF != JG && JF != JQ
      && YV.Length0 == YV.Length1 == JG.Length0 == JG.Length1 == JQ.Length0 == JQ.Length1 == nodes * n
    }

    /** Sizes and distinctness of what the Newton update touches. */
    ghost predicate VoltageShapes()
      reads this
    {
      && VS.Length == vs.Length == VP.Length == RH.Length == nodes * n
      && VS != vs && RH != VS && RH != vs && VP != VS && VP != vs && VP != RH
    }

    ghost predicate Valid()
      reads this
    {
      && IsPow2(n) && t.Valid() && IsModulus(abs)
      && LoadShapes() && SolveShapes()
      && JacobianShapes() && YV != JG && YV != JQ
      && VoltageShapes()
      && {IG, FQ, IR, QR} !! {IC, OM, VS, vs} && {VS, vs} !! {IC, OM}
      && VP !in {IC, OM, IG, FQ, IR, QR, FV, IL, IN}
    }

    /** vs are the voltages VS in the time domain, and real. */
    ghost predicate IsRealSpectrum()
      requires Valid()
      reads this, VS, vs
    {
      BlocksTransformed(t, -1, n, nodes, Elements(VS), Elements(vs)) && IsReal(nodes * n, Elements(vs))
    }

    /** A solver for the given linear part, with all voltages zero. */
    constructor (t: Trig, abs: Complex -> real, n: nat, nodes: nat, YV: array2<Complex>, IC: array<Complex>,
                 OM: array<Complex>)
      requires IsPow2(n) && n > 0 && t.Valid() && IsModulus(abs)
      requires YV.Length0 == YV.Length1 == IC.Length == nodes * n && OM.Length == n
      ensures Valid() && IsRealSpectrum() && forall i :: 0 <= i < VS.Length ==> VS[i] == Zero
      ensures this.t == t && this.abs == abs && this.n == n && this.nodes == nodes
      ensures this.YV == YV && this.IC == IC && this.OM == OM
      ensures fresh(JG) && fresh(JQ) && fresh(JF) && fresh(VS) && fresh(vs) && fresh(VP) && fresh(IG) && fresh(FQ)
      ensures fresh(IR) && fresh(QR) && fresh(RH) && fresh(FV) && fresh(IL) && fresh(IN)
    {
      hide IsModulus, Trig.Valid, IsPow2, BlocksTransformed, IsReal;
      var size := nodes * n;
      this.t, this.abs, this.n, this.nodes := t, abs, n, nodes;
      this.YV, this.IC, this.OM := YV, IC, OM;
      var g, q, f := NewMatrices(size);
      var V, v, v0, v1, v2, v3, w0, w1, w2, w3 := NewState(size, IC, OM);
      VP := new Complex[size](i => Zero);
      JG, JQ, JF, VS, vs := g, q, f, V, v;
      IG, FQ, IR, QR := v0, v1, v2, v3;
      RH, FV, IL, IN := w0, w1, w2, w3;
      new;
      ZeroSignals(t, n, nodes, Elements(VS), Elements(vs));
    }

    // ----- loading -----

    lemma PinInRange(dev: Device, k: int, f: nat)
      requires LoadShapes() && dev.Valid(nodes) && f < n
      ensures -1 <= dev.Pin(n, k, f) < nodes * n
      ensures dev.Pin(n, k, f) >= 0 <==> 0 <= k < |dev.nodes| && dev.nodes[k] > 0
    {
      if 0 <= k < |dev.nodes| && dev.nodes[k] > 0 {
        AtBounds(n, dev.nodes[k] - 1, f, nodes);
      }
    }

    /** Applies the conductances and capacitances of row r. */
    method StampRowMatrices(dev: Device, r: nat, f: nat)
      requires LoadShapes() && dev.Valid(nodes) && r < |dev.nodes| && dev.nodes[r] > 0 && f < n
      modifies JG, JQ
      ensures forall i, j :: 0 <= i < nodes * n && 0 <= j < nodes * n ==>
        && JG[i, j] == Add(old(JG[i, j]), RowShare(n, dev, dev.Y, r, f, i, j, |dev.nodes|))
        && JQ[i, j] == Add(old(JQ[i, j]), RowShare(n, dev, dev.QV, r, f, i, j, |dev.nodes|))
    {
      hide At, Device.Pin;
      PinInRange(dev, r, f);
      var nr := dev.Pin(n, r, f);
      for c := 0 to |dev.nodes|
        invariant forall i, j :: 0 <= i < nodes * n && 0 <= j < nodes * n ==>
          && JG[i, j] == Add(old(JG[i, j]), RowShare(n, dev, dev.Y, r, f, i, j, c))
          && JQ[i, j] == Add(old(JQ[i, j]), RowShare(n, dev, dev.QV, r, f, i, j, c))
      {
        PinInRange(dev, c, f);
        if dev.nodes[c] > 0 {
          var nc := dev.Pin(n, c, f);
          JG[nr, nc] := Add(JG[nr, nc], dev.Y(r, c));
          JQ[nr, nc] := Add(JQ[nr, nc], dev.QV(r, c));
        }
      }
    }

    /** Applies the vector entries of row r. */
    method StampRowVectors(dev: Device, r: nat, f: nat)
      requires LoadShapes() && dev.Valid(nodes) && r < |dev.nodes| && dev.nodes[r] > 0 && f < n
      modifies IG, FQ, IR, QR
      ensures forall i :: 0 <= i < nodes * n ==>
        var hit := i == dev.Pin(n, r, f);
        && IG[i] == (if hit then Sub(old(IG[i]), Terminals(dev, Current)(r)) else old(IG[i]))
        && FQ[i] == (if hit then Sub(old(FQ[i]), Terminals(dev, Charge)(r)) else old(FQ[i]))
        && IR[i] == (if hit then Add(old(IR[i]), Terminals(dev, CurrentRhs)(r)) else old(IR[i]))
        && QR[i] == (if hit then Add(old(QR[i]), Terminals(dev, ChargeRhs)(r)) else old(QR[i]))
    {
      hide At, Device.Pin;
      PinInRange(dev, r, f);
      var nr := dev.Pin(n, r, f);
      IG[nr] := Sub(IG[nr], dev.I(r));
      FQ[nr] := Sub(FQ[nr], dev.Q(r));
      IR[nr] := Add(IR[nr], Add(dev.GV(r), dev.I(r)));
      QR[nr] := Add(QR[nr], Add(dev.CV(r), dev.Q(r)));
    }

    /** Applies all entries of row r, unless it is at ground. */
    method StampRow(dev: Device, r: nat, f: nat)
      requires LoadShapes() && dev.Valid(nodes) && r < |dev.nodes| && f < n
      modifies JG, JQ, IG, FQ, IR, QR
      ensures forall i, j :: 0 <= i < nodes * n && 0 <= j < nodes * n ==>
        && JG[i, j] == Add(old(JG[i, j]), RowShare(n, dev, dev.Y, r, f, i, j, |dev.nodes|))
        && JQ[i, j] == Add(old(JQ[i, j]), RowShare(n, dev, dev.QV, r, f, i, j, |dev.nodes|))
      ensures forall i :: 0 <= i < nodes * n ==>
        var hit := i == dev.Pin(n, r, f);
        && IG[i] == (if hit then Sub(old(IG[i]), Terminals(dev, Current)(r)) else old(IG[i]))
        && FQ[i] == (if hit then Sub(old(FQ[i]), Terminals(dev, Charge)(r)) else old(FQ[i]))
        && IR[i] == (if hit then Add(old(IR[i]), Terminals(dev, CurrentRhs)(r)) else old(IR[i]))
        && QR[i] == (if hit then Add(old(QR[i]), Terminals(dev, ChargeRhs)(r)) else old(QR[i]))
    {
      hide At, Device.Pin, RowShare, Terminals;
      PinInRange(dev, r, f);
      if dev.nodes[r] > 0 {
        StampRowMatrices(dev, r, f);
        StampRowVectors(dev, r, f);
      } else {
        forall i, j | 0 <= i && 0 <= j ensures RowShare(n, dev, dev.Y, r, f, i, j, |dev.nodes|) == Zero {
          GroundRow(n, dev, dev.Y, r, f, i, j);
        }
        forall i, j | 0 <= i && 0 <= j ensures RowShare(n, dev, dev.QV, r, f, i, j, |dev.nodes|) == Zero {
          GroundRow(n, dev, dev.QV, r, f, i, j);
        }
      }
    }

    /** Applies all entries of a device for time sample f. */
    method StampDevice(dev: Device, f: nat)
      requires LoadShapes() && dev.Valid(nodes) && f < n
      modifies JG, JQ, IG, FQ, IR, QR
      ensures forall i, j :: 0 <= i < nodes * n && 0 <= j < nodes * n ==>
        && JG[i, j] == Add(old(JG[i, j]), DeviceMatrix(n, dev, DeviceJacobian(dev, false), f, i, j, |dev.nodes|))
        && JQ[i, j] == Add(old(JQ[i, j]), DeviceMatrix(n, dev, DeviceJacobian(dev, true), f, i, j, |dev.nodes|))
      ensures forall i :: 0 <= i < nodes * n ==>
        && IG[i] == Sub(old(IG[i]), DeviceVector(n, dev, Terminals(dev, Current), f, i, |dev.nodes|))
        && FQ[i] == Sub(old(FQ[i]), DeviceVector(n, dev, Terminals(dev, Charge), f, i, |dev.nodes|))
        && IR[i] == Add(old(IR[i]), DeviceVector(n, dev, Terminals(dev, CurrentRhs), f, i, |dev.nodes|))
        && QR[i] == Add(old(QR[i]), DeviceVector(n, dev, Terminals(dev, ChargeRhs), f, i, |dev.nodes|))
    {
      hide At, Device.Pin, RowShare, Terminals;
      for r := 0 to |dev.nodes|
        invariant forall i, j :: 0 <= i < nodes * n && 0 <= j < nodes * n ==>
          && JG[i, j] == Add(old(JG[i, j]), DeviceMatrix(n, dev, DeviceJacobian(dev, false), f, i, j, r))
          && JQ[i, j] == Add(old(JQ[i, j]), DeviceMatrix(n, dev, DeviceJacobian(dev, true), f, i, j, r))
        invariant forall i :: 0 <= i < nodes * n ==>
          && IG[i] == Sub(old(IG[i]), DeviceVector(n, dev, Terminals(dev, Current), f, i, r))
          && FQ[i] == Sub(old(FQ[i]), DeviceVector(n, dev, Terminals(dev, Charge), f, i, r))
          && IR[i] == Add(old(IR[i]), DeviceVector(n, dev, Terminals(dev, CurrentRhs), f, i, r))
          && QR[i] == Add(old(QR[i]), DeviceVector(n, dev, Terminals(dev, ChargeRhs), f, i, r))
      {
        StampRow(dev, r, f);
      }
    }

    method FillSample(devs: seq<Device>, f: nat)
      requires LoadShapes() && f < n && forall d :: 0 <= d < |devs| ==> devs[d].Valid(nodes)
      modifies JG, JQ, IG, FQ, IR, QR
      ensures forall i, j :: 0 <= i < nodes * n && 0 <= j < nodes * n ==>
        && JG[i, j] == Add(old(JG[i, j]), SampleMatrix(n, devs, false, f, i, j, |devs|))
        && JQ[i, j] == Add(old(JQ[i, j]), SampleMatrix(n, devs, true, f, i, j, |devs|))
      ensures forall i :: 0 <= i < nodes * n ==>
        && IG[i] == Sub(old(IG[i]), SampleVector(n, devs, Current, f, i, |devs|))
        && FQ[i] == Sub(old(FQ[i]), SampleVector(n, devs, Charge, f, i, |devs|))
        && IR[i] == Add(old(IR[i]), SampleVector(n, devs, CurrentRhs, f, i, |devs|))
        && QR[i] == Add(old(QR[i]), SampleVector(n, devs, ChargeRhs, f, i, |devs|))
    {
      hide DeviceMatrix, DeviceVector, Terminals, DeviceJacobian;
      for d := 0 to |devs|
        invariant forall i, j :: 0 <= i < nodes * n && 0 <= j < nodes * n ==>
          && JG[i, j] == Add(old(JG[i, j]), SampleMatrix(n, devs, false, f, i, j, d))
          && JQ[i, j] == Add(old(JQ[i, j]), SampleMatrix(n, devs, true, f, i, j, d))
        invariant forall i :: 0 <= i < nodes * n ==>
          && IG[i] == Sub(old(IG[i]), SampleVector(n, devs, Current, f, i, d))
          && FQ[i] == Sub(old(FQ[i]), SampleVector(n, devs, Charge, f, i, d))
          && IR[i] == Add(old(IR[i]), SampleVector(n, devs, CurrentRhs, f, i, d))
          && QR[i] == Add(old(QR[i]), SampleVector(n, devs, ChargeRhs, f, i, d))
      {
        StampDevice(devs[d], f);
      }
    }

    /** Fills in the entries of all non-linear circuits for time sample f. */
    method FillMatrixNonLinear(devs: seq<Device>, f: nat)
      requires LoadShapes() && f < n && forall d :: 0 <= d < |devs| ==> devs[d].Valid(nodes)
      modifies JG, JQ, IG, FQ, IR, QR
      ensures forall i, j :: 0 <= i < nodes * n && 0 <= j < nodes * n ==>
        && JG[i, j] == Add(old(JG[i, j]), SampleMatrix(n, devs, false, f, i, j, |devs|))
        && JQ[i, j] == Add(old(JQ[i, j]), SampleMatrix(n, devs, true, f, i, j, |devs|))
      ensures forall i :: 0 <= i < nodes * n ==>
        && IG[i] == Sub(old(IG[i]), SampleVector(n, devs, Current, f, i, |devs|))
        && FQ[i] == Sub(old(FQ[i]), SampleVector(n, devs, Charge, f, i, |devs|))
        && IR[i] == Add(old(IR[i]), SampleVector(n, devs, CurrentRhs, f, i, |devs|))
        && QR[i] == Add(old(QR[i]), SampleVector(n, devs, ChargeRhs, f, i, |devs|))
      ensures IsSampleLoad(n, nodes, devs, f, old(Entries(JG)), old(Entries(JQ)), old(Elements(IG)), old(Elements(FQ)),
                           old(Elements(IR)), old(Elements(QR)),
                           Entries(JG), Entries(JQ), Elements(IG), Elements(FQ), Elements(IR), Elements(QR))
    {
      hide SampleMatrix, SampleVector, AddedVector, AddedMatrix, CurrentsAt, ChargesAt, ConductedAt, StoredAt,
        ConductanceBetween, CapacitanceBetween, At;
      ghost var g, q := Entries(JG), Entries(JQ);
      ghost var v0, v1, v2, v3 := Elements(IG), Elements(FQ), Elements(IR), Elements(QR);
      FillSample(devs, f);
      SampleLoad(n, nodes, devs, f, g, q, v0, v1, v2, v3,
                 Entries(JG), Entries(JQ), Elements(IG), Elements(FQ), Elements(IR), Elements(QR));
    }

    method Clear()
      requires LoadShapes()
      modifies JG, JQ, IG, FQ, IR, QR
      ensures forall i, j :: 0 <= i < nodes * n && 0 <= j < nodes * n ==> JG[i, j] == Zero == JQ[i, j]
      ensures forall i :: 0 <= i < nodes * n ==> IG[i] == FQ[i] == IR[i] == QR[i] == Zero
    {
      forall i, j | 0 <= i < JG.Length0 && 0 <= j < JG.Length1 { JG[i, j] := Zero; }
      forall i, j | 0 <= i < JQ.Length0 && 0 <= j < JQ.Length1 { JQ[i, j] := Zero; }
      forall i | 0 <= i < IG.Length { IG[i] := Zero; }
      forall i | 0 <= i < FQ.Length { FQ[i] := Zero; }
      forall i | 0 <= i < IR.Length { IR[i] := Zero; }
      forall i | 0 <= i < QR.Length { QR[i] := Zero; }
    }

    /** Clears the matrices and vectors and fills in every time sample. */
    method LoadMatrices(samples: seq<seq<Device>>)
      requires LoadShapes() && |samples| == n && ValidSamples(samples, nodes)
      modifies JG, JQ, IG, FQ, IR, QR
      ensures forall i, j :: 0 <= i < nodes * n && 0 <= j < nodes * n ==>
        && JG[i, j] == TotalMatrix(n, samples, false, i, j, n)
        && JQ[i, j] == TotalMatrix(n, samples, true, i, j, n)
      ensures forall i :: 0 <= i < nodes * n ==>
        && IG[i] == Neg(TotalVector(n, samples, Current, i, n))
        && FQ[i] == Neg(TotalVector(n, samples, Charge, i, n))
        && IR[i] == TotalVector(n, samples, CurrentRhs, i, n)
        && QR[i] == TotalVector(n, samples, ChargeRhs, i, n)
      ensures IsLoad(n, nodes, samples, Entries(JG), Entries(JQ), Elements(IG), Elements(FQ), Elements(IR),
                     Elements(QR))
    {
      hide TotalMatrix, TotalVector, IsLoad;
      LoadSamples(samples);
      LoadByNode(n, nodes, samples, Entries(JG), Entries(JQ), Elements(IG), Elements(FQ), Elements(IR), Elements(QR));
    }

    method LoadSamples(samples: seq<seq<Device>>)
      requires LoadShapes() && |samples| == n && ValidSamples(samples, nodes)
      modifies JG, JQ, IG, FQ, IR, QR
      ensures forall i, j :: 0 <= i < nodes * n && 0 <= j < nodes * n ==>
        && JG[i, j] == TotalMatrix(n, samples, false, i, j, n)
        && JQ[i, j] == TotalMatrix(n, samples, true, i, j, n)
      ensures forall i :: 0 <= i < nodes * n ==>
        && IG[i] == Neg(TotalVector(n, samples, Current, i, n))
        && FQ[i] == Neg(TotalVector(n, samples, Charge, i, n))
        && IR[i] == TotalVector(n, samples, CurrentRhs, i, n)
        && QR[i] == TotalVector(n, samples, ChargeRhs, i, n)
    {
      hide SampleMatrix, SampleVector, TotalMatrix, TotalVector, IsSampleLoad;
      Clear();
      NoSamples(n, samples);
      for f := 0 to n
        invariant forall i, j :: 0 <= i < nodes * n && 0 <= j < nodes * n ==>
          && JG[i, j] == TotalMatrix(n, samples, false, i, j, f)
          && JQ[i, j] == TotalMatrix(n, samples, true, i, j, f)
        invariant forall i :: 0 <= i < nodes * n ==>
          && IG[i] == Neg(TotalVector(n, samples, Current, i, f))
          && FQ[i] == Neg(TotalVector(n, samples, Charge, i, f))
        invariant forall i :: 0 <= i < nodes * n ==>
          && IR[i] == TotalVector(n, samples, CurrentRhs, i, f)
          && QR[i] == TotalVector(n, samples, ChargeRhs, i, f)
      {
        FillMatrixNonLinear(samples[f], f);
        NextSample(n, samples, f, f + 1);
        NegSums();
      }
    }

    // ----- the HB equation -----

    /** Entry r, at frequency index f, holds the terms of the HB equation. */
    ghost predicate SolvedRow(r: int, f: int)
      requires SolveShapes() && 0 <= f < n
      reads this, IC, YV, VS, OM, FQ, IG, IR, QR, RH, FV, IL, IN
    {
      && Elements(RH)(r) == RightHandSide(Elements(IC), OM[f], Elements(IR), Elements(QR), r)
      && Elements(FV)(r)
         == ErrorTerm(nodes * n, Elements(IC), Entries(YV), Elements(VS), OM[f], Elements(FQ), Elements(IG), r)
      && Elements(IL)(r) == Add(Elements(IC)(r), Apply(nodes * n, Entries(YV), Elements(VS), r))
      && Elements(IN)(r) == Add(Mul(OM[f], Elements(FQ)(r)), Elements(IG)(r))
    }

    /** The linear, non-linear and right hand side terms of one entry. */
    method RowTerms(r: nat, f: nat) returns (il: Complex, iN: Complex, ir: Complex)
      requires SolveShapes() && r < nodes * n && f < n
      ensures il == Add(Elements(IC)(r), Apply(nodes * n, Entries(YV), Elements(VS), r))
      ensures iN == Add(Mul(OM[f], Elements(FQ)(r)), Elements(IG)(r))
      ensures ir == RightHandSide(Elements(IC), OM[f], Elements(IR), Elements(QR), r)
    {
      hide Mul;
      il, iN, ir := Zero, Zero, Zero;
      il := Add(il, IC[r]);
      ir := Sub(ir, il);
      ghost var ic := il;
      for c := 0 to nodes * n
        invariant il == Add(ic, Apply(c, Entries(YV), Elements(VS), r))
      {
        il := Add(il, Mul(YV[r, c], VS[c]));
      }
      hide Apply;
      iN := Add(iN, Mul(OM[f], FQ[r]));
      iN := Add(iN, IG[r]);
      ir := Add(ir, IR[r]);
      ir := Add(ir, Mul(OM[f], QR[r]));
    }

    /** Puts the terms of one entry into the result vectors. */
    method SolveRow(r: nat, f: nat)
      requires SolveShapes() && r < nodes * n && f < n
      modifies RH, FV, IL, IN
      ensures SolvedRow(r, f)
      ensures forall k, g :: 0 <= k < nodes * n && k != r && 0 <= g < n && old(SolvedRow(k, g)) ==> SolvedRow(k, g)
    {
      hide Mul, Apply;
      var il, iN, ir := RowTerms(r, f);
      RH[r] := ir;
      FV[r] := Add(il, iN);
      IL[r] := il;
      IN[r] := iN;
    }

    /** Solves the actual HB equation in the frequency domain. */
    method SolveHB()
      requires SolveShapes()
      modifies RH, FV, IL, IN
      ensures forall a, f :: 0 <= a < nodes && 0 <= f < n ==> SolvedRow(At(n, a, f), f)
    {
      hide At, SolvedRow;
      var r := 0;
      AtValue(n, 0, 0);
      for a := 0 to nodes
        invariant r == At(n, a, 0)
        invariant forall b, f :: 0 <= b < a && 0 <= f < n ==> SolvedRow(At(n, b, f), f)
      {
        for f := 0 to n
          invariant r == At(n, a, 0) + f
          invariant forall b, g :: 0 <= b <= a && 0 <= g < n && (b < a || g < f) ==> SolvedRow(At(n, b, g), g)
        {
          AtBounds(n, a, f, nodes);
          forall b, g | 0 <= b <= a && 0 <= g < n && (b < a || g < f)
            ensures At(n, b, g) != r && 0 <= At(n, b, g) < nodes * n
          {
            AtInjective(n, b, g, a, f);
            AtBounds(n, b, g, nodes);
          }
          SolveRow(r, f);
          r := r + 1;
        }
        AtBounds(n, a, 0, nodes);
      }
    }

    ghost predicate JacobianItem(g: Matrix, q: Matrix, r: int, f: int, ct: int)
      requires JacobianShapes() && 0 <= f < n
      reads this, OM, JF
    {
      0 <= r < nodes * n && 0 <= ct < nodes * n && JF[r, ct] == NonLinearEntry(g, q, OM[f], r, ct)
    }

    method SetJacobianItem(rt: nat, fr: nat, ct: nat)
      requires JacobianShapes() && rt < nodes * n && fr < n && ct < nodes * n
      modifies JF
      ensures JacobianItem(Entries(JG), Entries(JQ), rt, fr, ct)
      ensures forall g, q, r, f, j :: 0 <= f < n && (r != rt || j != ct) && old(JacobianItem(g, q, r, f, j)) ==>
        JacobianItem(g, q, r, f, j)
    {
      hide Mul;
      JF[rt, ct] := Add(JG[rt, ct], Mul(JQ[rt, ct], OM[fr]));
    }

    /** Column ct of JG + j[O] JQ. */
    method JacobianColumn(ct: nat)
      requires JacobianShapes() && ct < nodes * n
      modifies JF
      ensures forall a, f :: 0 <= a < nodes && 0 <= f < n ==> JacobianItem(Entries(JG), Entries(JQ), At(n, a, f), f, ct)
      ensures forall g, q, r, f, j :: 0 <= f < n && j != ct && old(JacobianItem(g, q, r, f, j)) ==>
        JacobianItem(g, q, r, f, j)
    {
      hide At, JacobianItem;
      ghost var g, q := Entries(JG), Entries(JQ);
      AtValue(n, 0, 0);
      var rt := 0;
      for r := 0 to nodes
        invariant rt == At(n, r, 0)
        invariant forall a, f :: 0 <= a < r && 0 <= f < n ==> JacobianItem(g, q, At(n, a, f), f, ct)
        invariant forall g, q, r, f, j :: 0 <= f < n && j != ct && old(JacobianItem(g, q, r, f, j)) ==>
          JacobianItem(g, q, r, f, j)
      {
        for fr := 0 to n
          invariant rt == At(n, r, 0) + fr
          invariant forall a, f :: 0 <= a <= r && 0 <= f < n && (a < r || f < fr) ==>
            JacobianItem(g, q, At(n, a, f), f, ct)
          invariant forall g, q, r, f, j :: 0 <= f < n && j != ct && old(JacobianItem(g, q, r, f, j)) ==>
            JacobianItem(g, q, r, f, j)
        {
          AtBounds(n, r, fr, nodes);
          forall a, f | 0 <= a <= r && 0 <= f < n && (a < r || f < fr) ensures At(n, a, f) != rt {
            AtInjective(n, a, f, r, fr);
          }
          SetJacobianItem(rt, fr, ct);
          rt := rt + 1;
        }
        AtBounds(n, r, 0, nodes);
      }
    }

    /** JF = [YV] + j[O] JQ + JG. */
    method CalcJacobian()
      requires JacobianShapes()
      modifies JF
      ensures IsJacobian(n, nodes, Entries(YV), Entries(JG), Entries(JQ), OM[..], Entries(JF))
    {
      hide Mul, At;
      ghost var g, q := Entries(JG), Entries(JQ);
      AtValue(n, 0, 0);
      var ct := 0;
      for c := 0 to nodes
        invariant ct == At(n, c, 0)
        invariant forall a, f, j :: 0 <= a < nodes && 0 <= f < n && 0 <= j < ct ==>
          JacobianItem(g, q, At(n, a, f), f, j)
      {
        for fc := 0 to n
          invariant ct == At(n, c, 0) + fc
          invariant forall a, f, j :: 0 <= a < nodes && 0 <= f < n && 0 <= j < ct ==>
            JacobianItem(g, q, At(n, a, f), f, j)
        {
          hide JacobianItem;
          AtBounds(n, c, fc, nodes);
          JacobianColumn(ct);
          ct := ct + 1;
        }
        AtBounds(n, c, 0, nodes);
      }
      AtValue(n, nodes, 0);
      ghost var w := Entries(JF);
      forall a, f, j | 0 <= a < nodes && 0 <= f < n && 0 <= j < nodes * n
        ensures 0 <= At(n, a, f) < nodes * n && w(At(n, a, f), j) == NonLinearEntry(g, q, OM[f], At(n, a, f), j)
      {
        assert JacobianItem(g, q, At(n, a, f), f, j);
      }
      AddLinear();
    }

    /** JF += YV. */
    method AddLinear()
      requires JacobianShapes()
      modifies JF
      ensures forall i, j :: 0 <= i < nodes * n && 0 <= j < nodes * n ==> JF[i, j] == Add(old(JF[i, j]), YV[i, j])
    {
      hide Add;
      forall i, j | 0 <= i < JF.Length0 && 0 <= j < JF.Length1 { JF[i, j] := Add(JF[i, j], YV[i, j]); }
    }

    // ----- one iteration -----

    /** Transforms a vector that agrees with the time domain signals W. */
    method TransformTerm(V: array<Complex>, ghost W: Vector)
      requires Valid() && V.Length == nodes * n && forall i :: 0 <= i < nodes * n ==> V[i] == W(i)
      modifies V
      ensures BlocksTransformed(t, 1, n, nodes, W, Elements(V))
    {
      hide IsModulus, Trig.Valid, IsPow2, BlocksTransformed;
      ghost var v := Elements(V);
      VectorFFT(t, V, n, 1, nodes);
      SameBlocks(t, 1, n, nodes, v, W, Elements(V));
    }

    /** Currents, charges and their right hand sides into the frequency domain. */
    method TransformTerms(ghost samples: seq<seq<Device>>)
      requires Valid()
      requires forall i :: 0 <= i < nodes * n ==>
        && IG[i] == Neg(TotalVector(n, samples, Current, i, n))
        && FQ[i] == Neg(TotalVector(n, samples, Charge, i, n))
        && IR[i] == TotalVector(n, samples, CurrentRhs, i, n)
        && QR[i] == TotalVector(n, samples, ChargeRhs, i, n)
      modifies IG, FQ, IR, QR
      ensures TermSpectra(t, n, nodes, samples, false, Elements(IG), Elements(IR))
      ensures TermSpectra(t, n, nodes, samples, true, Elements(FQ), Elements(QR))
    {
      hide IsModulus, Trig.Valid, IsPow2, TotalVector, BlocksTransformed;
      TransformTerm(IG, TimePlain(n, samples, Current));
      TransformTerm(FQ, TimePlain(n, samples, Charge));
      TransformTerm(IR, TimeRhs(n, samples, CurrentRhs));
      TransformTerm(QR, TimeRhs(n, samples, ChargeRhs));
    }

    /** Evaluates the devices, transforms currents and charges and solves the HB equation. */
    method Assemble(samples: seq<seq<Device>>)
      requires Valid() && |samples| == n && ValidSamples(samples, nodes)
      modifies JG, JQ, IG, FQ, IR, QR, RH, FV, IL, IN
      ensures forall i, j :: 0 <= i < nodes * n && 0 <= j < nodes * n ==>
        && Entries(JG)(i, j) == TotalMatrix(n, samples, false, i, j, n)
        && Entries(JQ)(i, j) == TotalMatrix(n, samples, true, i, j, n)
      ensures TermSpectra(t, n, nodes, samples, false, Elements(IG), Elements(IR))
      ensures TermSpectra(t, n, nodes, samples, true, Elements(FQ), Elements(QR))
      ensures forall a, f :: 0 <= a < nodes && 0 <= f < n ==> SolvedRow(At(n, a, f), f)
    {
      hide IsModulus, Trig.Valid, IsPow2, TotalMatrix, TotalVector, At, TermSpectra, SolvedRow, IsLoad;
      LoadMatrices(samples);
      TransformTerms(samples);
      SolveHB();
    }

    /** Solves the equation system for the next voltages and keeps them for the time domain. */
    method SolveVoltages() returns (singular: set<int>)
      requires IsModulus(abs) && JacobianShapes() && VoltageShapes()
      modifies JF, VS, vs, VP
      ensures singular == {} <==> Nonsingular(nodes * n, old(Entries(JF)))
      ensures singular == {} ==> Solves(nodes * n, old(Entries(JF)), Elements(VS), Elements(RH))
      ensures Elements(vs) == Elements(VS) && Elements(VP) == old(Elements(VS))
    {
      hide IsModulus, Apply, Solves, Nonsingular;
      ghost var J := Entries(JF);
      CopyVector(VP, VS);
      ghost var previous := Elements(VP);
      var eqns := new EqnSys(abs);
      eqns.PassEquationSys(JF, VS, RH);
      assert Elements(eqns.B) == Elements(RH);
      singular := eqns.SolveLuCrout(J);
      CopyVector(vs, VS);
      assert Elements(VP) == previous;
    }

    /** The Jacobians into the frequency domain, and their sum with the linear part. */
    method TransformJacobian(ghost samples: seq<seq<Device>>)
      requires Valid() && |samples| == n
      requires forall i, j :: 0 <= i < nodes * n && 0 <= j < nodes * n ==>
        && Entries(JG)(i, j) == TotalMatrix(n, samples, false, i, j, n)
        && Entries(JQ)(i, j) == TotalMatrix(n, samples, true, i, j, n)
      modifies JG, JQ, JF
      ensures IsLinearization(samples, Entries(JF))
    {
      hide IsModulus, Trig.Valid, IsPow2, TotalMatrix, At, MatrixTransformed, IsJacobian;
      ghost var tg, tq := Entries(JG), Entries(JQ);
      MatrixFFT(t, JG, n, nodes);
      MatrixFFT(t, JQ, n, nodes);
      SameDiagonals(t, n, nodes, tg, TimeMatrix(n, samples, false), Entries(JG));
      SameDiagonals(t, n, nodes, tq, TimeMatrix(n, samples, true), Entries(JQ));
      CalcJacobian();
    }

    /** J is the sum of the linear admittances and the transformed device Jacobians. */
    ghost predicate IsLinearization(samples: seq<seq<Device>>, J: Matrix)
      requires JacobianShapes()
      reads this, YV, JG, JQ, OM
    {
      && MatrixTransformed(t, n, nodes, TimeMatrix(n, samples, false), Entries(JG))
      && MatrixTransformed(t, n, nodes, TimeMatrix(n, samples, true), Entries(JQ))
      && IsJacobian(n, nodes, Entries(YV), Entries(JG), Entries(JQ), OM[..], J)
    }

    /** FV is the error F(V) for the transformed device currents and charges, and the right
        hand side is J W - F(W), where W are the spectra of the saved voltages. */
    ghost predicate IsNewtonSystem(samples: seq<seq<Device>>, J: Matrix, V: Vector, W: Vector)
      requires SolveShapes()
      reads this, OM, IC, YV, IG, FQ, IR, QR, RH, FV
    {
      && TermSpectra(t, n, nodes, samples, false, Elements(IG), Elements(IR))
      && TermSpectra(t, n, nodes, samples, true, Elements(FQ), Elements(QR))
      && forall a, f :: 0 <= a < nodes && 0 <= f < n ==>
           var r := At(n, a, f);
           && Elements(FV)(r)
              == ErrorTerm(nodes * n, Elements(IC), Entries(YV), V, OM[f], Elements(FQ), Elements(IG), r)
           && Elements(RH)(r)
              == Sub(Apply(nodes * n, J, W, r),
                     ErrorTerm(nodes * n, Elements(IC), Entries(YV), W, OM[f], Elements(FQ), Elements(IG), r))
    }

    lemma BalancedSystem(samples: seq<seq<Device>>, W: Vector)
      requires Valid() && |samples| == n && ValidSamples(samples, nodes) && AllReport(n, samples, Elements(vs))
      requires BlocksTransformed(t, -1, n, nodes, W, RealParts(Elements(vs)))
      requires TermSpectra(t, n, nodes, samples, false, Elements(IG), Elements(IR))
      requires TermSpectra(t, n, nodes, samples, true, Elements(FQ), Elements(QR))
      requires IsLinearization(samples, Entries(JF))
      requires forall a, f :: 0 <= a < nodes && 0 <= f < n ==> SolvedRow(At(n, a, f), f)
      ensures IsNewtonSystem(samples, Entries(JF), Elements(VS), W)
    {
      hide IsModulus, Trig.Valid, IsPow2, TotalMatrix, At, TermSpectra, BlocksTransformed, MatrixTransformed, AllReport,
        IsJacobian, Apply, Mul, RealParts;
      ghost var size, J := nodes * n, Entries(JF);
      ghost var om := OM[..];
      forall a, f | 0 <= a < nodes && 0 <= f < n
        ensures var r := At(n, a, f);
          RightHandSide(Elements(IC), OM[f], Elements(IR), Elements(QR), r)
          == Sub(Apply(size, J, W, r),
                 ErrorTerm(size, Elements(IC), Entries(YV), W, OM[f], Elements(FQ), Elements(IG), r))
      {
        hide ErrorTerm, RightHandSide, SolvedRow;
        NewtonBalance(t, n, nodes, size, samples, W, Elements(vs),
                      TimeMatrix(n, samples, false), TimeMatrix(n, samples, true),
                      Entries(JG), Entries(JQ), J, Entries(YV), om,
                      Elements(IC), Elements(IG), Elements(FQ), Elements(IR), Elements(QR), a, f);
      }
      hide ErrorTerm, RightHandSide;
    }

    /** An iteration up to the linear system. */
    method NewtonSystem(samples: seq<seq<Device>>)
      requires Valid() && |samples| == n && ValidSamples(samples, nodes) && AllReport(n, samples, Elements(vs))
      modifies JG, JQ, IG, FQ, IR, QR, RH, FV, IL, IN, JF
      ensures IsLinearization(samples, Entries(JF))
      ensures IsNewtonSystem(samples, Entries(JF), Elements(VS), RealSpectrum(t, n, Elements(vs)))
    {
      hide IsModulus, Trig.Valid, IsPow2, TotalMatrix, At, TermSpectra, BlocksTransformed, AllReport, SolvedRow,
        IsLinearization, IsNewtonSystem, RealParts, RealSpectrum;
      Assemble(samples);
      TransformJacobian(samples);
      RealSpectrumSignal(t, n, nodes, Elements(vs));
      BalancedSystem(samples, RealSpectrum(t, n, Elements(vs)));
    }

    lemma CorrectedVoltages(samples: seq<seq<Device>>, J: Matrix, V: Vector, W: Vector)
      requires Valid() && IsLinearization(samples, J) && IsNewtonSystem(samples, J, V, W)
      requires Solves(nodes * n, J, Elements(VS), Elements(RH))
      ensures CorrectedStep(n, nodes, J, Entries(JG), Entries(JQ), OM[..], V, W, Elements(FV), Elements(VS))
    {
      hide IsModulus, Trig.Valid, IsPow2, At, TermSpectra, MatrixTransformed, ErrorTerm, Apply, Mul, Mismatch, Solves;
      ghost var om, g, q, size, next := OM[..], Entries(JG), Entries(JQ), nodes * n, Elements(VS);
      NextVoltages(n, nodes, size, J, next, Elements(RH));
      forall a, f | 0 <= a < nodes && 0 <= f < n
        ensures var r := At(n, a, f);
          Apply(size, J, next, r)
          == Sub(Sub(Apply(size, J, V, r), Elements(FV)(r)), Mismatch(size, g, q, om[f], V, W, r))
      {
        MovedRow(size, Elements(IC), Entries(YV), g, q, J, V, W, om[f], Elements(IG), Elements(FQ), At(n, a, f));
      }
    }

    /** An iteration up to the new voltages in the frequency domain. */
    method NewtonVoltages(samples: seq<seq<Device>>) returns (singular: set<int>, ghost J: Matrix)
      requires Valid() && |samples| == n && ValidSamples(samples, nodes) && AllReport(n, samples, Elements(vs))
      modifies JG, JQ, IG, FQ, IR, QR, RH, FV, IL, IN, JF, VS, vs, VP
      ensures IsLinearization(samples, J)
      ensures IsNewtonSystem(samples, J, old(Elements(VS)), RealSpectrum(t, n, old(Elements(vs))))
      ensures singular == {} <==> Nonsingular(nodes * n, J)
      ensures singular == {} ==>
        CorrectedStep(n, nodes, J, Entries(JG), Entries(JQ), OM[..], old(Elements(VS)),
                      RealSpectrum(t, n, old(Elements(vs))), Elements(FV), Elements(VS))
      ensures Elements(vs) == Elements(VS) && Elements(VP) == old(Elements(VS))
    {
      hide IsModulus, Trig.Valid, IsPow2, AllReport, RealSpectrum, IsLinearization, IsNewtonSystem, Nonsingular, Solves,
        CorrectedStep;
      ghost var V, v := Elements(VS), Elements(vs);
      ghost var W := RealSpectrum(t, n, v);
      NewtonSystem(samples);
      J := Entries(JF);
      singular := SolveVoltages();
      assert IsNewtonSystem(samples, J, V, W) && IsLinearization(samples, J);
      if singular == {} { CorrectedVoltages(samples, J, V, W); }
    }

    lemma SystemSpectra(samples: seq<seq<Device>>, J: Matrix, V: Vector, W: Vector)
      requires SolveShapes() && |samples| == n && IsNewtonSystem(samples, J, V, W)
      ensures DeviceSpectra(t, n, nodes, samples, Elements(IG), Elements(FQ), Elements(IR), Elements(QR))
    {
      hide TermSpectra, DeviceSpectra, ErrorTerm, Apply, At;
      SpectraByNode(t, n, nodes, samples, Elements(IG), Elements(FQ), Elements(IR), Elements(QR));
    }

    /** One Newton iteration, from the voltage spectra V to the next ones, where W are the
        spectra of the real parts of the voltages in the time domain:
        J V' == J W - F(W) == J V - F(V) - (JG + j[O] JQ)(V - W). */
    method NewtonStep(samples: seq<seq<Device>>) returns (singular: set<int>, ghost J: Matrix)
      requires Valid() && |samples| == n && ValidSamples(samples, nodes) && AllReport(n, samples, Elements(vs))
      modifies JG, JQ, IG, FQ, IR, QR, RH, FV, IL, IN, JF, VS, vs, VP
      ensures IsLinearization(samples, J)
      ensures IsNewtonSystem(samples, J, old(Elements(VS)), RealSpectrum(t, n, old(Elements(vs))))
      ensures singular == {} <==> Nonsingular(nodes * n, J)
      ensures singular == {} ==>
        CorrectedStep(n, nodes, J, Entries(JG), Entries(JQ), OM[..], old(Elements(VS)),
                      RealSpectrum(t, n, old(Elements(vs))), Elements(FV), Elements(VS))
      ensures singular == {} && old(IsRealSpectrum()) ==>
        ExactStep(n, nodes, J, old(Elements(VS)), Elements(FV), Elements(VS))
      ensures BlocksTransformed(t, -1, n, nodes, Elements(VS), Elements(vs)) && Elements(VP) == old(Elements(VS))
      ensures DeviceSpectra(t, n, nodes, samples, Elements(IG), Elements(FQ), Elements(IR), Elements(QR))
    {
      hide IsModulus, Trig.Valid, IsPow2, BlocksTransformed, AllReport, RealSpectrum, IsLinearization, IsNewtonSystem,
        Nonsingular, CorrectedStep, ExactStep, IsReal, DeviceSpectra;
      ghost var V, v := Elements(VS), Elements(vs);
      singular, J := NewtonVoltages(samples);
      SystemSpectra(samples, J, V, RealSpectrum(t, n, v));
      ghost var ig, fq, ir, qr := Elements(IG), Elements(FQ), Elements(IR), Elements(QR);
      ghost var fv, om, g, q, next := Elements(FV), OM[..], Entries(JG), Entries(JQ), Elements(VS);
      VectorFFT(t, vs, n, -1, nodes);
      assert Elements(FV) == fv && Elements(VS) == next && Elements(VP) == V;
      assert OM[..] == om && Entries(JG) == g && Entries(JQ) == q;
      assert Elements(IG) == ig && Elements(FQ) == fq && Elements(IR) == ir && Elements(QR) == qr;
      if singular == {} && old(IsRealSpectrum()) { RealStep(t, n, nodes, J, g, q, om, V, v, fv, next); }
    }
  }

  function NonLinearEntry(JG: Matrix, JQ: Matrix, omega: Complex, i: int, j: int): Complex {
    Add(JG(i, j), Mul(JQ(i, j), omega))
  }

  ghost predicate IsJacobian(n: nat, nodes: nat, YV: Matrix, JG: Matrix, JQ: Matrix, OM: seq<Complex>, JF: Matrix)
    requires |OM| == n
  {
    forall a, f, j :: 0 <= a < nodes && 0 <= f < n && 0 <= j < nodes * n ==>
      JF(At(n, a, f), j) == Add(NonLinearEntry(JG, JQ, OM[f], At(n, a, f), j), YV(At(n, a, f), j))
  }

  /** The Jacobian times the voltages, by its three parts. */
  lemma JacobianApply(size: nat, YV: Matrix, JG: Matrix, JQ: Matrix, JF: Matrix, omega: Complex, x: Vector, i: int)
    requires forall j :: 0 <= j < size ==> JF(i, j) == Add(NonLinearEntry(JG, JQ, omega, i, j), YV(i, j))
    ensures Apply(size, JF, x, i)
         == Add(Add(Apply(size, JG, x, i), Mul(omega, Apply(size, JQ, x, i))), Apply(size, YV, x, i))
  {
    hide Mul;
    var g, q, y := (j: int) => Mul(JG(i, j), x(j)), (j: int) => Mul(JQ(i, j), x(j)), (j: int) => Mul(YV(i, j), x(j));
    var oq := (j: int) => Mul(omega, q(j));
    var gq := (j: int) => Add(g(j), oq(j));
    SumScale(size, omega, q);
    SumAdd(size, g, oq);
    SumAdd(size, gq, y);
    SumExt(size, j => Add(g(j), oq(j)), gq);
    forall j | 0 <= j < size ensures Mul(JF(i, j), x(j)) == Add(gq(j), y(j)) {
      AddMul(Add(JG(i, j), Mul(JQ(i, j), omega)), YV(i, j), x(j));
      AddMul(JG(i, j), Mul(JQ(i, j), omega), x(j));
      MulComm(JQ(i, j), omega);
      MulAssoc(omega, JQ(i, j), x(j));
    }
    SumExt(size, j => Mul(JF(i, j), x(j)), j => Add(gq(j), y(j)));
  }

  /** The assembled right hand side is JF VS - F(V). */
  lemma NewtonRow(size: nat, IC: Vector, YV: Matrix, JG: Matrix, JQ: Matrix, JF: Matrix, VS: Vector, omega: Complex,
                  IG: Vector, FQ: Vector, IR: Vector, QR: Vector, r: int)
    requires forall j :: 0 <= j < size ==> JF(r, j) == Add(NonLinearEntry(JG, JQ, omega, r, j), YV(r, j))
    requires Apply(size, JG, VS, r) == Add(IR(r), IG(r)) && Apply(size, JQ, VS, r) == Add(QR(r), FQ(r))
    ensures RightHandSide(IC, omega, IR, QR, r)
         == Sub(Apply(size, JF, VS, r), ErrorTerm(size, IC, YV, VS, omega, FQ, IG, r))
  {
    hide Mul, Apply;
    JacobianApply(size, YV, JG, JQ, JF, omega, VS, r);
    MulAdd(omega, QR(r), FQ(r));
  }

  /** (JG + j[O] JQ)(V - W) at entry r. */
  function Mismatch(size: nat, JG: Matrix, JQ: Matrix, omega: Complex, V: Vector, W: Vector, r: int): Complex {
    var d: Vector := k => Sub(V(k), W(k));
    Add(Apply(size, JG, d, r), Mul(omega, Apply(size, JQ, d, r)))
  }

  /** From the saved voltages back to the voltages that the error is evaluated for. */
  lemma MovedRow(size: nat, IC: Vector, YV: Matrix, JG: Matrix, JQ: Matrix, JF: Matrix, V: Vector, W: Vector,
                 omega: Complex, IG: Vector, FQ: Vector, r: int)
    requires forall j :: 0 <= j < size ==> JF(r, j) == Add(NonLinearEntry(JG, JQ, omega, r, j), YV(r, j))
    ensures Sub(Apply(size, JF, W, r), ErrorTerm(size, IC, YV, W, omega, FQ, IG, r))
         == Sub(Sub(Apply(size, JF, V, r), ErrorTerm(size, IC, YV, V, omega, FQ, IG, r)),
                Mismatch(size, JG, JQ, omega, V, W, r))
  {
    hide Mul, Apply;
    var d: Vector := k => Sub(V(k), W(k));
    JacobianApply(size, YV, JG, JQ, JF, omega, d, r);
    ApplySub(size, JF, V, W, d, r);
    ApplySub(size, YV, V, W, d, r);
  }

  /** J V' == J V - FV - (JG + j[O] JQ)(V - W). */
  ghost predicate CorrectedStep(n: nat, nodes: nat, J: Matrix, JG: Matrix, JQ: Matrix, OM: seq<Complex>,
                                V: Vector, W: Vector, FV: Vector, V': Vector)
    requires |OM| == n
  {
    forall a, f :: 0 <= a < nodes && 0 <= f < n ==>
      var r := At(n, a, f);
      Apply(nodes * n, J, V', r)
      == Sub(Sub(Apply(nodes * n, J, V, r), FV(r)), Mismatch(nodes * n, JG, JQ, OM[f], V, W, r))
  }

  /** J V' == J V - FV. */
  ghost predicate ExactStep(n: nat, nodes: nat, J: Matrix, V: Vector, FV: Vector, V': Vector) {
    forall a, f :: 0 <= a < nodes && 0 <= f < n ==>
      Apply(nodes * n, J, V', At(n, a, f)) == Sub(Apply(nodes * n, J, V, At(n, a, f)), FV(At(n, a, f)))
  }

  /** The step is exact if and only if (JG + j[O] JQ)(V - W) vanishes. */
  lemma ExactSteps(n: nat, nodes: nat, J: Matrix, JG: Matrix, JQ: Matrix, OM: seq<Complex>,
                   V: Vector, W: Vector, FV: Vector, V': Vector)
    requires |OM| == n && CorrectedStep(n, nodes, J, JG, JQ, OM, V, W, FV, V')
    ensures ExactStep(n, nodes, J, V, FV, V') <==>
      forall a, f :: 0 <= a < nodes && 0 <= f < n ==> Mismatch(nodes * n, JG, JQ, OM[f], V, W, At(n, a, f)) == Zero
  {
    hide At, Apply, Mismatch, Mul;
  }

  /** The step is exact if the voltages are real in the time domain. */
  lemma RealStep(t: Trig, n: nat, nodes: nat, J: Matrix, JG: Matrix, JQ: Matrix, OM: seq<Complex>,
                 V: Vector, v: Vector, FV: Vector, V': Vector)
    requires t.Valid() && Orthogonal(t, n) && n > 0 && |OM| == n
    requires CorrectedStep(n, nodes, J, JG, JQ, OM, V, RealSpectrum(t, n, v), FV, V')
    requires BlocksTransformed(t, -1, n, nodes, V, v) && IsReal(nodes * n, v)
    ensures ExactStep(n, nodes, J, V, FV, V')
  {
    hide Trig.Valid, At, Apply, Mismatch, Mul, CorrectedStep, ExactStep, RealSpectrum, BlocksTransformed, IsReal,
      Orthogonal;
    var W := RealSpectrum(t, n, v);
    forall k | 0 <= k < nodes * n ensures V(k) == W(k) {
      var r, f := Located(n, nodes, k);
      RealSpectrumOfReal(t, n, nodes, V, v, r, f);
    }
    forall a, f | 0 <= a < nodes && 0 <= f < n ensures Mismatch(nodes * n, JG, JQ, OM[f], V, W, At(n, a, f)) == Zero {
      NoMismatch(nodes * n, JG, JQ, OM[f], V, W, At(n, a, f));
    }
    ExactSteps(n, nodes, J, JG, JQ, OM, V, W, FV, V');
  }

  lemma NoMismatch(size: nat, JG: Matrix, JQ: Matrix, omega: Complex, V: Vector, W: Vector, r: int)
    requires forall k :: 0 <= k < size ==> V(k) == W(k)
    ensures Mismatch(size, JG, JQ, omega, V, W, r) == Zero
  {
    hide Mul, Apply;
    var d: Vector := k => Sub(V(k), W(k));
    ZeroApply(size, JG, d, r);
    ZeroApply(size, JQ, d, r);
    MulUnits(omega);
  }

  lemma ZeroApply(size: nat, J: Matrix, d: Vector, r: int)
    requires forall k :: 0 <= k < size ==> d(k) == Zero
    ensures Apply(size, J, d, r) == Zero
  {
    hide Mul;
    var g := (k: int) => Mul(J(r, k), d(k));
    forall k | 0 <= k < size ensures g(k) == Zero { MulUnits(J(r, k)); }
    SumZero(size, g);
  }

  /** The assembled right hand side is JF W - F(W) for the transformed Jacobian, at node a and
      frequency index f, where W are the spectra of the saved voltages. */
  lemma NewtonBalance(t: Trig, n: nat, nodes: nat, size: nat, samples: seq<seq<Device>>, W: Vector, vs: Vector,
                      TG: Matrix, TQ: Matrix, JG: Matrix, JQ: Matrix, JF: Matrix, YV: Matrix, OM: seq<Complex>,
                      IC: Vector, IG: Vector, FQ: Vector, IR: Vector, QR: Vector, a: nat, f: nat)
    requires t.Valid() && n > 0 && size == nodes * n && |samples| == n && ValidSamples(samples, nodes)
    requires a < nodes && f < n && |OM| == n
    requires AllReport(n, samples, vs) && BlocksTransformed(t, -1, n, nodes, W, RealParts(vs))
    requires forall i, j :: 0 <= i < size && 0 <= j < size ==>
      TG(i, j) == TotalMatrix(n, samples, false, i, j, n) && TQ(i, j) == TotalMatrix(n, samples, true, i, j, n)
    requires MatrixTransformed(t, n, nodes, TG, JG) && MatrixTransformed(t, n, nodes, TQ, JQ)
    requires IsJacobian(n, nodes, YV, JG, JQ, OM, JF)
    requires TermSpectra(t, n, nodes, samples, false, IG, IR) && TermSpectra(t, n, nodes, samples, true, FQ, QR)
    ensures RightHandSide(IC, OM[f], IR, QR, At(n, a, f))
         == Sub(Apply(size, JF, W, At(n, a, f)), ErrorTerm(size, IC, YV, W, OM[f], FQ, IG, At(n, a, f)))
  {
    hide Trig.Valid, At, Mul, Apply, TotalMatrix, TotalVector, MatrixTransformed, BlocksTransformed, AllReport,
      ErrorTerm, RightHandSide, RealParts;
    FrequencyBalance(t, n, nodes, size, samples, false, W, vs, TG, JG,
                     TimePlain(n, samples, Current), IG, TimeRhs(n, samples, CurrentRhs), IR, a, f);
    FrequencyBalance(t, n, nodes, size, samples, true, W, vs, TQ, JQ,
                     TimePlain(n, samples, Charge), FQ, TimeRhs(n, samples, ChargeRhs), QR, a, f);
    NewtonRow(size, IC, YV, JG, JQ, JF, W, OM[f], IG, FQ, IR, QR, At(n, a, f));
  }

  /** The next voltages meet the equation system at every node and frequency. */
  lemma NextVoltages(n: nat, nodes: nat, size: nat, J: Matrix, V': Vector, RH: Vector)
    requires n > 0 && size == nodes * n && Solves(size, J, V', RH)
    ensures forall a, f :: 0 <= a < nodes && 0 <= f < n ==> Apply(size, J, V', At(n, a, f)) == RH(At(n, a, f))
  {
    hide At, Apply;
    forall a, f | 0 <= a < nodes && 0 <= f < n ensures 0 <= At(n, a, f) < size { AtBounds(n, a, f, nodes); }
  }
}
