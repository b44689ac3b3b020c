/** When a Newton step of the harmonic balance is exact, whatever the circuits are. */
module HbExact {
  import opened Integers
  import opened ComplexNumbers
  import opened Sums
  import opened LinearAlgebra
  import opened EqnSystem
  import opened FourierTransform
  import opened FastFourier
  import opened HbTransforms
  import opened HbReal
  import opened HbLoad
  import opened HbBalance
  import opened HbNewton

  // ----- unit conductances to ground -----

  /** A conductance of one between node a and ground, at voltage v. */
  function UnitConductance(a: nat, v: real): Device {
    Device([a + 1], (r, c) => One, (r, c) => Zero, k => FromReal(-v), k => Zero, k => FromReal(v), k => Zero)
  }

  function UnitSample(n: nat, nodes: nat, vs: Vector, f: int): (devs: seq<Device>)
    ensures |devs| == nodes
  {
    seq(nodes, a requires 0 <= a < nodes => UnitConductance(a, vs(At(n, a, f)).re))
  }

  /** Unit conductances at all nodes, for every time sample. */
  function UnitSamples(n: nat, nodes: nat, vs: Vector): (samples: seq<seq<Device>>)
    ensures |samples| == n
  {
    seq(n, f requires 0 <= f < n => UnitSample(n, nodes, vs, f))
  }

  lemma UnitReports(n: nat, nodes: nat, vs: Vector)
    ensures ValidSamples(UnitSamples(n, nodes, vs), nodes)
    ensures AllReport(n, UnitSamples(n, nodes, vs), vs)
  {
    hide At, Mul, Sum;
    var samples: seq<seq<Device>> := UnitSamples(n, nodes, vs);
    forall f, d | 0 <= f < n && 0 <= d < nodes ensures samples[f][d].Valid(nodes) {
      assert samples[f][d] == UnitConductance(d, vs(At(n, d, f)).re);
    }
    forall f, d, charge | 0 <= f < n && 0 <= d < nodes
      ensures var dev := UnitSamples(n, nodes, vs)[f][d];
        Reports(dev, DeviceJacobian(dev, charge), Products(dev, charge), SavedVoltages(n, vs, f))
    {
      UnitReport(d, SavedVoltages(n, vs, f), vs(At(n, d, f)).re, charge);
    }
  }

  lemma UnitReport(a: nat, v: Vector, x: real, charge: bool)
    requires v(a) == FromReal(x)
    ensures var dev := UnitConductance(a, x);
      Reports(dev, DeviceJacobian(dev, charge), Products(dev, charge), v)
  {
    hide Mul, Sum;
    var dev := UnitConductance(a, x);
    var A, y := DeviceJacobian(dev, charge), if charge then Zero else One;
    MulUnits(v(a));
    forall r | 0 <= r < |dev.nodes|
      ensures Products(dev, charge)(r) == Sum(|dev.nodes|, c => Mul(A(r, c), TerminalVoltage(dev, c, v)))
    {
      assert A(r, 0) == y && TerminalVoltage(dev, 0, v) == v(a) && Products(dev, charge)(r) == Mul(y, v(a));
      SingleSum(c => Mul(A(r, c), TerminalVoltage(dev, c, v)), Mul(y, v(a)));
    }
  }

  lemma SingleSum(f: int -> Complex, z: Complex)
    requires f(0) == z
    ensures Sum(1, f) == z
  {
    SumStep(0, f);
  }

  /** Entry of the device Jacobian of node d. */
  lemma UnitDeviceEntry(n: nat, d: nat, x: real, charge: bool, k: int, a: nat, b: nat)
    requires 0 <= k < n
    ensures var dev := UnitConductance(d, x);
      DeviceMatrix(n, dev, DeviceJacobian(dev, charge), k, At(n, a, k), At(n, b, k), |dev.nodes|)
      == if d == a && d == b && !charge then One else Zero
  {
    hide At, RowShare;
    var dev := UnitConductance(d, x);
    var A, i, j := DeviceJacobian(dev, charge), At(n, a, k), At(n, b, k);
    SumStep(0, r => RowShare(n, dev, A, r, k, i, j, |dev.nodes|));
    AtInjective(n, d, k, a, k);
    AtInjective(n, d, k, b, k);
    SingleShare(n, dev, A, k, i, j, At(n, d, k));
  }

  /** The row of a device with one terminal. */
  lemma SingleShare(n: nat, dev: Device, A: Matrix, k: int, i: int, j: int, pin: int)
    requires |dev.nodes| == 1 && dev.Pin(n, 0, k) == pin
    ensures RowShare(n, dev, A, 0, k, i, j, 1) == if i == pin && j == pin then A(0, 0) else Zero
  {
    hide Device.Pin;
    SumStep(0, c => if j == dev.Pin(n, c, k) then A(0, c) else Zero);
  }

  /** The Jacobian of unit conductances, within a time sample. */
  lemma UnitEntry(n: nat, nodes: nat, vs: Vector, charge: bool, a: nat, b: nat, k: nat)
    requires a < nodes && b < nodes && k < n
    ensures TotalMatrix(n, UnitSamples(n, nodes, vs), charge, At(n, a, k), At(n, b, k), n)
         == if a == b && !charge then One else Zero
  {
    hide At, DeviceMatrix, TotalMatrix;
    var samples: seq<seq<Device>> := UnitSamples(n, nodes, vs);
    var devs, i, j := samples[k], At(n, a, k), At(n, b, k);
    TotalsBySample(n, samples, charge, a, k, b, k);
    var g := (d: int) =>
      if 0 <= d < |devs| then DeviceMatrix(n, devs[d], DeviceJacobian(devs[d], charge), k, i, j, |devs[d].nodes|)
      else Zero;
    forall d | 0 <= d < nodes ensures g(d) == if d == a && d == b && !charge then One else Zero {
      UnitDeviceEntry(n, d, vs(At(n, d, k)).re, charge, k, a, b);
    }
    SumOnly(nodes, a, g);
  }

  /** The transformed Jacobian of unit conductances is the unit matrix, that of their charges
      is zero. */
  lemma UnitJacobian(t: Trig, n: nat, nodes: nat, vs: Vector, charge: bool, J: Matrix, D: Vector, a: nat, f: nat)
    requires t.Valid() && Orthogonal(t, n) && n > 0 && a < nodes && f < n
    requires MatrixTransformed(t, n, nodes, TimeMatrix(n, UnitSamples(n, nodes, vs), charge), J)
    ensures Apply(nodes * n, J, D, At(n, a, f)) == if charge then Zero else D(At(n, a, f))
  {
    hide Mul, Apply, At, Trig.Valid, Dft, TotalMatrix, MatrixTransformed, Inv, Orthogonal;
    var T, X := TimeMatrix(n, UnitSamples(n, nodes, vs), charge), NodeBlock(n, D, a);
    var d: Vector := i => Dft(t, -1, n, NodeBlock(n, D, i / n), i % n);
    SignalsOf(t, n, nodes, D, d);
    var x := NodeBlock(n, d, a);
    var z: Vector := k => if charge then Zero else x(k);
    forall k | 0 <= k < n ensures z(k) == Sum(nodes, b => Mul(T(At(n, a, k), At(n, b, k)), d(At(n, b, k)))) {
      var g := (b: int) => Mul(T(At(n, a, k), At(n, b, k)), d(At(n, b, k)));
      forall b | 0 <= b < nodes ensures g(b) == if a == b && !charge then d(At(n, b, k)) else Zero {
        UnitEntry(n, nodes, vs, charge, a, b, k);
        MulUnits(d(At(n, b, k)));
      }
      SumOnly(nodes, a, g);
    }
    JacobianSpectrum(t, n, nodes, nodes * n, T, J, D, d, z, a, f);
    if charge {
      ZeroSpectrum(t, n, z, f);
    } else {
      forall k | 0 <= k < n ensures z(k) == Dft(t, -1, n, X, k) {
        assert d(At(n, a, k)) == Spectrum(t, -1, n, X, k);
      }
      SignalInverse(t, n, X, z, f);
    }
  }

  lemma SignalsOf(t: Trig, n: nat, nodes: nat, D: Vector, d: Vector)
    requires n > 0 && forall i :: d(i) == Dft(t, -1, n, NodeBlock(n, D, i / n), i % n)
    ensures BlocksTransformed(t, -1, n, nodes, D, d)
  {
    hide Dft, At;
    forall r, f | 0 <= r < nodes && 0 <= f < n ensures d(At(n, r, f)) == Spectrum(t, -1, n, NodeBlock(n, D, r), f) {
      SplitIndex(n, r, f);
    }
  }

  // ----- exactness for all circuits -----

  /** The voltages are real if and only if they are the saved ones. */
  lemma RealIsSaved(t: Trig, n: nat, nodes: nat, V: Vector, v: Vector)
    requires t.Valid() && Orthogonal(t, n) && n > 0 && BlocksTransformed(t, -1, n, nodes, V, v)
    ensures IsReal(nodes * n, v) <==>
      forall a, f :: 0 <= a < nodes && 0 <= f < n ==> V(At(n, a, f)) == RealSpectrum(t, n, v)(At(n, a, f))
  {
    hide Trig.Valid, Dft, At, Orthogonal, RealSpectrum;
    var W := RealSpectrum(t, n, v);
    if IsReal(nodes * n, v) {
      forall a, f | 0 <= a < nodes && 0 <= f < n ensures V(At(n, a, f)) == W(At(n, a, f)) {
        RealSpectrumOfReal(t, n, nodes, V, v, a, f);
      }
    }
    if forall a, f :: 0 <= a < nodes && 0 <= f < n ==> V(At(n, a, f)) == W(At(n, a, f)) {
      RealSpectrumSignal(t, n, nodes, v);
      forall i | 0 <= i < nodes * n ensures v(i).im == 0.0 {
        var a, k := Located(n, nodes, i);
        DftExt(t, -1, n, NodeBlock(n, V, a), NodeBlock(n, W, a), k);
        assert v(At(n, a, k)) == Spectrum(t, -1, n, NodeBlock(n, V, a), k);
        assert RealParts(v)(At(n, a, k)) == Spectrum(t, -1, n, NodeBlock(n, W, a), k);
      }
    }
  }

  /** With unit conductances, the step is exact if and only if the voltages are real. */
  lemma UnitStep(t: Trig, n: nat, nodes: nat, J: Matrix, JG: Matrix, JQ: Matrix, OM: seq<Complex>,
                 V: Vector, v: Vector, FV: Vector, V': Vector)
    requires t.Valid() && Orthogonal(t, n) && n > 0 && |OM| == n && BlocksTransformed(t, -1, n, nodes, V, v)
    requires MatrixTransformed(t, n, nodes, TimeMatrix(n, UnitSamples(n, nodes, v), false), JG)
    requires MatrixTransformed(t, n, nodes, TimeMatrix(n, UnitSamples(n, nodes, v), true), JQ)
    requires CorrectedStep(n, nodes, J, JG, JQ, OM, V, RealSpectrum(t, n, v), FV, V')
    ensures ExactStep(n, nodes, J, V, FV, V') <==> IsReal(nodes * n, v)
  {
    hide Trig.Valid, At, Apply, Mul, CorrectedStep, ExactStep, RealSpectrum, BlocksTransformed, IsReal, Orthogonal,
      MatrixTransformed, UnitSamples, TimeMatrix;
    var W := RealSpectrum(t, n, v);
    var D: Vector := k => Sub(V(k), W(k));
    forall a, f | 0 <= a < nodes && 0 <= f < n
      ensures Mismatch(nodes * n, JG, JQ, OM[f], V, W, At(n, a, f)) == Zero <==> V(At(n, a, f)) == W(At(n, a, f))
    {
      UnitJacobian(t, n, nodes, v, false, JG, D, a, f);
      UnitJacobian(t, n, nodes, v, true, JQ, D, a, f);
      MulUnits(OM[f]);
    }
    ExactSteps(n, nodes, J, JG, JQ, OM, V, W, FV, V');
    RealIsSaved(t, n, nodes, V, v);
  }

  // ----- a run -----

  /** Without linear admittances the Jacobian of unit conductances is nonsingular. */
  lemma UnitNonsingular(t: Trig, n: nat, nodes: nat, YV: Matrix, J: Matrix, JG: Matrix, JQ: Matrix, OM: seq<Complex>,
                        v: Vector)
    requires t.Valid() && Orthogonal(t, n) && n > 0 && |OM| == n && IsJacobian(n, nodes, YV, JG, JQ, OM, J)
    requires MatrixTransformed(t, n, nodes, TimeMatrix(n, UnitSamples(n, nodes, v), false), JG)
    requires MatrixTransformed(t, n, nodes, TimeMatrix(n, UnitSamples(n, nodes, v), true), JQ)
    requires forall i, j :: 0 <= i < nodes * n && 0 <= j < nodes * n ==> YV(i, j) == Zero
    ensures Nonsingular(nodes * n, J)
  {
    hide Trig.Valid, At, Apply, Mul, Orthogonal, MatrixTransformed, UnitSamples, TimeMatrix, IsJacobian;
    forall D: Vector | InKernel(nodes * n, J, D) ensures IsZeroVector(nodes * n, D) {
      forall k | 0 <= k < nodes * n ensures D(k) == Zero {
        var a, f := Located(n, nodes, k);
        UnitApply(t, n, nodes, YV, J, JG, JQ, OM, v, D, a, f);
      }
    }
  }

  lemma UnitApply(t: Trig, n: nat, nodes: nat, YV: Matrix, J: Matrix, JG: Matrix, JQ: Matrix, OM: seq<Complex>,
                  v: Vector, D: Vector, a: nat, f: nat)
    requires t.Valid() && Orthogonal(t, n) && n > 0 && |OM| == n && IsJacobian(n, nodes, YV, JG, JQ, OM, J)
    requires MatrixTransformed(t, n, nodes, TimeMatrix(n, UnitSamples(n, nodes, v), false), JG)
    requires MatrixTransformed(t, n, nodes, TimeMatrix(n, UnitSamples(n, nodes, v), true), JQ)
    requires forall i, j :: 0 <= i < nodes * n && 0 <= j < nodes * n ==> YV(i, j) == Zero
    requires a < nodes && f < n
    ensures Apply(nodes * n, J, D, At(n, a, f)) == D(At(n, a, f))
  {
    hide Trig.Valid, At, Apply, Mul, Orthogonal, MatrixTransformed, UnitSamples, TimeMatrix, NonLinearEntry;
    var r := At(n, a, f);
    AtBounds(n, a, f, nodes);
    JacobianApply(nodes * n, YV, JG, JQ, J, OM[f], D, r);
    UnitJacobian(t, n, nodes, v, false, JG, D, a, f);
    UnitJacobian(t, n, nodes, v, true, JQ, D, a, f);
    MulUnits(OM[f]);
    NothingApplied(nodes * n, YV, D, r);
  }

  lemma NothingApplied(size: nat, Y: Matrix, D: Vector, r: int)
    requires forall j :: 0 <= j < size ==> Y(r, j) == Zero
    ensures Apply(size, Y, D, r) == Zero
  {
    hide Mul;
    var g := (j: int) => Mul(Y(r, j), D(j));
    forall j | 0 <= j < size ensures g(j) == Zero { MulUnits(D(j)); }
    SumZero(size, g);
  }

  lemma SameUnitSamples(n: nat, nodes: nat, v: Vector, w: Vector)
    requires forall k :: 0 <= k < nodes * n ==> v(k) == w(k)
    ensures UnitSamples(n, nodes, v) == UnitSamples(n, nodes, w)
  {
    hide At, UnitConductance;
    forall f | 0 <= f < n ensures UnitSample(n, nodes, v, f) == UnitSample(n, nodes, w, f) {
      forall a | 0 <= a < nodes ensures v(At(n, a, f)) == w(At(n, a, f)) { AtBounds(n, a, f, nodes); }
    }
  }

  /** An iteration for unit conductances at all nodes and nothing else: it finds new voltages,
      and is exact if and only if the voltages were real. */
  method UnitIteration(hb: HbSolver) returns (singular: set<int>, ghost J: Matrix)
    requires hb.Valid() && BlocksTransformed(hb.t, -1, hb.n, hb.nodes, Elements(hb.VS), Elements(hb.vs))
    requires forall i, j :: 0 <= i < hb.nodes * hb.n && 0 <= j < hb.nodes * hb.n ==> hb.YV[i, j] == Zero
    modifies hb.JG, hb.JQ, hb.IG, hb.FQ, hb.IR, hb.QR, hb.RH, hb.FV, hb.IL, hb.IN, hb.JF, hb.VS, hb.vs, hb.VP
    ensures singular == {}
    ensures ExactStep(hb.n, hb.nodes, J, old(Elements(hb.VS)), Elements(hb.FV), Elements(hb.VS))
       <==> IsReal(hb.nodes * hb.n, old(Elements(hb.vs)))
  {
    hide IsModulus, Trig.Valid, IsPow2, BlocksTransformed, AllReport, RealSpectrum, MatrixTransformed, IsJacobian,
      HbSolver.IsNewtonSystem, Nonsingular, CorrectedStep, ExactStep, IsReal, TimeMatrix, UnitSamples;
    ghost var V, v, Y := Elements(hb.VS), Elements(hb.vs), Entries(hb.YV);
    var values := hb.vs[..];
    var samples := UnitSamples(hb.n, hb.nodes, k => if 0 <= k < |values| then values[k] else Zero);
    SameUnitSamples(hb.n, hb.nodes, k => if 0 <= k < |values| then values[k] else Zero, v);
    UnitReports(hb.n, hb.nodes, v);
    singular, J := hb.NewtonStep(samples);
    assert Entries(hb.YV) == Y;
    UnitNonsingular(hb.t, hb.n, hb.nodes, Y, J, Entries(hb.JG), Entries(hb.JQ), hb.OM[..], v);
    UnitStep(hb.t, hb.n, hb.nodes, J, Entries(hb.JG), Entries(hb.JQ), hb.OM[..], V, v,
             Elements(hb.FV), Elements(hb.VS));
  }

  /** A solver for one node and two frequencies with the voltage i at the highest one. */
  method NyquistStart(t: Trig, abs: Complex -> real, IC: array<Complex>, OM: array<Complex>) returns (hb: HbSolver)
    requires t.Valid() && IsModulus(abs) && IC.Length == OM.Length == 2
    ensures fresh(hb) && hb.Valid() && hb.t == t && hb.n == 2 && hb.nodes == 1 && hb.IC == IC && hb.OM == OM
    ensures fresh(hb.JG) && fresh(hb.JQ) && fresh(hb.JF) && fresh(hb.VS) && fresh(hb.vs) && fresh(hb.VP) && fresh(hb.IG)
    ensures fresh(hb.FQ) && fresh(hb.IR) && fresh(hb.QR) && fresh(hb.RH) && fresh(hb.FV) && fresh(hb.IL) && fresh(hb.IN)
    ensures Elements(hb.VS)(0) == Zero && Elements(hb.VS)(1) == Complex(0.0, 1.0)
    ensures BlocksTransformed(t, -1, 2, 1, Elements(hb.VS), Elements(hb.vs))
    ensures forall i, j :: 0 <= i < 2 && 0 <= j < 2 ==> hb.YV[i, j] == Zero
  {
    hide IsModulus, Trig.Valid, BlocksTransformed, IsReal;
    assert IsPow2(2) by { assert IsPow2(1); }
    var YV := new Complex[2, 2]((i, j) => Zero);
    hb := new HbSolver(t, abs, 2, 1, YV, IC, OM);
    SetVoltages(hb, k => if k == 1 then Complex(0.0, 1.0) else Zero);
  }

  /** Sets the voltages in the frequency and in the time domain. */
  method SetVoltages(hb: HbSolver, V: Vector)
    requires hb.Valid()
    modifies hb.VS, hb.vs
    ensures forall k :: 0 <= k < hb.nodes * hb.n ==> Elements(hb.VS)(k) == V(k)
    ensures BlocksTransformed(hb.t, -1, hb.n, hb.nodes, Elements(hb.VS), Elements(hb.vs))
  {
    hide IsModulus, Trig.Valid, BlocksTransformed, IsPow2;
    forall k | 0 <= k < hb.VS.Length { hb.VS[k] := V(k); }
    forall k | 0 <= k < hb.vs.Length { hb.vs[k] := V(k); }
    ghost var spectrum := Elements(hb.vs);
    VectorFFT(hb.t, hb.vs, hb.n, -1, hb.nodes);
    SameBlocks(hb.t, -1, hb.n, hb.nodes, spectrum, Elements(hb.VS), Elements(hb.vs));
  }

  /** From there, the voltages in the time domain are imaginary, and the iteration for a unit
      conductance is not exact. */
  method NyquistRun(t: Trig, abs: Complex -> real, IC: array<Complex>, OM: array<Complex>)
    returns (hb: HbSolver, singular: set<int>, ghost J: Matrix, ghost V: Vector)
    requires t.Valid() && IsModulus(abs) && IC.Length == OM.Length == 2
    ensures hb.SolveShapes() && hb.IC == IC && hb.OM == OM && V(0) == Zero && V(1) == Complex(0.0, 1.0)
    ensures singular == {} && !ExactStep(2, 1, J, V, Elements(hb.FV), Elements(hb.VS))
  {
    hide IsModulus, Trig.Valid, ExactStep, BlocksTransformed, IsPow2;
    hb := NyquistStart(t, abs, IC, OM);
    V := Elements(hb.VS);
    NyquistSignal(t, V, Elements(hb.vs));
    singular, J := UnitIteration(hb);
  }

  lemma NyquistSignal(t: Trig, V: Vector, v: Vector)
    requires t.Valid() && V(0) == Zero && V(1) == Complex(0.0, 1.0) && BlocksTransformed(t, -1, 2, 1, V, v)
    ensures v(0) == Complex(0.0, 1.0) && v(1) == Complex(0.0, -1.0) && !IsReal(2, v)
  {
    hide Trig.Valid, Trig.Root, Mul, Dft;
    var x := NodeBlock(2, V, 0);
    assert v(At(2, 0, 0)) == Spectrum(t, -1, 2, x, 0) && v(At(2, 0, 1)) == Spectrum(t, -1, 2, x, 1);
    TwoPoints(t, x, 0);
    TwoPoints(t, x, 1);
    RootZero(t, -1, 2);
    RootHalf(t, -1, 1);
    MulUnits(One);
    MulUnits(Neg(One));
    MulUnits(x(1));
    MulNeg(x(1), One);
    assert v(0).im != 0.0;
  }

  lemma TwoPoints(t: Trig, x: Vector, k: int)
    requires t.Valid()
    ensures Dft(t, -1, 2, x, k) == Add(Mul(x(0), t.Root(-1, 2, 0)), Mul(x(1), t.Root(-1, 2, k)))
  {
    hide Trig.Valid, Trig.Root, Mul;
    var g := (j: int) => Mul(x(j), t.Root(-1, 2, k * j));
    SumStep(0, g);
    SumStep(1, g);
    assert k * 0 == 0 && k * 1 == k;
  }
}
