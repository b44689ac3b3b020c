/** The iteration of the harmonic balance, and what it means that it has converged. */
module HbRun {
  import opened Integers
  import opened ComplexNumbers
  import opened LinearAlgebra
  import opened EqnSystem
  import opened Contraction
  import opened HbTransforms
  import opened HbLoad
  import opened HbNewton

  datatype Tolerances = Tolerances(iabstol: real, vabstol: real, reltol: real)

  // ----- the termination criteria -----

  /** The voltage v has moved little since p. */
  predicate IsSettled(abs: Complex -> real, tol: Tolerances, v: Complex, p: Complex) {
    abs(Sub(v, p)) < tol.vabstol + Times(tol.reltol, abs(v))
  }

  /** Linear and non-linear current are taken for balanced. */
  predicate IsBalanced(abs: Complex -> real, tol: Tolerances, il: Complex, iN: Complex) {
    il != iN ==>
      || abs(Add(il, iN)) < tol.iabstol
      || Times(2.0, abs(Div(Add(il, iN), Sub(il, iN)))) < tol.reltol
  }

  /** What that means: the sum of the currents is below the absolute tolerance or below the
      share of their difference, unless both are the same. */
  lemma BalanceBound(abs: Complex -> real, tol: Tolerances, il: Complex, iN: Complex)
    requires IsModulus(abs)
    ensures IsBalanced(abs, tol, il, iN) <==> il == iN || IsSmall(abs, tol, il, iN)
  {
    hide IsModulus, Times, Div;
    if il != iN {
      var s, d := Add(il, iN), Sub(il, iN);
      QuotientModulus(abs, s, d);
      ModulusZero(abs, d);
      Modulus(abs, d);
      ScaledLess(abs(Div(s, d)), tol.reltol, abs(d));
    }
  }

  /** abs(s / d) abs(d) == abs(s). */
  lemma QuotientModulus(abs: Complex -> real, s: Complex, d: Complex)
    requires IsModulus(abs) && d != Zero
    ensures Times(abs(Div(s, d)), abs(d)) == abs(s)
  {
    hide IsModulus, Mul, Div;
    DivMul(s, d);
    MulComm(d, Div(s, d));
    ModulusMul(abs, Div(s, d), d);
  }

  lemma ScaledLess(q: real, r: real, d: real)
    requires d > 0.0
    ensures Times(2.0, q) < r <==> Times(2.0, Times(q, d)) < Times(r, d)
  {
    var g := r - 2.0 * q;
    assert r * d - 2.0 * (q * d) == g * d;
    assert g > 0.0 <==> g * d > 0.0;
  }

  /** The sum of the currents is small. */
  predicate IsSmall(abs: Complex -> real, tol: Tolerances, il: Complex, iN: Complex) {
    || abs(Add(il, iN)) < tol.iabstol
    || Times(2.0, abs(Add(il, iN))) < Times(tol.reltol, abs(Sub(il, iN)))
  }

  /** Currents are taken for balanced without a small sum if and only if they are the same and
      their sum is not below the absolute tolerance. */
  lemma BalanceMissed(abs: Complex -> real, tol: Tolerances, il: Complex, iN: Complex)
    requires IsModulus(abs)
    ensures IsBalanced(abs, tol, il, iN) && !IsSmall(abs, tol, il, iN) <==>
      il == iN && abs(Add(il, iN)) >= tol.iabstol
  {
    hide IsModulus, Times, Div, IsBalanced;
    BalanceBound(abs, tol, il, iN);
    if il == iN {
      ModulusZero(abs, Sub(il, iN));
      Modulus(abs, Add(il, iN));
      TimesUnits(tol.reltol);
      TimesNonNegative(2.0, abs(Add(il, iN)));
    }
  }

  /** Equal currents of one are taken for balanced by all tolerances, and add up to two. */
  lemma EqualCurrents(abs: Complex -> real, tol: Tolerances)
    requires IsModulus(abs)
    ensures IsBalanced(abs, tol, One, One) && abs(Add(One, One)) == 2.0
  {
    var z := abs(Add(One, One));
    assert Square(z) == 4.0 == Square(2.0);
    SquareOrder(z, 2.0);
    SquareOrder(2.0, z);
  }

  ghost predicate EntryDone(hb: HbSolver, tol: Tolerances, k: int)
    requires hb.Valid() && 0 <= k < hb.nodes * hb.n
    reads hb, hb.VS, hb.VP, hb.IL, hb.IN
  {
    && IsSettled(hb.abs, tol, Elements(hb.VS)(k), Elements(hb.VP)(k))
    && IsBalanced(hb.abs, tol, Elements(hb.IL)(k), Elements(hb.IN)(k))
  }

  /** Checks whether the currents through the interconnected linear and non-linear parts are
      balanced and the voltages have settled. */
  method CheckBalance(hb: HbSolver, tol: Tolerances) returns (done: bool)
    requires hb.Valid()
    ensures done <==> forall k :: 0 <= k < hb.nodes * hb.n ==> EntryDone(hb, tol, k)
  {
    hide IsModulus, Div, Times, HbSolver.LoadShapes, HbSolver.JacobianShapes;
    for k := 0 to hb.FV.Length
      invariant forall j :: 0 <= j < k ==> EntryDone(hb, tol, j)
    {
      done := hb.abs(Sub(hb.VS[k], hb.VP[k])) < tol.vabstol + Times(tol.reltol, hb.abs(hb.VS[k]));
      if !done {
        assert !EntryDone(hb, tol, k);
        return;
      }
      var il, iN := hb.IL[k], hb.IN[k];
      if il != iN {
        var iabs, irel := hb.abs(Add(il, iN)), hb.abs(Div(Add(il, iN), Sub(il, iN)));
        if iabs >= tol.iabstol && Times(2.0, irel) >= tol.reltol {
          done := false;
          assert !EntryDone(hb, tol, k);
          return;
        }
      }
    }
    done := true;
  }

  // ----- the iteration -----

  /** The circuits report for n time samples at the balanced nodes. */
  ghost predicate ReportsFor(n: nat, nodes: nat, devices: seq<Complex> -> seq<seq<Device>>) {
    forall v :: |v| == nodes * n ==> |devices(v)| == n && ValidSamples(devices(v), nodes)
  }

  /** FV is the error F(VS) with the devices evaluated for vs, IL and IN its two parts. */
  ghost predicate HoldsError(hb: HbSolver, samples: seq<seq<Device>>)
    requires hb.Valid()
    reads hb, hb.IC, hb.YV, hb.VS, hb.OM, hb.FQ, hb.IG, hb.IR, hb.QR, hb.RH, hb.FV, hb.IL, hb.IN
  {
    && TermSpectra(hb.t, hb.n, hb.nodes, samples, false, Elements(hb.IG), Elements(hb.IR))
    && TermSpectra(hb.t, hb.n, hb.nodes, samples, true, Elements(hb.FQ), Elements(hb.QR))
    && forall a, f :: 0 <= a < hb.nodes && 0 <= f < hb.n ==> hb.SolvedRow(At(hb.n, a, f), f)
  }

  /** The second half of an iteration: new voltages in the frequency and in the time domain. */
  method NextIteration(hb: HbSolver, ghost samples: seq<seq<Device>>)
    requires hb.Valid() && |samples| == hb.n
    requires forall i, j :: 0 <= i < hb.nodes * hb.n && 0 <= j < hb.nodes * hb.n ==>
      && Entries(hb.JG)(i, j) == TotalMatrix(hb.n, samples, false, i, j, hb.n)
      && Entries(hb.JQ)(i, j) == TotalMatrix(hb.n, samples, true, i, j, hb.n)
    modifies hb.JG, hb.JQ, hb.JF, hb.VS, hb.vs, hb.VP
    ensures BlocksTransformed(hb.t, -1, hb.n, hb.nodes, Elements(hb.VS), Elements(hb.vs))
    ensures Elements(hb.VP) == old(Elements(hb.VS))
  {
    hide IsModulus, IsPow2, BlocksTransformed, TotalMatrix, HbSolver.IsLinearization, Nonsingular, Solves;
    hb.TransformJacobian(samples);
    var singular := hb.SolveVoltages();
    ghost var V, previous := Elements(hb.VS), Elements(hb.VP);
    VectorFFT(hb.t, hb.vs, hb.n, -1, hb.nodes);
    assert Elements(hb.VS) == V && Elements(hb.VP) == previous;
  }

  /** Runs the iteration.  When it converges, vs are the voltages VS in the time domain, FV is
      the error F(VS) for the devices at vs, and every entry is settled and balanced. */
  method Balance(hb: HbSolver, devices: seq<Complex> -> seq<seq<Device>>, tol: Tolerances, maxIterations: nat)
    returns (done: bool, iterations: nat)
    requires hb.Valid() && ReportsFor(hb.n, hb.nodes, devices)
    requires BlocksTransformed(hb.t, -1, hb.n, hb.nodes, Elements(hb.VS), Elements(hb.vs))
    modifies hb.JG, hb.JQ, hb.IG, hb.FQ, hb.IR, hb.QR, hb.RH, hb.FV, hb.IL, hb.IN, hb.JF, hb.VS, hb.vs, hb.VP
    ensures BlocksTransformed(hb.t, -1, hb.n, hb.nodes, Elements(hb.VS), Elements(hb.vs))
    ensures done ==> iterations > 1 && HoldsError(hb, devices(hb.vs[..]))
    ensures done ==> forall k :: 0 <= k < hb.nodes * hb.n ==> EntryDone(hb, tol, k)
    ensures !done ==> iterations >= maxIterations
  {
    hide IsModulus, IsPow2, BlocksTransformed, TotalMatrix, TermSpectra, EntryDone, HoldsError, HbSolver.SolvedRow;
    iterations, done := 0, false;
    while iterations == 0 || (!done && iterations < maxIterations)
      invariant !done && BlocksTransformed(hb.t, -1, hb.n, hb.nodes, Elements(hb.VS), Elements(hb.vs))
      decreases if iterations == 0 then 1 else 0, maxIterations - iterations
    {
      iterations := iterations + 1;
      var samples := devices(hb.vs[..]);
      Evaluate(hb, samples);
      if iterations > 1 {
        done := CheckBalance(hb, tol);
        if done { return; }
      }
      NextIteration(hb, samples);
    }
  }

  /** The first half of an iteration: devices, transforms and the HB equation. */
  method Evaluate(hb: HbSolver, samples: seq<seq<Device>>)
    requires hb.Valid() && |samples| == hb.n && ValidSamples(samples, hb.nodes)
    modifies hb.JG, hb.JQ, hb.IG, hb.FQ, hb.IR, hb.QR, hb.RH, hb.FV, hb.IL, hb.IN
    ensures HoldsError(hb, samples)
    ensures forall i, j :: 0 <= i < hb.nodes * hb.n && 0 <= j < hb.nodes * hb.n ==>
      && Entries(hb.JG)(i, j) == TotalMatrix(hb.n, samples, false, i, j, hb.n)
      && Entries(hb.JQ)(i, j) == TotalMatrix(hb.n, samples, true, i, j, hb.n)
  {
    hide IsModulus, IsPow2, TotalMatrix, TermSpectra, HbSolver.SolvedRow;
    hb.Assemble(samples);
  }

  /** When the iteration has converged, each entry of F(VS) is below the absolute tolerance or
      the share of the difference of its parts, or its parts are the same. */
  lemma ConvergedError(hb: HbSolver, samples: seq<seq<Device>>, tol: Tolerances, a: nat, f: nat)
    requires hb.Valid() && HoldsError(hb, samples) && a < hb.nodes && f < hb.n
    requires 0 <= At(hb.n, a, f) < hb.nodes * hb.n && EntryDone(hb, tol, At(hb.n, a, f))
    ensures var r := At(hb.n, a, f);
      var error := ErrorTerm(hb.nodes * hb.n, Elements(hb.IC), Entries(hb.YV), Elements(hb.VS), hb.OM[f],
                             Elements(hb.FQ), Elements(hb.IG), r);
      var il, iN := Elements(hb.IL)(r), Elements(hb.IN)(r);
      && error == Add(il, iN)
      && (il == iN || hb.abs(error) < tol.iabstol
          || Times(2.0, hb.abs(error)) < Times(tol.reltol, hb.abs(Sub(il, iN))))
  {
    hide IsModulus, IsPow2, Times, Div, Mul, Apply, TermSpectra, At;
    var r := At(hb.n, a, f);
    assert hb.SolvedRow(r, f);
    BalanceBound(hb.abs, tol, Elements(hb.IL)(r), Elements(hb.IN)(r));
  }

  /** When the iteration has converged, each voltage has moved by less than the absolute tolerance
      plus the relative share of it, and so by less than a share of the previous one. */
  lemma ConvergedVoltages(hb: HbSolver, tol: Tolerances, k: nat)
    requires hb.Valid() && k < hb.nodes * hb.n && EntryDone(hb, tol, k) && 0.0 <= tol.reltol < 1.0
    ensures var v, p := Elements(hb.VS)(k), Elements(hb.VP)(k);
      && hb.abs(Sub(v, p)) < tol.vabstol + tol.reltol * hb.abs(v)
      && (1.0 - tol.reltol) * hb.abs(Sub(v, p)) < tol.vabstol + tol.reltol * hb.abs(p)
  {
    hide IsModulus, IsPow2, HbSolver.LoadShapes, HbSolver.JacobianShapes;
    var v, p := Elements(hb.VS)(k), Elements(hb.VP)(k);
    assert Add(Sub(v, p), p) == v;
    ModulusAdd(hb.abs, Sub(v, p), p);
    MovedShare(hb.abs(Sub(v, p)), hb.abs(v), hb.abs(p), tol.vabstol, tol.reltol);
  }

  lemma MovedShare(d: real, v: real, p: real, a: real, r: real)
    requires d < a + Times(r, v) && v <= d + p && 0.0 <= r < 1.0
    ensures d < a + r * v && (1.0 - r) * d < a + r * p
  {
    assert r * v <= r * (d + p);
    assert r * (d + p) == r * d + r * p;
  }
}
