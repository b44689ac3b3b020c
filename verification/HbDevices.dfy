/** What the samples of the non-linear circuits mean for a node: sums over all terminals
    that are connected to it. */
module HbDevices {
  import opened ComplexNumbers
  import opened Sums
  import opened LinearAlgebra
  import opened FourierTransform
  import opened FastFourier
  import opened HbTransforms
  import opened HbLoad
  import opened HbBalance

  /** Terminal r is connected to node a + 1. */
  predicate IsAt(dev: Device, r: int, a: int) {
    0 <= r < |dev.nodes| && dev.nodes[r] == a + 1
  }

  /** The entries of x of all terminals at node a + 1. */
  function TerminalSum(dev: Device, x: Vector, a: int): Complex {
    Sum(|dev.nodes|, r => if IsAt(dev, r, a) then x(r) else Zero)
  }

  /** The entries of A from the terminals at node a + 1 to those at node b + 1. */
  function TerminalPairs(dev: Device, A: Matrix, a: int, b: int): Complex {
    Sum(|dev.nodes|, r => if IsAt(dev, r, a) then TerminalSum(dev, c => A(r, c), b) else Zero)
  }

  /** The currents of all terminals at node a + 1. */
  function CurrentsAt(devs: seq<Device>, a: int): Complex {
    Sum(|devs|, d => if 0 <= d < |devs| then TerminalSum(devs[d], devs[d].I, a) else Zero)
  }

  function ChargesAt(devs: seq<Device>, a: int): Complex {
    Sum(|devs|, d => if 0 <= d < |devs| then TerminalSum(devs[d], devs[d].Q, a) else Zero)
  }

  /** The products of conductances and voltages. */
  function ConductedAt(devs: seq<Device>, a: int): Complex {
    Sum(|devs|, d => if 0 <= d < |devs| then TerminalSum(devs[d], devs[d].GV, a) else Zero)
  }

  /** The products of capacitances and voltages. */
  function StoredAt(devs: seq<Device>, a: int): Complex {
    Sum(|devs|, d => if 0 <= d < |devs| then TerminalSum(devs[d], devs[d].CV, a) else Zero)
  }

  function ConductanceBetween(devs: seq<Device>, a: int, b: int): Complex {
    Sum(|devs|, d => if 0 <= d < |devs| then TerminalPairs(devs[d], devs[d].Y, a, b) else Zero)
  }

  function CapacitanceBetween(devs: seq<Device>, a: int, b: int): Complex {
    Sum(|devs|, d => if 0 <= d < |devs| then TerminalPairs(devs[d], devs[d].QV, a, b) else Zero)
  }

  lemma DeviceVectorAt(n: nat, dev: Device, x: Vector, a: int, f: int)
    requires 0 <= f < n && 0 <= a
    ensures DeviceVector(n, dev, x, f, At(n, a, f), |dev.nodes|) == TerminalSum(dev, x, a)
  {
    hide At, Device.Pin;
    var i := At(n, a, f);
    forall r | 0 <= r < |dev.nodes| ensures i == dev.Pin(n, r, f) <==> IsAt(dev, r, a) { PinAt(n, dev, r, f, a, f); }
    SumExt(|dev.nodes|, r => if i == dev.Pin(n, r, f) then x(r) else Zero, r => if IsAt(dev, r, a) then x(r) else Zero);
  }

  lemma RowShareAt(n: nat, dev: Device, A: Matrix, r: int, a: int, b: int, f: int)
    requires 0 <= f < n && 0 <= a && 0 <= b
    ensures RowShare(n, dev, A, r, f, At(n, a, f), At(n, b, f), |dev.nodes|)
         == if IsAt(dev, r, a) then TerminalSum(dev, c => A(r, c), b) else Zero
  {
    hide At, Device.Pin;
    var j, x := At(n, b, f), (c: int) => A(r, c);
    PinAt(n, dev, r, f, a, f);
    forall c | 0 <= c < |dev.nodes| ensures j == dev.Pin(n, c, f) <==> IsAt(dev, c, b) { PinAt(n, dev, c, f, b, f); }
    SumExt(|dev.nodes|, c => if j == dev.Pin(n, c, f) then A(r, c) else Zero,
           c => if IsAt(dev, c, b) then x(c) else Zero);
  }

  lemma DeviceMatrixAt(n: nat, dev: Device, A: Matrix, a: int, b: int, f: int)
    requires 0 <= f < n && 0 <= a && 0 <= b
    ensures DeviceMatrix(n, dev, A, f, At(n, a, f), At(n, b, f), |dev.nodes|) == TerminalPairs(dev, A, a, b)
  {
    hide At, RowShare, TerminalSum;
    var i, j := At(n, a, f), At(n, b, f);
    var g := (r: int) => RowShare(n, dev, A, r, f, i, j, |dev.nodes|);
    var h := (r: int) => if IsAt(dev, r, a) then TerminalSum(dev, c => A(r, c), b) else Zero;
    forall r | 0 <= r < |dev.nodes| ensures g(r) == h(r) { RowShareAt(n, dev, A, r, a, b, f); }
    SumExt(|dev.nodes|, g, h);
  }

  /** Entry (a, f) of the vectors of sample f. */
  lemma SampleVectorAt(n: nat, devs: seq<Device>, kind: Kind, a: int, f: int, g: Vector)
    requires 0 <= f < n && 0 <= a
    requires forall d :: 0 <= d < |devs| ==> g(d) == TerminalSum(devs[d], Terminals(devs[d], kind), a)
    ensures SampleVector(n, devs, kind, f, At(n, a, f), |devs|) == Sum(|devs|, g)
  {
    hide At, DeviceVector, TerminalSum, Terminals;
    var i := At(n, a, f);
    var h := (d: int) =>
      if 0 <= d < |devs| then DeviceVector(n, devs[d], Terminals(devs[d], kind), f, i, |devs[d].nodes|) else Zero;
    forall d | 0 <= d < |devs| ensures h(d) == g(d) { DeviceVectorAt(n, devs[d], Terminals(devs[d], kind), a, f); }
    SumExt(|devs|, h, g);
  }

  lemma SampleMatrixAt(n: nat, devs: seq<Device>, charge: bool, a: int, b: int, f: int, g: Vector)
    requires 0 <= f < n && 0 <= a && 0 <= b
    requires forall d :: 0 <= d < |devs| ==> g(d) == TerminalPairs(devs[d], DeviceJacobian(devs[d], charge), a, b)
    ensures SampleMatrix(n, devs, charge, f, At(n, a, f), At(n, b, f), |devs|) == Sum(|devs|, g)
  {
    hide At, DeviceMatrix, TerminalPairs, DeviceJacobian;
    var i, j := At(n, a, f), At(n, b, f);
    var h := (d: int) =>
      if 0 <= d < |devs| then DeviceMatrix(n, devs[d], DeviceJacobian(devs[d], charge), f, i, j, |devs[d].nodes|)
      else Zero;
    forall d | 0 <= d < |devs| ensures h(d) == g(d) {
      DeviceMatrixAt(n, devs[d], DeviceJacobian(devs[d], charge), a, b, f);
    }
    SumExt(|devs|, h, g);
  }

  /** Sums of the two parts of the right hand side terms. */
  lemma TerminalAdd(dev: Device, x: Vector, y: Vector, z: Vector, a: int)
    requires forall r :: z(r) == Add(x(r), y(r))
    ensures TerminalSum(dev, z, a) == Add(TerminalSum(dev, x, a), TerminalSum(dev, y, a))
  {
    var g, h := (r: int) => if IsAt(dev, r, a) then x(r) else Zero, (r: int) => if IsAt(dev, r, a) then y(r) else Zero;
    var s := (r: int) => if IsAt(dev, r, a) then z(r) else Zero;
    hide Sum;
    SumAdd(|dev.nodes|, g, h);
    forall r | 0 <= r < |dev.nodes| ensures s(r) == Add(g(r), h(r)) {}
    SumExt(|dev.nodes|, s, r => Add(g(r), h(r)));
  }

  /** What the circuits of sample f add to the vectors at node a + 1. */
  lemma SampleVectorsAt(n: nat, devs: seq<Device>, a: int, f: int)
    requires 0 <= f < n && 0 <= a
    ensures var at := At(n, a, f);
      && SampleVector(n, devs, Current, f, at, |devs|) == CurrentsAt(devs, a)
      && SampleVector(n, devs, Charge, f, at, |devs|) == ChargesAt(devs, a)
      && SampleVector(n, devs, CurrentRhs, f, at, |devs|) == Add(ConductedAt(devs, a), CurrentsAt(devs, a))
      && SampleVector(n, devs, ChargeRhs, f, at, |devs|) == Add(StoredAt(devs, a), ChargesAt(devs, a))
  {
    hide At, SampleVector, TerminalSum, Sum;
    var i := (d: int) => if 0 <= d < |devs| then TerminalSum(devs[d], devs[d].I, a) else Zero;
    var q := (d: int) => if 0 <= d < |devs| then TerminalSum(devs[d], devs[d].Q, a) else Zero;
    var g := (d: int) => if 0 <= d < |devs| then TerminalSum(devs[d], devs[d].GV, a) else Zero;
    var c := (d: int) => if 0 <= d < |devs| then TerminalSum(devs[d], devs[d].CV, a) else Zero;
    SampleVectorAt(n, devs, Current, a, f, i);
    SampleVectorAt(n, devs, Charge, a, f, q);
    forall d | 0 <= d < |devs|
      ensures Add(g(d), i(d)) == TerminalSum(devs[d], Terminals(devs[d], CurrentRhs), a)
      ensures Add(c(d), q(d)) == TerminalSum(devs[d], Terminals(devs[d], ChargeRhs), a)
    {
      TerminalAdd(devs[d], devs[d].GV, devs[d].I, Terminals(devs[d], CurrentRhs), a);
      TerminalAdd(devs[d], devs[d].CV, devs[d].Q, Terminals(devs[d], ChargeRhs), a);
    }
    SampleVectorAt(n, devs, CurrentRhs, a, f, d => Add(g(d), i(d)));
    SampleVectorAt(n, devs, ChargeRhs, a, f, d => Add(c(d), q(d)));
    SumAdd(|devs|, g, i);
    SumAdd(|devs|, c, q);
  }

  /** What the circuits of sample f add between nodes a + 1 and b + 1. */
  lemma SampleMatricesAt(n: nat, devs: seq<Device>, a: int, b: int, f: int)
    requires 0 <= f < n && 0 <= a && 0 <= b
    ensures var i, j := At(n, a, f), At(n, b, f);
      && SampleMatrix(n, devs, false, f, i, j, |devs|) == ConductanceBetween(devs, a, b)
      && SampleMatrix(n, devs, true, f, i, j, |devs|) == CapacitanceBetween(devs, a, b)
  {
    hide At, SampleMatrix, TerminalPairs, Sum;
    SampleMatrixAt(n, devs, false, a, b, f,
                   d => if 0 <= d < |devs| then TerminalPairs(devs[d], devs[d].Y, a, b) else Zero);
    SampleMatrixAt(n, devs, true, a, b, f,
                   d => if 0 <= d < |devs| then TerminalPairs(devs[d], devs[d].QV, a, b) else Zero);
  }

  /** The vector V is V0 with the terms x added at sample f. */
  ghost predicate AddedVector(n: nat, nodes: nat, f: int, x: Vector, V0: Vector, V: Vector) {
    forall a, k :: 0 <= a < nodes && 0 <= k < n ==>
      V(At(n, a, k)) == if k == f then Add(V0(At(n, a, k)), x(a)) else V0(At(n, a, k))
  }

  ghost predicate AddedMatrix(n: nat, nodes: nat, f: int, y: Matrix, M0: Matrix, M: Matrix) {
    forall a, b, k, l :: 0 <= a < nodes && 0 <= b < nodes && 0 <= k < n && 0 <= l < n ==>
      M(At(n, a, k), At(n, b, l))
      == if k == f == l then Add(M0(At(n, a, k), At(n, b, l)), y(a, b)) else M0(At(n, a, k), At(n, b, l))
  }

  lemma AddedVectorBy(n: nat, nodes: nat, devs: seq<Device>, kind: Kind, f: nat, x: Vector, V0: Vector, V: Vector)
    requires f < n && forall a :: 0 <= a < nodes ==> SampleVector(n, devs, kind, f, At(n, a, f), |devs|) == x(a)
    requires forall i :: 0 <= i < nodes * n ==> V(i) == Add(V0(i), SampleVector(n, devs, kind, f, i, |devs|))
    ensures AddedVector(n, nodes, f, x, V0, V)
  {
    hide At, SampleVector;
    forall a, k | 0 <= a < nodes && 0 <= k < n
      ensures V(At(n, a, k)) == if k == f then Add(V0(At(n, a, k)), x(a)) else V0(At(n, a, k))
    {
      AtBounds(n, a, k, nodes);
      if k != f { SampleVectorZero(n, devs, kind, f, a, k); }
    }
  }

  lemma AddedMatrixBy(n: nat, nodes: nat, devs: seq<Device>, charge: bool, f: nat, y: Matrix, M0: Matrix, M: Matrix)
    requires f < n && forall a, b :: 0 <= a < nodes && 0 <= b < nodes ==>
      SampleMatrix(n, devs, charge, f, At(n, a, f), At(n, b, f), |devs|) == y(a, b)
    requires forall i, j :: 0 <= i < nodes * n && 0 <= j < nodes * n ==>
      M(i, j) == Add(M0(i, j), SampleMatrix(n, devs, charge, f, i, j, |devs|))
    ensures AddedMatrix(n, nodes, f, y, M0, M)
  {
    hide At, SampleMatrix;
    forall a, b, k, l | 0 <= a < nodes && 0 <= b < nodes && 0 <= k < n && 0 <= l < n
      ensures M(At(n, a, k), At(n, b, l))
           == if k == f == l then Add(M0(At(n, a, k), At(n, b, l)), y(a, b)) else M0(At(n, a, k), At(n, b, l))
    {
      AtBounds(n, a, k, nodes);
      AtBounds(n, b, l, nodes);
      if k != f || l != f { SampleMatrixZero(n, devs, charge, f, a, k, b, l); }
    }
  }

  /** The vectors and matrices with the terms of the circuits added at sample f. */
  ghost predicate IsSampleLoad(n: nat, nodes: nat, devs: seq<Device>, f: int, JG0: Matrix, JQ0: Matrix, IG0: Vector,
                               FQ0: Vector, IR0: Vector, QR0: Vector,
                               JG: Matrix, JQ: Matrix, IG: Vector, FQ: Vector, IR: Vector, QR: Vector) {
    && AddedMatrix(n, nodes, f, (a, b) => ConductanceBetween(devs, a, b), JG0, JG)
    && AddedMatrix(n, nodes, f, (a, b) => CapacitanceBetween(devs, a, b), JQ0, JQ)
    && AddedVector(n, nodes, f, a => Neg(CurrentsAt(devs, a)), IG0, IG)
    && AddedVector(n, nodes, f, a => Neg(ChargesAt(devs, a)), FQ0, FQ)
    && AddedVector(n, nodes, f, a => Add(ConductedAt(devs, a), CurrentsAt(devs, a)), IR0, IR)
    && AddedVector(n, nodes, f, a => Add(StoredAt(devs, a), ChargesAt(devs, a)), QR0, QR)
  }

  lemma SampleLoad(n: nat, nodes: nat, devs: seq<Device>, f: nat, JG0: Matrix, JQ0: Matrix, IG0: Vector,
                   FQ0: Vector, IR0: Vector, QR0: Vector,
                   JG: Matrix, JQ: Matrix, IG: Vector, FQ: Vector, IR: Vector, QR: Vector)
    requires f < n
    requires forall i, j :: 0 <= i < nodes * n && 0 <= j < nodes * n ==>
      && JG(i, j) == Add(JG0(i, j), SampleMatrix(n, devs, false, f, i, j, |devs|))
      && JQ(i, j) == Add(JQ0(i, j), SampleMatrix(n, devs, true, f, i, j, |devs|))
    requires forall i :: 0 <= i < nodes * n ==>
      && IG(i) == Sub(IG0(i), SampleVector(n, devs, Current, f, i, |devs|))
      && FQ(i) == Sub(FQ0(i), SampleVector(n, devs, Charge, f, i, |devs|))
      && IR(i) == Add(IR0(i), SampleVector(n, devs, CurrentRhs, f, i, |devs|))
      && QR(i) == Add(QR0(i), SampleVector(n, devs, ChargeRhs, f, i, |devs|))
    ensures IsSampleLoad(n, nodes, devs, f, JG0, JQ0, IG0, FQ0, IR0, QR0, JG, JQ, IG, FQ, IR, QR)
  {
    hide At, SampleVector, SampleMatrix, CurrentsAt, ChargesAt, ConductedAt, StoredAt, ConductanceBetween,
      CapacitanceBetween, AddedVector, AddedMatrix;
    forall a, b | 0 <= a < nodes && 0 <= b < nodes
      ensures SampleMatrix(n, devs, false, f, At(n, a, f), At(n, b, f), |devs|) == ConductanceBetween(devs, a, b)
      ensures SampleMatrix(n, devs, true, f, At(n, a, f), At(n, b, f), |devs|) == CapacitanceBetween(devs, a, b)
    {
      SampleMatricesAt(n, devs, a, b, f);
    }
    AddedMatrixBy(n, nodes, devs, false, f, (a, b) => ConductanceBetween(devs, a, b), JG0, JG);
    AddedMatrixBy(n, nodes, devs, true, f, (a, b) => CapacitanceBetween(devs, a, b), JQ0, JQ);
    forall a | 0 <= a < nodes
      ensures SampleVector(n, devs, Current, f, At(n, a, f), |devs|) == CurrentsAt(devs, a)
      ensures SampleVector(n, devs, Charge, f, At(n, a, f), |devs|) == ChargesAt(devs, a)
      ensures SampleVector(n, devs, CurrentRhs, f, At(n, a, f), |devs|)
           == Add(ConductedAt(devs, a), CurrentsAt(devs, a))
      ensures SampleVector(n, devs, ChargeRhs, f, At(n, a, f), |devs|) == Add(StoredAt(devs, a), ChargesAt(devs, a))
    {
      SampleVectorsAt(n, devs, a, f);
    }
    TakenVectorBy(n, nodes, devs, Current, f, a => Neg(CurrentsAt(devs, a)), IG0, IG);
    TakenVectorBy(n, nodes, devs, Charge, f, a => Neg(ChargesAt(devs, a)), FQ0, FQ);
    AddedVectorBy(n, nodes, devs, CurrentRhs, f, a => Add(ConductedAt(devs, a), CurrentsAt(devs, a)), IR0, IR);
    AddedVectorBy(n, nodes, devs, ChargeRhs, f, a => Add(StoredAt(devs, a), ChargesAt(devs, a)), QR0, QR);
  }

  lemma TakenVectorBy(n: nat, nodes: nat, devs: seq<Device>, kind: Kind, f: nat, x: Vector, V0: Vector, V: Vector)
    requires f < n && forall a :: 0 <= a < nodes ==> Neg(SampleVector(n, devs, kind, f, At(n, a, f), |devs|)) == x(a)
    requires forall i :: 0 <= i < nodes * n ==> V(i) == Sub(V0(i), SampleVector(n, devs, kind, f, i, |devs|))
    ensures AddedVector(n, nodes, f, x, V0, V)
  {
    hide At, SampleVector;
    forall a, k | 0 <= a < nodes && 0 <= k < n
      ensures V(At(n, a, k)) == if k == f then Add(V0(At(n, a, k)), x(a)) else V0(At(n, a, k))
    {
      AtBounds(n, a, k, nodes);
      if k != f { SampleVectorZero(n, devs, kind, f, a, k); }
    }
  }

  /** The time domain vectors at node a + 1 and sample k. */
  lemma TotalVectorsAt(n: nat, samples: seq<seq<Device>>, a: int, k: int)
    requires |samples| == n && 0 <= k < n && 0 <= a
    ensures var i, devs := At(n, a, k), samples[k];
      && TotalVector(n, samples, Current, i, n) == CurrentsAt(devs, a)
      && TotalVector(n, samples, Charge, i, n) == ChargesAt(devs, a)
      && TotalVector(n, samples, CurrentRhs, i, n) == Add(ConductedAt(devs, a), CurrentsAt(devs, a))
      && TotalVector(n, samples, ChargeRhs, i, n) == Add(StoredAt(devs, a), ChargesAt(devs, a))
  {
    hide At, TotalVector, SampleVector, CurrentsAt, ChargesAt, ConductedAt, StoredAt;
    forall kind
      ensures TotalVector(n, samples, kind, At(n, a, k), n)
           == SampleVector(n, samples[k], kind, k, At(n, a, k), |samples[k]|)
    {
      TotalVectorBySample(n, samples, kind, a, k);
    }
    SampleVectorsAt(n, samples[k], a, k);
  }

  /** The time domain matrices between nodes a + 1 and b + 1, which are zero between
      different samples. */
  lemma TotalMatricesAt(n: nat, samples: seq<seq<Device>>, a: int, k: int, b: int, l: int)
    requires |samples| == n && 0 <= k < n && 0 <= l < n && 0 <= a && 0 <= b
    ensures var i, j := At(n, a, k), At(n, b, l);
      && TotalMatrix(n, samples, false, i, j, n) == (if k == l then ConductanceBetween(samples[k], a, b) else Zero)
      && TotalMatrix(n, samples, true, i, j, n) == (if k == l then CapacitanceBetween(samples[k], a, b) else Zero)
  {
    hide At, TotalMatrix, SampleMatrix, ConductanceBetween, CapacitanceBetween;
    TotalsBySample(n, samples, false, a, k, b, l);
    TotalsBySample(n, samples, true, a, k, b, l);
    if k == l { SampleMatricesAt(n, samples[k], a, b, k); }
  }

  // ----- what the solver holds -----

  /** The matrices and vectors that the solver loads, node by node and sample by sample. */
  ghost predicate IsLoad(n: nat, nodes: nat, samples: seq<seq<Device>>, JG: Matrix, JQ: Matrix,
                         IG: Vector, FQ: Vector, IR: Vector, QR: Vector)
    requires |samples| == n
  {
    && (forall a, b, k, l :: 0 <= a < nodes && 0 <= b < nodes && 0 <= k < n && 0 <= l < n ==>
          && JG(At(n, a, k), At(n, b, l)) == (if k == l then ConductanceBetween(samples[k], a, b) else Zero)
          && JQ(At(n, a, k), At(n, b, l)) == (if k == l then CapacitanceBetween(samples[k], a, b) else Zero))
    && (forall a, k :: 0 <= a < nodes && 0 <= k < n ==>
          && IG(At(n, a, k)) == Neg(CurrentsAt(samples[k], a))
          && FQ(At(n, a, k)) == Neg(ChargesAt(samples[k], a))
          && IR(At(n, a, k)) == Add(ConductedAt(samples[k], a), CurrentsAt(samples[k], a))
          && QR(At(n, a, k)) == Add(StoredAt(samples[k], a), ChargesAt(samples[k], a)))
  }

  /** The sums over samples, devices and terminals are these loads. */
  lemma LoadByNode(n: nat, nodes: nat, samples: seq<seq<Device>>, JG: Matrix, JQ: Matrix,
                   IG: Vector, FQ: Vector, IR: Vector, QR: Vector)
    requires |samples| == n
    requires forall i, j :: 0 <= i < nodes * n && 0 <= j < nodes * n ==>
      JG(i, j) == TotalMatrix(n, samples, false, i, j, n) && JQ(i, j) == TotalMatrix(n, samples, true, i, j, n)
    requires forall i :: 0 <= i < nodes * n ==>
      && IG(i) == Neg(TotalVector(n, samples, Current, i, n)) && FQ(i) == Neg(TotalVector(n, samples, Charge, i, n))
      && IR(i) == TotalVector(n, samples, CurrentRhs, i, n) && QR(i) == TotalVector(n, samples, ChargeRhs, i, n)
    ensures IsLoad(n, nodes, samples, JG, JQ, IG, FQ, IR, QR)
  {
    hide At, TotalVector, TotalMatrix, CurrentsAt, ChargesAt, ConductedAt, StoredAt, ConductanceBetween,
      CapacitanceBetween;
    forall a, k | 0 <= a < nodes && 0 <= k < n ensures 0 <= At(n, a, k) < nodes * n { AtBounds(n, a, k, nodes); }
    forall a, b, k, l | 0 <= a < nodes && 0 <= b < nodes && 0 <= k < n && 0 <= l < n
      ensures JG(At(n, a, k), At(n, b, l)) == (if k == l then ConductanceBetween(samples[k], a, b) else Zero)
      ensures JQ(At(n, a, k), At(n, b, l)) == (if k == l then CapacitanceBetween(samples[k], a, b) else Zero)
    {
      TotalMatricesAt(n, samples, a, k, b, l);
    }
    forall a, k | 0 <= a < nodes && 0 <= k < n
      ensures IG(At(n, a, k)) == Neg(CurrentsAt(samples[k], a)) && FQ(At(n, a, k)) == Neg(ChargesAt(samples[k], a))
      ensures IR(At(n, a, k)) == Add(ConductedAt(samples[k], a), CurrentsAt(samples[k], a))
      ensures QR(At(n, a, k)) == Add(StoredAt(samples[k], a), ChargesAt(samples[k], a))
    {
      TotalVectorsAt(n, samples, a, k);
    }
  }

  /** The signals at a node: minus the currents, minus the charges, and the right hand sides. */
  function CurrentSignal(samples: seq<seq<Device>>, a: int): Vector {
    k => if 0 <= k < |samples| then Neg(CurrentsAt(samples[k], a)) else Zero
  }

  function ChargeSignal(samples: seq<seq<Device>>, a: int): Vector {
    k => if 0 <= k < |samples| then Neg(ChargesAt(samples[k], a)) else Zero
  }

  function CurrentRhsSignal(samples: seq<seq<Device>>, a: int): Vector {
    k => if 0 <= k < |samples| then Add(ConductedAt(samples[k], a), CurrentsAt(samples[k], a)) else Zero
  }

  function ChargeRhsSignal(samples: seq<seq<Device>>, a: int): Vector {
    k => if 0 <= k < |samples| then Add(StoredAt(samples[k], a), ChargesAt(samples[k], a)) else Zero
  }

  /** The vectors of the solver are the spectra of the signals at the nodes. */
  ghost predicate IsSpectrumOf(t: Trig, n: nat, nodes: nat, signal: int -> Vector, V: Vector)
    requires n > 0
  {
    forall a, f :: 0 <= a < nodes && 0 <= f < n ==> V(At(n, a, f)) == Spectrum(t, 1, n, signal(a), f)
  }

  ghost predicate DeviceSpectra(t: Trig, n: nat, nodes: nat, samples: seq<seq<Device>>,
                                IG: Vector, FQ: Vector, IR: Vector, QR: Vector)
    requires n > 0
  {
    && IsSpectrumOf(t, n, nodes, a => CurrentSignal(samples, a), IG)
    && IsSpectrumOf(t, n, nodes, a => ChargeSignal(samples, a), FQ)
    && IsSpectrumOf(t, n, nodes, a => CurrentRhsSignal(samples, a), IR)
    && IsSpectrumOf(t, n, nodes, a => ChargeRhsSignal(samples, a), QR)
  }

  /** Transformed blocks are the spectra of the signals they hold. */
  lemma BlockSpectra(t: Trig, n: nat, nodes: nat, V: Vector, V': Vector, signal: int -> Vector)
    requires n > 0 && BlocksTransformed(t, 1, n, nodes, V, V')
    requires forall a, k :: 0 <= a < nodes && 0 <= k < n ==> V(At(n, a, k)) == signal(a)(k)
    ensures IsSpectrumOf(t, n, nodes, signal, V')
  {
    hide At, Dft, Div;
    forall a, f | 0 <= a < nodes && 0 <= f < n ensures V'(At(n, a, f)) == Spectrum(t, 1, n, signal(a), f) {
      DftExt(t, 1, n, NodeBlock(n, V, a), signal(a), f);
    }
  }

  /** Circuits that report neither charges nor products with capacitances. */
  ghost predicate NoCharges(samples: seq<seq<Device>>) {
    forall k, d, r :: 0 <= k < |samples| && 0 <= d < |samples[k]| && 0 <= r < |samples[k][d].nodes| ==>
      samples[k][d].Q(r) == Zero == samples[k][d].CV(r)
  }

  /** Circuits that report neither currents nor products with conductances. */
  ghost predicate NoCurrents(samples: seq<seq<Device>>) {
    forall k, d, r :: 0 <= k < |samples| && 0 <= d < |samples[k]| && 0 <= r < |samples[k][d].nodes| ==>
      samples[k][d].I(r) == Zero == samples[k][d].GV(r)
  }

  lemma NothingAt(dev: Device, x: Vector, a: int)
    requires forall r :: 0 <= r < |dev.nodes| ==> x(r) == Zero
    ensures TerminalSum(dev, x, a) == Zero
  {
    SumZero(|dev.nodes|, r => if IsAt(dev, r, a) then x(r) else Zero);
  }

  lemma NothingStored(samples: seq<seq<Device>>, a: int, k: int)
    requires NoCharges(samples)
    ensures ChargeSignal(samples, a)(k) == Zero == ChargeRhsSignal(samples, a)(k)
  {
    if 0 <= k < |samples| {
      var devs := samples[k];
      hide TerminalSum;
      forall d | 0 <= d < |devs|
        ensures TerminalSum(devs[d], devs[d].Q, a) == Zero == TerminalSum(devs[d], devs[d].CV, a)
      {
        NothingAt(devs[d], devs[d].Q, a);
        NothingAt(devs[d], devs[d].CV, a);
      }
      SumZero(|devs|, d => if 0 <= d < |devs| then TerminalSum(devs[d], devs[d].Q, a) else Zero);
      SumZero(|devs|, d => if 0 <= d < |devs| then TerminalSum(devs[d], devs[d].CV, a) else Zero);
    }
  }

  lemma NothingConducted(samples: seq<seq<Device>>, a: int, k: int)
    requires NoCurrents(samples)
    ensures CurrentSignal(samples, a)(k) == Zero == CurrentRhsSignal(samples, a)(k)
  {
    if 0 <= k < |samples| {
      var devs := samples[k];
      hide TerminalSum;
      forall d | 0 <= d < |devs|
        ensures TerminalSum(devs[d], devs[d].I, a) == Zero == TerminalSum(devs[d], devs[d].GV, a)
      {
        NothingAt(devs[d], devs[d].I, a);
        NothingAt(devs[d], devs[d].GV, a);
      }
      SumZero(|devs|, d => if 0 <= d < |devs| then TerminalSum(devs[d], devs[d].I, a) else Zero);
      SumZero(|devs|, d => if 0 <= d < |devs| then TerminalSum(devs[d], devs[d].GV, a) else Zero);
    }
  }
}
