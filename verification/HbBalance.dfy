/** The identity behind the Newton step of the harmonic balance: in the time domain the
    Jacobians times the voltages are what the circuits report as products, and the
    transforms carry this over to the frequency domain. */
module HbBalance {
  import opened ComplexNumbers
  import opened Sums
  import opened LinearAlgebra
  import opened HbTransforms
  import opened HbLoad

  // ----- time samples do not mix -----

  lemma AtInjective(n: nat, r: int, f: int, r': int, f': int)
    requires 0 <= f < n && 0 <= f' < n && 0 <= r && 0 <= r'
    ensures At(n, r, f) == At(n, r', f') <==> r == r' && f == f'
  {
    AtBounds(n, r, f, r + 1);
    AtBounds(n, r', f', r' + 1);
    AtOrder(n, r, f, r');
  }

  /** A terminal sits at an entry of node a exactly when it is at that node and sample. */
  lemma PinAt(n: nat, dev: Device, k: int, f: int, a: int, g: int)
    requires 0 <= f < n && 0 <= g < n && 0 <= a
    ensures dev.Pin(n, k, f) == At(n, a, g) <==> f == g && 0 <= k < |dev.nodes| && dev.nodes[k] == a + 1
  {
    AtBounds(n, a, g, a + 1);
    if 0 <= k < |dev.nodes| && dev.nodes[k] > 0 {
      AtInjective(n, dev.nodes[k] - 1, f, a, g);
    }
  }

  lemma RowShareZero(n: nat, dev: Device, A: Matrix, r: int, f: int, a: int, k: int, b: int, l: int)
    requires 0 <= f < n && 0 <= k < n && 0 <= l < n && 0 <= a && 0 <= b && (f != k || f != l)
    ensures RowShare(n, dev, A, r, f, At(n, a, k), At(n, b, l), |dev.nodes|) == Zero
  {
    hide At, Device.Pin;
    var i, j := At(n, a, k), At(n, b, l);
    PinAt(n, dev, r, f, a, k);
    var g := (c: int) => if j == dev.Pin(n, c, f) then A(r, c) else Zero;
    if f == k {
      forall c | 0 <= c < |dev.nodes| ensures g(c) == Zero { PinAt(n, dev, c, f, b, l); }
      SumZero(|dev.nodes|, g);
    }
  }

  lemma SampleMatrixZero(n: nat, devs: seq<Device>, charge: bool, f: int, a: int, k: int, b: int, l: int)
    requires 0 <= f < n && 0 <= k < n && 0 <= l < n && 0 <= a && 0 <= b && (f != k || f != l)
    ensures SampleMatrix(n, devs, charge, f, At(n, a, k), At(n, b, l), |devs|) == Zero
  {
    hide At, RowShare;
    var i, j := At(n, a, k), At(n, b, l);
    var g := (d: int) =>
      if 0 <= d < |devs| then DeviceMatrix(n, devs[d], DeviceJacobian(devs[d], charge), f, i, j, |devs[d].nodes|)
      else Zero;
    forall d | 0 <= d < |devs| ensures g(d) == Zero {
      var dev, A := devs[d], DeviceJacobian(devs[d], charge);
      var h := (r: int) => RowShare(n, dev, A, r, f, i, j, |dev.nodes|);
      forall r | 0 <= r < |dev.nodes| ensures h(r) == Zero { RowShareZero(n, dev, A, r, f, a, k, b, l); }
      SumZero(|dev.nodes|, h);
    }
    SumZero(|devs|, g);
  }

  lemma SampleVectorZero(n: nat, devs: seq<Device>, kind: Kind, f: int, a: int, k: int)
    requires 0 <= f < n && 0 <= k < n && 0 <= a && f != k
    ensures SampleVector(n, devs, kind, f, At(n, a, k), |devs|) == Zero
  {
    hide At, Device.Pin, Terminals;
    var i := At(n, a, k);
    var g := (d: int) =>
      if 0 <= d < |devs| then DeviceVector(n, devs[d], Terminals(devs[d], kind), f, i, |devs[d].nodes|) else Zero;
    forall d | 0 <= d < |devs| ensures g(d) == Zero {
      var dev, x := devs[d], Terminals(devs[d], kind);
      var h := (r: int) => if i == dev.Pin(n, r, f) then x(r) else Zero;
      forall r | 0 <= r < |dev.nodes| ensures h(r) == Zero { PinAt(n, dev, r, f, a, k); }
      SumZero(|dev.nodes|, h);
    }
    SumZero(|devs|, g);
  }

  /** Only sample k contributes to the entries of sample k, and none to mixed ones. */
  lemma TotalsBySample(n: nat, samples: seq<seq<Device>>, charge: bool, a: int, k: int, b: int, l: int)
    requires |samples| == n && 0 <= k < n && 0 <= l < n && 0 <= a && 0 <= b
    ensures TotalMatrix(n, samples, charge, At(n, a, k), At(n, b, l), n)
         == if k == l then SampleMatrix(n, samples[k], charge, k, At(n, a, k), At(n, b, l), |samples[k]|) else Zero
  {
    hide At, SampleMatrix;
    var i, j := At(n, a, k), At(n, b, l);
    var g := (f: int) =>
      if 0 <= f < |samples| then SampleMatrix(n, samples[f], charge, f, i, j, |samples[f]|) else Zero;
    forall f | 0 <= f < n && (f != k || f != l) ensures g(f) == Zero {
      SampleMatrixZero(n, samples[f], charge, f, a, k, b, l);
    }
    if k == l {
      SumOnly(n, k, g);
    } else {
      SumZero(n, g);
    }
  }

  lemma TotalVectorBySample(n: nat, samples: seq<seq<Device>>, kind: Kind, a: int, k: int)
    requires |samples| == n && 0 <= k < n && 0 <= a
    ensures TotalVector(n, samples, kind, At(n, a, k), n)
         == SampleVector(n, samples[k], kind, k, At(n, a, k), |samples[k]|)
  {
    hide At, SampleVector;
    var i := At(n, a, k);
    var g := (f: int) => if 0 <= f < |samples| then SampleVector(n, samples[f], kind, f, i, |samples[f]|) else Zero;
    forall f | 0 <= f < n && f != k ensures g(f) == Zero { SampleVectorZero(n, samples[f], kind, f, a, k); }
    SumOnly(n, k, g);
  }

  // ----- Jacobians times voltages, at one sample -----

  /** The voltage of terminal c, zero at ground. */
  function TerminalVoltage(dev: Device, c: int, v: Vector): Complex {
    if 0 <= c < |dev.nodes| && dev.nodes[c] > 0 then v(dev.nodes[c] - 1) else Zero
  }

  /** The device reports the products of its matrix A with its terminal voltages. */
  ghost predicate Reports(dev: Device, A: Matrix, product: Vector, v: Vector) {
    forall r :: 0 <= r < |dev.nodes| ==> product(r) == Sum(|dev.nodes|, c => Mul(A(r, c), TerminalVoltage(dev, c, v)))
  }

  /** Adding two sets of weights. */
  lemma WeightedAdd(m: nat, g: int -> Complex, h: int -> Complex, k: int -> Complex, v: Vector)
    requires forall b :: 0 <= b < m ==> k(b) == Add(g(b), h(b))
    ensures Sum(m, b => Mul(k(b), v(b))) == Add(Sum(m, b => Mul(g(b), v(b))), Sum(m, b => Mul(h(b), v(b))))
  {
    hide Mul;
    var x, y := (b: int) => Mul(g(b), v(b)), (b: int) => Mul(h(b), v(b));
    forall b | 0 <= b < m ensures Mul(k(b), v(b)) == Add(x(b), y(b)) { AddMul(g(b), h(b), v(b)); }
    SumExt(m, b => Mul(k(b), v(b)), b => Add(x(b), y(b)));
    SumAdd(m, x, y);
  }

  lemma WeightedZero(m: nat, g: int -> Complex, v: Vector)
    requires forall b :: 0 <= b < m ==> g(b) == Zero
    ensures Sum(m, b => Mul(g(b), v(b))) == Zero
  {
    hide Mul;
    var x := (b: int) => Mul(g(b), v(b));
    forall b | 0 <= b < m ensures x(b) == Zero { MulUnits(v(b)); }
    SumZero(m, x);
  }

  /** One cell of a row meets the voltage of its column's node. */
  lemma CellBalance(n: nat, nodes: nat, dev: Device, y: Complex, f: int, c: int, v: Vector, g: int -> Complex)
    requires 0 <= f < n && dev.Valid(nodes) && 0 <= c < |dev.nodes|
    requires forall b :: 0 <= b < nodes ==> g(b) == if At(n, b, f) == dev.Pin(n, c, f) then y else Zero
    ensures Sum(nodes, b => Mul(g(b), v(b))) == Mul(y, TerminalVoltage(dev, c, v))
  {
    hide Mul, At, Device.Pin;
    var x := (b: int) => Mul(g(b), v(b));
    forall b | 0 <= b < nodes ensures x(b) == if dev.nodes[c] == b + 1 then Mul(y, v(b)) else Zero {
      PinAt(n, dev, c, f, b, f);
      MulUnits(v(b));
    }
    if dev.nodes[c] > 0 {
      SumOnly(nodes, dev.nodes[c] - 1, x);
    } else {
      SumZero(nodes, x);
      MulUnits(y);
    }
  }

  /** The first m cells of row r, weighted by the node voltages. */
  lemma {:induction false} CellsBalance(n: nat, nodes: nat, dev: Device, A: Matrix, r: int, f: int, v: Vector, m: nat,
                                        g: int -> Complex)
    requires 0 <= f < n && dev.Valid(nodes) && m <= |dev.nodes|
    requires forall b :: 0 <= b < nodes ==>
      g(b) == Sum(m, c => if At(n, b, f) == dev.Pin(n, c, f) then A(r, c) else Zero)
    ensures Sum(nodes, b => Mul(g(b), v(b))) == Sum(m, c => Mul(A(r, c), TerminalVoltage(dev, c, v)))
  {
    hide Mul, At, Device.Pin;
    if m == 0 {
      WeightedZero(nodes, g, v);
    } else {
      var p := (b: int) => Sum(m - 1, c => if At(n, b, f) == dev.Pin(n, c, f) then A(r, c) else Zero);
      var q := (b: int) => if At(n, b, f) == dev.Pin(n, m - 1, f) then A(r, m - 1) else Zero;
      CellsBalance(n, nodes, dev, A, r, f, v, m - 1, p);
      CellBalance(n, nodes, dev, A(r, m - 1), f, m - 1, v, q);
      WeightedAdd(nodes, p, q, g, v);
    }
  }

  lemma RowBalance(n: nat, nodes: nat, dev: Device, A: Matrix, product: Vector, r: int, f: int, a: int, v: Vector,
                   g: int -> Complex)
    requires 0 <= f < n && dev.Valid(nodes) && 0 <= r < |dev.nodes| && Reports(dev, A, product, v)
    requires forall b :: 0 <= b < nodes ==> g(b) == RowShare(n, dev, A, r, f, At(n, a, f), At(n, b, f), |dev.nodes|)
    ensures Sum(nodes, b => Mul(g(b), v(b))) == if At(n, a, f) == dev.Pin(n, r, f) then product(r) else Zero
  {
    hide Mul, At, Device.Pin;
    if At(n, a, f) == dev.Pin(n, r, f) {
      CellsBalance(n, nodes, dev, A, r, f, v, |dev.nodes|, g);
    } else {
      WeightedZero(nodes, g, v);
    }
  }

  lemma {:induction false} DeviceBalance(n: nat, nodes: nat, dev: Device, A: Matrix, product: Vector, f: int, a: int,
                                         v: Vector, m: nat, g: int -> Complex)
    requires 0 <= f < n && dev.Valid(nodes) && m <= |dev.nodes| && Reports(dev, A, product, v)
    requires forall b :: 0 <= b < nodes ==> g(b) == DeviceMatrix(n, dev, A, f, At(n, a, f), At(n, b, f), m)
    ensures Sum(nodes, b => Mul(g(b), v(b))) == DeviceVector(n, dev, product, f, At(n, a, f), m)
  {
    hide Mul, At, Device.Pin, RowShare;
    if m == 0 {
      WeightedZero(nodes, g, v);
    } else {
      var p := (b: int) => DeviceMatrix(n, dev, A, f, At(n, a, f), At(n, b, f), m - 1);
      var q := (b: int) => RowShare(n, dev, A, m - 1, f, At(n, a, f), At(n, b, f), |dev.nodes|);
      DeviceBalance(n, nodes, dev, A, product, f, a, v, m - 1, p);
      RowBalance(n, nodes, dev, A, product, m - 1, f, a, v, q);
      WeightedAdd(nodes, p, q, g, v);
    }
  }

  /** What the device reports as products. */
  function Products(dev: Device, charge: bool): Vector {
    if charge then dev.CV else dev.GV
  }

  /** Every device of the sample reports its products with the voltages v. */
  ghost predicate SampleReports(devs: seq<Device>, v: Vector) {
    forall d, charge :: 0 <= d < |devs| ==>
      Reports(devs[d], DeviceJacobian(devs[d], charge), Products(devs[d], charge), v)
  }

  function Plain(charge: bool): Kind { if charge then Charge else Current }

  function Rhs(charge: bool): Kind { if charge then ChargeRhs else CurrentRhs }

  lemma {:induction false} DeviceVectorAdd(n: nat, dev: Device, x: Vector, y: Vector, z: Vector, f: int, i: int, m: nat)
    requires forall r :: z(r) == Add(x(r), y(r))
    ensures DeviceVector(n, dev, z, f, i, m) == Add(DeviceVector(n, dev, x, f, i, m), DeviceVector(n, dev, y, f, i, m))
  {
    hide Device.Pin;
    if m > 0 {
      DeviceVectorAdd(n, dev, x, y, z, f, i, m - 1);
    }
  }

  /** The right hand side terms are the plain terms plus the products. */
  lemma RhsSplit(n: nat, dev: Device, charge: bool, f: int, i: int, m: nat)
    ensures DeviceVector(n, dev, Terminals(dev, Rhs(charge)), f, i, m)
         == Add(DeviceVector(n, dev, Terminals(dev, Plain(charge)), f, i, m),
                DeviceVector(n, dev, Products(dev, charge), f, i, m))
  {
    hide DeviceVector;
    DeviceVectorAdd(n, dev, Terminals(dev, Plain(charge)), Products(dev, charge), Terminals(dev, Rhs(charge)), f, i, m);
  }

  lemma SampleMatrixStep(n: nat, devs: seq<Device>, charge: bool, f: int, i: int, j: int, m: nat)
    requires 0 < m <= |devs|
    ensures SampleMatrix(n, devs, charge, f, i, j, m)
         == Add(SampleMatrix(n, devs, charge, f, i, j, m - 1),
                DeviceMatrix(n, devs[m - 1], DeviceJacobian(devs[m - 1], charge), f, i, j, |devs[m - 1].nodes|))
  {
    hide DeviceMatrix;
  }

  lemma SampleVectorStep(n: nat, devs: seq<Device>, kind: Kind, f: int, i: int, m: nat)
    requires 0 < m <= |devs|
    ensures SampleVector(n, devs, kind, f, i, m)
         == Add(SampleVector(n, devs, kind, f, i, m - 1),
                DeviceVector(n, devs[m - 1], Terminals(devs[m - 1], kind), f, i, |devs[m - 1].nodes|))
  {
    hide DeviceVector;
  }

  lemma NoDevices(n: nat, devs: seq<Device>, charge: bool, f: int)
    ensures forall i, j :: SampleMatrix(n, devs, charge, f, i, j, 0) == Zero
    ensures forall kind, i :: SampleVector(n, devs, kind, f, i, 0) == Zero
  {}

  /** In the time domain, Jacobian times voltages is the right hand side less the plain term. */
  lemma {:induction false} SampleBalance(n: nat, nodes: nat, devs: seq<Device>, charge: bool, f: int, a: int, v: Vector,
                                         m: nat, g: int -> Complex)
    requires 0 <= f < n && m <= |devs| && SampleReports(devs, v)
    requires forall d :: 0 <= d < |devs| ==> devs[d].Valid(nodes)
    requires forall b :: 0 <= b < nodes ==> g(b) == SampleMatrix(n, devs, charge, f, At(n, a, f), At(n, b, f), m)
    ensures Sum(nodes, b => Mul(g(b), v(b)))
         == Sub(SampleVector(n, devs, Rhs(charge), f, At(n, a, f), m),
                SampleVector(n, devs, Plain(charge), f, At(n, a, f), m))
  {
    hide Mul, At, DeviceMatrix, DeviceVector, Terminals, Reports, Rhs, Plain, Products, DeviceJacobian, Sum,
      SampleMatrix, SampleVector, Device.Valid;
    if m == 0 {
      NoDevices(n, devs, charge, f);
      WeightedZero(nodes, g, v);
    } else {
      var dev, i := devs[m - 1], At(n, a, f);
      var A := DeviceJacobian(dev, charge);
      var p := (b: int) => SampleMatrix(n, devs, charge, f, i, At(n, b, f), m - 1);
      var q := (b: int) => DeviceMatrix(n, dev, A, f, i, At(n, b, f), |dev.nodes|);
      SampleBalance(n, nodes, devs, charge, f, a, v, m - 1, p);
      DeviceBalance(n, nodes, dev, A, Products(dev, charge), f, a, v, |dev.nodes|, q);
      forall b | 0 <= b < nodes ensures g(b) == Add(p(b), q(b)) {
        SampleMatrixStep(n, devs, charge, f, i, At(n, b, f), m);
      }
      WeightedAdd(nodes, p, q, g, v);
      RhsSplit(n, dev, charge, f, i, |dev.nodes|);
      SampleVectorStep(n, devs, Rhs(charge), f, i, m);
      SampleVectorStep(n, devs, Plain(charge), f, i, m);
    }
  }
}
