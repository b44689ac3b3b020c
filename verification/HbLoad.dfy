/** What the non-linear circuits add to the matrices and vectors of the harmonic balance
    solver for every time sample. */
module HbLoad {
  import opened ComplexNumbers
  import opened Sums
  import opened LinearAlgebra
  import opened HbTransforms

  /** What a non-linear circuit reports for one time sample: the nodes of its terminals
      (zero for ground), conductances and capacitances, currents and charges, and the
      products of conductances and capacitances with its voltages. */
  datatype Device = Device(nodes: seq<nat>, Y: Matrix, QV: Matrix, I: Vector, Q: Vector, GV: Vector, CV: Vector) {
    ghost predicate Valid(nodeCount: nat) {
      forall k :: 0 <= k < |nodes| ==> nodes[k] <= nodeCount
    }

    /** The vector index of terminal k at sample f, -1 for ground. */
    function Pin(n: nat, k: int, f: int): int {
      if 0 <= k < |nodes| && nodes[k] > 0 then At(n, nodes[k] - 1, f) else -1
    }
  }

  // ----- what one sample adds to the matrices and vectors -----

  /** The first m terminals' share of row r of a device matrix A, at entry (i, j). */
  function RowShare(n: nat, dev: Device, A: Matrix, r: int, f: int, i: int, j: int, m: nat): Complex {
    if i == dev.Pin(n, r, f) then Sum(m, c => if j == dev.Pin(n, c, f) then A(r, c) else Zero) else Zero
  }

  /** What the first m terminals of the device add to entry (i, j). */
  function DeviceMatrix(n: nat, dev: Device, A: Matrix, f: int, i: int, j: int, m: nat): Complex {
    Sum(m, r => RowShare(n, dev, A, r, f, i, j, |dev.nodes|))
  }

  function DeviceVector(n: nat, dev: Device, x: Vector, f: int, i: int, m: nat): Complex {
    Sum(m, r => if i == dev.Pin(n, r, f) then x(r) else Zero)
  }

  /** The vectors that the devices contribute to. */
  datatype Kind = Current | Charge | CurrentRhs | ChargeRhs

  function Terminals(dev: Device, kind: Kind): Vector {
    match kind
    case Current => dev.I
    case Charge => dev.Q
    case CurrentRhs => k => Add(dev.GV(k), dev.I(k))
    case ChargeRhs => k => Add(dev.CV(k), dev.Q(k))
  }

  function DeviceJacobian(dev: Device, charge: bool): Matrix {
    if charge then dev.QV else dev.Y
  }

  /** What the first m devices add for sample f. */
  function SampleMatrix(n: nat, devs: seq<Device>, charge: bool, f: int, i: int, j: int, m: nat): Complex {
    Sum(m, d =>
      if 0 <= d < |devs| then DeviceMatrix(n, devs[d], DeviceJacobian(devs[d], charge), f, i, j, |devs[d].nodes|)
      else Zero)
  }

  function SampleVector(n: nat, devs: seq<Device>, kind: Kind, f: int, i: int, m: nat): Complex {
    Sum(m, d =>
      if 0 <= d < |devs| then DeviceVector(n, devs[d], Terminals(devs[d], kind), f, i, |devs[d].nodes|) else Zero)
  }

  /** What the first m time samples add up to. */
  function TotalMatrix(n: nat, samples: seq<seq<Device>>, charge: bool, i: int, j: int, m: nat): Complex {
    Sum(m, f => if 0 <= f < |samples| then SampleMatrix(n, samples[f], charge, f, i, j, |samples[f]|) else Zero)
  }

  function TotalVector(n: nat, samples: seq<seq<Device>>, kind: Kind, i: int, m: nat): Complex {
    Sum(m, f => if 0 <= f < |samples| then SampleVector(n, samples[f], kind, f, i, |samples[f]|) else Zero)
  }

  lemma NegSums()
    ensures forall a: Complex, b: Complex :: Sub(Neg(a), b) == Neg(Add(a, b))
  {}

  lemma NoSamples(n: nat, samples: seq<seq<Device>>)
    ensures forall charge, i, j :: TotalMatrix(n, samples, charge, i, j, 0) == Zero
    ensures forall kind, i :: TotalVector(n, samples, kind, i, 0) == Zero
  {}

  lemma NextSample(n: nat, samples: seq<seq<Device>>, f: nat, next: nat)
    requires f < |samples| && next == f + 1
    ensures forall charge, i, j ::
      TotalMatrix(n, samples, charge, i, j, next)
      == Add(TotalMatrix(n, samples, charge, i, j, f), SampleMatrix(n, samples[f], charge, f, i, j, |samples[f]|))
    ensures forall kind, i ::
      TotalVector(n, samples, kind, i, next)
      == Add(TotalVector(n, samples, kind, i, f), SampleVector(n, samples[f], kind, f, i, |samples[f]|))
  {
    hide SampleMatrix, SampleVector;
  }

  ghost predicate ValidSamples(samples: seq<seq<Device>>, nodes: nat) {
    forall f, d :: 0 <= f < |samples| && 0 <= d < |samples[f]| ==> samples[f][d].Valid(nodes)
  }

  lemma GroundRow(n: nat, dev: Device, A: Matrix, r: int, f: int, i: int, j: int)
    requires i != dev.Pin(n, r, f)
    ensures RowShare(n, dev, A, r, f, i, j, |dev.nodes|) == Zero
  {}
}
