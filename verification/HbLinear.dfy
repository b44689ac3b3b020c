/** The linear part of the harmonic balance solver. */
module HbLinear {
  import opened Integers
  import opened ComplexNumbers
  import opened Sums
  import opened LinearAlgebra
  import opened Lu
  import opened EqnSystem
  import opened Ports

  /** Unit vector c. */
  function Unit(c: int): Vector {
    i => if i == c then One else Zero
  }

  /** Solves for column c of the inverse with the factors that `eqns` holds. */
  method InverseColumn(eqns: EqnSys, A: array2<Complex>, x: array<Complex>, z: array<Complex>, c: nat, ghost M: Matrix)
    requires eqns.Valid() && eqns.A == A && eqns.N == A.Length0 && eqns.PackedCrout(M)
    requires x.Length == z.Length == eqns.N && x != z && c < eqns.N
    modifies eqns, x, z
    ensures eqns.Valid() && eqns.A == A && eqns.N == old(eqns.N) && eqns.rMap == old(eqns.rMap)
    ensures eqns.PackedCrout(M)
    ensures Solves(eqns.N, M, Elements(x), Unit(c))
  {
    hide IsModulus, Apply, Factors, IsLower, IsUpper;
    ghost var w, p := Entries(A), eqns.rMap[..];
    forall k | 0 <= k < z.Length { z[k] := Zero; }
    z[c] := One;
    eqns.PassEquationSys(A, x, z);
    assert Entries(A) == w && eqns.rMap[..] == p;
    eqns.SubstituteLuCrout(M);
    assert Entries(A) == w && eqns.rMap[..] == p;
    assert forall k :: 0 <= k < eqns.N ==> Elements(eqns.B)(k) == Unit(c)(k);
  }

  /** Inverts A into H by one factorization and a substitution for every column. */
  method InvertMatrix(abs: Complex -> real, A: array2<Complex>, H: array2<Complex>) returns (singular: set<int>)
    requires IsModulus(abs) && A != H
    requires A.Length0 == A.Length1 == H.Length0 == H.Length1
    modifies A, H
    ensures singular == {} <==> Nonsingular(A.Length0, old(Entries(A)))
    ensures singular == {} ==> IsInverse(A.Length0, old(Entries(A)), Entries(H))
  {
    hide IsModulus, Apply, Solves, Nonsingular, Factors, IsLower, IsUpper, Product;
    var n := A.Length0;
    ghost var original := Entries(A);
    var x, z := new Complex[n], new Complex[n];
    var eqns := new EqnSys(abs);
    eqns.PassEquationSys(A, x, z);
    singular := eqns.FactorizeLuCrout();
    ghost var perm := eqns.rMap[..];
    ghost var M := WithResistances(original, perm, singular);
    for c := 0 to n
      invariant eqns.Valid() && eqns.A == A && eqns.N == n && eqns.PackedCrout(M)
      invariant fresh(eqns.rMap)
      invariant forall q :: 0 <= q < c ==> Solves(n, M, Column(Entries(H), q), Unit(q))
    {
      ghost var h := Entries(H);
      InverseColumn(eqns, A, x, z, c, M);
      ghost var w, p := Entries(A), eqns.rMap[..];
      SetColumn(H, c, x);
      assert Entries(A) == w && eqns.rMap[..] == p;
      forall q | 0 <= q <= c ensures Solves(n, M, Column(Entries(H), q), Unit(q)) {
        SolvesExt(n, M, if q == c then Elements(x) else Column(h, q), M, Column(Entries(H), q), Unit(q));
      }
    }
    if singular == {} {
      ColumnsInvert(n, original, M, Entries(H), perm);
    }
  }

  lemma ColumnsInvert(n: nat, A: Matrix, M: Matrix, H: Matrix, p: seq<int>)
    requires M == WithResistances(A, p, {})
    requires forall q :: 0 <= q < n ==> Solves(n, M, Column(H, q), Unit(q))
    ensures IsInverse(n, A, H)
  {
    hide Mul;
    forall r, q | 0 <= r < n && 0 <= q < n ensures Product(n, A, H, r, q) == if r == q then One else Zero {
      assert Apply(n, M, Column(H, q), r) == Unit(q)(r);
      SumExt(n, k => Mul(M(r, k), Column(H, q)(k)), k => Mul(A(r, k), H(k, q)));
    }
  }

  // ----- the ports of the linear network -----

  /** An excitation: the nodes of its two pins, zero for ground. */
  datatype Excitation = Excitation(pnode: nat, nnode: nat)

  /** The matrix indices of the two pins of a port, -1 for ground. */
  datatype Ends = Ends(pos: int, neg: int)

  /** The network: number of frequencies, of nodes and internal sources, of balanced
      nodes (the first ones), and the excitations. */
  datatype Network = Network(freqs: nat, nodes: nat, sources: nat, balanced: nat, excitations: seq<Excitation>) {

    ghost predicate Valid() {
      && freqs > 0 && balanced <= nodes
      && forall e :: e in excitations ==> e.pnode <= nodes && e.nnode <= nodes
    }

    /** Size of the MNA matrix. */
    function Size(): nat { (nodes + sources) * freqs }

    /** Number of ports at balanced nodes. */
    function NodePorts(): nat { balanced * freqs }

    function Ports(): nat { (balanced + |excitations|) * freqs }

    /** Index of node (or source) k at frequency f. */
    function At(k: int, f: int): int { k * freqs + f }

    function Pin(node: nat, f: int): int {
      if node == 0 then -1 else At(node - 1, f)
    }

    /** The pins of port q: the balanced nodes come first, then the excitations. */
    function PortEnds(q: int): Ends
      requires Valid() && 0 <= q < Ports()
    {
      if q < NodePorts() then Ends(q, -1)
      else
        PortIndex(q);
        var e := excitations[q / freqs - balanced];
        Ends(Pin(e.pnode, q % freqs), Pin(e.nnode, q % freqs))
    }

    lemma PortIndex(q: int)
      requires Valid() && NodePorts() <= q < Ports()
      ensures 0 <= q / freqs - balanced < |excitations|
    {
      DivBounds(q, freqs, balanced, balanced + |excitations|);
    }
  }

  /** Port At(balanced + v, f) is excitation v at frequency f. */
  lemma ExcitationPort(net: Network, v: nat, f: nat)
    requires net.Valid() && v < |net.excitations| && f < net.freqs
    ensures var q := net.At(net.balanced + v, f);
      && net.NodePorts() <= q < net.Ports()
      && net.PortEnds(q) == Ends(net.Pin(net.excitations[v].pnode, f), net.Pin(net.excitations[v].nnode, f))
  {
    var k, d := net.balanced + v, net.freqs;
    DivMod(k, f, d);
    Monotonic(net.balanced, k, d);
    Monotonic(k + 1, net.balanced + |net.excitations|, d);
    assert (k + 1) * d == k * d + d;
    hide Network.Pin;
  }

  /** The pins of a port lie within the matrix, at the frequency of the port. */
  lemma PinBounds(net: Network, node: nat, f: nat)
    requires net.Valid() && node <= net.nodes && f < net.freqs
    ensures -1 <= net.Pin(node, f) < net.Size()
    ensures node > 0 ==> net.Pin(node, f) >= 0 && net.Pin(node, f) % net.freqs == f
  {
    if node > 0 {
      var d := net.freqs;
      DivMod(node - 1, f, d);
      Monotonic(node, net.nodes + net.sources, d);
      Monotonic(0, node - 1, d);
      assert node * d == (node - 1) * d + d;
    } else {
      Monotonic(0, net.nodes + net.sources, net.freqs);
    }
  }

  lemma EndsBounds(net: Network, q: nat)
    requires net.Valid() && q < net.Ports()
    ensures var e := net.PortEnds(q);
      && -1 <= e.pos < net.Size() && -1 <= e.neg < net.Size()
      && (e.pos >= 0 ==> e.pos % net.freqs == q % net.freqs)
      && (e.neg >= 0 ==> e.neg % net.freqs == q % net.freqs)
  {
    if q < net.NodePorts() {
      Monotonic(net.balanced, net.nodes + net.sources, net.freqs);
    } else {
      net.PortIndex(q);
      var e := net.excitations[q / net.freqs - net.balanced];
      assert e in net.excitations;
      PinBounds(net, e.pnode, q % net.freqs);
      PinBounds(net, e.nnode, q % net.freqs);
    }
  }

  // ----- incidence -----

  /** The incidence vector of a port, at matrix index i. */
  function Incident(e: Ends, i: int): Complex {
    if i == e.pos && i != e.neg then One else if i == e.neg && i != e.pos then FromReal(-1.0) else Zero
  }

  /** The port incidence matrix. */
  ghost predicate IsIncidence(net: Network, E: Matrix)
    requires net.Valid()
  {
    forall i, q :: 0 <= i < net.Size() && 0 <= q < net.Ports() ==> E(i, q) == Incident(net.PortEnds(q), i)
  }

  /** The voltage across a port. */
  function PortVoltage(e: Ends, x: Vector): Complex {
    Sub(if e.pos >= 0 then x(e.pos) else Zero, if e.neg >= 0 then x(e.neg) else Zero)
  }

  lemma IncidentTerm(e: Ends, i: int, x: Complex)
    ensures Mul(Incident(e, i), x) == Sub(if i == e.pos then x else Zero, if i == e.neg then x else Zero)
  {
    hide Mul;
    MulUnits(x);
    MulNeg(One, x);
    assert Neg(One) == FromReal(-1.0);
  }

  lemma PickedSum(n: nat, a: int, x: Vector, f: Vector)
    requires -1 <= a < n && forall i :: 0 <= i < n ==> f(i) == if i == a then x(i) else Zero
    ensures Sum(n, f) == if a >= 0 then x(a) else Zero
  {
    if a >= 0 { SumOnly(n, a, f); } else { SumZero(n, f); }
  }

  lemma IncidenceApply(n: nat, E: Matrix, q: int, e: Ends, x: Vector)
    requires -1 <= e.pos < n && -1 <= e.neg < n
    requires forall i :: 0 <= i < n ==> E(i, q) == Incident(e, i)
    ensures Apply(n, Transposed(E), x, q) == PortVoltage(e, x)
  {
    var ET := Transposed(E);
    var t := (i: int) => Mul(ET(q, i), x(i));
    assert Apply(n, ET, x, q) == Sum(n, t);
    hide Mul, Incident, Sum, Apply;
    var f := (i: int) => if i == e.pos then x(i) else Zero;
    var g := (i: int) => if i == e.neg then x(i) else Zero;
    forall i | 0 <= i < n ensures t(i) == Sub(f(i), g(i)) {
      IncidentTerm(e, i, x(i));
    }
    SumExt(n, t, i => Sub(f(i), g(i)));
    SumSub(n, f, g);
    PickedSum(n, e.pos, x, f);
    PickedSum(n, e.neg, x, g);
  }

  // ----- loading the ports -----

  /** The conductance of the 100 Ohm resistors. */
  const G: Complex := FromReal(0.01)

  /** What a resistor between the pins of a port adds to entry (i, j). */
  function Stamp(e: Ends, i: int, j: int): Complex {
    if e.pos == e.neg || (i != e.pos && i != e.neg) || (j != e.pos && j != e.neg) then Zero
    else if i == j then G
    else Neg(G)
  }

  lemma StampIncidence(e: Ends, i: int, j: int)
    ensures Stamp(e, i, j) == Mul(G, Mul(Incident(e, i), Incident(e, j)))
  {
    hide Mul;
    var a, b := Incident(e, i), Incident(e, j);
    MulUnits(G);
    if a == Zero || b == Zero {
      MulUnits(a);
      MulUnits(b);
    } else {
      assert (a == One || a == Neg(One)) && (b == One || b == Neg(One));
      SignProduct(a, b);
      MulNeg(G, One);
    }
  }

  lemma SignProduct(a: Complex, b: Complex)
    requires (a == One || a == Neg(One)) && (b == One || b == Neg(One))
    ensures Mul(a, b) == if a == b then One else Neg(One)
  {}

  method AddAt(A: array2<Complex>, i: nat, j: nat, t: Complex)
    requires A.Length0 == A.Length1 && i < A.Length0 && j < A.Length1
    modifies A
    ensures AddedAt(A.Length0, old(Entries(A)), Entries(A), i, j, t)
  {
    A[i, j] := Add(A[i, j], t);
  }

  ghost predicate AddedAt(n: nat, W: Matrix, W': Matrix, i: int, j: int, t: Complex) {
    forall k, l :: 0 <= k < n && 0 <= l < n ==> W'(k, l) == if k == i && l == j then Add(W(k, l), t) else W(k, l)
  }

  /** A port between a node and ground. */
  lemma StampSingle(n: nat, W0: Matrix, W: Matrix, e: Ends)
    requires -1 <= e.pos < n && -1 <= e.neg < n && (e.pos == -1) != (e.neg == -1)
    requires var a := if e.pos >= 0 then e.pos else e.neg; AddedAt(n, W0, W, a, a, G)
    ensures forall i, j :: 0 <= i < n && 0 <= j < n ==> W(i, j) == Add(W0(i, j), Stamp(e, i, j))
  {}

  lemma StampNothing(n: nat, W: Matrix, e: Ends)
    requires e.pos == e.neg
    ensures forall i, j :: 0 <= i < n && 0 <= j < n ==> W(i, j) == Add(W(i, j), Stamp(e, i, j))
  {}

  lemma StampPair(n: nat, W0: Matrix, W1: Matrix, W2: Matrix, W3: Matrix, W4: Matrix, a: nat, b: nat)
    requires a < n && b < n
    requires AddedAt(n, W0, W1, a, a, G) && AddedAt(n, W1, W2, b, b, G)
    requires AddedAt(n, W2, W3, a, b, Neg(G)) && AddedAt(n, W3, W4, b, a, Neg(G))
    ensures forall i, j :: 0 <= i < n && 0 <= j < n ==> W4(i, j) == Add(W0(i, j), Stamp(Ends(a, b), i, j))
  {
    forall i, j | 0 <= i < n && 0 <= j < n ensures W4(i, j) == Add(W0(i, j), Stamp(Ends(a, b), i, j)) {
      var w1, w2, w3 := W1(i, j), W2(i, j), W3(i, j);
    }
  }

  /** Connects a resistor between the pins of a port. */
  method LoadPort(A: array2<Complex>, e: Ends)
    requires A.Length0 == A.Length1 && -1 <= e.pos < A.Length0 && -1 <= e.neg < A.Length0
    modifies A
    ensures forall i, j :: 0 <= i < A.Length0 && 0 <= j < A.Length0 ==> A[i, j] == Add(old(A[i, j]), Stamp(e, i, j))
  {
    hide Add, Neg, AddedAt, Stamp;
    var a, b := e.pos, e.neg;
    ghost var w0 := Entries(A);
    if a >= 0 { AddAt(A, a, a, G); }
    ghost var w1 := Entries(A);
    if b >= 0 { AddAt(A, b, b, G); }
    ghost var w2 := Entries(A);
    if a >= 0 && b >= 0 {
      AddAt(A, a, b, Neg(G));
      ghost var w3 := Entries(A);
      AddAt(A, b, a, Neg(G));
      StampPair(A.Length0, w0, w1, w2, w3, Entries(A), a, b);
    } else if a >= 0 || b >= 0 {
      StampSingle(A.Length0, w0, w2, e);
    } else {
      StampNothing(A.Length0, w0, e);
    }
  }

  lemma LoadedStep(n: nat, q: nat, A: Matrix, E: Matrix, W: Matrix, W': Matrix, e: Ends)
    requires Loaded(n, q, A, E, G, W)
    requires forall i :: 0 <= i < n ==> E(i, q) == Incident(e, i)
    requires forall i, j :: 0 <= i < n && 0 <= j < n ==> W'(i, j) == Add(W(i, j), Stamp(e, i, j))
    ensures Loaded(n, q + 1, A, E, G, W')
  {
    hide Mul, Product, Incident, Stamp;
    var ET := Transposed(E);
    forall i, j | 0 <= i < n && 0 <= j < n
      ensures W'(i, j) == Add(A(i, j), Mul(G, Product(q + 1, E, ET, i, j)))
    {
      ProductLast(q, E, ET, i, j);
      StampIncidence(e, i, j);
      MulAdd(G, Product(q, E, ET, i, j), Mul(E(i, q), E(j, q)));
    }
  }

  /** Connects a 100 Ohm resistor to each balanced node and in parallel to each excitation. */
  method LoadPorts(net: Network, A: array2<Complex>, ghost E: Matrix)
    requires net.Valid() && IsIncidence(net, E) && A.Length0 == A.Length1 == net.Size()
    modifies A
    ensures Loaded(net.Size(), net.Ports(), old(Entries(A)), E, G, Entries(A))
  {
    hide Mul, Product, Incident, Stamp;
    ghost var n, original := net.Size(), Entries(A);
    NothingLoaded(n, original, E);
    for c := 0 to net.NodePorts()
      invariant Loaded(n, c, original, E, G, Entries(A))
    {
      assert c < net.Ports() by { Monotonic(net.balanced, net.balanced + |net.excitations|, net.freqs); }
      EndsBounds(net, c);
      ghost var w := Entries(A);
      LoadPort(A, Ends(c, -1));
      LoadedStep(n, c, original, E, w, Entries(A), Ends(c, -1));
    }
    for v := 0 to |net.excitations|
      invariant Loaded(n, net.At(net.balanced + v, 0), original, E, G, Entries(A))
    {
      var vs := net.excitations[v];
      for f := 0 to net.freqs
        invariant Loaded(n, net.At(net.balanced + v, f), original, E, G, Entries(A))
      {
        ExcitationPort(net, v, f);
        ghost var q := net.At(net.balanced + v, f);
        EndsBounds(net, q);
        ghost var w := Entries(A);
        LoadPort(A, Ends(net.Pin(vs.pnode, f), net.Pin(vs.nnode, f)));
        LoadedStep(n, q, original, E, w, Entries(A), net.PortEnds(q));
      }
      assert net.At(net.balanced + v, net.freqs) == net.At(net.balanced + v + 1, 0);
    }
  }

  lemma NothingLoaded(n: nat, A: Matrix, E: Matrix)
    ensures Loaded(n, 0, A, E, G, A)
  {
    hide Mul, Product;
    MulUnits(G);
    forall i, j | 0 <= i < n && 0 <= j < n ensures A(i, j) == Add(A(i, j), Mul(G, Product(0, E, Transposed(E), i, j))) {
      ProductEmpty(E, Transposed(E), i, j);
    }
  }

  // ----- frequencies do not mix -----

  /** The matrix couples equal frequencies only, as the matrix filler builds it. */
  ghost predicate FrequencyDiagonal(d: nat, n: nat, A: Matrix)
    requires d > 0
  {
    forall i, j :: 0 <= i < n && 0 <= j < n && i % d != j % d ==> A(i, j) == Zero
  }

  lemma LoadedFrequency(net: Network, A: Matrix, E: Matrix, A': Matrix)
    requires net.Valid() && IsIncidence(net, E)
    requires FrequencyDiagonal(net.freqs, net.Size(), A)
    requires Loaded(net.Size(), net.Ports(), A, E, G, A')
    ensures FrequencyDiagonal(net.freqs, net.Size(), A')
  {
    hide Mul, Product;
    var n, d, ET := net.Size(), net.freqs, Transposed(E);
    forall i, j | 0 <= i < n && 0 <= j < n && i % d != j % d ensures A'(i, j) == Zero {
      forall q | 0 <= q < net.Ports() ensures E(i, q) == Zero || ET(q, j) == Zero {
        EndsBounds(net, q);
      }
      ProductTail(0, net.Ports(), E, ET, i, j);
      ProductEmpty(E, ET, i, j);
      MulUnits(G);
    }
  }

  /** A vector that drives one frequency only is answered at that frequency only. */
  lemma FrequencySupport(d: nat, n: nat, A: Matrix, x: Vector, b: Vector, f: int)
    requires d > 0 && FrequencyDiagonal(d, n, A) && Nonsingular(n, A) && Solves(n, A, x, b)
    requires forall i :: 0 <= i < n && i % d != f ==> b(i) == Zero
    ensures forall i :: 0 <= i < n && i % d != f ==> x(i) == Zero
  {
    hide Apply;
    var y: Vector := i => if i % d == f then x(i) else Zero;
    forall r | 0 <= r < n ensures Apply(n, A, y, r) == b(r) {
      SupportRow(d, n, A, x, y, f, r);
    }
    SolutionUnique(n, A, x, y, b);
  }

  lemma SupportRow(d: nat, n: nat, A: Matrix, x: Vector, y: Vector, f: int, r: int)
    requires d > 0 && FrequencyDiagonal(d, n, A) && 0 <= r < n
    requires forall i :: 0 <= i < n ==> y(i) == if i % d == f then x(i) else Zero
    ensures Apply(n, A, y, r) == if r % d == f then Apply(n, A, x, r) else Zero
  {
    hide Mul;
    var t := (k: int) => Mul(A(r, k), y(k));
    forall k | 0 <= k < n ensures t(k) == if r % d == f then Mul(A(r, k), x(k)) else Zero {
      MulUnits(x(k));
      MulUnits(y(k));
      MulUnits(A(r, k));
    }
    if r % d == f {
      SumExt(n, t, k => Mul(A(r, k), x(k)));
    } else {
      SumZero(n, t);
    }
  }

  // ----- measuring the ports -----

  /** The right hand side that drives a port. */
  function Drive(e: Ends): Vector {
    i => if i == e.neg then FromReal(-1.0) else if i == e.pos then One else Zero
  }

  /** Solves the loaded network for the drive of one port. */
  method PortResponse(eqns: EqnSys, A: array2<Complex>, V: array<Complex>, I: array<Complex>, e: Ends, ghost M: Matrix)
    requires eqns.Valid() && eqns.A == A && eqns.N == A.Length0 && eqns.PackedCrout(M)
    requires V.Length == I.Length == eqns.N && V != I
    requires -1 <= e.pos < eqns.N && -1 <= e.neg < eqns.N
    modifies eqns, V, I
    ensures eqns.Valid() && eqns.A == A && eqns.N == old(eqns.N) && eqns.rMap == old(eqns.rMap)
    ensures eqns.PackedCrout(M)
    ensures Solves(eqns.N, M, Elements(V), Drive(e))
  {
    hide IsModulus, Apply, Factors, IsLower, IsUpper;
    ghost var w, p := Entries(A), eqns.rMap[..];
    forall k | 0 <= k < I.Length { I[k] := Zero; }
    if e.pos >= 0 { I[e.pos] := One; }
    if e.neg >= 0 { I[e.neg] := FromReal(-1.0); }
    eqns.PassEquationSys(A, V, I);
    assert Entries(A) == w && eqns.rMap[..] == p;
    eqns.SubstituteLuCrout(M);
    assert Entries(A) == w && eqns.rMap[..] == p;
    assert forall k :: 0 <= k < eqns.N ==> Elements(eqns.B)(k) == Drive(e)(k);
  }

  /** The transimpedance of an excitation at one frequency. */
  method ExcitationZ(net: Network, V: array<Complex>, v: nat, f: nat) returns (z: Complex)
    requires net.Valid() && v < |net.excitations| && f < net.freqs && V.Length == net.Size()
    ensures z
         == PortVoltage(Ends(net.Pin(net.excitations[v].pnode, f), net.Pin(net.excitations[v].nnode, f)), Elements(V))
    ensures z == Sub(NodeVoltage(net, Elements(V), net.excitations[v].pnode, f),
                     NodeVoltage(net, Elements(V), net.excitations[v].nnode, f))
  {
    ExcitationPort(net, v, f);
    EndsBounds(net, net.At(net.balanced + v, f));
    var vs := net.excitations[v];
    z := Zero;
    if vs.pnode > 0 {
      PinBounds(net, vs.pnode, f);
      z := Add(z, V[net.Pin(vs.pnode, f)]);
    }
    if vs.nnode > 0 {
      PinBounds(net, vs.nnode, f);
      z := Sub(z, V[net.Pin(vs.nnode, f)]);
    }
  }

  /** Stores the voltages of the balanced nodes as upper part of column q. */
  method StoreNodes(net: Network, Z: array2<Complex>, q: nat, V: array<Complex>)
    requires net.Valid() && Z.Length0 == Z.Length1 == net.Ports() && q < net.Ports() && V.Length == net.Size()
    modifies Z
    ensures forall i, j :: 0 <= i < net.Ports() && 0 <= j < net.Ports() ==>
      Z[i, j] == if j == q && i < net.NodePorts() then PortVoltage(net.PortEnds(i), Elements(V)) else old(Z[i, j])
  {
    Monotonic(net.balanced, net.balanced + |net.excitations|, net.freqs);
    for r := 0 to net.NodePorts()
      invariant forall i, j :: 0 <= i < net.Ports() && 0 <= j < net.Ports() ==>
        Z[i, j] == if j == q && i < r then PortVoltage(net.PortEnds(i), Elements(V)) else old(Z[i, j])
    {
      EndsBounds(net, r);
      Z[r, q] := V[r];
    }
  }

  /** Stores the transimpedances of all excitations at all frequencies as lower part of column q. */
  method StoreAllExcitations(net: Network, Z: array2<Complex>, q: nat, V: array<Complex>)
    requires net.Valid() && Z.Length0 == Z.Length1 == net.Ports() && q < net.Ports() && V.Length == net.Size()
    modifies Z
    ensures forall i, j :: 0 <= i < net.Ports() && 0 <= j < net.Ports() ==>
      Z[i, j] == if j == q && i >= net.NodePorts() then PortVoltage(net.PortEnds(i), Elements(V)) else old(Z[i, j])
  {
    hide Network.PortEnds, Network.Pin, PortVoltage;
    for v := 0 to |net.excitations|
      invariant forall i, j :: 0 <= i < net.Ports() && 0 <= j < net.Ports() ==>
        Z[i, j] == if j == q && net.NodePorts() <= i < net.At(net.balanced + v, 0)
                   then PortVoltage(net.PortEnds(i), Elements(V))
                   else old(Z[i, j])
    {
      for f := 0 to net.freqs
        invariant forall i, j :: 0 <= i < net.Ports() && 0 <= j < net.Ports() ==>
          Z[i, j] == if j == q && net.NodePorts() <= i < net.At(net.balanced + v, f)
                     then PortVoltage(net.PortEnds(i), Elements(V))
                     else old(Z[i, j])
      {
        ExcitationPort(net, v, f);
        var z := ExcitationZ(net, V, v, f);
        Z[net.At(net.balanced + v, f), q] := z;
      }
      assert net.At(net.balanced + v, net.freqs) == net.At(net.balanced + v + 1, 0);
    }
  }

  /** Only one index of each residue lies within d consecutive ones. */
  lemma NextResidue(row: int, d: int, i: int)
    requires d > 0 && row <= i < row + d && i % d == row % d
    ensures i == row
  {
    var a, b, f := row / d, i / d, row % d;
    assert row == a * d + f && i == b * d + f;
    if a < b {
      Monotonic(a + 1, b, d);
    } else {
      Monotonic(b, a, d);
    }
  }

  /** Stores the transimpedances of all excitations at one frequency. */
  method StoreExcitations(net: Network, Z: array2<Complex>, q: nat, V: array<Complex>, f: nat)
    requires net.Valid() && Z.Length0 == Z.Length1 == net.Ports() && q < net.Ports() && V.Length == net.Size()
    requires f < net.freqs
    modifies Z
    ensures forall i, j :: 0 <= i < net.Ports() && 0 <= j < net.Ports() ==>
      Z[i, j] == if j == q && i >= net.NodePorts() && i % net.freqs == f
                 then PortVoltage(net.PortEnds(i), Elements(V))
                 else old(Z[i, j])
  {
    hide Network.PortEnds, Network.Pin, Network.At, Network.Ports, Network.NodePorts, Network.Size, PortVoltage;
    var d := net.freqs;
    var row := net.At(net.balanced, f);
    FirstRow(net, f);
    for v := 0 to |net.excitations|
      invariant row == net.At(net.balanced + v, f) && row % d == f
      invariant forall i, j :: 0 <= i < net.Ports() && 0 <= j < net.Ports() ==>
        Z[i, j] == if j == q && net.NodePorts() <= i < row && i % d == f
                   then PortVoltage(net.PortEnds(i), Elements(V)) else old(Z[i, j])
    {
      ExcitationPort(net, v, f);
      var z := ExcitationZ(net, V, v, f);
      Z[row, q] := z;
      forall i | row <= i < row + d && i % d == f ensures i == row { NextResidue(row, d, i); }
      NextRow(net, net.balanced + v, f);
      row := row + d;
    }
    LastRow(net, f);
  }

  lemma NextRow(net: Network, k: int, f: nat)
    requires f < net.freqs
    ensures net.At(k + 1, f) == net.At(k, f) + net.freqs
    ensures net.At(k, f) % net.freqs == f == net.At(k + 1, f) % net.freqs
  {
    assert (k + 1) * net.freqs == k * net.freqs + net.freqs;
    DivMod(k, f, net.freqs);
    DivMod(k + 1, f, net.freqs);
  }

  lemma FirstRow(net: Network, f: nat)
    requires net.Valid() && f < net.freqs
    ensures net.At(net.balanced, f) % net.freqs == f
    ensures forall i :: net.NodePorts() <= i < net.At(net.balanced, f) ==> i % net.freqs != f
  {
    var d := net.freqs;
    DivMod(net.balanced, f, d);
    forall i | net.NodePorts() <= i < net.At(net.balanced, f) ensures i % d != f {
      DivMod(net.balanced, i - net.NodePorts(), d);
    }
  }

  lemma LastRow(net: Network, f: nat)
    ensures net.Ports() <= net.At(net.balanced + |net.excitations|, f)
  {}

  /** What the loops store as entry (r, c): the voltage of port r while port c is driven,
      but nothing for excitations at another frequency. */
  function Reading(net: Network, r: int, c: int, x: Vector): Complex
    requires net.Valid() && 0 <= r < net.Ports() && 0 <= c < net.Ports()
  {
    if c < net.NodePorts() || r < net.NodePorts() || r % net.freqs == c % net.freqs then PortVoltage(net.PortEnds(r), x)
    else Zero
  }

  /** Column c of Z holds the readings of a response to the drive of port c. */
  ghost predicate MeasuredColumn(net: Network, M: Matrix, X: Matrix, Z: Matrix, c: int)
    requires net.Valid() && 0 <= c < net.Ports()
  {
    && Solves(net.Size(), M, Column(X, c), Drive(net.PortEnds(c)))
    && forall r :: 0 <= r < net.Ports() ==> Z(r, c) == Reading(net, r, c, Column(X, c))
  }

  ghost predicate Measured(net: Network, M: Matrix, X: Matrix, Z: Matrix, q: int)
    requires net.Valid() && q <= net.Ports()
  {
    && (forall c :: 0 <= c < q ==> MeasuredColumn(net, M, X, Z, c))
    && (forall r, c :: 0 <= r < net.Ports() && q <= c < net.Ports() ==> Z(r, c) == Zero)
  }

  lemma MeasuredStep(net: Network, M: Matrix, X: Matrix, X': Matrix, Z: Matrix, Z': Matrix, x: Vector, q: nat)
    requires net.Valid() && q < net.Ports() && Measured(net, M, X, Z, q)
    requires forall i, c :: X'(i, c) == if c == q then x(i) else X(i, c)
    requires forall r, c :: 0 <= r < net.Ports() && 0 <= c < net.Ports() && c != q ==> Z'(r, c) == Z(r, c)
    requires Solves(net.Size(), M, x, Drive(net.PortEnds(q)))
    requires forall r :: 0 <= r < net.Ports() ==> Z'(r, q) == Reading(net, r, q, x)
    ensures Measured(net, M, X', Z', q + 1)
  {
    hide Apply, Network.PortEnds, Solves, Drive;
    forall c | 0 <= c <= q ensures MeasuredColumn(net, M, X', Z', c) {
      var y := if c == q then x else Column(X, c);
      assert c < q ==> MeasuredColumn(net, M, X, Z, c);
      SolvesExt(net.Size(), M, y, M, Column(X', c), Drive(net.PortEnds(c)));
      forall r | 0 <= r < net.Ports() ensures Z'(r, c) == Reading(net, r, c, Column(X', c)) {
        assert Z'(r, c) == Reading(net, r, c, y);
        EndsBounds(net, r);
        assert PortVoltage(net.PortEnds(r), y) == PortVoltage(net.PortEnds(r), Column(X', c));
      }
    }
  }

  /** A column for port q, with X extended by the response. */
  function WithColumn(X: Matrix, q: int, x: Vector): Matrix {
    (i, c) => if c == q then x(i) else X(i, c)
  }

  /** The state of the measurement: the factors of M are in place. */
  ghost predicate Ready(net: Network, eqns: EqnSys, A: array2<Complex>, V: array<Complex>, I: array<Complex>,
                        Z: array2<Complex>, M: Matrix)
    reads eqns, eqns.A, eqns.rMap
  {
    && net.Valid() && eqns.Valid() && eqns.A == A && eqns.N == A.Length0 == net.Size() && eqns.PackedCrout(M)
    && V.Length == I.Length == net.Size() && V != I
    && Z.Length0 == Z.Length1 == net.Ports() && Z != A
  }

  /** Drives balanced node port c and stores the column. */
  method MeasureNode(net: Network, eqns: EqnSys, A: array2<Complex>, V: array<Complex>, I: array<Complex>,
                     Z: array2<Complex>,
                     c: nat, ghost M: Matrix, ghost X: Matrix) returns (ghost X': Matrix)
    requires Ready(net, eqns, A, V, I, Z, M) && c < net.NodePorts() && c < net.Ports()
    requires Measured(net, M, X, Entries(Z), c)
    modifies eqns, V, I, Z
    ensures Ready(net, eqns, A, V, I, Z, M) && eqns.rMap == old(eqns.rMap)
    ensures Measured(net, M, X', Entries(Z), c + 1)
  {
    hide IsModulus, Apply, Factors, IsLower, IsUpper, Measured, PortVoltage, Drive, Solves, IsPermutation, Network.Pin;
    ghost var z := Entries(Z);
    EndsBounds(net, c);
    PortResponse(eqns, A, V, I, Ends(c, -1), M);
    ghost var w, p := Entries(A), eqns.rMap[..];
    StoreNodes(net, Z, c, V);
    StoreAllExcitations(net, Z, c, V);
    assert Entries(A) == w && eqns.rMap[..] == p;
    X' := WithColumn(X, c, Elements(V));
    MeasuredStep(net, M, X, X', z, Entries(Z), Elements(V), c);
  }

  /** Drives excitation v at frequency f and stores the column. */
  method MeasureExcitation(net: Network, eqns: EqnSys, A: array2<Complex>, V: array<Complex>, I: array<Complex>,
                           Z: array2<Complex>,
                           v: nat, f: nat, ghost M: Matrix, ghost X: Matrix) returns (ghost X': Matrix)
    requires Ready(net, eqns, A, V, I, Z, M) && v < |net.excitations| && f < net.freqs
    requires net.At(net.balanced + v, f) <= net.Ports()
    requires Measured(net, M, X, Entries(Z), net.At(net.balanced + v, f))
    modifies eqns, V, I, Z
    ensures Ready(net, eqns, A, V, I, Z, M) && eqns.rMap == old(eqns.rMap)
    ensures net.At(net.balanced + v, f) + 1 <= net.Ports()
    ensures Measured(net, M, X', Entries(Z), net.At(net.balanced + v, f) + 1)
  {
    hide IsModulus, Apply, Factors, IsLower, IsUpper, PortVoltage, Drive, Solves, IsPermutation, Network.Pin;
    ghost var z := Entries(Z);
    ExcitationPort(net, v, f);
    DivMod(net.balanced + v, f, net.freqs);
    var q := net.At(net.balanced + v, f);
    EndsBounds(net, q);
    var vs := net.excitations[v];
    PortResponse(eqns, A, V, I, Ends(net.Pin(vs.pnode, f), net.Pin(vs.nnode, f)), M);
    ghost var w, p := Entries(A), eqns.rMap[..];
    StoreNodes(net, Z, q, V);
    StoreExcitations(net, Z, q, V, f);
    assert Entries(A) == w && eqns.rMap[..] == p;
    X' := WithColumn(X, q, Elements(V));
    MeasuredStep(net, M, X, X', z, Entries(Z), Elements(V), q);
  }

  /** Acquires all transimpedances. */
  method MeasurePorts(net: Network, eqns: EqnSys, A: array2<Complex>, V: array<Complex>, I: array<Complex>,
                      Z: array2<Complex>, ghost M: Matrix)
    returns (ghost X: Matrix)
    requires Ready(net, eqns, A, V, I, Z, M)
    requires forall r, c :: 0 <= r < net.Ports() && 0 <= c < net.Ports() ==> Z[r, c] == Zero
    modifies eqns, V, I, Z
    ensures Measured(net, M, X, Entries(Z), net.Ports())
  {
    hide IsModulus, MeasuredColumn, EqnSys.PackedCrout;
    X := (i, c) => Zero;
    Monotonic(net.balanced, net.balanced + |net.excitations|, net.freqs);
    for c := 0 to net.NodePorts()
      invariant Ready(net, eqns, A, V, I, Z, M) && net.Valid() && eqns.rMap == old(eqns.rMap)
      invariant Measured(net, M, X, Entries(Z), c)
    {
      X := MeasureNode(net, eqns, A, V, I, Z, c, M, X);
    }
    for v := 0 to |net.excitations|
      invariant Ready(net, eqns, A, V, I, Z, M) && net.Valid() && eqns.rMap == old(eqns.rMap)
      invariant net.At(net.balanced + v, 0) <= net.Ports()
      invariant Measured(net, M, X, Entries(Z), net.At(net.balanced + v, 0))
    {
      for f := 0 to net.freqs
        invariant Ready(net, eqns, A, V, I, Z, M) && net.Valid() && eqns.rMap == old(eqns.rMap)
        invariant net.At(net.balanced + v, f) <= net.Ports()
        invariant Measured(net, M, X, Entries(Z), net.At(net.balanced + v, f))
      {
        X := MeasureExcitation(net, eqns, A, V, I, Z, v, f, M, X);
      }
      assert net.At(net.balanced + v, net.freqs) == net.At(net.balanced + v + 1, 0);
    }
  }

  // ----- what the measurement shows -----

  /** Readings are port voltages, because responses do not leave their frequency. */
  lemma ReadingVoltage(net: Network, A': Matrix, X: Matrix, Z: Matrix, r: nat, c: nat)
    requires net.Valid() && r < net.Ports() && c < net.Ports()
    requires FrequencyDiagonal(net.freqs, net.Size(), A') && Nonsingular(net.Size(), A')
    requires MeasuredColumn(net, A', X, Z, c)
    ensures Z(r, c) == PortVoltage(net.PortEnds(r), Column(X, c))
  {
    hide Apply, Network.PortEnds, Solves, Nonsingular;
    EndsBounds(net, c);
    EndsBounds(net, r);
    FrequencySupport(net.freqs, net.Size(), A', Column(X, c), Drive(net.PortEnds(c)), c % net.freqs);
  }

  lemma MeasuredImpedances(net: Network, A': Matrix, E: Matrix, X: Matrix, Z: Matrix)
    requires net.Valid() && IsIncidence(net, E)
    requires FrequencyDiagonal(net.freqs, net.Size(), A') && Nonsingular(net.Size(), A')
    requires Measured(net, A', X, Z, net.Ports())
    ensures Impedances(net.Size(), net.Ports(), E, X, Z)
    ensures forall r, c :: 0 <= r < net.Ports() && 0 <= c < net.Ports() ==>
      Z(r, c) == PortVoltage(net.PortEnds(r), Column(X, c))
  {
    hide Mul, Apply, Network.PortEnds, Solves, Nonsingular, PortVoltage, MeasuredColumn, Incident;
    var n := net.Size();
    forall r, c | 0 <= r < net.Ports() && 0 <= c < net.Ports()
      ensures Z(r, c) == Product(n, Transposed(E), X, r, c) && Z(r, c) == PortVoltage(net.PortEnds(r), Column(X, c))
    {
      ReadingVoltage(net, A', X, Z, r, c);
      EndsBounds(net, r);
      IncidenceApply(n, E, r, net.PortEnds(r), Column(X, c));
      ApplyColumn(n, Transposed(E), X, r, c);
    }
  }

  lemma ApplyColumn(n: nat, A: Matrix, X: Matrix, r: int, c: int)
    ensures Apply(n, A, Column(X, c), r) == Product(n, A, X, r, c)
  {
    hide Mul;
    var x := Column(X, c);
    SumExt(n, k => Mul(A(r, k), x(k)), k => Mul(A(r, k), X(k, c)));
  }

  /** A port whose pins coincide reads zero whatever is driven, which no invertible
      impedance matrix allows. */
  lemma PinsDiffer(net: Network, X: Matrix, Z: Matrix, H: Matrix, c: nat)
    requires net.Valid() && c < net.Ports() && IsInverse(net.Ports(), Z, H)
    requires forall r, c :: 0 <= r < net.Ports() && 0 <= c < net.Ports() ==>
      Z(r, c) == PortVoltage(net.PortEnds(r), Column(X, c))
    ensures net.PortEnds(c).pos != net.PortEnds(c).neg
  {
    hide Product, Network.PortEnds;
    var p := net.Ports();
    if net.PortEnds(c).pos == net.PortEnds(c).neg {
      assert forall k :: 0 <= k < p ==> Z(c, k) == Zero;
      ProductTail(0, p, Z, H, c, c);
      ProductEmpty(Z, H, c, c);
      assert false;
    }
  }

  lemma MeasuredResponses(net: Network, A': Matrix, E: Matrix, X: Matrix, Z: Matrix, H: Matrix)
    requires net.Valid() && IsIncidence(net, E) && IsInverse(net.Ports(), Z, H)
    requires Measured(net, A', X, Z, net.Ports())
    requires forall r, c :: 0 <= r < net.Ports() && 0 <= c < net.Ports() ==>
      Z(r, c) == PortVoltage(net.PortEnds(r), Column(X, c))
    ensures Responses(net.Size(), net.Ports(), A', E, X)
  {
    hide Product, Apply, Network.PortEnds, PortVoltage, IsInverse;
    forall q | 0 <= q < net.Ports() ensures Solves(net.Size(), A', Column(X, q), Column(E, q)) {
      PinsDiffer(net, X, Z, H, q);
      assert MeasuredColumn(net, A', X, Z, q);
    }
  }

  /** The port incidence matrix of a network. */
  ghost function Incidence(net: Network): (E: Matrix)
    requires net.Valid()
    ensures IsIncidence(net, E)
  {
    (i, q) => if 0 <= q < net.Ports() then Incident(net.PortEnds(q), i) else Zero
  }

  lemma MeasuredSame(net: Network, M: Matrix, A': Matrix, X: Matrix, Z: Matrix)
    requires net.Valid() && SameMatrix(net.Size(), A', M) && Measured(net, M, X, Z, net.Ports())
    ensures Measured(net, A', X, Z, net.Ports())
  {
    hide Apply, Reading, Drive, Network.PortEnds;
    var n := net.Size();
    forall c | 0 <= c < net.Ports() ensures MeasuredColumn(net, A', X, Z, c) {
      assert MeasuredColumn(net, M, X, Z, c);
      forall r | 0 <= r < n ensures Apply(n, A', Column(X, c), r) == Drive(net.PortEnds(c))(r) {
        ApplyExt(n, A', Column(X, c), M, Column(X, c), r, r);
      }
    }
  }

  // ----- voltages and currents of the nodes -----

  /** The nodes of port b: balanced node b + 1 and ground, or those of an excitation. */
  function PortNodes(net: Network, b: nat): Excitation
    requires b < net.balanced + |net.excitations|
  {
    if b < net.balanced then Excitation(b + 1, 0) else net.excitations[b - net.balanced]
  }

  /** The voltage of a node at frequency f, for the solution vector x. */
  function NodeVoltage(net: Network, x: Vector, node: nat, f: int): Complex {
    if node == 0 then Zero else x((node - 1) * net.freqs + f)
  }

  /** What the current of a port contributes to a node. */
  function Contribution(e: Excitation, node: nat, c: Complex): Complex {
    Sub(if node == e.pnode then c else Zero, if node == e.nnode then c else Zero)
  }

  /** The current that the ports feed into a node at frequency f. */
  function NodeCurrent(net: Network, c: Vector, node: nat, f: int): Complex {
    var ports := net.balanced + |net.excitations|;
    Sum(ports, b => if 0 <= b < ports then Contribution(PortNodes(net, b), node, c(b * net.freqs + f)) else Zero)
  }

  /** The voltage of port b at frequency f is that between its two nodes. */
  ghost predicate HasVoltage(net: Network, x: Vector, v: Vector, b: nat, f: nat)
    requires b < net.balanced + |net.excitations|
  {
    var e := PortNodes(net, b);
    v(b * net.freqs + f) == Sub(NodeVoltage(net, x, e.pnode, f), NodeVoltage(net, x, e.nnode, f))
  }

  /** The row of a node (or source) at frequency f is fed by the port currents. */
  ghost predicate HasCurrent(net: Network, A: Matrix, c: Vector, x: Vector, node: nat, f: nat) {
    Apply(net.Size(), A, x, (node - 1) * net.freqs + f) == NodeCurrent(net, c, node, f)
  }

  /** Port currents c drive the network A into a state x with port voltages v. */
  ghost predicate NodeState(net: Network, A: Matrix, v: Vector, c: Vector, x: Vector) {
    && (forall node: nat, f: nat :: 1 <= node <= net.nodes + net.sources && f < net.freqs ==>
          HasCurrent(net, A, c, x, node, f))
    && (forall b: nat, f: nat :: b < net.balanced + |net.excitations| && f < net.freqs ==> HasVoltage(net, x, v, b, f))
  }

  /** The indices of the pins run through the frequencies of node 1, then of node 2, and so on. */
  lemma PinLayout(net: Network, node: nat, f: nat)
    requires net.Valid() && f < net.freqs
    ensures net.Pin(0, f) == -1 && net.Pin(1, f) == f
    ensures node > 0 ==> net.Pin(node + 1, f) == net.Pin(node, f) + net.freqs
  {
    assert node * net.freqs == (node - 1) * net.freqs + net.freqs;
  }

  /** An excitation between a balanced node and ground is where the port of that node is. */
  lemma GroundedExcitation(net: Network, v: nat, f: nat, k: nat)
    requires net.Valid() && v < |net.excitations| && f < net.freqs && k < net.balanced
    requires net.excitations[v] == Excitation(k + 1, 0)
    ensures 0 <= net.At(k, f) < net.NodePorts() <= net.At(net.balanced + v, f) < net.Ports()
    ensures net.PortEnds(net.At(net.balanced + v, f)) == net.PortEnds(net.At(k, f))
  {
    ExcitationPort(net, v, f);
    PortPlace(net, k, f);
    assert (k + 1) * net.freqs == k * net.freqs + net.freqs;
    Monotonic(k + 1, net.balanced, net.freqs);
  }

  /** Port b at frequency f has index b freqs + f, and its pins are those of its nodes. */
  lemma PortPlace(net: Network, b: nat, f: nat)
    requires net.Valid() && b < net.balanced + |net.excitations| && f < net.freqs
    ensures 0 <= b * net.freqs + f < net.Ports()
    ensures net.PortEnds(b * net.freqs + f)
         == Ends(NodeIndex(net, PortNodes(net, b).pnode, f), NodeIndex(net, PortNodes(net, b).nnode, f))
  {
    var d := net.freqs;
    assert (b + 1) * d == b * d + d;
    Monotonic(0, b, d);
    Monotonic(b + 1, net.balanced + |net.excitations|, d);
    if b < net.balanced {
      Monotonic(b + 1, net.balanced, d);
    } else {
      ExcitationPort(net, b - net.balanced, f);
    }
  }

  /** The row of a node, -1 for ground. */
  function NodeIndex(net: Network, node: nat, f: int): int {
    if node == 0 then -1 else (node - 1) * net.freqs + f
  }

  lemma RowPlace(net: Network, node: nat, f: nat)
    requires net.Valid() && 1 <= node <= net.nodes + net.sources && f < net.freqs
    ensures 0 <= (node - 1) * net.freqs + f < net.Size()
  {
    Monotonic(0, node - 1, net.freqs);
    Monotonic(node, net.nodes + net.sources, net.freqs);
    assert node * net.freqs == (node - 1) * net.freqs + net.freqs;
  }

  /** Rows of different nodes or frequencies differ. */
  lemma RowsDiffer(net: Network, node: nat, f: nat, other: nat, g: nat)
    requires net.Valid() && node >= 1 && f < net.freqs && g < net.freqs
    ensures NodeIndex(net, other, g) == (node - 1) * net.freqs + f <==> node == other && f == g
  {
    DivMod(node - 1, f, net.freqs);
    Monotonic(0, node - 1, net.freqs);
    if other > 0 { DivMod(other - 1, g, net.freqs); }
  }

  /** The entries of the incidence matrix: one for the first node of a port, minus one for
      the second, at the frequency of the port. */
  lemma IncidenceAt(net: Network, node: nat, f: nat, b: nat, g: nat, c: Complex)
    requires net.Valid() && 1 <= node <= net.nodes + net.sources && f < net.freqs
    requires b < net.balanced + |net.excitations| && g < net.freqs
    ensures Mul(Incidence(net)((node - 1) * net.freqs + f, b * net.freqs + g), c)
         == if f == g then Contribution(PortNodes(net, b), node, c) else Zero
  {
    hide Mul, Network.PortEnds, NodeIndex, PortNodes;
    var e, i := PortNodes(net, b), (node - 1) * net.freqs + f;
    PortPlace(net, b, g);
    RowsDiffer(net, node, f, e.pnode, g);
    RowsDiffer(net, node, f, e.nnode, g);
    IncidentTerm(Ends(NodeIndex(net, e.pnode, g), NodeIndex(net, e.nnode, g)), i, c);
  }

  /** The currents that the incidence matrix feeds into a row are those of its node. */
  lemma CurrentAt(net: Network, node: nat, f: nat, c: Vector)
    requires net.Valid() && 1 <= node <= net.nodes + net.sources && f < net.freqs
    ensures Apply(net.Ports(), Incidence(net), c, (node - 1) * net.freqs + f) == NodeCurrent(net, c, node, f)
  {
    hide Mul, Incidence, Contribution, PortNodes, Sum;
    var d, ports, E, i := net.freqs, net.balanced + |net.excitations|, Incidence(net), (node - 1) * net.freqs + f;
    var t := (q: int) => Mul(E(i, q), c(q));
    var h := (b: int) => if 0 <= b < ports then Contribution(PortNodes(net, b), node, c(b * d + f)) else Zero;
    forall q | 0 <= q < ports * d && Residue(q, d) != f ensures t(q) == Zero {
      DivBounds(q, d, 0, ports);
      assert q / d * d + q % d == q;
      IncidenceAt(net, node, f, q / d, q % d, c(q));
    }
    forall b | 0 <= b < ports ensures h(b) == t(b * d + f) {
      IncidenceAt(net, node, f, b, f, c(b * d + f));
    }
    SumResidue(d, ports, ports * d, f, t, h);
  }

  /** The voltage that the incidence matrix reads at a port is that between its nodes. */
  lemma VoltageAt(net: Network, b: nat, f: nat, x: Vector)
    requires net.Valid() && b < net.balanced + |net.excitations| && f < net.freqs
    ensures var e := PortNodes(net, b);
      Apply(net.Size(), Transposed(Incidence(net)), x, b * net.freqs + f)
      == Sub(NodeVoltage(net, x, e.pnode, f), NodeVoltage(net, x, e.nnode, f))
  {
    hide Apply, Incident, Network.PortEnds;
    var q := b * net.freqs + f;
    PortPlace(net, b, f);
    EndsBounds(net, q);
    IncidenceApply(net.Size(), Incidence(net), q, net.PortEnds(q), x);
    PinVoltage(net, PortNodes(net, b), f, x);
  }

  lemma PinVoltage(net: Network, e: Excitation, f: nat, x: Vector)
    requires net.Valid() && f < net.freqs
    ensures PortVoltage(Ends(NodeIndex(net, e.pnode, f), NodeIndex(net, e.nnode, f)), x)
         == Sub(NodeVoltage(net, x, e.pnode, f), NodeVoltage(net, x, e.nnode, f))
  {
    if e.pnode > 0 { Monotonic(0, e.pnode - 1, net.freqs); }
    if e.nnode > 0 { Monotonic(0, e.nnode - 1, net.freqs); }
  }

  lemma Quotients(q: nat, d: nat, m: nat)
    requires d > 0 && q < m * d
    ensures 0 <= q / d < m && 0 <= q % d < d && q == q / d * d + q % d
  {
    DivBounds(q, d, 0, m);
  }

  lemma NodePortState(net: Network, A: Matrix, v: Vector, c: Vector, x: Vector)
    requires net.Valid()
    ensures NodeState(net, A, v, c, x) <==> PortState(net.Size(), net.Ports(), A, Incidence(net), v, c, x)
  {
    hide Apply, Incidence, NodeCurrent, NodeVoltage, PortNodes;
    var d, n, p, E := net.freqs, net.Size(), net.Ports(), Incidence(net);
    if NodeState(net, A, v, c, x) {
      forall i | 0 <= i < n ensures Apply(n, A, x, i) == Apply(p, E, c, i) {
        Quotients(i, d, net.nodes + net.sources);
        CurrentAt(net, i / d + 1, i % d, c);
        assert HasCurrent(net, A, c, x, i / d + 1, i % d);
      }
      forall r | 0 <= r < p ensures Apply(n, Transposed(E), x, r) == v(r) {
        Quotients(r, d, net.balanced + |net.excitations|);
        VoltageAt(net, r / d, r % d, x);
        assert HasVoltage(net, x, v, r / d, r % d);
      }
    }
    if PortState(n, p, A, E, v, c, x) {
      forall node: nat, f: nat | 1 <= node <= net.nodes + net.sources && f < d
        ensures HasCurrent(net, A, c, x, node, f)
      {
        CurrentAt(net, node, f, c);
        RowPlace(net, node, f);
      }
      forall b: nat, f: nat | b < net.balanced + |net.excitations| && f < d ensures HasVoltage(net, x, v, b, f) {
        VoltageAt(net, b, f, x);
        PortPlace(net, b, f);
      }
    }
  }

  /** Y relates the port currents to the port voltages of the network A: there is a state of
      the nodes with these currents and voltages if and only if c == Y v. */
  ghost predicate IsPortAdmittance(net: Network, A: Matrix, Y: Matrix) {
    forall v: Vector, c: Vector :: (exists x: Vector :: NodeState(net, A, v, c, x)) <==> Follows(net.Ports(), Y, v, c)
  }

  ghost predicate Follows(p: nat, Y: Matrix, v: Vector, c: Vector) {
    forall r :: 0 <= r < p ==> c(r) == Apply(p, Y, v, r)
  }

  lemma MeasuredAdmittance(net: Network, A: Matrix, A': Matrix, M: Matrix, X: Matrix, Z: Matrix, H: Matrix, Y: Matrix)
    requires net.Valid() && FrequencyDiagonal(net.freqs, net.Size(), A)
    requires Loaded(net.Size(), net.Ports(), A, Incidence(net), G, A') && Nonsingular(net.Size(), A')
    requires SameMatrix(net.Size(), A', M) && Measured(net, M, X, Z, net.Ports())
    requires Nonsingular(net.Ports(), Z) && IsInverse(net.Ports(), Z, H)
    requires SameMatrix(net.Ports(), Y, Unloaded(H, G))
    ensures IsPortAdmittance(net, A, Y)
  {
    hide Apply, Nonsingular, Loaded, IsInverse, Measured, Impedances, Responses, PortState, Solves, FrequencyDiagonal,
      PortVoltage, Network.PortEnds, IsIncidence, NodeState, Incidence;
    var n, p, E := net.Size(), net.Ports(), Incidence(net);
    LoadedFrequency(net, A, E, A');
    MeasuredSame(net, M, A', X, Z);
    MeasuredImpedances(net, A', E, X, Z);
    MeasuredResponses(net, A', E, X, Z, H);
    forall v: Vector, c: Vector
      ensures (exists x: Vector :: NodeState(net, A, v, c, x)) <==> Follows(p, Y, v, c)
    {
      forall x: Vector ensures NodeState(net, A, v, c, x) <==> PortState(n, p, A, E, v, c, x) {
        NodePortState(net, A, v, c, x);
      }
      PortAdmittance(n, p, A, E, G, A', X, Z, H, v, c);
      forall r | 0 <= r < p ensures Apply(p, Y, v, r) == Apply(p, Unloaded(H, G), v, r) {
        ApplyExt(p, Y, v, Unloaded(H, G), v, r, r);
      }
    }
  }

  /** Subtracts the 100 Ohm resistors. */
  method Unload(Y: array2<Complex>)
    requires Y.Length0 == Y.Length1
    modifies Y
    ensures SameMatrix(Y.Length0, Entries(Y), Unloaded(old(Entries(Y)), G))
  {
    for c := 0 to Y.Length0
      invariant forall i, j :: 0 <= i < Y.Length0 && 0 <= j < Y.Length0 ==>
        Y[i, j] == if i == j && i < c then Sub(old(Y[i, j]), G) else old(Y[i, j])
    {
      Y[c, c] := Sub(Y[c, c], G);
    }
  }

  /** Factors the loaded matrix and acquires the transimpedances of all ports. */
  method Transimpedances(abs: Complex -> real, net: Network, A: array2<Complex>, Z: array2<Complex>)
    returns (failA: set<int>, ghost M: Matrix, ghost X: Matrix)
    requires IsModulus(abs) && net.Valid() && A.Length0 == A.Length1 == net.Size()
    requires Z.Length0 == Z.Length1 == net.Ports() && Z != A
    requires forall r, c :: 0 <= r < net.Ports() && 0 <= c < net.Ports() ==> Z[r, c] == Zero
    modifies A, Z
    ensures failA == {} ==> SameMatrix(net.Size(), old(Entries(A)), M)
    ensures failA == {} <==> Nonsingular(net.Size(), old(Entries(A)))
    ensures Measured(net, M, X, Entries(Z), net.Ports())
  {
    hide IsModulus, Apply, Nonsingular, Measured, SameMatrix, Factors, IsLower, IsUpper, Network.Size, Network.Ports,
      WithResistances, IsPermutation;
    ghost var loaded := Entries(A);
    var V, I := new Complex[net.Size()], new Complex[net.Size()];
    var eqns := new EqnSys(abs);
    eqns.PassEquationSys(A, V, I);
    failA := eqns.FactorizeLuCrout();
    ghost var perm := eqns.rMap[..];
    M := WithResistances(loaded, perm, failA);
    assert SameMatrix(net.Size(), M, M) by { SameMatrixReflexive(net.Size(), M); }
    if failA == {} { NoResistances(net.Size(), loaded, M, perm); }
    X := MeasurePorts(net, eqns, A, V, I, Z, M);
  }

  lemma SameMatrixReflexive(n: nat, M: Matrix)
    ensures SameMatrix(n, M, M)
  {}

  /** Computes the transadmittance matrix of the ports of the linear network A; the
      results tell which columns of the loaded matrix and of the transimpedance matrix
      raised the singularity exception. */
  method CreateMatrixLinearY(abs: Complex -> real, net: Network, A: array2<Complex>)
    returns (Y: array2<Complex>, failA: set<int>, failZ: set<int>,
             ghost loaded: Matrix, ghost X: Matrix, ghost z: Matrix)
    requires IsModulus(abs) && net.Valid() && A.Length0 == A.Length1 == net.Size()
    requires FrequencyDiagonal(net.freqs, net.Size(), Entries(A))
    modifies A
    ensures fresh(Y) && Y.Length0 == Y.Length1 == net.Ports()
    ensures Loaded(net.Size(), net.Ports(), old(Entries(A)), Incidence(net), G, loaded)
    ensures failA == {} <==> Nonsingular(net.Size(), loaded)
    ensures failA == {} ==> Measured(net, loaded, X, z, net.Ports())
    ensures failZ == {} <==> Nonsingular(net.Ports(), z)
    ensures failA == {} && failZ == {} ==> IsPortAdmittance(net, old(Entries(A)), Entries(Y))
  {
    hide IsModulus, Apply, Nonsingular, Loaded, IsInverse, Measured, IsPortAdmittance, FrequencyDiagonal, SameMatrix,
      IsIncidence, Network.Size, Network.Ports;
    ghost var original := Entries(A);
    var p := net.Ports();
    var Z := new Complex[p, p]((i, j) => Zero);
    LoadPorts(net, A, Incidence(net));
    loaded := Entries(A);
    ghost var M;
    failA, M, X := Transimpedances(abs, net, A, Z);
    z := Entries(Z);
    if failA == {} { MeasuredSame(net, M, loaded, X, z); }
    Y := new Complex[p, p]((i, j) => Zero);
    failZ := InvertMatrix(abs, Z, Y);
    ghost var H := Entries(Y);
    Unload(Y);
    if failA == {} && failZ == {} {
      MeasuredAdmittance(net, original, loaded, M, X, z, H, Entries(Y));
    }
  }
}
