/** The conjugate continuation of vectors and matrices of the linear part from the positive
    frequencies to all frequencies. */
module HbExpand {
  import opened ComplexNumbers
  import opened Sums
  import opened LinearAlgebra
  import opened EqnSystem
  import opened HbTransforms
  import opened HbBalance
  import opened HbReal
  import opened HbNewton
  import HbLinear
  import Ports

  // ----- vectors -----

  /** W continues the L entries of every node of V. */
  ghost predicate BlocksContinued(L: nat, n: nat, nodes: nat, V: Vector, W: Vector) {
    forall r, f :: 0 <= r < nodes && 0 <= f < n ==> W(At(n, r, f)) == Continued(L, NodeBlock(L, V, r), f)
  }

  function From(V: Vector, k: int): Vector { f => V(k + f) }

  /** Copies the L entries from rf0 on and continues them conjugately to n entries from rt0 on. */
  method ExpandBlock(V: array<Complex>, L: nat, n: nat, rf0: nat, rt0: nat, res: array<Complex>)
    requires L <= n <= 2 * L - 1 && rf0 + L <= V.Length && rt0 + n <= res.Length && res != V
    modifies res
    ensures forall i :: rt0 <= i < rt0 + n ==> res[i] == Continued(L, From(Elements(V), rf0), i - rt0)
    ensures forall i :: 0 <= i < res.Length && !(rt0 <= i < rt0 + n) ==> res[i] == old(res[i])
  {
    hide Conj;
    ghost var v := From(Elements(V), rf0);
    var rf, rt, ff := rf0, rt0, 0;
    while ff < L
      invariant 0 <= ff <= L && rt == rt0 + ff && rf == rf0 + ff
      invariant forall i :: rt0 <= i < rt ==> res[i] == Continued(L, v, i - rt0)
      invariant forall i :: 0 <= i < res.Length && !(rt0 <= i < rt0 + n) ==> res[i] == old(res[i])
    {
      res[rt] := V[rf];
      ff, rf, rt := ff + 1, rf + 1, rt + 1;
    }
    rf := rf - 2;
    while ff < n
      invariant L <= ff <= n && rt == rt0 + ff && rf == rf0 + (2 * L - 2 - ff)
      invariant forall i :: rt0 <= i < rt ==> res[i] == Continued(L, v, i - rt0)
      invariant forall i :: 0 <= i < res.Length && !(rt0 <= i < rt0 + n) ==> res[i] == old(res[i])
    {
      res[rt] := Conj(V[rf]);
      ff, rf, rt := ff + 1, rf - 1, rt + 1;
    }
  }

  /** Continues the entries of all nodes. */
  method ExpandVector(V: array<Complex>, nodes: nat, L: nat, n: nat) returns (res: array<Complex>)
    requires L <= n <= 2 * L - 1 && V.Length == nodes * L
    ensures res.Length == nodes * n && fresh(res)
    ensures BlocksContinued(L, n, nodes, Elements(V), Elements(res))
  {
    hide At, Continued, BlocksContinued, From;
    res := new Complex[nodes * n];
    NoneContinued(L, n, Elements(V), Elements(res));
    for r := 0 to nodes
      invariant fresh(res) && res.Length == nodes * n
      invariant BlocksContinued(L, n, r, Elements(V), Elements(res))
    {
      ExpandNode(V, L, n, nodes, r, res);
    }
  }

  /** Continues the entries of node r. */
  method ExpandNode(V: array<Complex>, L: nat, n: nat, ghost nodes: nat, r: nat, res: array<Complex>)
    requires L <= n <= 2 * L - 1 && r < nodes && res != V && V.Length == nodes * L && res.Length == nodes * n
    requires BlocksContinued(L, n, r, Elements(V), Elements(res))
    modifies res
    ensures BlocksContinued(L, n, r + 1, Elements(V), Elements(res))
  {
    hide At, Continued, BlocksContinued, From;
    ghost var v, w := Elements(V), Elements(res);
    BlockBounds(L, r, nodes);
    BlockBounds(n, r, nodes);
    ExpandBlock(V, L, n, r * L, r * n, res);
    BlockContinued(L, n, nodes, r, v, w, Elements(res));
  }

  lemma BlockBounds(n: nat, r: nat, nodes: nat)
    requires n > 0 && r < nodes
    ensures 0 <= r * n && r * n + n <= nodes * n
  {
    AtBounds(n, r, 0, nodes);
  }

  lemma NoneContinued(L: nat, n: nat, V: Vector, W: Vector)
    ensures BlocksContinued(L, n, 0, V, W)
  {}

  lemma BlockContinued(L: nat, n: nat, nodes: nat, r: nat, V: Vector, W: Vector, W': Vector)
    requires L <= n <= 2 * L - 1 && r < nodes && BlocksContinued(L, n, r, V, W)
    requires forall i :: r * n <= i < r * n + n ==> W'(i) == Continued(L, From(V, r * L), i - r * n)
    requires forall i :: 0 <= i < nodes * n && !(r * n <= i < r * n + n) ==> W'(i) == W(i)
    ensures BlocksContinued(L, n, r + 1, V, W')
  {
    hide At, Conj;
    forall a, f | 0 <= a < r + 1 && 0 <= f < n ensures W'(At(n, a, f)) == Continued(L, NodeBlock(L, V, a), f) {
      AtValue(n, r, 0);
      if a < r {
        AtBounds(n, a, f, r);
        AtBounds(n, a, f, nodes);
      } else {
        AtBounds(n, r, f, nodes);
        AtValue(L, r, f);
        AtValue(L, r, 2 * L - 2 - f);
      }
    }
  }

  // ----- matrices -----

  /** Entry f of the diagonal of the block of nodes a and b, continued. */
  function Cell(L: nat, M: Matrix, a: int, b: int, f: int): Complex {
    Continued(L, Diagonal(L, M, a, b), f)
  }

  /** Node blocks of Y are diagonal, and continue the diagonals of those of M. */
  ghost predicate IsExpanded(L: nat, n: nat, nodes: nat, M: Matrix, Y: Matrix) {
    forall a, b, f, g :: 0 <= a < nodes && 0 <= b < nodes && 0 <= f < n && 0 <= g < n ==>
      Y(At(n, a, f), At(n, b, g)) == if f == g then Cell(L, M, a, b, f) else Zero
  }

  function DiagonalFrom(M: Matrix, r: int, c: int): Vector { f => M(r + f, c + f) }

  /** Copies m entries of a diagonal of M into one of res. */
  method CopyDiagonal(M: array2<Complex>, m: nat, rf0: nat, cf0: nat, rt0: nat, ct0: nat, res: array2<Complex>)
    requires rf0 + m <= M.Length0 && cf0 + m <= M.Length1
    requires rt0 + m <= res.Length0 && ct0 + m <= res.Length1 && res != M
    modifies res
    ensures forall i, j :: 0 <= i < res.Length0 && 0 <= j < res.Length1 ==>
      res[i, j] == if OnDiagonal(rt0, ct0, 0, m, i, j) then DiagonalFrom(Entries(M), rf0, cf0)(i - rt0)
                   else old(res[i, j])
  {
    ghost var v := DiagonalFrom(Entries(M), rf0, cf0);
    for ff := 0 to m
      invariant forall i, j :: 0 <= i < res.Length0 && 0 <= j < res.Length1 ==>
        res[i, j] == if OnDiagonal(rt0, ct0, 0, ff, i, j) then v(i - rt0) else old(res[i, j])
    {
      res[rt0 + ff, ct0 + ff] := M[rf0 + ff, cf0 + ff];
    }
  }

  /** Continues a diagonal conjugately, backwards from the last but one of its L entries. */
  method ContinueDiagonal(M: array2<Complex>, L: nat, n: nat, rf0: nat, cf0: nat, rt0: nat, ct0: nat,
                          res: array2<Complex>)
    requires L <= n <= 2 * L - 1 && rf0 + L <= M.Length0 && cf0 + L <= M.Length1
    requires rt0 + n <= res.Length0 && ct0 + n <= res.Length1 && res != M
    modifies res
    ensures forall i, j :: 0 <= i < res.Length0 && 0 <= j < res.Length1 ==>
      res[i, j] == if OnDiagonal(rt0, ct0, L, n, i, j)
                   then Conj(DiagonalFrom(Entries(M), rf0, cf0)(2 * L - 2 - (i - rt0)))
                   else old(res[i, j])
  {
    hide Conj;
    ghost var v := DiagonalFrom(Entries(M), rf0, cf0);
    var rf, cf := rf0 + L - 2, cf0 + L - 2;
    for ff := L to n
      invariant rf == rf0 + (2 * L - 2 - ff) && cf == cf0 + (2 * L - 2 - ff)
      invariant forall i, j :: 0 <= i < res.Length0 && 0 <= j < res.Length1 ==>
        res[i, j] == if OnDiagonal(rt0, ct0, L, ff, i, j) then Conj(v(2 * L - 2 - (i - rt0))) else old(res[i, j])
    {
      res[rt0 + ff, ct0 + ff] := Conj(M[rf, cf]);
      rf, cf := rf - 1, cf - 1;
    }
  }

  /** Entry (i, j) is one of the entries from `lo` to `hi` of the diagonal that starts at (r, c). */
  predicate OnDiagonal(r: int, c: int, lo: int, hi: int, i: int, j: int) {
    lo <= i - r < hi && j - c == i - r
  }

  /** Copies a diagonal of L entries and continues it conjugately to n entries. */
  method ExpandDiagonal(M: array2<Complex>, L: nat, n: nat, rf0: nat, cf0: nat, rt0: nat, ct0: nat,
                        res: array2<Complex>)
    requires L <= n <= 2 * L - 1 && rf0 + L <= M.Length0 && cf0 + L <= M.Length1
    requires rt0 + n <= res.Length0 && ct0 + n <= res.Length1 && res != M
    modifies res
    ensures forall i, j :: 0 <= i < res.Length0 && 0 <= j < res.Length1 ==>
      res[i, j] == if OnDiagonal(rt0, ct0, 0, n, i, j)
                   then Continued(L, DiagonalFrom(Entries(M), rf0, cf0), i - rt0)
                   else old(res[i, j])
  {
    hide Conj, DiagonalFrom;
    CopyDiagonal(M, L, rf0, cf0, rt0, ct0, res);
    ContinueDiagonal(M, L, n, rf0, cf0, rt0, ct0, res);
  }

  /** The blocks before (r, c), row by row, are expanded, and the rest is zero. */
  ghost predicate PartlyExpanded(L: nat, n: nat, nodes: nat, M: Matrix, Y: Matrix, r: int, c: int) {
    forall a, b, f, g :: 0 <= a < nodes && 0 <= b < nodes && 0 <= f < n && 0 <= g < n ==>
      Y(At(n, a, f), At(n, b, g)) == if f == g && (a < r || (a == r && b < c)) then Cell(L, M, a, b, f) else Zero
  }

  /** Expands the diagonal of the block of nodes r and c. */
  method ExpandPair(M: array2<Complex>, L: nat, n: nat, ghost nodes: nat, r: nat, c: nat, res: array2<Complex>)
    requires L <= n <= 2 * L - 1 && r < nodes && c < nodes && res != M
    requires M.Length0 == M.Length1 >= nodes * L && res.Length0 == res.Length1 == nodes * n
    requires PartlyExpanded(L, n, nodes, Entries(M), Entries(res), r, c)
    modifies res
    ensures PartlyExpanded(L, n, nodes, Entries(M), Entries(res), r, c + 1)
  {
    hide At, Continued, PartlyExpanded, DiagonalFrom;
    ghost var m, w := Entries(M), Entries(res);
    BlockBounds(L, r, nodes);
    BlockBounds(L, c, nodes);
    BlockBounds(n, r, nodes);
    BlockBounds(n, c, nodes);
    ExpandDiagonal(M, L, n, r * L, c * L, r * n, c * n, res);
    DiagonalExpanded(L, n, nodes, r, c, m, w, Entries(res));
  }

  /** Expands the diagonals of all node blocks. */
  method ExpandMatrix(M: array2<Complex>, nodes: nat, L: nat, n: nat) returns (res: array2<Complex>)
    requires L <= n <= 2 * L - 1 && M.Length0 == M.Length1 >= nodes * L
    ensures res.Length0 == res.Length1 == nodes * n && fresh(res)
    ensures IsExpanded(L, n, nodes, Entries(M), Entries(res))
  {
    hide At, Continued, PartlyExpanded, IsExpanded, DiagonalFrom;
    res := new Complex[nodes * n, nodes * n]((i, j) => Zero);
    ghost var m := Entries(M);
    NoneExpanded(L, n, nodes, m, Entries(res));
    for r := 0 to nodes
      invariant fresh(res) && res.Length0 == res.Length1 == nodes * n
      invariant PartlyExpanded(L, n, nodes, m, Entries(res), r, 0)
    {
      for c := 0 to nodes
        invariant fresh(res) && res.Length0 == res.Length1 == nodes * n
        invariant PartlyExpanded(L, n, nodes, m, Entries(res), r, c)
      {
        ExpandPair(M, L, n, nodes, r, c, res);
      }
      NextRowExpanded(L, n, nodes, m, Entries(res), r);
    }
    AllExpanded(L, n, nodes, m, Entries(res));
  }

  lemma NoneExpanded(L: nat, n: nat, nodes: nat, M: Matrix, Y: Matrix)
    requires forall i, j :: 0 <= i < nodes * n && 0 <= j < nodes * n ==> Y(i, j) == Zero
    ensures PartlyExpanded(L, n, nodes, M, Y, 0, 0)
  {
    hide At, Cell;
    forall a, f | 0 <= a < nodes && 0 <= f < n ensures 0 <= At(n, a, f) < nodes * n { AtBounds(n, a, f, nodes); }
  }

  lemma NextRowExpanded(L: nat, n: nat, nodes: nat, M: Matrix, Y: Matrix, r: nat)
    requires PartlyExpanded(L, n, nodes, M, Y, r, nodes)
    ensures PartlyExpanded(L, n, nodes, M, Y, r + 1, 0)
  {
    hide At, Cell;
  }

  lemma AllExpanded(L: nat, n: nat, nodes: nat, M: Matrix, Y: Matrix)
    requires PartlyExpanded(L, n, nodes, M, Y, nodes, 0)
    ensures IsExpanded(L, n, nodes, M, Y)
  {
    hide At, Cell;
  }

  lemma DiagonalExpanded(L: nat, n: nat, nodes: nat, r: nat, c: nat, M: Matrix, Y: Matrix, Y': Matrix)
    requires L <= n <= 2 * L - 1 && r < nodes && c < nodes && PartlyExpanded(L, n, nodes, M, Y, r, c)
    requires forall i, j :: 0 <= i < nodes * n && 0 <= j < nodes * n ==>
      Y'(i, j) == if OnDiagonal(r * n, c * n, 0, n, i, j)
                  then Continued(L, DiagonalFrom(M, r * L, c * L), i - r * n)
                  else Y(i, j)
    ensures PartlyExpanded(L, n, nodes, M, Y', r, c + 1)
  {
    hide At, Cell, Continued, DiagonalFrom;
    forall a, b, f, g | 0 <= a < nodes && 0 <= b < nodes && 0 <= f < n && 0 <= g < n
      ensures Y'(At(n, a, f), At(n, b, g))
           == if f == g && (a < r || (a == r && b < c + 1)) then Cell(L, M, a, b, f) else Zero
    {
      AtBounds(n, a, f, nodes);
      AtBounds(n, b, g, nodes);
      AtOrder(n, a, f, r);
      AtOrder(n, b, g, c);
      AtValue(n, r, 0);
      AtValue(n, c, 0);
      if a == r && b == c {
        ContinuedCell(L, n, M, a, b, f);
      } else if a == r {
        OtherColumn(n, nodes, b, g, c, f);
      }
    }
  }

  /** A diagonal entry of block c lies in no other block. */
  lemma OtherColumn(n: nat, nodes: nat, b: nat, g: nat, c: nat, f: nat)
    requires b != c && g < n && f < n
    ensures At(n, b, g) - c * n != f
  {
    AtInjective(n, b, g, c, f);
  }

  lemma ContinuedCell(L: nat, n: nat, M: Matrix, a: nat, b: nat, f: nat)
    requires L <= n <= 2 * L - 1 && f < n
    ensures Continued(L, DiagonalFrom(M, a * L, b * L), f) == Cell(L, M, a, b, f)
  {
    hide Conj, At;
    var k := if f < L then f else 2 * L - 2 - f;
    AtValue(L, a, k);
    AtValue(L, b, k);
  }

  /** The variable transadmittances: the port admittances at the balanced nodes, continued. */
  method CreateMatrixLinearYV(abs: Complex -> real, net: HbLinear.Network, A: array2<Complex>, n: nat)
    returns (YV: array2<Complex>, Y: array2<Complex>, failA: set<int>, failZ: set<int>,
             ghost loaded: Matrix, ghost X: Matrix, ghost z: Matrix)
    requires IsModulus(abs) && net.Valid() && A.Length0 == A.Length1 == net.Size()
    requires HbLinear.FrequencyDiagonal(net.freqs, net.Size(), Entries(A))
    requires net.freqs <= n <= 2 * net.freqs - 1
    modifies A
    ensures Ports.Loaded(net.Size(), net.Ports(), old(Entries(A)), HbLinear.Incidence(net), HbLinear.G, loaded)
    ensures failA == {} <==> Nonsingular(net.Size(), loaded)
    ensures failA == {} ==> HbLinear.Measured(net, loaded, X, z, net.Ports())
    ensures failZ == {} <==> Nonsingular(net.Ports(), z)
    ensures failA == {} && failZ == {} ==> HbLinear.IsPortAdmittance(net, old(Entries(A)), Entries(Y))
    ensures YV.Length0 == YV.Length1 == net.balanced * n
    ensures IsExpanded(net.freqs, n, net.balanced, Entries(Y), Entries(YV))
  {
    hide IsModulus, Nonsingular, HbLinear.IsPortAdmittance, HbLinear.FrequencyDiagonal, HbLinear.Measured,
      Ports.Loaded, IsExpanded, HbLinear.Network.Size;
    Y, failA, failZ, loaded, X, z := HbLinear.CreateMatrixLinearY(abs, net, A);
    MorePorts(net.freqs, net.balanced, |net.excitations|);
    ghost var y := Entries(Y);
    YV := ExpandMatrix(Y, net.balanced, net.freqs, n);
    assert Entries(Y) == y;
  }

  lemma MorePorts(freqs: nat, balanced: nat, excitations: nat)
    ensures (balanced + excitations) * freqs >= balanced * freqs
  {
    assert (balanced + excitations) * freqs == balanced * freqs + excitations * freqs;
  }

  /** A row of an expanded matrix times a vector of spectra. */
  lemma ExpandedRow(L: nat, n: nat, nodes: nat, M: Matrix, Y: Matrix, V: Vector, a: nat, f: nat)
    requires IsExpanded(L, n, nodes, M, Y) && a < nodes && f < n
    ensures Apply(nodes * n, Y, V, At(n, a, f)) == Sum(nodes, b => Mul(Cell(L, M, a, b, f), V(At(n, b, f))))
  {
    hide Mul, At, Cell;
    var g := (j: int) => Mul(Y(At(n, a, f), j), V(j));
    SumBlocks(n, nodes, nodes * n, g);
    forall b | 0 <= b < nodes ensures Sum(n, k => g(At(n, b, k))) == Mul(Cell(L, M, a, b, f), V(At(n, b, f))) {
      var h := (k: int) => g(At(n, b, k));
      forall k | 0 <= k < n && k != f ensures h(k) == Zero { MulUnits(V(At(n, b, k))); }
      SumOnly(n, f, h);
    }
    SumExt(nodes, b => Sum(n, k => g(At(n, b, k))), b => Mul(Cell(L, M, a, b, f), V(At(n, b, f))));
  }

  /** All nodes' spectra belong to real signals. */
  ghost predicate AllSymmetric(n: nat, nodes: nat, V: Vector) {
    forall a, f :: 0 <= a < nodes && 0 <= f < n ==> V(At(n, a, Mirror(n, f))) == Conj(V(At(n, a, f)))
  }

  function Applied(size: nat, Y: Matrix, V: Vector): Vector { i => Apply(size, Y, V, i) }

  /** Direct current and highest frequency are real in all blocks. */
  ghost predicate RealEnds(L: nat, nodes: nat, M: Matrix) {
    forall a, b :: 0 <= a < nodes && 0 <= b < nodes ==>
      Diagonal(L, M, a, b)(0).im == 0.0 && Diagonal(L, M, a, b)(L - 1).im == 0.0
  }

  lemma MirroredCell(L: nat, n: nat, M: Matrix, a: int, b: int, f: int)
    requires L >= 2 && n == 2 * (L - 1) && 0 <= f < n
    requires Diagonal(L, M, a, b)(0).im == 0.0 && Diagonal(L, M, a, b)(L - 1).im == 0.0
    ensures Cell(L, M, a, b, Mirror(n, f)) == Conj(Cell(L, M, a, b, f))
  {
    hide Diagonal;
  }

  /** An expanded matrix with real ends keeps signals real. */
  lemma RealKept(L: nat, n: nat, nodes: nat, M: Matrix, Y: Matrix, V: Vector)
    requires L >= 2 && n == 2 * (L - 1) && IsExpanded(L, n, nodes, M, Y) && RealEnds(L, nodes, M)
    requires AllSymmetric(n, nodes, V)
    ensures AllSymmetric(n, nodes, Applied(nodes * n, Y, V))
  {
    hide Mul, At, Cell, Apply, Conj;
    forall a, f | 0 <= a < nodes && 0 <= f < n
      ensures Apply(nodes * n, Y, V, At(n, a, Mirror(n, f))) == Conj(Apply(nodes * n, Y, V, At(n, a, f)))
    {
      var m := Mirror(n, f);
      ExpandedRow(L, n, nodes, M, Y, V, a, f);
      ExpandedRow(L, n, nodes, M, Y, V, a, m);
      var g := (b: int) => Mul(Cell(L, M, a, b, f), V(At(n, b, f)));
      var h := (b: int) => Mul(Cell(L, M, a, b, m), V(At(n, b, m)));
      forall b | 0 <= b < nodes ensures h(b) == Conj(g(b)) {
        MirroredCell(L, n, M, a, b, f);
        ConjMul(Cell(L, M, a, b, f), V(At(n, b, f)));
      }
      ConjSum(nodes, g, h);
      SumExt(nodes, b => Mul(Cell(L, M, a, b, f), V(At(n, b, f))), g);
      SumExt(nodes, b => Mul(Cell(L, M, a, b, m), V(At(n, b, m))), h);
    }
  }

  /** One at frequency f of node b. */
  function Tone(n: nat, b: int, f: int): Vector { i => if i == At(n, b, f) then One else Zero }

  lemma ToneResponse(L: nat, n: nat, nodes: nat, M: Matrix, Y: Matrix, a: nat, b: nat, f: nat)
    requires IsExpanded(L, n, nodes, M, Y) && a < nodes && b < nodes && f < n
    ensures Applied(nodes * n, Y, Tone(n, b, f))(At(n, a, f)) == Cell(L, M, a, b, f)
  {
    hide Mul, At, Cell, Apply;
    var V := Tone(n, b, f);
    ExpandedRow(L, n, nodes, M, Y, V, a, f);
    var g := (c: int) => Mul(Cell(L, M, a, c, f), V(At(n, c, f)));
    forall c | 0 <= c < nodes ensures g(c) == if c == b then Cell(L, M, a, b, f) else Zero {
      AtInjective(n, c, f, b, f);
      MulUnits(Cell(L, M, a, c, f));
    }
    SumOnly(nodes, b, g);
    SumExt(nodes, c => Mul(Cell(L, M, a, c, f), V(At(n, c, f))), g);
  }

  lemma MirrorFixed(n: nat, f: nat, g: nat)
    requires f < n && g < n && Mirror(n, f) == f
    ensures 0 <= Mirror(n, g) < n && (Mirror(n, g) == f <==> g == f)
  {}

  lemma ToneSymmetric(n: nat, nodes: nat, b: nat, f: nat)
    requires b < nodes && f < n && Mirror(n, f) == f
    ensures AllSymmetric(n, nodes, Tone(n, b, f))
  {
    hide At, Mirror;
    forall a, g | 0 <= a < nodes && 0 <= g < n
      ensures Tone(n, b, f)(At(n, a, Mirror(n, g))) == Conj(Tone(n, b, f)(At(n, a, g)))
    {
      MirrorFixed(n, f, g);
      AtInjective(n, a, g, b, f);
      AtInjective(n, a, Mirror(n, g), b, f);
    }
  }

  /** The expanded matrix keeps all signals real if and only if direct current and highest
      frequency are real in all blocks. */
  lemma ExpandedKeepsReal(L: nat, n: nat, nodes: nat, M: Matrix, Y: Matrix)
    requires L >= 2 && n == 2 * (L - 1) && IsExpanded(L, n, nodes, M, Y)
    ensures RealEnds(L, nodes, M) <==>
      forall V: Vector :: AllSymmetric(n, nodes, V) ==> AllSymmetric(n, nodes, Applied(nodes * n, Y, V))
  {
    hide At, Apply, IsExpanded, Tone, Applied;
    if RealEnds(L, nodes, M) {
      forall V: Vector | AllSymmetric(n, nodes, V) ensures AllSymmetric(n, nodes, Applied(nodes * n, Y, V)) {
        RealKept(L, n, nodes, M, Y, V);
      }
    }
    if forall V: Vector :: AllSymmetric(n, nodes, V) ==> AllSymmetric(n, nodes, Applied(nodes * n, Y, V)) {
      forall a, b | 0 <= a < nodes && 0 <= b < nodes
        ensures Diagonal(L, M, a, b)(0).im == 0.0 && Diagonal(L, M, a, b)(L - 1).im == 0.0
      {
        RealEnd(L, n, nodes, M, Y, a, b, 0);
        RealEnd(L, n, nodes, M, Y, a, b, L - 1);
      }
    }
  }

  lemma RealEnd(L: nat, n: nat, nodes: nat, M: Matrix, Y: Matrix, a: nat, b: nat, f: nat)
    requires IsExpanded(L, n, nodes, M, Y) && a < nodes && b < nodes && f < n && f < L && Mirror(n, f) == f
    requires AllSymmetric(n, nodes, Tone(n, b, f)) ==> AllSymmetric(n, nodes, Applied(nodes * n, Y, Tone(n, b, f)))
    ensures Diagonal(L, M, a, b)(f).im == 0.0
  {
    hide At, Apply, IsExpanded, Tone, Applied, Diagonal;
    ToneSymmetric(n, nodes, b, f);
    ToneResponse(L, n, nodes, M, Y, a, b, f);
    var W := Applied(nodes * n, Y, Tone(n, b, f));
    assert W(At(n, a, Mirror(n, f))) == Conj(W(At(n, a, f)));
  }

  /** One node and two frequencies with the admittance i at the highest one: the real tone of
      that frequency is not kept real. */
  lemma ExpandedInput(M: Matrix, Y: Matrix)
    requires IsExpanded(2, 2, 1, M, Y) && M(1, 1) == Complex(0.0, 1.0)
    ensures AllSymmetric(2, 1, Tone(2, 0, 1)) && !AllSymmetric(2, 1, Applied(2, Y, Tone(2, 0, 1)))
  {
    hide Apply, IsExpanded, Tone, Applied;
    ToneSymmetric(2, 1, 0, 1);
    ToneResponse(2, 2, 1, M, Y, 0, 0, 1);
    assert Cell(2, M, 0, 0, 1) == M(1, 1);
    var W := Applied(2, Y, Tone(2, 0, 1));
    assert W(At(2, 0, Mirror(2, 1))) != Conj(W(At(2, 0, 1)));
  }
}
