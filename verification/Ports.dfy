/** The algebra behind the port admittance extraction: loading every port of a network
    with a conductance, measuring the port impedances, inverting them and taking the
    conductance off again yields the admittance of the unloaded network. */
module Ports {
  import opened ComplexNumbers
  import opened Sums
  import opened LinearAlgebra

  /** The network matrix A with conductance g connected to each of the p ports, whose
      incidence vectors are the columns of E. */
  ghost predicate Loaded(n: nat, p: nat, A: Matrix, E: Matrix, g: Complex, A': Matrix) {
    forall i, j :: 0 <= i < n && 0 <= j < n ==>
      A'(i, j) == Add(A(i, j), Mul(g, Product(p, E, Transposed(E), i, j)))
  }

  function Transposed(E: Matrix): Matrix {
    (i, j) => E(j, i)
  }

  /** Column q of X is the response of the loaded network to a unit current at port q. */
  ghost predicate Responses(n: nat, p: nat, A': Matrix, E: Matrix, X: Matrix) {
    forall q :: 0 <= q < p ==> Solves(n, A', Column(X, q), Column(E, q))
  }

  /** Z holds the port voltages of these responses. */
  ghost predicate Impedances(n: nat, p: nat, E: Matrix, X: Matrix, Z: Matrix) {
    forall r, q :: 0 <= r < p && 0 <= q < p ==> Z(r, q) == Product(n, Transposed(E), X, r, q)
  }

  ghost predicate IsInverse(p: nat, Z: Matrix, H: Matrix) {
    forall r, q :: 0 <= r < p && 0 <= q < p ==> Product(p, Z, H, r, q) == if r == q then One else Zero
  }

  function Unloaded(H: Matrix, g: Complex): Matrix {
    (r, c) => if r == c then Sub(H(r, c), g) else H(r, c)
  }

  /** Port currents c drive the network into a state x whose port voltages are v. */
  ghost predicate PortState(n: nat, p: nat, A: Matrix, E: Matrix, v: Vector, c: Vector, x: Vector) {
    && (forall i :: 0 <= i < n ==> Apply(n, A, x, i) == Apply(p, E, c, i))
    && (forall r :: 0 <= r < p ==> Apply(n, Transposed(E), x, r) == v(r))
  }

  /** Loading changes the matrix-vector product by g E(Eᵀx). */
  lemma LoadedApply(n: nat, p: nat, A: Matrix, E: Matrix, g: Complex, A': Matrix, x: Vector, v: Vector, i: int)
    requires Loaded(n, p, A, E, g, A') && 0 <= i < n
    requires forall r :: 0 <= r < p ==> Apply(n, Transposed(E), x, r) == v(r)
    ensures Apply(n, A', x, i) == Add(Apply(n, A, x, i), Mul(g, Apply(p, E, v, i)))
  {
    hide Mul, Product;
    var ET := Transposed(E);
    var f := (k: int) => Mul(A(i, k), x(k));
    var h := (k: int) => Mul(Product(p, E, ET, i, k), x(k));
    var gh := (k: int) => Mul(g, h(k));
    forall k | 0 <= k < n ensures Mul(A'(i, k), x(k)) == Add(f(k), gh(k)) {
      AddMul(A(i, k), Mul(g, Product(p, E, ET, i, k)), x(k));
      MulAssoc(g, Product(p, E, ET, i, k), x(k));
    }
    SumExt(n, k => Mul(A'(i, k), x(k)), k => Add(f(k), gh(k)));
    SumAdd(n, f, gh);
    SumScale(n, g, h);
    ProductApply(p, n, E, ET, x, i);
    SumExt(p, r => Mul(E(i, r), Apply(n, ET, x, r)), r => Mul(E(i, r), v(r)));
  }

  /** The superposition of the port responses, weighted by c, answers the currents c. */
  lemma Superposition(n: nat, p: nat, A': Matrix, E: Matrix, X: Matrix, c: Vector, x: Vector, i: int)
    requires Responses(n, p, A', E, X) && 0 <= i < n
    requires forall k :: 0 <= k < n ==> x(k) == Apply(p, X, c, k)
    ensures Apply(n, A', x, i) == Apply(p, E, c, i)
  {
    hide Mul;
    SumExt(n, k => Mul(A'(i, k), x(k)), k => Mul(A'(i, k), Apply(p, X, c, k)));
    ProductApply(n, p, A', X, c, i);
    forall q | 0 <= q < p ensures Mul(Product(n, A', X, i, q), c(q)) == Mul(E(i, q), c(q)) {
      assert Apply(n, A', Column(X, q), i) == Column(E, q)(i);
      SumExt(n, k => Mul(A'(i, k), Column(X, q)(k)), k => Mul(A'(i, k), X(k, q)));
    }
    SumExt(p, q => Mul(Product(n, A', X, i, q), c(q)), q => Mul(E(i, q), c(q)));
  }

  /** Its port voltages are Z c. */
  lemma SuperposedVoltages(n: nat, p: nat, E: Matrix, X: Matrix, Z: Matrix, c: Vector, x: Vector, r: int)
    requires Impedances(n, p, E, X, Z) && 0 <= r < p
    requires forall k :: 0 <= k < n ==> x(k) == Apply(p, X, c, k)
    ensures Apply(n, Transposed(E), x, r) == Apply(p, Z, c, r)
  {
    hide Mul, Product;
    var ET := Transposed(E);
    SumExt(n, k => Mul(ET(r, k), x(k)), k => Mul(ET(r, k), Apply(p, X, c, k)));
    ProductApply(n, p, ET, X, c, r);
    SumExt(p, q => Mul(Product(n, ET, X, r, q), c(q)), q => Mul(Z(r, q), c(q)));
  }

  /** A right inverse of a nonsingular matrix is also a left inverse: H(Zc) = c. */
  lemma InverseApply(p: nat, Z: Matrix, H: Matrix, c: Vector, v: Vector)
    requires Nonsingular(p, Z) && IsInverse(p, Z, H)
    ensures (forall r :: 0 <= r < p ==>
      Apply(p, Z, c, r) == v(r)) <==> forall r :: 0 <= r < p ==> Apply(p, H, v, r) == c(r)
  {
    hide Mul, Product, Apply;
    var d: Vector := k => Apply(p, H, v, k);
    forall r | 0 <= r < p ensures Apply(p, Z, d, r) == v(r) {
      InverseRow(p, Z, H, v, d, r);
    }
    if forall r :: 0 <= r < p ==> Apply(p, Z, c, r) == v(r) {
      SolutionUnique(p, Z, c, d, v);
      forall r | 0 <= r < p ensures Apply(p, H, v, r) == c(r) { assert d(r) == c(r); }
    }
    if forall r :: 0 <= r < p ==> Apply(p, H, v, r) == c(r) {
      forall r | 0 <= r < p ensures Apply(p, Z, c, r) == v(r) {
        ApplyExt(p, Z, c, Z, d, r, r);
      }
    }
  }

  lemma InverseRow(p: nat, Z: Matrix, H: Matrix, v: Vector, d: Vector, r: int)
    requires IsInverse(p, Z, H) && 0 <= r < p
    requires forall k :: 0 <= k < p ==> d(k) == Apply(p, H, v, k)
    ensures Apply(p, Z, d, r) == v(r)
  {
    hide Mul, Product;
    SumExt(p, k => Mul(Z(r, k), d(k)), k => Mul(Z(r, k), Apply(p, H, v, k)));
    ProductApply(p, p, Z, H, v, r);
    var f := (q: int) => Mul(Product(p, Z, H, r, q), v(q));
    forall q | 0 <= q < p && q != r ensures f(q) == Zero { MulUnits(v(q)); }
    SumOnly(p, r, f);
    MulUnits(v(r));
  }

  lemma UnloadedApply(p: nat, H: Matrix, g: Complex, v: Vector, r: int)
    requires 0 <= r < p
    ensures Apply(p, Unloaded(H, g), v, r) == Sub(Apply(p, H, v, r), Mul(g, v(r)))
  {
    hide Mul;
    var Y := Unloaded(H, g);
    var f := (k: int) => Mul(H(r, k), v(k));
    var d := (k: int) => if k == r then Mul(g, v(k)) else Zero;
    forall k | 0 <= k < p ensures Mul(Y(r, k), v(k)) == Sub(f(k), d(k)) {
      SubMul(H(r, k), g, v(k));
    }
    SumExt(p, k => Mul(Y(r, k), v(k)), k => Sub(f(k), d(k)));
    SumSub(p, f, d);
    SumOnly(p, r, d);
  }

  /** The admittance left after the conductances are taken off is that of the network
      itself: voltages v and currents c are possible at its ports exactly when c = Y v.
      The matrix A of the unloaded network may be singular. */
  lemma PortAdmittance(n: nat, p: nat, A: Matrix, E: Matrix, g: Complex, A': Matrix, X: Matrix, Z: Matrix, H: Matrix,
                       v: Vector, c: Vector)
    requires Loaded(n, p, A, E, g, A') && Nonsingular(n, A')
    requires Responses(n, p, A', E, X) && Impedances(n, p, E, X, Z)
    requires Nonsingular(p, Z) && IsInverse(p, Z, H)
    ensures (exists x: Vector :: PortState(n, p, A, E, v, c, x))
            <==> forall r :: 0 <= r < p ==> c(r) == Apply(p, Unloaded(H, g), v, r)
  {
    hide Mul, Product, Apply;
    var j: Vector := r => Add(c(r), Mul(g, v(r)));   // the currents that drive the loaded network
    var s: Vector := k => Apply(p, X, j, k);
    if x: Vector :| PortState(n, p, A, E, v, c, x) {
      forall i | 0 <= i < n ensures Apply(n, A', x, i) == Apply(p, E, j, i) {
        LoadedApply(n, p, A, E, g, A', x, v, i);
        ApplyCombine(p, E, c, g, v, j, i);
      }
      LoadedResponse(n, p, A', E, X, Z, j, s, x, v);
      InverseApply(p, Z, H, j, v);
      forall r | 0 <= r < p ensures c(r) == Apply(p, Unloaded(H, g), v, r) {
        UnloadedApply(p, H, g, v, r);
      }
    }
    if forall r :: 0 <= r < p ==> c(r) == Apply(p, Unloaded(H, g), v, r) {
      forall r | 0 <= r < p ensures Apply(p, H, v, r) == j(r) {
        UnloadedApply(p, H, g, v, r);
      }
      InverseApply(p, Z, H, j, v);
      forall r | 0 <= r < p ensures Apply(n, Transposed(E), s, r) == v(r) {
        SuperposedVoltages(n, p, E, X, Z, j, s, r);
      }
      forall i | 0 <= i < n ensures Apply(n, A, s, i) == Apply(p, E, c, i) {
        Superposition(n, p, A', E, X, j, s, i);
        LoadedApply(n, p, A, E, g, A', s, v, i);
        ApplyCombine(p, E, c, g, v, j, i);
      }
      assert PortState(n, p, A, E, v, c, s);
    }
  }

  /** The loaded network has only one response to the currents j, so v = Z j. */
  lemma LoadedResponse(n: nat, p: nat, A': Matrix, E: Matrix, X: Matrix, Z: Matrix, j: Vector, s: Vector, x: Vector,
                       v: Vector)
    requires Nonsingular(n, A') && Responses(n, p, A', E, X) && Impedances(n, p, E, X, Z)
    requires forall k :: 0 <= k < n ==> s(k) == Apply(p, X, j, k)
    requires forall i :: 0 <= i < n ==> Apply(n, A', x, i) == Apply(p, E, j, i)
    requires forall r :: 0 <= r < p ==> Apply(n, Transposed(E), x, r) == v(r)
    ensures forall r :: 0 <= r < p ==> Apply(p, Z, j, r) == v(r)
  {
    hide Mul, Product, Apply;
    var b: Vector := i => Apply(p, E, j, i);
    forall i | 0 <= i < n ensures Apply(n, A', s, i) == b(i) {
      Superposition(n, p, A', E, X, j, s, i);
    }
    SolutionUnique(n, A', x, s, b);
    forall r | 0 <= r < p ensures Apply(p, Z, j, r) == v(r) {
      SuperposedVoltages(n, p, E, X, Z, j, s, r);
      ApplyExt(n, Transposed(E), s, Transposed(E), x, r, r);
    }
  }
}
