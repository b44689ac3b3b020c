/** The functions that equations can use on reals, their derivatives, and where they have one. */
module MathLibrary {
  import opened ComplexNumbers
  import opened Options
  import opened FourierTransform
  import opened Germs

  type Function = real -> Option<real>

  /** Constants and functions of the mathematical library. */
  datatype Library = Library(
    trig: Trig, exp: real -> real, ln: real -> real, sqrt: real -> real,
    arcsin: real -> real, arccos: real -> real, arctan: real -> real,
    pow: (real, real) -> real, hypot: (real, real) -> real,
    euler: real, limitexp: real, expLimit: real, kBoverQ: real)
  {
    function Sine(v: real): real { trig.sin(v) }

    function Cosine(v: real): real { trig.cos(v) }

    function Exponential(v: real): real { exp(v) }

    function Logarithm(v: real): real { ln(v) }

    function Root(v: real): real { sqrt(v) }

    function Arcsine(v: real): real { arcsin(v) }

    function Arccosine(v: real): real { arccos(v) }

    function Arctangent(v: real): real { arctan(v) }

    function HyperSine(v: real): real { Times(0.5, Exponential(v) - Exponential(-v)) }

    function HyperCosine(v: real): real { Times(0.5, Exponential(v) + Exponential(-v)) }

    predicate SmallAngle(h: real) {
      && Abs(Sine(h) - h) <= Times(Abs(h), Times(h, h))
      && Abs(Cosine(h) - 1.0) <= Times(h, h)
    }

    predicate ExpSum(x: real, y: real) { Exponential(x + y) == Times(Exponential(x), Exponential(y)) }

    predicate SmallExp(h: real) { Abs(Exponential(h) - 1.0 - h) <= Times(h, h) }

    predicate LnOfExp(x: real) { Logarithm(Exponential(x)) == x }

    predicate IsRoot(v: real) { Root(v) >= 0.0 && Times(Root(v), Root(v)) == v }

    predicate IsArcsin(v: real) { Sine(Arcsine(v)) == v && Cosine(Arcsine(v)) >= 0.0 }

    predicate IsArccos(v: real) { Cosine(Arccosine(v)) == v && Sine(Arccosine(v)) >= 0.0 }

    predicate IsArctan(v: real) {
      Cosine(Arctangent(v)) > 0.0 && Sine(Arctangent(v)) == Times(v, Cosine(Arctangent(v)))
    }

    predicate IsPower(x: real, y: real) {
      PowValue(this, x, y).Some? ==> pow(x, y) == PowValue(this, x, y).value
    }

    /** The defining identities.  Near zero, sine, cosine and exponential are known to first
        order; the inverse functions are only known not to jump. */
    ghost predicate Valid() {
      && trig.Valid()
      && (forall h :: Abs(h) < 1.0 ==> SmallAngle(h))
      && (forall x, y :: ExpSum(x, y))
      && (forall h :: Abs(h) < 1.0 ==> SmallExp(h))
      && (forall x :: LnOfExp(x))
      && (forall v :: v > 0.0 ==> Exponential(Logarithm(v)) == v && IsSteady(Ln(this).value, v))
      && (forall v :: v >= 0.0 ==> IsRoot(v))
      && (forall v :: -1.0 <= v <= 1.0 ==> IsArcsin(v) && IsArccos(v))
      && (forall v :: -1.0 < v < 1.0 ==> IsSteady(Arcsin(this).value, v) && IsSteady(Arccos(this).value, v))
      && (forall v :: IsArctan(v) && IsSteady(Arctan(this).value, v))
      && (forall x, y :: hypot(x, y) == Root(Times(x, x) + Times(y, y)))
      && (forall x, y :: IsPower(x, y))
      && euler == Exponential(1.0) && expLimit == Exponential(limitexp)
    }
  }

  predicate Moves(f: Function, v: real, L: real, h: real) {
    f(v).Some? && f(v + h).Some? && Abs(f(v + h).value - f(v).value) <= Times(Abs(h), L)
  }

  ghost predicate IsLipschitz(f: Function, v: real, L: real, r: real) {
    L >= 0.0 && r > 0.0 && forall h {:trigger Moves(f, v, L, h)} :: Abs(h) < r ==> Moves(f, v, L, h)
  }

  /** Near v, the function moves by no more than a multiple of its argument. */
  ghost predicate IsSteady(f: Function, v: real) {
    exists L, r :: IsLipschitz(f, v, L, r)
  }

  // ----- real arithmetic -----

  lemma Over(x: real, y: real, z: real)
    requires y != 0.0
    ensures Times(z, y) == x <==> z == Ratio(x, y)
  {
    var q := x / y;
    assert q * y == x;
    if z * y == x { assert (z - q) * y == 0.0; }
  }

  lemma SameRoot(x: real, y: real)
    requires x >= 0.0 && y >= 0.0 && Times(x, x) == Times(y, y)
    ensures x == y
  {
    SquaresOrdered(x, y);
    SquaresOrdered(y, x);
  }

  lemma SquaresOrdered(x: real, y: real)
    requires x >= 0.0 && y >= 0.0
    ensures Times(x, x) < Times(y, y) <==> x < y
  {
    assert (y - x) * (x + y) == y * y - x * x;
    if x < y { TimesPositive(y - x, x + y); }
    if y < x { TimesPositive(x - y, x + y); }
  }

  lemma NonZero(x: real)
    ensures Times(x, x) != 0.0 <==> x != 0.0
    ensures Times(x, x) >= 0.0
  {
    hide Times;
    SquareSign(x);
  }

  lemma Products(x: real, y: real)
    ensures Times(x, y) == 0.0 <==> x == 0.0 || y == 0.0
    ensures Times(-x, y) == -Times(x, y) == Times(x, -y)
  {}

  // ----- identities -----

  lemma Circle(lib: Library, x: real)
    requires lib.Valid()
    ensures Times(lib.Sine(x), lib.Sine(x)) + Times(lib.Cosine(x), lib.Cosine(x)) == 1.0
  {
    hide Times, Library.SmallAngle, Library.ExpSum, Library.SmallExp, Library.LnOfExp, Library.IsRoot, Library.IsArcsin,
      Library.IsArccos, Library.IsArctan, IsSteady;
    assert lib.trig.AngleSum(x, -x) && lib.trig.Parity(x);
    assert x + -x == 0.0;
    Products(lib.Sine(x), lib.Sine(x));
  }

  lemma ExpPositive(lib: Library, x: real)
    requires lib.Valid()
    ensures lib.Exponential(0.0) == 1.0 && lib.Exponential(x) > 0.0
    ensures Times(lib.Exponential(x), lib.Exponential(-x)) == 1.0
  {
    hide Times, Trig.Valid, Library.SmallAngle, Library.LnOfExp, Library.IsRoot, Library.IsArcsin,
      Library.IsArccos, Library.IsArctan, IsSteady;
    assert lib.SmallExp(0.0);
    TimesUnits(0.0);
    assert lib.ExpSum(x, -x) && x + -x == 0.0;
    assert lib.ExpSum(x / 2.0, x / 2.0) && x / 2.0 + x / 2.0 == x;
    NonZero(lib.Exponential(x / 2.0));
    Products(lib.Exponential(x), lib.Exponential(-x));
  }

  lemma LnIdentities(lib: Library, v: real)
    requires lib.Valid()
    ensures lib.Logarithm(1.0) == 0.0 && lib.Logarithm(lib.euler) == 1.0
    ensures v > 0.0 ==> lib.Exponential(lib.Logarithm(v)) == v && IsSteady(Ln(lib).value, v)
    ensures v > 0.0 && v != 1.0 ==> lib.Logarithm(v) != 0.0
  {
    hide Times, Trig.Valid, Library.SmallAngle, Library.ExpSum, Library.SmallExp, Library.IsRoot, Library.IsArcsin,
      Library.IsArccos, Library.IsArctan, IsSteady;
    ExpPositive(lib, 0.0);
    assert lib.LnOfExp(0.0) && lib.LnOfExp(1.0);
  }

  lemma Roots(lib: Library, v: real)
    requires lib.Valid() && v >= 0.0
    ensures lib.Root(v) >= 0.0 && Times(lib.Root(v), lib.Root(v)) == v && (v > 0.0 ==> lib.Root(v) > 0.0)
  {
    hide Trig.Valid, Library.SmallAngle, Library.ExpSum, Library.SmallExp, Library.LnOfExp, Library.IsArcsin,
      Library.IsArccos, Library.IsArctan, IsSteady;
    assert lib.IsRoot(v);
  }

  /** A number that is not negative and has the given square is the root. */
  lemma RootIs(lib: Library, v: real, x: real)
    requires lib.Valid() && x >= 0.0 && Times(x, x) == v
    ensures v >= 0.0 && lib.Root(v) == x
  {
    hide Times, Library.Valid, Library.Root;
    NonZero(x);
    Roots(lib, v);
    SameRoot(lib.Root(v), x);
  }

  lemma Arcs(lib: Library, v: real)
    requires lib.Valid()
    ensures -1.0 <= v <= 1.0 ==> lib.IsArcsin(v) && lib.IsArccos(v)
    ensures -1.0 < v < 1.0 ==> IsSteady(Arcsin(lib).value, v) && IsSteady(Arccos(lib).value, v)
    ensures lib.IsArctan(v) && IsSteady(Arctan(lib).value, v)
  {
    hide Trig.Valid, Library.SmallAngle, Library.ExpSum, Library.SmallExp, Library.LnOfExp, Library.IsArcsin,
      Library.IsArccos, Library.IsArctan, IsSteady;
  }

  // ----- functions with their derivatives -----

  /** A function of one argument, and its derivative where it has one. */
  datatype Entry = Entry(value: Function, slope: Function)

  /** The function near v. */
  function At(f: Function, v: real): Germ { h => f(v + h) }

  /** At v, the second part is the derivative of the first: the slope of its tangent, absent
      if and only if there is none. */
  ghost predicate IsExact(e: Entry, v: real) {
    && (e.slope(v).Some? ==> e.value(v).Some? && HasTangent(At(e.value, v), e.value(v).value, e.slope(v).value))
    && (e.slope(v).None? ==> forall a, d :: !HasTangent(At(e.value, v), a, d))
  }

  function Sin(lib: Library): Entry { Entry(v => Some(lib.Sine(v)), v => Some(lib.Cosine(v))) }

  function Cos(lib: Library): Entry { Entry(v => Some(lib.Cosine(v)), v => Some(-lib.Sine(v))) }

  function Exp(lib: Library): Entry { Entry(v => Some(lib.Exponential(v)), v => Some(lib.Exponential(v))) }

  lemma AngleExpansion(s: real, c: real, x: real, y: real, h: real)
    requires Abs(x - h) <= Times(Abs(h), Times(h, h)) && Abs(y - 1.0) <= Times(h, h) && Abs(h) < 1.0
    ensures Close(Some(Times(s, y) + Times(c, x)), s, c, Abs(s) + Abs(c), h)
  {
    hide Times;
    var q := Times(h, h);
    SmallSquare(h);
    TimesMonotone(Abs(h), 1.0, q);
    TimesUnits(q);
    ProductBound(s, y - 1.0, Abs(s), q);
    ProductBound(c, x - h, Abs(c), q);
    Expanded(s, c, x, y, h);
    TimesAdd(q, Abs(s), Abs(c));
  }

  lemma Expanded(s: real, c: real, x: real, y: real, h: real)
    ensures Times(s, y) + Times(c, x) - s - Times(h, c) == Times(s, y - 1.0) + Times(c, x - h)
  {}

  lemma SinExact(lib: Library, v: real)
    requires lib.Valid()
    ensures IsExact(Sin(lib), v)
  {
    hide Times, Close, Library.Valid, HasTangent;
    var g, s, c := At(Sin(lib).value, v), lib.Sine(v), lib.Cosine(v);
    forall h | Abs(h) < 1.0 ensures Close(g(h), s, c, Abs(s) + Abs(c), h) {
      AngleSums(lib, v, h);
      AngleExpansion(s, c, lib.Sine(h), lib.Cosine(h), h);
    }
    TangentBy(g, s, c, Abs(s) + Abs(c), 1.0);
  }

  lemma AngleSums(lib: Library, v: real, h: real)
    requires lib.Valid() && Abs(h) < 1.0
    ensures lib.Sine(v + h) == Times(lib.Sine(v), lib.Cosine(h)) + Times(lib.Cosine(v), lib.Sine(h))
    ensures lib.Cosine(v + h) == Times(lib.Cosine(v), lib.Cosine(h)) - Times(lib.Sine(v), lib.Sine(h))
    ensures Abs(lib.Sine(h) - h) <= Times(Abs(h), Times(h, h)) && Abs(lib.Cosine(h) - 1.0) <= Times(h, h)
  {
    hide Times, Library.ExpSum, Library.SmallExp, Library.LnOfExp, Library.IsRoot, Library.IsArcsin,
      Library.IsArccos, Library.IsArctan, IsSteady;
    assert lib.trig.AngleSum(v, h) && lib.SmallAngle(h);
  }

  lemma CosExact(lib: Library, v: real)
    requires lib.Valid()
    ensures IsExact(Cos(lib), v)
  {
    hide Times, Close, Library.Valid, HasTangent;
    var g, s, c := At(Cos(lib).value, v), lib.Sine(v), lib.Cosine(v);
    forall h | Abs(h) < 1.0 ensures Close(g(h), c, -s, Abs(c) + Abs(-s), h) {
      AngleSums(lib, v, h);
      AngleExpansion(c, -s, lib.Sine(h), lib.Cosine(h), h);
      Products(s, lib.Sine(h));
    }
    TangentBy(g, c, -s, Abs(c) + Abs(-s), 1.0);
  }

  lemma ExpExact(lib: Library, v: real)
    requires lib.Valid()
    ensures IsExact(Exp(lib), v)
  {
    hide Times, Close, Library.Valid, HasTangent;
    var g, e := At(Exp(lib).value, v), lib.Exponential(v);
    forall h | Abs(h) < 1.0 ensures Close(g(h), e, e, Abs(e), h) {
      ExpSums(lib, v, h);
      ExpExpansion(e, lib.Exponential(h), h);
    }
    TangentBy(g, e, e, Abs(e), 1.0);
  }

  lemma ExpSums(lib: Library, v: real, h: real)
    requires lib.Valid()
    ensures lib.Exponential(v + h) == Times(lib.Exponential(v), lib.Exponential(h))
    ensures Abs(h) < 1.0 ==> Abs(lib.Exponential(h) - 1.0 - h) <= Times(h, h)
  {
    hide Times, Trig.Valid, Library.SmallAngle, Library.LnOfExp, Library.IsRoot, Library.IsArcsin,
      Library.IsArccos, Library.IsArctan, IsSteady;
    assert lib.ExpSum(v, h) && (Abs(h) < 1.0 ==> lib.SmallExp(h));
  }

  lemma ExpExpansion(e: real, x: real, h: real)
    requires Abs(x - 1.0 - h) <= Times(h, h)
    ensures Close(Some(Times(e, x)), e, e, Abs(e), h)
  {
    ProductBound(e, x - 1.0 - h, Abs(e), Times(h, h));
    assert Times(e, x) - e - Times(h, e) == Times(e, x - 1.0 - h);
  }

  /** Where there is no value, there is no tangent. */
  lemma NoValue(e: Entry, v: real)
    requires e.value(v).None? && e.slope(v).None?
    ensures IsExact(e, v)
  {
    hide HasTangent;
    var g := At(e.value, v);
    assert v + 0.0 == v;
    forall a, d ensures !HasTangent(g, a, d) {
      if HasTangent(g, a, d) { TangentValue(g, a, d); }
    }
  }

  lemma ExactBy(e: Entry, v: real, a: real, d: real)
    requires e.value(v) == Some(a) && e.slope(v) == Some(d) && HasTangent(At(e.value, v), a, d)
    ensures IsExact(e, v)
  {}

  /** The same, for the slope in another form. */
  lemma ExactVia(e: Entry, v: real, a: real, d: real, b: real, c: real)
    requires HasTangent(At(e.value, v), b, c) && a == b && c == d
    requires e.value(v) == Some(a) && e.slope(v) == Some(d)
    ensures IsExact(e, v)
  {}

  lemma ExactTangent(e: Entry, v: real, a: real, d: real)
    requires IsExact(e, v) && e.value(v) == Some(a) && e.slope(v) == Some(d)
    ensures HasTangent(At(e.value, v), a, d)
  {}

  /** The chain rule for a function of the table. */
  lemma Composite(f: Germ, e: Entry, k: Germ, a: real, d: real)
    requires HasTangent(f, a, d) && IsExact(e, a) && e.slope(a).Some?
    requires forall h :: f(h).Some? ==> k(h) == e.value(f(h).value)
    ensures e.value(a).Some? && HasTangent(k, e.value(a).value, Times(e.slope(a).value, d))
  {
    hide HasTangent, Times;
    var g := At(e.value, a);
    forall h | f(h).Some? ensures k(h) == g(f(h).value - a) {
      assert a + (f(h).value - a) == f(h).value;
    }
    TangentChain(f, g, k, a, d, e.value(a).value, e.slope(a).value);
  }

  // How a function is made of others.

  ghost predicate IsSum(F: Function, G: Function, K: Function) {
    forall u {:trigger K(u)} :: F(u).Some? && G(u).Some? ==> K(u) == Some(F(u).value + G(u).value)
  }

  ghost predicate IsDifference(F: Function, G: Function, K: Function) {
    forall u {:trigger K(u)} :: F(u).Some? && G(u).Some? ==> K(u) == Some(F(u).value - G(u).value)
  }

  ghost predicate IsMultiple(c: real, G: Function, K: Function) {
    forall u {:trigger K(u)} :: G(u).Some? ==> K(u) == Some(Times(c, G(u).value))
  }

  ghost predicate IsQuotient(F: Function, G: Function, K: Function) {
    forall u {:trigger K(u)} ::
      F(u).Some? && G(u).Some? && G(u).value != 0.0 ==> K(u) == Some(Ratio(F(u).value, G(u).value))
  }

  ghost predicate IsReciprocal(F: Function, K: Function) {
    forall u {:trigger K(u)} :: F(u).Some? && F(u).value != 0.0 ==> K(u) == Some(Ratio(1.0, F(u).value))
  }

  ghost predicate IsComposite(F: Function, g: Function, K: Function) {
    forall u {:trigger K(u)} :: F(u).Some? ==> K(u) == g(F(u).value)
  }

  /** Near v, G is the inverse of F. */
  ghost predicate IsInverse(F: Function, G: Function, v: real, r: real) {
    forall u {:trigger G(u)} :: Abs(u - v) < r ==> G(u).Some? && F(G(u).value) == Some(u)
  }

  // The rules of Germs for functions near v.

  lemma AddAt(F: Function, G: Function, K: Function, v: real, a: real, d: real, b: real, e: real)
    requires HasTangent(At(F, v), a, d) && HasTangent(At(G, v), b, e)
    requires IsSum(F, G, K)
    ensures HasTangent(At(K, v), a + b, d + e)
  {
    hide HasTangent;
    TangentAdd(At(F, v), At(G, v), At(K, v), a, d, b, e);
  }

  lemma SubAt(F: Function, G: Function, K: Function, v: real, a: real, d: real, b: real, e: real)
    requires HasTangent(At(F, v), a, d) && HasTangent(At(G, v), b, e)
    requires IsDifference(F, G, K)
    ensures HasTangent(At(K, v), a - b, d - e)
  {
    hide HasTangent;
    TangentSub(At(F, v), At(G, v), At(K, v), a, d, b, e);
  }

  lemma ScaleAt(c: real, G: Function, K: Function, v: real, b: real, e: real)
    requires HasTangent(At(G, v), b, e) && IsMultiple(c, G, K)
    ensures HasTangent(At(K, v), Times(c, b), Times(c, e))
  {
    hide HasTangent, Times;
    TangentScale(c, At(G, v), At(K, v), b, e);
  }

  lemma OverAt(F: Function, G: Function, K: Function, v: real, a: real, d: real, b: real, e: real)
    requires HasTangent(At(F, v), a, d) && HasTangent(At(G, v), b, e) && b != 0.0
    requires IsQuotient(F, G, K)
    ensures Times(b, b) != 0.0 && HasTangent(At(K, v), Ratio(a, b), Ratio(Times(b, d) - Times(a, e), Times(b, b)))
  {
    hide HasTangent, Times, Ratio;
    TangentOver(At(F, v), At(G, v), At(K, v), a, d, b, e);
  }

  lemma ConstAt(c: real, K: Function, v: real)
    requires forall u :: K(u) == Some(c)
    ensures HasTangent(At(K, v), c, 0.0)
  {
    hide HasTangent;
    TangentConst(At(K, v), c);
  }

  /** One over a function. */
  lemma RecipAt(F: Function, K: Function, v: real, a: real, d: real)
    requires HasTangent(At(F, v), a, d) && a != 0.0
    requires IsReciprocal(F, K)
    ensures Times(a, a) != 0.0 && HasTangent(At(K, v), Ratio(1.0, a), Ratio(-d, Times(a, a)))
  {
    hide HasTangent, Times, Ratio, At;
    var one: Function := u => Some(1.0);
    ConstAt(1.0, one, v);
    OverAt(one, F, K, v, 1.0, 0.0, a, d);
    TimesUnits(a);
    TimesUnits(d);
    SameTangent(At(K, v), Ratio(1.0, a), Ratio(Times(a, 0.0) - Times(1.0, d), Times(a, a)), Ratio(-d, Times(a, a)));
  }

  lemma SameTangent(g: Germ, a: real, d: real, e: real)
    requires HasTangent(g, a, d) && d == e
    ensures HasTangent(g, a, e)
  {}

  lemma ChainAt(F: Function, e: Entry, K: Function, v: real, a: real, d: real, b: real, s: real)
    requires HasTangent(At(F, v), a, d) && HasTangent(At(e.value, a), b, s)
    requires IsComposite(F, e.value, K)
    ensures HasTangent(At(K, v), b, Times(s, d))
  {
    hide HasTangent, Times;
    var f, g, k := At(F, v), At(e.value, a), At(K, v);
    forall h | f(h).Some? ensures k(h) == g(f(h).value - a) {
      assert a + (f(h).value - a) == f(h).value;
    }
    TangentChain(f, g, k, a, d, b, s);
  }

  /** The inverse G of F, where F(a) is v. */
  lemma InverseOf(F: Function, G: Function, a: real, v: real, s: real, r: real)
    requires HasTangent(At(F, a), v, s) && s != 0.0 && r > 0.0 && IsSteady(G, v) && G(v) == Some(a)
    requires IsInverse(F, G, v, r)
    ensures HasTangent(At(G, v), a, Ratio(1.0, s))
  {
    hide HasTangent, Times, Ratio, IsSteady;
    var L, q := Steady(G, v);
    var g, k := At(F, a), At(G, v);
    forall h | Abs(h) < Min(r, q)
      ensures k(h).Some? && Abs(k(h).value - a) <= Times(Abs(h), L) && g(k(h).value - a) == Some(v + h)
    {
      assert Moves(G, v, L, h);
      assert Abs((v + h) - v) < r && G(v + h).Some?;
      assert a + (G(v + h).value - a) == G(v + h).value;
    }
    TangentInverse(g, k, a, v, s, L, Min(r, q));
  }

  lemma Steady(f: Function, v: real) returns (L: real, r: real)
    requires IsSteady(f, v)
    ensures IsLipschitz(f, v, L, r)
  {
    L, r :| IsLipschitz(f, v, L, r);
  }

  // ----- lines and squares -----

  function Plus(): Entry { Entry(v => Some(v), v => Some(1.0)) }

  function Minus(): Entry { Entry(v => Some(-v), v => Some(-1.0)) }

  function Sqr(): Entry { Entry(v => Some(Times(v, v)), v => Some(Times(2.0, v))) }

  function Scaled(c: real): Entry { Entry(v => Some(Times(v, c)), v => Some(c)) }

  lemma LinesExact(v: real, c: real)
    ensures IsExact(Plus(), v) && IsExact(Minus(), v) && IsExact(Scaled(c), v)
  {
    hide HasTangent, Times;
    var f := At(Plus().value, v);
    TangentLine(f, v);
    ExactBy(Plus(), v, v, 1.0);
    TangentNeg(f, At(Minus().value, v), v, 1.0);
    ExactBy(Minus(), v, -v, -1.0);
    var k := At(Scaled(c).value, v);
    forall h ensures k(h) == Some(Times(c, f(h).value)) { TimesComm(v + h, c); }
    TangentScale(c, f, k, v, 1.0);
    TimesComm(v, c);
    TimesUnits(c);
    ExactBy(Scaled(c), v, Times(v, c), c);
  }

  lemma SqrExact(v: real)
    ensures IsExact(Sqr(), v)
  {
    hide HasTangent, Times;
    var f, k := At(Plus().value, v), At(Sqr().value, v);
    TangentLine(f, v);
    TangentMul(f, f, k, v, 1.0, v, 1.0);
    TimesUnits(v);
    Twice(v);
    ExactBy(Sqr(), v, Times(v, v), Times(2.0, v));
  }

  lemma Twice(v: real)
    ensures Times(2.0, v) == v + v
  {}

  // ----- one-sided limits -----

  lemma RightLimit(g: Germ, a: real, d: real, b: real, s: real)
    requires HasTangent(g, a, d) && forall h {:trigger g(h)} :: 0.0 < h < 1.0 ==> g(h) == Some(b + Times(h, s))
    ensures a == b && d == s
  {
    hide HasTangent, Close, Times;
    if a != b { RightJump(g, a, d, b, s); }
    if d != s {
      var M, step := TangentBounds(g, a, d);
      var gap := Abs(s - d);
      GapStep(gap, M);
      var h := Min(step / 2.0, gap / (2.0 * (M + 1.0)));
      var v := TangentAt(g, a, d, M, step, h);
      RightGap(v, a, d, s, M, h);
      SmallGap(s - d, M, h);
      GapClosed(gap, M, h);
      assert false;
    }
  }

  lemma RightGap(v: real, a: real, d: real, s: real, M: real, h: real)
    requires Close(Some(v), a, d, M, h) && h > 0.0 && v == a + Times(h, s)
    ensures Times(h, Abs(s - d)) <= Times(M, Times(h, h))
  {
    assert Times(h, s) - Times(h, d) == Times(h, s - d);
    assert Abs(Times(h, s - d)) == Times(h, Abs(s - d));
  }

  lemma RightJump(g: Germ, a: real, d: real, b: real, s: real)
    requires HasTangent(g, a, d) && forall h {:trigger g(h)} :: 0.0 < h < 1.0 ==> g(h) == Some(b + Times(h, s))
    ensures a == b
  {
    hide HasTangent, Close, Times;
    if a != b {
      var gap, L := Abs(a - b), Abs(s) + 1.0;
      var step := TangentNearby(g, a, d, gap / 2.0);
      NearbyStep(gap / 2.0, L);
      var q := gap / 2.0 / L;
      var h := Min(step / 2.0, q / 2.0);
      assert Abs(h) == h && L - 1.0 == Abs(s) && g(h) == Some(b + Times(h, s));
      AbsTimes(h, s);
      NearbyBound(h, gap / 2.0, L);
      assert false;
    }
  }

  lemma LeftLimit(g: Germ, a: real, d: real, b: real, s: real)
    requires HasTangent(g, a, d) && forall h {:trigger g(h)} :: -1.0 < h < 0.0 ==> g(h) == Some(b + Times(h, s))
    ensures a == b && d == s
  {
    hide HasTangent, Close, Times;
    var f: Germ := h => Some(-h);
    var k: Germ := h => g(-h);
    var line: Germ := h => Some(0.0 + h);
    TangentLine(line, 0.0);
    TangentNeg(line, f, 0.0, 1.0);
    TangentChain(f, g, k, 0.0, -1.0, a, d);
    Products(d, 1.0);
    TimesUnits(d);
    forall h | 0.0 < h < 1.0 ensures k(h) == Some(b + Times(h, -s)) { Products(h, s); }
    RightLimit(k, a, -d, b, -s);
  }

  // ----- absolute value, signs and steps -----

  function AbsEntry(): Entry {
    Entry(v => Some(Abs(v)), v => if v == 0.0 then None else Some(if v < 0.0 then -1.0 else 1.0))
  }

  function Sign(): Entry {
    Entry(v => Some(if v < 0.0 then -1.0 else 1.0), v => if v == 0.0 then None else Some(0.0))
  }

  function Step(): Entry {
    Entry(v => Some(if v < 0.0 then 0.0 else if v > 0.0 then 1.0 else 0.5), v => if v == 0.0 then None else Some(0.0))
  }

  lemma AbsExact(v: real)
    ensures IsExact(AbsEntry(), v)
  {
    hide HasTangent, Times;
    var k := At(AbsEntry().value, v);
    if v == 0.0 {
      forall h | 0.0 < h < 1.0 ensures k(h) == Some(0.0 + Times(h, 1.0)) { TimesUnits(h); }
      forall h | -1.0 < h < 0.0 ensures k(h) == Some(0.0 + Times(h, -1.0)) { Products(h, 1.0); TimesUnits(h); }
      forall a, d ensures !HasTangent(k, a, d) {
        if HasTangent(k, a, d) {
          RightLimit(k, a, d, 0.0, 1.0);
          LeftLimit(k, a, d, 0.0, -1.0);
        }
      }
    } else {
      LinesExact(v, 0.0);
      var f := At(if v < 0.0 then Minus().value else Plus().value, v);
      TangentLocal(f, k, Abs(v), if v < 0.0 then -1.0 else 1.0, Abs(v));
    }
  }

  /** A function that is constant on both sides of zero, with a jump. */
  lemma JumpExact(e: Entry, left: real, right: real, v: real)
    requires left != right
    requires forall u ::
      e.value(u).Some? && (u < 0.0 ==> e.value(u).value == left) && (u > 0.0 ==> e.value(u).value == right)
    requires forall u :: e.slope(u) == if u == 0.0 then None else Some(0.0)
    ensures IsExact(e, v)
  {
    hide HasTangent, Times;
    var k := At(e.value, v);
    if v == 0.0 {
      forall h | 0.0 < h < 1.0 ensures k(h) == Some(right + Times(h, 0.0)) { TimesUnits(h); }
      forall h | -1.0 < h < 0.0 ensures k(h) == Some(left + Times(h, 0.0)) { TimesUnits(h); }
      forall a, d ensures !HasTangent(k, a, d) {
        if HasTangent(k, a, d) {
          RightLimit(k, a, d, right, 0.0);
          LeftLimit(k, a, d, left, 0.0);
        }
      }
    } else {
      var c := e.value(v).value;
      var f: Germ := h => Some(c);
      TangentConst(f, c);
      TangentLocal(f, k, c, 0.0, Abs(v));
    }
  }

  lemma StepsExact(v: real)
    ensures IsExact(Sign(), v) && IsExact(Step(), v)
  {
    hide IsExact;
    JumpExact(Sign(), -1.0, 1.0, v);
    JumpExact(Step(), 0.0, 1.0, v);
  }

  // Tangents of the basic functions.

  lemma SinTangent(lib: Library, v: real)
    requires lib.Valid()
    ensures HasTangent(At(Sin(lib).value, v), lib.Sine(v), lib.Cosine(v))
  {
    hide HasTangent, Times, Library.Valid, IsExact, At, Library.Sine, Library.Cosine;
    SinExact(lib, v);
    ExactTangent(Sin(lib), v, lib.Sine(v), lib.Cosine(v));
  }

  lemma CosTangent(lib: Library, v: real)
    requires lib.Valid()
    ensures HasTangent(At(Cos(lib).value, v), lib.Cosine(v), -lib.Sine(v))
  {
    hide HasTangent, Times, Library.Valid, IsExact, At, Library.Sine, Library.Cosine;
    CosExact(lib, v);
    ExactTangent(Cos(lib), v, lib.Cosine(v), -lib.Sine(v));
  }

  lemma ExpTangent(lib: Library, v: real)
    requires lib.Valid()
    ensures HasTangent(At(Exp(lib).value, v), lib.Exponential(v), lib.Exponential(v))
  {
    hide HasTangent, Times, Library.Valid, IsExact, At, Library.Exponential, Library.Logarithm;
    ExpExact(lib, v);
    ExactTangent(Exp(lib), v, lib.Exponential(v), lib.Exponential(v));
  }

  lemma PlusTangent(v: real)
    ensures HasTangent(At(Plus().value, v), v, 1.0)
  {
    hide HasTangent, Times, Library.Valid, IsExact, At;
    LinesExact(v, 0.0);
    ExactTangent(Plus(), v, v, 1.0);
  }

  lemma MinusTangent(v: real)
    ensures HasTangent(At(Minus().value, v), -v, -1.0)
  {
    hide HasTangent, Times, Library.Valid, IsExact, At;
    LinesExact(v, 0.0);
    ExactTangent(Minus(), v, -v, -1.0);
  }

  lemma SqrTangent(v: real)
    ensures HasTangent(At(Sqr().value, v), Times(v, v), Times(2.0, v))
  {
    hide HasTangent, Times, Library.Valid, IsExact, At;
    SqrExact(v);
    ExactTangent(Sqr(), v, Times(v, v), Times(2.0, v));
  }

  // ----- inverse functions -----

  function Ln(lib: Library): Entry {
    Entry(v => if v > 0.0 then Some(lib.Logarithm(v)) else None, v => if v > 0.0 then Some(Ratio(1.0, v)) else None)
  }

  lemma LnExact(lib: Library, v: real)
    requires lib.Valid()
    ensures IsExact(Ln(lib), v)
  {
    hide HasTangent, Times, Ratio, Library.Valid, IsSteady, IsExact, At, Exp, IsInverse, Library.Exponential,
      Library.Logarithm;
    if v <= 0.0 {
      NoValue(Ln(lib), v);
    } else {
      var a := lib.Logarithm(v);
      LnIdentities(lib, v);
      ExpTangent(lib, a);
      LnInverts(lib, v);
      InverseOf(Exp(lib).value, Ln(lib).value, a, v, v, v);
      ExactBy(Ln(lib), v, a, Ratio(1.0, v));
    }
  }

  lemma LnInverts(lib: Library, v: real)
    requires lib.Valid()
    ensures IsInverse(Exp(lib).value, Ln(lib).value, v, v)
  {
    hide Library.Valid, Ratio, Library.Exponential, Library.Logarithm;
    forall u | Abs(u - v) < v
      ensures Ln(lib).value(u) == Some(lib.Logarithm(u)) && Exp(lib).value(lib.Logarithm(u)) == Some(u)
    {
      LnIdentities(lib, u);
    }
  }

  /** The logarithm to the given base. */
  function Log(lib: Library, base: real): Entry {
    Entry(v => if v > 0.0 && lib.Logarithm(base) != 0.0 then Some(Ratio(lib.Logarithm(v), lib.Logarithm(base)))
               else None,
          v => if v > 0.0 && lib.Logarithm(base) != 0.0 then Some(Ratio(Ratio(1.0, v), lib.Logarithm(base)))
               else None)
  }

  lemma LogExact(lib: Library, base: real, v: real)
    requires lib.Valid()
    ensures IsExact(Log(lib, base), v)
  {
    hide HasTangent, Times, Ratio, Library.Valid, IsExact, At, Library.Exponential, Library.Logarithm;
    var c := lib.Logarithm(base);
    if v <= 0.0 || c == 0.0 {
      NoValue(Log(lib, base), v);
    } else {
      var a, d := lib.Logarithm(v), Ratio(1.0, v);
      LnExact(lib, v);
      ExactTangent(Ln(lib), v, a, d);
      var g: Function := u => Some(c);
      ConstAt(c, g, v);
      OverAt(Ln(lib).value, g, Log(lib, base).value, v, a, d, c, 0.0);
      ConstantDivisor(a, d, c);
      ExactVia(Log(lib, base), v, Ratio(a, c), Ratio(d, c),
               Ratio(a, c), Ratio(Times(c, d) - Times(a, 0.0), Times(c, c)));
    }
  }

  lemma ConstantDivisor(a: real, d: real, c: real)
    requires c != 0.0 && Times(c, c) != 0.0
    ensures Ratio(Times(c, d) - Times(a, 0.0), Times(c, c)) == Ratio(d, c)
  {
    hide Times, Ratio;
    var q := Ratio(d, c);
    Over(d, c, q);
    TimesUnits(a);
    CommonFactor(q, c, d);
    Over(Times(c, d) - Times(a, 0.0), Times(c, c), q);
  }

  lemma CommonFactor(q: real, c: real, d: real)
    requires Times(q, c) == d
    ensures Times(q, Times(c, c)) == Times(c, d)
  {
    assert q * (c * c) == c * (q * c);
  }

  function Sqrt(lib: Library): Entry {
    Entry(v => if v >= 0.0 then Some(lib.Root(v)) else None,
          v => if v > 0.0 && lib.Root(v) != 0.0 then Some(Ratio(0.5, lib.Root(v))) else None)
  }

  lemma SqrtExact(lib: Library, v: real)
    requires lib.Valid()
    ensures IsExact(Sqrt(lib), v)
  {
    hide HasTangent, Times, Ratio, Library.Valid, IsExact, At, Sqr, IsSteady, IsInverse, Library.Root;
    if v < 0.0 {
      NoValue(Sqrt(lib), v);
    } else if v == 0.0 {
      NoTangentLeft(Sqrt(lib), v);
    } else {
      var a := lib.Root(v);
      Roots(lib, v);
      Twice(a);
      SqrTangent(a);
      SqrtInverts(lib, v);
      RootSteady(lib, v);
      InverseOf(Sqr().value, Sqrt(lib).value, a, v, Times(2.0, a), v);
      HalfRatio(a);
      ExactVia(Sqrt(lib), v, a, Ratio(0.5, a), a, Ratio(1.0, Times(2.0, a)));
    }
  }

  lemma SqrtInverts(lib: Library, v: real)
    requires lib.Valid()
    ensures IsInverse(Sqr().value, Sqrt(lib).value, v, v)
  {
    hide Library.Valid, Ratio, Times, Library.Root;
    forall u | Abs(u - v) < v ensures Sqrt(lib).value(u) == Some(lib.Root(u)) && Sqr().value(lib.Root(u)) == Some(u) {
      Roots(lib, u);
    }
  }

  lemma RootSteady(lib: Library, v: real)
    requires lib.Valid() && v > 0.0
    ensures IsSteady(Sqrt(lib).value, v)
  {
    hide Times, Ratio, Library.Valid;
    var a := lib.Root(v);
    Roots(lib, v);
    RatioPositive(a);
    forall h | Abs(h) < v ensures Moves(Sqrt(lib).value, v, Ratio(1.0, a), h) {
      Roots(lib, v + h);
      RootMoves(lib.Root(v + h), a, h);
    }
    assert IsLipschitz(Sqrt(lib).value, v, Ratio(1.0, a), v);
  }

  /** Functions that have no values to the left of v have no tangent there. */
  lemma NoTangentLeft(e: Entry, v: real)
    requires e.slope(v).None? && forall u :: v - 1.0 < u < v ==> e.value(u).None?
    ensures IsExact(e, v)
  {
    hide HasTangent, Times;
    var g := At(e.value, v);
    forall h | 0.0 < h < 1.0 ensures g(Times(-1.0, h)).None? {
      Products(1.0, h);
      TimesUnits(h);
    }
    forall a, d ensures !HasTangent(g, a, d) { UndefinedNear(g, a, d, -1.0); }
  }

  lemma NoTangentRight(e: Entry, v: real)
    requires e.slope(v).None? && forall u :: v < u < v + 1.0 ==> e.value(u).None?
    ensures IsExact(e, v)
  {
    hide HasTangent, Times;
    var g := At(e.value, v);
    forall h | 0.0 < h < 1.0 ensures g(Times(1.0, h)).None? { TimesUnits(h); }
    forall a, d ensures !HasTangent(g, a, d) { UndefinedNear(g, a, d, 1.0); }
  }

  lemma RatioPositive(a: real)
    requires a > 0.0
    ensures Ratio(1.0, a) > 0.0
  {}

  lemma HalfRatio(a: real)
    requires a != 0.0 && Times(2.0, a) != 0.0
    ensures Ratio(1.0, Times(2.0, a)) == Ratio(0.5, a)
  {
    var q := 0.5 / a;
    assert q * a == 0.5;
    assert q * (2.0 * a) == 1.0;
    Over(1.0, 2.0 * a, q);
  }

  /** x x == a a + h bounds the distance of x from a. */
  lemma RootMoves(x: real, a: real, h: real)
    requires x >= 0.0 && a > 0.0 && Times(x, x) == Times(a, a) + h
    ensures Abs(x - a) <= Times(Abs(h), Ratio(1.0, a))
  {
    var d, p := Abs(x - a), 1.0 / a;
    assert (x - a) * (x + a) == h;
    assert d * (x + a) == Abs(h);
    assert d * a <= Abs(h);
    assert p * a == 1.0;
    assert (d - Abs(h) * p) * a <= 0.0;
  }

  function Arcsin(lib: Library): Entry {
    Entry(v => if -1.0 <= v <= 1.0 then Some(lib.Arcsine(v)) else None,
          v => if -1.0 < v < 1.0 && lib.Root(1.0 - Times(v, v)) != 0.0
               then Some(Ratio(1.0, lib.Root(1.0 - Times(v, v)))) else None)
  }

  function Arccos(lib: Library): Entry {
    Entry(v => if -1.0 <= v <= 1.0 then Some(lib.Arccosine(v)) else None,
          v => if -1.0 < v < 1.0 && lib.Root(1.0 - Times(v, v)) != 0.0
               then Some(Ratio(-1.0, lib.Root(1.0 - Times(v, v)))) else None)
  }

  /** The root of 1 - v v is positive inside of the unit interval. */
  lemma InnerRoot(lib: Library, v: real)
    requires lib.Valid() && -1.0 < v < 1.0
    ensures 1.0 - Times(v, v) > 0.0 && lib.Root(1.0 - Times(v, v)) > 0.0
  {
    hide Times, Library.Valid, Library.Root;
    InnerSquare(v);
    Roots(lib, 1.0 - Times(v, v));
  }

  lemma InnerSquare(v: real)
    requires -1.0 < v < 1.0
    ensures Times(v, v) < 1.0
  {
    assert (1.0 - v) * (1.0 + v) > 0.0;
  }

  lemma ArcsinExact(lib: Library, v: real)
    requires lib.Valid()
    ensures IsExact(Arcsin(lib), v)
  {
    hide HasTangent, Times, Ratio, Library.Valid, IsSteady, IsExact, At, Sin, IsInverse, Library.Sine, Library.Cosine,
      Library.Arcsine, Library.Root;
    if v < -1.0 || v > 1.0 {
      NoValue(Arcsin(lib), v);
    } else if v == 1.0 {
      NoTangentRight(Arcsin(lib), v);
    } else if v == -1.0 {
      NoTangentLeft(Arcsin(lib), v);
    } else {
      InnerRoot(lib, v);
      var a := lib.Arcsine(v);
      var c := lib.Cosine(a);
      Arcs(lib, v);
      SinTangent(lib, a);
      Circle(lib, a);
      RootIs(lib, 1.0 - Times(v, v), c);
      ArcsinInverts(lib, v);
      InverseOf(Sin(lib).value, Arcsin(lib).value, a, v, c, 1.0 - Abs(v));
      ExactBy(Arcsin(lib), v, a, Ratio(1.0, c));
    }
  }

  lemma ArcsinInverts(lib: Library, v: real)
    requires lib.Valid()
    ensures IsInverse(Sin(lib).value, Arcsin(lib).value, v, 1.0 - Abs(v))
  {
    hide Library.Valid, Ratio, Times, Library.Sine, Library.Cosine, Library.Arcsine, Library.Root;
    forall u | Abs(u - v) < 1.0 - Abs(v)
      ensures Arcsin(lib).value(u) == Some(lib.Arcsine(u)) && Sin(lib).value(lib.Arcsine(u)) == Some(u)
    {
      Arcs(lib, u);
    }
  }

  lemma ArccosExact(lib: Library, v: real)
    requires lib.Valid()
    ensures IsExact(Arccos(lib), v)
  {
    hide HasTangent, Times, Ratio, Library.Valid, IsSteady, IsExact, At, Cos, IsInverse, Library.Sine, Library.Cosine,
      Library.Arccosine, Library.Root;
    if v < -1.0 || v > 1.0 {
      NoValue(Arccos(lib), v);
    } else if v == 1.0 {
      NoTangentRight(Arccos(lib), v);
    } else if v == -1.0 {
      NoTangentLeft(Arccos(lib), v);
    } else {
      InnerRoot(lib, v);
      var a := lib.Arccosine(v);
      var s := lib.Sine(a);
      Arcs(lib, v);
      CosTangent(lib, a);
      Circle(lib, a);
      RootIs(lib, 1.0 - Times(v, v), s);
      ArccosInverts(lib, v);
      InverseOf(Cos(lib).value, Arccos(lib).value, a, v, -s, 1.0 - Abs(v));
      NegatedRatio(1.0, s);
      ExactVia(Arccos(lib), v, a, Ratio(-1.0, s), a, Ratio(1.0, -s));
    }
  }

  lemma ArccosInverts(lib: Library, v: real)
    requires lib.Valid()
    ensures IsInverse(Cos(lib).value, Arccos(lib).value, v, 1.0 - Abs(v))
  {
    hide Library.Valid, Ratio, Times, Library.Sine, Library.Cosine, Library.Arccosine, Library.Root;
    forall u | Abs(u - v) < 1.0 - Abs(v)
      ensures Arccos(lib).value(u) == Some(lib.Arccosine(u)) && Cos(lib).value(lib.Arccosine(u)) == Some(u)
    {
      Arcs(lib, u);
    }
  }

  lemma NegatedRatio(x: real, y: real)
    requires y != 0.0
    ensures Ratio(-x, y) == -Ratio(x, y) == Ratio(x, -y)
  {
    var q := x / y;
    assert q * y == x;
    Over(-x, y, -q);
    Over(x, -y, -q);
  }

  // ----- quotients of sine and cosine -----

  function Tan(lib: Library): Entry {
    Entry(v => if lib.Cosine(v) == 0.0 then None else Some(Ratio(lib.Sine(v), lib.Cosine(v))),
          v => if Times(lib.Cosine(v), lib.Cosine(v)) == 0.0 then None
               else Some(Ratio(1.0, Times(lib.Cosine(v), lib.Cosine(v)))))
  }

  lemma TanExact(lib: Library, v: real)
    requires lib.Valid()
    ensures IsExact(Tan(lib), v)
  {
    hide HasTangent, Times, Ratio, Library.Valid, IsExact, At, Sin, Cos, IsQuotient, Library.Sine, Library.Cosine;
    var s, c := lib.Sine(v), lib.Cosine(v);
    NonZero(c);
    if c == 0.0 {
      NoValue(Tan(lib), v);
    } else {
      SinTangent(lib, v);
      CosTangent(lib, v);
      TanQuotient(lib);
      OverAt(Sin(lib).value, Cos(lib).value, Tan(lib).value, v, s, c, c, -s);
      Products(s, s);
      Circle(lib, v);
      ExactVia(Tan(lib), v, Ratio(s, c), Ratio(1.0, Times(c, c)),
               Ratio(s, c), Ratio(Times(c, c) - Times(s, -s), Times(c, c)));
    }
  }

  lemma TanQuotient(lib: Library)
    ensures IsQuotient(Sin(lib).value, Cos(lib).value, Tan(lib).value)
  {
    hide Ratio, Times, Library.Sine, Library.Cosine;
  }

  function Arctan(lib: Library): Entry {
    Entry(v => Some(lib.Arctangent(v)),
          v => if 1.0 + Times(v, v) == 0.0 then None else Some(Ratio(1.0, 1.0 + Times(v, v))))
  }

  lemma ArctanExact(lib: Library, v: real)
    requires lib.Valid()
    ensures IsExact(Arctan(lib), v)
  {
    hide HasTangent, Times, Ratio, Library.Valid, IsSteady, IsExact, At, Tan, IsInverse, Library.Sine, Library.Cosine,
      Library.Arctangent;
    var a := lib.Arctangent(v);
    var s, c := lib.Sine(a), lib.Cosine(a);
    Arcs(lib, v);
    NonZero(v);
    NonZero(c);
    Over(s, c, v);
    var d := Ratio(1.0, Times(c, c));
    Over(1.0, Times(c, c), d);
    Products(d, Times(c, c));
    TanTangent(lib, a, v, d);
    ArctanInverts(lib, v);
    InverseOf(Tan(lib).value, Arctan(lib).value, a, v, d, 1.0);
    Circle(lib, a);
    ArctanSlope(c, v, s);
    ExactVia(Arctan(lib), v, a, Ratio(1.0, 1.0 + Times(v, v)), a, Ratio(1.0, d));
  }

  lemma TanTangent(lib: Library, v: real, t: real, d: real)
    requires lib.Valid() && lib.Cosine(v) != 0.0 && Times(lib.Cosine(v), lib.Cosine(v)) != 0.0
    requires t == Ratio(lib.Sine(v), lib.Cosine(v))
    requires d == Ratio(1.0, Times(lib.Cosine(v), lib.Cosine(v)))
    ensures HasTangent(At(Tan(lib).value, v), t, d)
  {
    hide HasTangent, Times, Ratio, Library.Valid, IsExact, At, Library.Sine, Library.Cosine;
    TanExact(lib, v);
    ExactTangent(Tan(lib), v, t, d);
  }

  lemma ArctanInverts(lib: Library, v: real)
    requires lib.Valid()
    ensures IsInverse(Tan(lib).value, Arctan(lib).value, v, 1.0)
  {
    hide Library.Valid, Ratio, Times, Library.Sine, Library.Cosine, Library.Arctangent;
    forall u | Abs(u - v) < 1.0
      ensures Arctan(lib).value(u) == Some(lib.Arctangent(u)) && Tan(lib).value(lib.Arctangent(u)) == Some(u)
    {
      var b := lib.Arctangent(u);
      Arcs(lib, u);
      Over(lib.Sine(b), lib.Cosine(b), u);
    }
  }

  lemma ArctanSlope(c: real, v: real, s: real)
    requires s == Times(v, c) && Times(s, s) + Times(c, c) == 1.0 && Times(c, c) != 0.0
    requires Ratio(1.0, Times(c, c)) != 0.0 && 1.0 + Times(v, v) != 0.0
    ensures Ratio(1.0, Ratio(1.0, Times(c, c))) == Ratio(1.0, 1.0 + Times(v, v))
  {
    hide Ratio;
    var q := Times(c, c);
    Over(1.0, q, Ratio(1.0, q));
    TimesComm(q, Ratio(1.0, q));
    Over(1.0, Ratio(1.0, q), q);
    assert (v * c) * (v * c) == (c * c) * (v * v);
    assert Times(q, 1.0 + Times(v, v)) == q + Times(q, Times(v, v));
    Over(1.0, 1.0 + Times(v, v), q);
  }

  function Arccot(lib: Library): Entry {
    Entry(v => Some(lib.trig.pi / 2.0 - lib.Arctangent(v)),
          v => if 1.0 + Times(v, v) == 0.0 then None else Some(Ratio(-1.0, 1.0 + Times(v, v))))
  }

  lemma ArccotExact(lib: Library, v: real)
    requires lib.Valid()
    ensures IsExact(Arccot(lib), v)
  {
    hide HasTangent, Times, Ratio, Library.Valid, IsExact, At, Library.Sine, Library.Cosine, Library.Arctangent;
    NonZero(v);
    var a, d := lib.Arctangent(v), Ratio(1.0, 1.0 + Times(v, v));
    ArctanExact(lib, v);
    ExactTangent(Arctan(lib), v, a, d);
    var c := lib.trig.pi / 2.0;
    var f: Function := u => Some(c);
    ConstAt(c, f, v);
    SubAt(f, Arctan(lib).value, Arccot(lib).value, v, c, 0.0, a, d);
    NegatedRatio(1.0, 1.0 + Times(v, v));
    ExactVia(Arccot(lib), v, c - a, Ratio(-1.0, 1.0 + Times(v, v)), c - a, 0.0 - d);
  }

  function Sec(lib: Library): Entry {
    Entry(v => if lib.Cosine(v) == 0.0 then None else Some(Ratio(1.0, lib.Cosine(v))),
          v => if Times(lib.Cosine(v), lib.Cosine(v)) == 0.0 then None
               else Some(Ratio(lib.Sine(v), Times(lib.Cosine(v), lib.Cosine(v)))))
  }

  function Cosec(lib: Library): Entry {
    Entry(v => if lib.Sine(v) == 0.0 then None else Some(Ratio(1.0, lib.Sine(v))),
          v => if Times(lib.Sine(v), lib.Sine(v)) == 0.0 then None
               else Some(Ratio(-lib.Cosine(v), Times(lib.Sine(v), lib.Sine(v)))))
  }

  lemma RecipExact(F: Function, e: Entry, v: real, a: real, d: real)
    requires HasTangent(At(F, v), a, d) && a != 0.0 && Times(a, a) != 0.0 && IsReciprocal(F, e.value)
    requires e.value(v) == Some(Ratio(1.0, a)) && e.slope(v) == Some(Ratio(-d, Times(a, a)))
    ensures IsExact(e, v)
  {
    hide HasTangent, Times, Ratio, IsExact, At, IsReciprocal;
    RecipAt(F, e.value, v, a, d);
    ExactBy(e, v, Ratio(1.0, a), Ratio(-d, Times(a, a)));
  }

  lemma SecExact(lib: Library, v: real)
    requires lib.Valid()
    ensures IsExact(Sec(lib), v)
  {
    hide HasTangent, Times, Ratio, Library.Valid, IsExact, At, Cos, IsReciprocal, Library.Sine, Library.Cosine;
    var s, c := lib.Sine(v), lib.Cosine(v);
    NonZero(c);
    if c == 0.0 {
      NoValue(Sec(lib), v);
    } else {
      CosTangent(lib, v);
      SecQuotient(lib);
      assert -(-s) == s;
      RecipExact(Cos(lib).value, Sec(lib), v, c, -s);
    }
  }

  lemma SecQuotient(lib: Library)
    ensures IsReciprocal(Cos(lib).value, Sec(lib).value)
  {
    hide Ratio, Times, Library.Sine, Library.Cosine;
  }

  lemma CosecExact(lib: Library, v: real)
    requires lib.Valid()
    ensures IsExact(Cosec(lib), v)
  {
    hide HasTangent, Times, Ratio, Library.Valid, IsExact, At, Sin, IsReciprocal, Library.Sine, Library.Cosine;
    var s, c := lib.Sine(v), lib.Cosine(v);
    NonZero(s);
    if s == 0.0 {
      NoValue(Cosec(lib), v);
    } else {
      SinTangent(lib, v);
      CosecQuotient(lib);
      RecipExact(Sin(lib).value, Cosec(lib), v, s, c);
    }
  }

  lemma CosecQuotient(lib: Library)
    ensures IsReciprocal(Sin(lib).value, Cosec(lib).value)
  {
    hide Ratio, Times, Library.Sine, Library.Cosine;
  }

  /** One over the tangent, where that has a value. */
  function Cot(lib: Library): Entry {
    Entry(v => if lib.Cosine(v) == 0.0 then None
               else if Ratio(lib.Sine(v), lib.Cosine(v)) == 0.0 then None
               else Some(Ratio(1.0, Ratio(lib.Sine(v), lib.Cosine(v)))),
          v => if lib.Cosine(v) == 0.0 || Times(lib.Sine(v), lib.Sine(v)) == 0.0 then None
               else Some(Ratio(-1.0, Times(lib.Sine(v), lib.Sine(v)))))
  }

  lemma QuotientZero(s: real, c: real)
    requires c != 0.0
    ensures Ratio(s, c) == 0.0 <==> s == 0.0
  {
    hide Ratio, Times;
    Over(s, c, Ratio(s, c));
    Products(Ratio(s, c), c);
  }

  lemma CotExact(lib: Library, v: real)
    requires lib.Valid()
    ensures IsExact(Cot(lib), v)
  {
    hide HasTangent, Times, Ratio, Library.Valid, IsExact, At, Tan, IsReciprocal, Library.Sine, Library.Cosine;
    var s, c := lib.Sine(v), lib.Cosine(v);
    NonZero(c);
    NonZero(s);
    if c == 0.0 {
      NoValue(Cot(lib), v);
    } else {
      QuotientZero(s, c);
      if s == 0.0 {
        NoValue(Cot(lib), v);
      } else {
        var t, p := Ratio(s, c), Ratio(1.0, Times(c, c));
        TanTangent(lib, v, t, p);
        CotQuotient(lib);
        RecipAt(Tan(lib).value, Cot(lib).value, v, t, p);
        CotSlope(s, c);
        ExactVia(Cot(lib), v, Ratio(1.0, t), Ratio(-1.0, Times(s, s)), Ratio(1.0, t), Ratio(-p, Times(t, t)));
      }
    }
  }

  lemma CotQuotient(lib: Library)
    ensures IsReciprocal(Tan(lib).value, Cot(lib).value)
  {
    hide Ratio, Times, Library.Sine, Library.Cosine;
  }

  lemma CotSlope(s: real, c: real)
    requires c != 0.0 && Times(c, c) != 0.0 && Times(s, s) != 0.0 && Times(Ratio(s, c), Ratio(s, c)) != 0.0
    ensures Ratio(-Ratio(1.0, Times(c, c)), Times(Ratio(s, c), Ratio(s, c))) == Ratio(-1.0, Times(s, s))
  {
    hide Ratio, Times;
    var t, p, q := Ratio(s, c), Ratio(1.0, Times(c, c)), Ratio(-1.0, Times(s, s));
    Over(s, c, t);
    Over(1.0, Times(c, c), p);
    Over(-1.0, Times(s, s), q);
    CotAlgebra(t, c, s, p, q);
    Over(-p, Times(t, t), q);
  }

  lemma CotAlgebra(t: real, c: real, s: real, p: real, q: real)
    requires Times(t, c) == s && Times(p, Times(c, c)) == 1.0 && Times(q, Times(s, s)) == -1.0
    ensures Times(q, Times(t, t)) == -p
  {
    var cc, tt := c * c, t * t;
    assert (t * c) * (t * c) == tt * cc;
    assert (q * tt) * cc == -1.0;
    assert (q * tt) * (cc * p) == ((q * tt) * cc) * p;
    assert cc * p == 1.0;
  }

  /** sin v / v, and one at zero. */
  function Sinc(lib: Library): Entry {
    Entry(v => if v == 0.0 then Some(1.0) else Some(Ratio(lib.Sine(v), v)),
          v => if v == 0.0 then Some(0.0) else Some(Ratio(lib.Cosine(v) - Ratio(lib.Sine(v), v), v)))
  }

  lemma SincExact(lib: Library, v: real)
    requires lib.Valid()
    ensures IsExact(Sinc(lib), v)
  {
    hide HasTangent, Times, Ratio, Library.Valid, IsExact, At, Sin, Plus, IsQuotient, Library.Sine, Library.Cosine;
    if v == 0.0 {
      SincAtZero(lib);
      ExactBy(Sinc(lib), v, 1.0, 0.0);
    } else {
      var s, c := lib.Sine(v), lib.Cosine(v);
      SinTangent(lib, v);
      PlusTangent(v);
      SincQuotient(lib);
      OverAt(Sin(lib).value, Plus().value, Sinc(lib).value, v, s, c, v, 1.0);
      SincSlope(s, c, v);
      ExactVia(Sinc(lib), v, Ratio(s, v), Ratio(c - Ratio(s, v), v),
               Ratio(s, v), Ratio(Times(v, c) - Times(s, 1.0), Times(v, v)));
    }
  }

  lemma SincQuotient(lib: Library)
    ensures IsQuotient(Sin(lib).value, Plus().value, Sinc(lib).value)
  {
    hide Ratio, Library.Sine, Library.Cosine;
  }

  lemma SincAtZero(lib: Library)
    requires lib.Valid()
    ensures HasTangent(At(Sinc(lib).value, 0.0), 1.0, 0.0)
  {
    hide HasTangent, Times, Ratio, Library.Valid, Close;
    var k := At(Sinc(lib).value, 0.0);
    forall h | Abs(h) < 1.0 ensures Close(k(h), 1.0, 0.0, 1.0, h) {
      AngleSums(lib, 0.0, h);
      SincNear(lib.Sine(h), h);
    }
    TangentBy(k, 1.0, 0.0, 1.0, 1.0);
  }

  lemma SincNear(x: real, h: real)
    requires Abs(x - h) <= Times(Abs(h), Times(h, h))
    ensures Close(if h == 0.0 then Some(1.0) else Some(Ratio(x, h)), 1.0, 0.0, 1.0, h)
  {
    TimesUnits(h);
    TimesUnits(Times(h, h));
    if h != 0.0 {
      var q := x / h;
      assert q * h == x;
      assert Abs((q - 1.0) * h) == Abs(q - 1.0) * Abs(h);
      assert (Abs(q - 1.0) - h * h) * Abs(h) <= 0.0;
    } else {
      assert Times(h, h) == 0.0;
    }
  }

  lemma SincSlope(s: real, c: real, v: real)
    requires v != 0.0 && Times(v, v) != 0.0
    ensures Ratio(Times(v, c) - Times(s, 1.0), Times(v, v)) == Ratio(c - Ratio(s, v), v)
  {
    hide Ratio;
    var t := Ratio(s, v);
    var q := Ratio(c - t, v);
    Over(s, v, t);
    Over(c - t, v, q);
    assert q * (v * v) == v * (q * v);
    assert v * (c - t) == v * c - t * v;
    Over(Times(v, c) - Times(s, 1.0), Times(v, v), q);
  }

  // ----- hyperbolic functions -----

  function Sinh(lib: Library): Entry { Entry(v => Some(lib.HyperSine(v)), v => Some(lib.HyperCosine(v))) }

  function Cosh(lib: Library): Entry { Entry(v => Some(lib.HyperCosine(v)), v => Some(lib.HyperSine(v))) }

  /** exp(-v). */
  function Decay(lib: Library): Entry {
    Entry(v => Some(lib.Exponential(-v)), v => Some(-lib.Exponential(-v)))
  }

  lemma DecayTangent(lib: Library, v: real)
    requires lib.Valid()
    ensures HasTangent(At(Decay(lib).value, v), lib.Exponential(-v), -lib.Exponential(-v))
  {
    hide HasTangent, Times, Library.Valid, At, Exp, Minus, IsComposite, Library.Exponential;
    var e := lib.Exponential(-v);
    MinusTangent(v);
    ExpTangent(lib, -v);
    DecayComposite(lib);
    ChainAt(Minus().value, Exp(lib), Decay(lib).value, v, -v, -1.0, e, e);
    Products(e, 1.0);
    TimesUnits(e);
    SameTangent(At(Decay(lib).value, v), e, Times(e, -1.0), -e);
  }

  lemma DecayComposite(lib: Library)
    ensures IsComposite(Minus().value, Exp(lib).value, Decay(lib).value)
  {
    hide Library.Exponential;
  }

  function TwiceSinh(lib: Library): Function { u => Some(lib.Exponential(u) - lib.Exponential(-u)) }

  function TwiceCosh(lib: Library): Function { u => Some(lib.Exponential(u) + lib.Exponential(-u)) }

  lemma HyperExact(lib: Library, v: real)
    requires lib.Valid()
    ensures IsExact(Sinh(lib), v) && IsExact(Cosh(lib), v)
  {
    hide HasTangent, Times, Library.Valid, IsExact, At, Exp, Decay, Library.Exponential, IsSum, IsDifference,
      IsMultiple,
      TwiceSinh, TwiceCosh;
    var p, q := lib.Exponential(v), lib.Exponential(-v);
    ExpTangent(lib, v);
    DecayTangent(lib, v);
    HyperParts(lib);
    SubAt(Exp(lib).value, Decay(lib).value, TwiceSinh(lib), v, p, p, q, -q);
    AddAt(Exp(lib).value, Decay(lib).value, TwiceCosh(lib), v, p, p, q, -q);
    ScaleAt(0.5, TwiceSinh(lib), Sinh(lib).value, v, p - q, p - -q);
    ScaleAt(0.5, TwiceCosh(lib), Cosh(lib).value, v, p + q, p + -q);
    assert p - -q == p + q && p + -q == p - q;
    ExactVia(Sinh(lib), v, Times(0.5, p - q), Times(0.5, p + q), Times(0.5, p - q), Times(0.5, p - -q));
    ExactVia(Cosh(lib), v, Times(0.5, p + q), Times(0.5, p - q), Times(0.5, p + q), Times(0.5, p + -q));
  }

  lemma HyperParts(lib: Library)
    ensures IsDifference(Exp(lib).value, Decay(lib).value, TwiceSinh(lib))
    ensures IsSum(Exp(lib).value, Decay(lib).value, TwiceCosh(lib))
    ensures IsMultiple(0.5, TwiceSinh(lib), Sinh(lib).value) && IsMultiple(0.5, TwiceCosh(lib), Cosh(lib).value)
  {
    hide Library.Exponential, Times;
    forall u ensures Sinh(lib).value(u) == Some(Times(0.5, TwiceSinh(lib)(u).value)) {
      assert lib.HyperSine(u) == Times(0.5, lib.Exponential(u) - lib.Exponential(-u));
    }
    forall u ensures Cosh(lib).value(u) == Some(Times(0.5, TwiceCosh(lib)(u).value)) {
      assert lib.HyperCosine(u) == Times(0.5, lib.Exponential(u) + lib.Exponential(-u));
    }
  }

  /** cosh is positive, and the difference of the squares is one. */
  lemma Hyperbola(lib: Library, v: real)
    requires lib.Valid()
    ensures lib.HyperCosine(v) > 0.0
    ensures Times(lib.HyperCosine(v), lib.HyperCosine(v)) - Times(lib.HyperSine(v), lib.HyperSine(v)) == 1.0
  {
    hide Library.Valid, Times, Library.Exponential;
    ExpPositive(lib, v);
    ExpPositive(lib, -v);
    assert -(-v) == v;
    HyperSquares(lib.Exponential(v), lib.Exponential(-v));
  }

  lemma HyperSquares(p: real, q: real)
    requires p > 0.0 && q > 0.0 && Times(p, q) == 1.0
    ensures Times(0.5, p + q) > 0.0
    ensures Times(Times(0.5, p + q), Times(0.5, p + q)) - Times(Times(0.5, p - q), Times(0.5, p - q)) == 1.0
  {
    var a, b := 0.5 * (p + q), 0.5 * (p - q);
    assert a * a - b * b == (a - b) * (a + b);
    assert a - b == q && a + b == p;
  }

  function Tanh(lib: Library): Entry {
    Entry(v => if lib.HyperCosine(v) == 0.0 then None else Some(Ratio(lib.HyperSine(v), lib.HyperCosine(v))),
          v => if Times(lib.HyperCosine(v), lib.HyperCosine(v)) == 0.0 then None
               else Some(Ratio(1.0, Times(lib.HyperCosine(v), lib.HyperCosine(v)))))
  }

  /** One over the hyperbolic tangent, where that is not zero. */
  function Coth(lib: Library): Entry {
    Entry(v => if lib.HyperCosine(v) == 0.0 then None
               else if Ratio(lib.HyperSine(v), lib.HyperCosine(v)) == 0.0 then None
               else Some(Ratio(1.0, Ratio(lib.HyperSine(v), lib.HyperCosine(v)))),
          v => if lib.HyperCosine(v) == 0.0 || Times(lib.HyperSine(v), lib.HyperSine(v)) == 0.0 then None
               else Some(Ratio(-1.0, Times(lib.HyperSine(v), lib.HyperSine(v)))))
  }

  lemma HyperTangents(lib: Library, v: real)
    requires lib.Valid()
    ensures HasTangent(At(Sinh(lib).value, v), lib.HyperSine(v), lib.HyperCosine(v))
    ensures HasTangent(At(Cosh(lib).value, v), lib.HyperCosine(v), lib.HyperSine(v))
  {
    hide HasTangent, Library.Valid, IsExact, At, Library.HyperSine, Library.HyperCosine;
    HyperExact(lib, v);
    ExactTangent(Sinh(lib), v, lib.HyperSine(v), lib.HyperCosine(v));
    ExactTangent(Cosh(lib), v, lib.HyperCosine(v), lib.HyperSine(v));
  }

  lemma TanhExact(lib: Library, v: real)
    requires lib.Valid()
    ensures IsExact(Tanh(lib), v)
  {
    hide HasTangent, Times, Ratio, Library.Valid, IsExact, At, Sinh, Cosh, IsQuotient, Library.HyperSine,
      Library.HyperCosine;
    var s, c := lib.HyperSine(v), lib.HyperCosine(v);
    Hyperbola(lib, v);
    NonZero(c);
    HyperTangents(lib, v);
    TanhQuotient(lib);
    OverAt(Sinh(lib).value, Cosh(lib).value, Tanh(lib).value, v, s, c, c, s);
    ExactVia(Tanh(lib), v, Ratio(s, c), Ratio(1.0, Times(c, c)),
             Ratio(s, c), Ratio(Times(c, c) - Times(s, s), Times(c, c)));
  }

  lemma TanhQuotient(lib: Library)
    ensures IsQuotient(Sinh(lib).value, Cosh(lib).value, Tanh(lib).value)
    ensures IsReciprocal(Tanh(lib).value, Coth(lib).value)
  {
    hide Ratio, Times, Library.HyperSine, Library.HyperCosine;
  }

  lemma CothExact(lib: Library, v: real)
    requires lib.Valid()
    ensures IsExact(Coth(lib), v)
  {
    hide HasTangent, Times, Ratio, Library.Valid, IsExact, At, Tanh, IsQuotient, IsReciprocal, Library.HyperSine,
      Library.HyperCosine;
    var s, c := lib.HyperSine(v), lib.HyperCosine(v);
    Hyperbola(lib, v);
    NonZero(c);
    NonZero(s);
    QuotientZero(s, c);
    if s == 0.0 {
      NoValue(Coth(lib), v);
    } else {
      var t, p := Ratio(s, c), Ratio(1.0, Times(c, c));
      TanhTangent(lib, v, t, p);
      TanhQuotient(lib);
      RecipAt(Tanh(lib).value, Coth(lib).value, v, t, p);
      CotSlope(s, c);
      ExactVia(Coth(lib), v, Ratio(1.0, t), Ratio(-1.0, Times(s, s)), Ratio(1.0, t), Ratio(-p, Times(t, t)));
    }
  }

  lemma TanhTangent(lib: Library, v: real, t: real, d: real)
    requires lib.Valid() && lib.HyperCosine(v) != 0.0 && Times(lib.HyperCosine(v), lib.HyperCosine(v)) != 0.0
    requires t == Ratio(lib.HyperSine(v), lib.HyperCosine(v))
    requires d == Ratio(1.0, Times(lib.HyperCosine(v), lib.HyperCosine(v)))
    ensures HasTangent(At(Tanh(lib).value, v), t, d)
  {
    hide HasTangent, Times, Ratio, Library.Valid, IsExact, At, Library.HyperSine, Library.HyperCosine;
    TanhExact(lib, v);
    ExactTangent(Tanh(lib), v, t, d);
  }

  /** The exponential, continued by its tangent beyond the limit. */
  function Limexp(lib: Library): Entry {
    Entry(v => if v < lib.limitexp then Some(lib.Exponential(v))
               else Some(Times(lib.Exponential(lib.limitexp), 1.0 + (v - lib.limitexp))),
          v => if v < lib.limitexp then Some(lib.Exponential(v)) else Some(lib.Exponential(lib.limitexp)))
  }

  lemma LimexpExact(lib: Library, v: real)
    requires lib.Valid()
    ensures IsExact(Limexp(lib), v)
  {
    hide HasTangent, Times, Library.Valid, IsExact, Exp, Library.Exponential;
    if v < lib.limitexp {
      ExpTangent(lib, v);
      LimexpBelow(lib, v);
      ExactBy(Limexp(lib), v, lib.Exponential(v), lib.Exponential(v));
    } else {
      LimexpAbove(lib, v);
      var e := lib.Exponential(lib.limitexp);
      ExactBy(Limexp(lib), v, Times(e, 1.0 + (v - lib.limitexp)), e);
    }
  }

  lemma LimexpBelow(lib: Library, v: real)
    requires v < lib.limitexp && HasTangent(At(Exp(lib).value, v), lib.Exponential(v), lib.Exponential(v))
    ensures HasTangent(At(Limexp(lib).value, v), lib.Exponential(v), lib.Exponential(v))
  {
    hide HasTangent, Times, Library.Exponential;
    TangentLocal(At(Exp(lib).value, v), At(Limexp(lib).value, v), lib.Exponential(v), lib.Exponential(v),
                 lib.limitexp - v);
  }

  lemma LimexpAbove(lib: Library, v: real)
    requires lib.Valid() && v >= lib.limitexp
    ensures var e := lib.Exponential(lib.limitexp);
      HasTangent(At(Limexp(lib).value, v), Times(e, 1.0 + (v - lib.limitexp)), e)
  {
    hide HasTangent, Times, Library.Valid, Close, Library.Exponential;
    var l, k := lib.limitexp, At(Limexp(lib).value, v);
    var e := lib.Exponential(l);
    var a := Times(e, 1.0 + (v - l));
    var step := if v == l then 1.0 else Min(v - l, 1.0);
    forall h | Abs(h) < step ensures Close(k(h), a, e, Abs(e), h) {
      if v + h < l {
        ExpSums(lib, l, h);
        ExpExpansion(e, lib.Exponential(h), h);
        assert v + h == l + h;
        TimesUnits(e);
      } else {
        LineClose(e, 1.0 + (v - l), h);
        assert 1.0 + (v + h - l) == 1.0 + (v - l) + h;
      }
    }
    TangentBy(k, a, e, Abs(e), step);
  }

  lemma LineClose(e: real, b: real, h: real)
    ensures Close(Some(Times(e, b + h)), Times(e, b), e, Abs(e), h)
  {
    assert e * (b + h) == e * b + h * e;
    Signs(h);
    TimesNonNegative(Abs(e), Times(h, h));
  }

  // ----- logarithms of roots and quotients -----

  function Shifted(c: real): Function { u => Some(Times(u, u) + c) }

  lemma ShiftedTangent(c: real, v: real)
    ensures HasTangent(At(Shifted(c), v), Times(v, v) + c, Times(2.0, v))
  {
    hide HasTangent, Times, At, Sqr, IsSum;
    SqrTangent(v);
    var k: Function := u => Some(c);
    ConstAt(c, k, v);
    ShiftedSum(c, k);
    AddAt(Sqr().value, k, Shifted(c), v, Times(v, v), Times(2.0, v), c, 0.0);
  }

  lemma ShiftedSum(c: real, k: Function)
    requires forall u :: k(u) == Some(c)
    ensures IsSum(Sqr().value, k, Shifted(c))
  {
    hide Times;
  }

  /** The root of u u + c. */
  function RootOf(lib: Library, c: real): Function {
    u => if Times(u, u) + c >= 0.0 then Some(lib.Root(Times(u, u) + c)) else None
  }

  lemma RootTangent(lib: Library, c: real, v: real, r: real)
    requires lib.Valid() && Times(v, v) + c > 0.0 && r == lib.Root(Times(v, v) + c)
    ensures r > 0.0 && Times(r, r) == Times(v, v) + c
    ensures HasTangent(At(RootOf(lib, c), v), r, Times(Ratio(0.5, r), Times(2.0, v)))
  {
    hide HasTangent, Times, Ratio, Library.Valid, At, Shifted, RootOf, Sqrt, IsComposite, IsExact, Library.Root;
    var q := Times(v, v) + c;
    Roots(lib, q);
    ShiftedTangent(c, v);
    SqrtTangent(lib, q);
    RootComposite(lib, c);
    ChainAt(Shifted(c), Sqrt(lib), RootOf(lib, c), v, q, Times(2.0, v), r, Ratio(0.5, r));
  }

  lemma SqrtTangent(lib: Library, v: real)
    requires lib.Valid() && v > 0.0
    ensures lib.Root(v) > 0.0 && HasTangent(At(Sqrt(lib).value, v), lib.Root(v), Ratio(0.5, lib.Root(v)))
  {
    hide HasTangent, Ratio, Library.Valid, IsExact, At, Library.Root;
    Roots(lib, v);
    SqrtExact(lib, v);
    ExactTangent(Sqrt(lib), v, lib.Root(v), Ratio(0.5, lib.Root(v)));
  }

  lemma RootComposite(lib: Library, c: real)
    ensures IsComposite(Shifted(c), Sqrt(lib).value, RootOf(lib, c))
  {
    hide Times, Ratio, Library.Root;
  }

  lemma LnTangent(lib: Library, v: real)
    requires lib.Valid() && v > 0.0
    ensures HasTangent(At(Ln(lib).value, v), lib.Logarithm(v), Ratio(1.0, v))
  {
    hide HasTangent, Ratio, Library.Valid, IsExact, At, Library.Logarithm;
    LnExact(lib, v);
    ExactTangent(Ln(lib), v, lib.Logarithm(v), Ratio(1.0, v));
  }

  /** ln(u + sqrt(u u + c)). */
  function RootLog(lib: Library, c: real): Entry {
    Entry(u => if Times(u, u) + c < 0.0 || u + lib.Root(Times(u, u) + c) <= 0.0 then None
               else Some(lib.Logarithm(u + lib.Root(Times(u, u) + c))),
          u => if Times(u, u) + c <= 0.0 || lib.Root(Times(u, u) + c) == 0.0 || u + lib.Root(Times(u, u) + c) <= 0.0
               then None else Some(Ratio(1.0, lib.Root(Times(u, u) + c))))
  }

  function Arsinh(lib: Library): Entry { RootLog(lib, 1.0) }

  function Arcosh(lib: Library): Entry { RootLog(lib, -1.0) }

  /** u + sqrt(u u + c). */
  function WithRoot(lib: Library, c: real): Function {
    u => if Times(u, u) + c >= 0.0 then Some(u + lib.Root(Times(u, u) + c)) else None
  }

  lemma RootLogTangent(lib: Library, c: real, v: real, r: real)
    requires lib.Valid() && Times(v, v) + c > 0.0 && r == lib.Root(Times(v, v) + c) && r > 0.0 && v + r > 0.0
    ensures HasTangent(At(RootLog(lib, c).value, v), lib.Logarithm(v + r), Ratio(1.0, r))
  {
    hide HasTangent, Times, Ratio, Library.Valid, At, RootOf, WithRoot, RootLog, Plus, Ln, IsComposite, IsSum, IsExact,
      Library.Root, Library.Logarithm;
    var w, d := v + r, Times(Ratio(0.5, r), Times(2.0, v));
    PlusTangent(v);
    RootTangent(lib, c, v, r);
    RootLogParts(lib, c);
    AddAt(Plus().value, RootOf(lib, c), WithRoot(lib, c), v, v, 1.0, r, d);
    LnTangent(lib, w);
    ChainAt(WithRoot(lib, c), Ln(lib), RootLog(lib, c).value, v, w, 1.0 + d, lib.Logarithm(w), Ratio(1.0, w));
    RootLogSlope(v, r);
    SameTangent(At(RootLog(lib, c).value, v), lib.Logarithm(w), Times(Ratio(1.0, w), 1.0 + d), Ratio(1.0, r));
  }

  lemma RootLogParts(lib: Library, c: real)
    ensures IsSum(Plus().value, RootOf(lib, c), WithRoot(lib, c))
    ensures IsComposite(WithRoot(lib, c), Ln(lib).value, RootLog(lib, c).value)
  {
    hide Times, Ratio, Library.Root, Library.Logarithm;
  }

  lemma RootLogSlope(v: real, r: real)
    requires r != 0.0 && v + r != 0.0
    ensures Times(Ratio(1.0, v + r), 1.0 + Times(Ratio(0.5, r), Times(2.0, v))) == Ratio(1.0, r)
  {
    hide Ratio;
    var w, p, q, z := v + r, Ratio(1.0, v + r), Ratio(0.5, r), Ratio(1.0, r);
    Over(1.0, w, p);
    Over(0.5, r, q);
    Over(1.0, r, z);
    assert (1.0 + q * (2.0 * v)) * r == r + (q * r) * (2.0 * v);
    assert (1.0 + q * (2.0 * v)) * r == w;
    assert (p * (1.0 + q * (2.0 * v))) * r == p * ((1.0 + q * (2.0 * v)) * r);
    Over(1.0, r, p * (1.0 + q * (2.0 * v)));
  }

  /** The root is larger than v if c is positive. */
  lemma RootAbove(v: real, r: real, c: real)
    requires r >= 0.0 && Times(r, r) == Times(v, v) + c
    ensures c > 0.0 ==> r > Abs(v)
    ensures c < 0.0 ==> r < Abs(v)
  {
    hide Times;
    SquareAbs(v);
    SquaresOrdered(Abs(v), r);
    SquaresOrdered(r, Abs(v));
  }

  lemma ArsinhExact(lib: Library, v: real)
    requires lib.Valid()
    ensures IsExact(Arsinh(lib), v)
  {
    hide HasTangent, Times, Ratio, Library.Valid, IsExact, At, Library.Root, Library.Logarithm;
    var r := lib.Root(Times(v, v) + 1.0);
    NonZero(v);
    Roots(lib, Times(v, v) + 1.0);
    RootAbove(v, r, 1.0);
    RootLogTangent(lib, 1.0, v, r);
    ExactBy(Arsinh(lib), v, lib.Logarithm(v + r), Ratio(1.0, r));
  }

  lemma OuterSquare(v: real)
    ensures Times(v, v) > 1.0 <==> Abs(v) > 1.0
    ensures Times(v, v) < 1.0 <==> Abs(v) < 1.0
  {
    var a := Abs(v);
    assert a * a == v * v;
    assert (a - 1.0) * (a + 1.0) == a * a - 1.0;
    if a > 1.0 { TimesPositive(a - 1.0, a + 1.0); }
    if a < 1.0 { TimesPositive(1.0 - a, a + 1.0); }
  }

  lemma ArcoshExact(lib: Library, v: real)
    requires lib.Valid()
    ensures IsExact(Arcosh(lib), v)
  {
    hide HasTangent, Times, Ratio, Library.Valid, IsExact, At, Library.Root, Library.Logarithm;
    var q := Times(v, v) + -1.0;
    OuterSquare(v);
    if q < 0.0 {
      NoValue(Arcosh(lib), v);
    } else {
      var r := lib.Root(q);
      Roots(lib, q);
      RootAbove(v, r, -1.0);
      if v < 0.0 {
        NoValue(Arcosh(lib), v);
      } else if q == 0.0 {
        forall u | v - 1.0 < u < v ensures Arcosh(lib).value(u).None? { OuterSquare(u); }
        NoTangentLeft(Arcosh(lib), v);
      } else {
        RootLogTangent(lib, -1.0, v, r);
        ExactBy(Arcosh(lib), v, lib.Logarithm(v + r), Ratio(1.0, r));
      }
    }
  }

  /** Lines c + s u. */
  function Line(c: real, s: real): Function { u => Some(c + Times(s, u)) }

  lemma LineTangent(c: real, s: real, v: real)
    ensures HasTangent(At(Line(c, s), v), c + Times(s, v), s)
  {
    hide HasTangent, Times, At, Plus, IsSum, IsMultiple;
    var k: Function := u => Some(c);
    var m: Function := u => Some(Times(s, u));
    ConstAt(c, k, v);
    PlusTangent(v);
    LineParts(c, s, k, m);
    ScaleAt(s, Plus().value, m, v, v, 1.0);
    AddAt(k, m, Line(c, s), v, c, 0.0, Times(s, v), Times(s, 1.0));
    TimesUnits(s);
    SameTangent(At(Line(c, s), v), c + Times(s, v), 0.0 + Times(s, 1.0), s);
  }

  lemma LineParts(c: real, s: real, k: Function, m: Function)
    requires (forall u :: k(u) == Some(c)) && forall u {:trigger m(u)} :: m(u) == Some(Times(s, u))
    ensures IsMultiple(s, Plus().value, m) && IsSum(k, m, Line(c, s))
  {
    hide Times;
  }

  /** Half the logarithm of (1 + u) / (c + s u). */
  function QuotientLog(lib: Library, c: real, s: real): Function {
    u => if c + Times(s, u) == 0.0 || Ratio(1.0 + Times(1.0, u), c + Times(s, u)) <= 0.0 then None
         else Some(Times(0.5, lib.Logarithm(Ratio(1.0 + Times(1.0, u), c + Times(s, u)))))
  }

  function LineQuotient(c: real, s: real): Function {
    u => if c + Times(s, u) == 0.0 then None else Some(Ratio(1.0 + Times(1.0, u), c + Times(s, u)))
  }

  function LineLog(lib: Library, c: real, s: real): Function {
    u => if c + Times(s, u) == 0.0 || Ratio(1.0 + Times(1.0, u), c + Times(s, u)) <= 0.0 then None
         else Some(lib.Logarithm(Ratio(1.0 + Times(1.0, u), c + Times(s, u))))
  }

  lemma QuotientLogParts(lib: Library, c: real, s: real)
    ensures IsQuotient(Line(1.0, 1.0), Line(c, s), LineQuotient(c, s))
    ensures IsComposite(LineQuotient(c, s), Ln(lib).value, LineLog(lib, c, s))
    ensures IsMultiple(0.5, LineLog(lib, c, s), QuotientLog(lib, c, s))
  {
    hide Times, Ratio, Library.Logarithm;
  }

  lemma QuotientLogTangent(lib: Library, c: real, s: real, v: real, f: real, g: real)
    requires lib.Valid() && f == 1.0 + Times(1.0, v) && g == c + Times(s, v) && g != 0.0 && Ratio(f, g) > 0.0
    ensures Times(f, g) != 0.0
    ensures HasTangent(At(QuotientLog(lib, c, s), v), Times(0.5, lib.Logarithm(Ratio(f, g))),
                       Ratio(Times(0.5, g - Times(f, s)), Times(f, g)))
  {
    hide HasTangent, Times, Ratio, Library.Valid, At, Line, LineQuotient, LineLog, QuotientLog, Ln, IsQuotient,
      IsComposite, IsMultiple, Library.Logarithm;
    var q := Ratio(f, g);
    LineTangent(1.0, 1.0, v);
    LineTangent(c, s, v);
    QuotientLogParts(lib, c, s);
    OverAt(Line(1.0, 1.0), Line(c, s), LineQuotient(c, s), v, f, 1.0, g, s);
    var d := Ratio(Times(g, 1.0) - Times(f, s), Times(g, g));
    LnTangent(lib, q);
    ChainAt(LineQuotient(c, s), Ln(lib), LineLog(lib, c, s), v, q, d, lib.Logarithm(q), Ratio(1.0, q));
    ScaleAt(0.5, LineLog(lib, c, s), QuotientLog(lib, c, s), v, lib.Logarithm(q), Times(Ratio(1.0, q), d));
    QuotientLogSlope(f, g, s);
    SameTangent(At(QuotientLog(lib, c, s), v), Times(0.5, lib.Logarithm(q)), Times(0.5, Times(Ratio(1.0, q), d)),
                Ratio(Times(0.5, g - Times(f, s)), Times(f, g)));
  }

  lemma QuotientLogSlope(f: real, g: real, s: real)
    requires g != 0.0 && Times(g, g) != 0.0 && Ratio(f, g) > 0.0
    ensures Times(f, g) != 0.0
    ensures Times(0.5, Times(Ratio(1.0, Ratio(f, g)), Ratio(Times(g, 1.0) - Times(f, s), Times(g, g))))
         == Ratio(Times(0.5, g - Times(f, s)), Times(f, g))
  {
    hide Ratio;
    var q := Ratio(f, g);
    Over(f, g, q);
    assert f != 0.0 by { Products(q, g); }
    Products(f, g);
    var n := g - f * s;
    var p, d := Ratio(1.0, q), Ratio(Times(g, 1.0) - Times(f, s), Times(g, g));
    TimesUnits(g);
    Over(1.0, q, p);
    Over(n, g * g, d);
    QuotientLogAlgebra(f, g, q, p, d, n);
    Over(Times(0.5, n), Times(f, g), Times(0.5, Times(p, d)));
  }

  lemma QuotientLogAlgebra(f: real, g: real, q: real, p: real, d: real, n: real)
    requires q * g == f && p * q == 1.0 && d * (g * g) == n
    ensures Times(Times(0.5, Times(p, d)), Times(f, g)) == Times(0.5, n)
  {
    assert (p * d) * (q * g * g) == (p * q) * (d * (g * g));
  }

  lemma RatioSign(f: real, g: real)
    requires g != 0.0
    ensures Ratio(f, g) > 0.0 <==> (f > 0.0) == (g > 0.0) && f != 0.0
  {
    var q := f / g;
    assert q * g == f;
    if q > 0.0 && g > 0.0 { assert q * g > 0.0; }
    if q > 0.0 && g < 0.0 { assert q * (-g) > 0.0; }
    if q <= 0.0 && g > 0.0 { assert (-q) * g >= 0.0; }
    if q <= 0.0 && g < 0.0 { assert (-q) * (-g) >= 0.0; }
  }

  function Artanh(lib: Library): Entry {
    Entry(v => if -1.0 < v < 1.0 then Some(Times(0.5, lib.Logarithm(Ratio(1.0 + v, 1.0 - v)))) else None,
          v => if -1.0 < v < 1.0 && 1.0 - Times(v, v) != 0.0 then Some(Ratio(1.0, 1.0 - Times(v, v))) else None)
  }

  function Arcoth(lib: Library): Entry {
    Entry(v => if v < -1.0 || v > 1.0 then Some(Times(0.5, lib.Logarithm(Ratio(v + 1.0, v - 1.0)))) else None,
          v => if (v < -1.0 || v > 1.0) && Times(v, v) - 1.0 != 0.0 then Some(Ratio(-1.0, Times(v, v) - 1.0))
               else None)
  }

  lemma Lines(u: real)
    ensures 1.0 + Times(1.0, u) == 1.0 + u && 1.0 + Times(-1.0, u) == 1.0 - u && -1.0 + Times(1.0, u) == u - 1.0
  {}

  lemma ArtanhSame(lib: Library)
    ensures forall u :: Artanh(lib).value(u) == QuotientLog(lib, 1.0, -1.0)(u)
  {
    hide Times, Ratio, Library.Logarithm;
    forall u ensures Artanh(lib).value(u) == QuotientLog(lib, 1.0, -1.0)(u) {
      Lines(u);
      if u != 1.0 { RatioSign(1.0 + u, 1.0 - u); }
    }
  }

  lemma ArcothSame(lib: Library)
    ensures forall u :: Arcoth(lib).value(u) == QuotientLog(lib, -1.0, 1.0)(u)
  {
    hide Times, Ratio, Library.Logarithm;
    forall u ensures Arcoth(lib).value(u) == QuotientLog(lib, -1.0, 1.0)(u) {
      Lines(u);
      if u != 1.0 { RatioSign(u + 1.0, u - 1.0); }
    }
  }

  lemma SameFunction(F: Function, G: Function, v: real, a: real, d: real)
    requires HasTangent(At(F, v), a, d) && forall u :: G(u) == F(u)
    ensures HasTangent(At(G, v), a, d)
  {
    hide HasTangent;
    TangentLocal(At(F, v), At(G, v), a, d, 1.0);
  }

  lemma ArtanhExact(lib: Library, v: real)
    requires lib.Valid()
    ensures IsExact(Artanh(lib), v)
  {
    hide HasTangent, Times, Ratio, Library.Valid, IsExact, At, QuotientLog, Library.Logarithm;
    if v <= -1.0 || v >= 1.0 {
      NoValue(Artanh(lib), v);
    } else {
      var f, g := 1.0 + v, 1.0 - v;
      Lines(v);
      RatioSign(f, g);
      QuotientLogTangent(lib, 1.0, -1.0, v, f, g);
      ArtanhSame(lib);
      var a, n, m := Times(0.5, lib.Logarithm(Ratio(f, g))), Times(0.5, g - Times(f, -1.0)), Times(f, g);
      SameFunction(QuotientLog(lib, 1.0, -1.0), Artanh(lib).value, v, a, Ratio(n, m));
      LineProducts(v);
      ExactVia(Artanh(lib), v, a, Ratio(1.0, 1.0 - Times(v, v)), a, Ratio(n, m));
    }
  }

  lemma LineProducts(v: real)
    ensures Times(1.0 + v, 1.0 - v) == 1.0 - Times(v, v) && Times(0.5, (1.0 - v) - Times(1.0 + v, -1.0)) == 1.0
    ensures Times(v + 1.0, v - 1.0) == Times(v, v) - 1.0 && Times(0.5, (v - 1.0) - Times(v + 1.0, 1.0)) == -1.0
  {}

  lemma ArcothExact(lib: Library, v: real)
    requires lib.Valid()
    ensures IsExact(Arcoth(lib), v)
  {
    hide HasTangent, Times, Ratio, Library.Valid, IsExact, At, QuotientLog, Library.Logarithm;
    if -1.0 <= v <= 1.0 {
      NoValue(Arcoth(lib), v);
    } else {
      var f, g := v + 1.0, v - 1.0;
      Lines(v);
      RatioSign(f, g);
      QuotientLogTangent(lib, -1.0, 1.0, v, f, g);
      ArcothSame(lib);
      var a, n, m := Times(0.5, lib.Logarithm(Ratio(f, g))), Times(0.5, g - Times(f, 1.0)), Times(f, g);
      SameFunction(QuotientLog(lib, -1.0, 1.0), Arcoth(lib).value, v, a, Ratio(n, m));
      LineProducts(v);
      ExactVia(Arcoth(lib), v, a, Ratio(-1.0, Times(v, v) - 1.0), a, Ratio(n, m));
    }
  }

  // ----- inverse functions of a reciprocal -----

  function Recip(): Function { v => if v == 0.0 then None else Some(Ratio(1.0, v)) }

  lemma RecipTangent(v: real)
    requires v != 0.0
    ensures Times(v, v) != 0.0 && HasTangent(At(Recip(), v), Ratio(1.0, v), Ratio(-1.0, Times(v, v)))
  {
    hide HasTangent, Times, Ratio, At, Plus, IsReciprocal;
    PlusTangent(v);
    RecipParts();
    RecipAt(Plus().value, Recip(), v, v, 1.0);
  }

  lemma RecipParts()
    ensures IsReciprocal(Plus().value, Recip())
  {
    hide Ratio;
  }

  function Arcsec(lib: Library): Entry {
    Entry(v => if v == 0.0 then None else Arccos(lib).value(Ratio(1.0, v)),
          v => if Abs(v) <= 1.0 || Times(Abs(v), lib.Root(Times(v, v) - 1.0)) == 0.0 then None
               else Some(Ratio(1.0, Times(Abs(v), lib.Root(Times(v, v) - 1.0)))))
  }

  function Arccosec(lib: Library): Entry {
    Entry(v => if v == 0.0 then None else Arcsin(lib).value(Ratio(1.0, v)),
          v => if Abs(v) <= 1.0 || Times(Abs(v), lib.Root(Times(v, v) - 1.0)) == 0.0 then None
               else Some(Ratio(-1.0, Times(Abs(v), lib.Root(Times(v, v) - 1.0)))))
  }

  function Arcosech(lib: Library): Entry {
    Entry(v => if v == 0.0 then None else Arsinh(lib).value(Ratio(1.0, v)),
          v => if v == 0.0 || Times(Abs(v), lib.Root(1.0 + Times(v, v))) == 0.0 then None
               else Some(Ratio(-1.0, Times(Abs(v), lib.Root(1.0 + Times(v, v))))))
  }

  lemma RecipComposites(lib: Library)
    ensures IsComposite(Recip(), Arccos(lib).value, Arcsec(lib).value)
    ensures IsComposite(Recip(), Arcsin(lib).value, Arccosec(lib).value)
    ensures IsComposite(Recip(), Arsinh(lib).value, Arcosech(lib).value)
  {
    hide Ratio, Times, Arccos, Arcsin, Arsinh, Library.Root;
  }

  lemma RecipSize(v: real)
    requires v != 0.0
    ensures Times(v, Ratio(1.0, v)) == 1.0
    ensures Abs(Ratio(1.0, v)) < 1.0 <==> Abs(v) > 1.0
    ensures Abs(Ratio(1.0, v)) == 1.0 <==> Abs(v) == 1.0
  {
    hide Times, Ratio;
    var w := Ratio(1.0, v);
    Over(1.0, v, w);
    TimesComm(w, v);
    AbsTimes(w, v);
    TimesUnits(Abs(v));
    TimesUnits(Abs(w));
    if Abs(w) >= 1.0 { TimesMonotone(1.0, Abs(w), Abs(v)); }
    if Abs(w) <= 1.0 { TimesMonotone(Abs(w), 1.0, Abs(v)); }
  }

  /** The root of v v + c is |v| times the root of 1 + c w w, where v w == 1. */
  lemma RecipRoot(lib: Library, v: real, w: real, c: real)
    requires lib.Valid() && Times(v, w) == 1.0 && 1.0 + Times(c, Times(w, w)) >= 0.0
    ensures Times(v, v) + c >= 0.0
    ensures lib.Root(Times(v, v) + c) == Times(Abs(v), lib.Root(1.0 + Times(c, Times(w, w))))
  {
    hide Library.Valid, Times, Library.Root;
    var r := lib.Root(1.0 + Times(c, Times(w, w)));
    Roots(lib, 1.0 + Times(c, Times(w, w)));
    RecipRootSquare(v, w, c, r);
    TimesNonNegative(Abs(v), r);
    RootIs(lib, Times(v, v) + c, Times(Abs(v), r));
  }

  lemma RecipRootSquare(v: real, w: real, c: real, r: real)
    requires Times(v, w) == 1.0 && Times(r, r) == 1.0 + Times(c, Times(w, w))
    ensures Times(Times(Abs(v), r), Times(Abs(v), r)) == Times(v, v) + c
  {
    var a := Abs(v);
    assert a * a == v * v;
    assert (a * r) * (a * r) == (v * v) * (r * r);
    assert (v * v) * (c * (w * w)) == c * ((v * w) * (v * w));
  }

  lemma RecipSlope(e: real, r: real, v: real)
    requires r != 0.0 && v != 0.0 && Times(v, v) != 0.0
    ensures Times(Abs(v), Times(Abs(v), r)) != 0.0
    ensures Times(Ratio(e, r), Ratio(-1.0, Times(v, v))) == Ratio(-e, Times(Abs(v), Times(Abs(v), r)))
  {
    hide Ratio;
    var a, p, q := Abs(v), Ratio(e, r), Ratio(-1.0, Times(v, v));
    Over(e, r, p);
    Over(-1.0, Times(v, v), q);
    assert a * a == v * v;
    assert a * (a * r) == (v * v) * r;
    Products(v * v, r);
    assert (p * q) * ((v * v) * r) == (p * r) * (q * (v * v));
    Over(-e, Times(a, Times(a, r)), Times(p, q));
  }

  lemma ArccosTangent(lib: Library, v: real, r: real)
    requires lib.Valid() && Abs(v) < 1.0 && r == lib.Root(1.0 - Times(v, v))
    ensures r > 0.0 && HasTangent(At(Arccos(lib).value, v), lib.Arccosine(v), Ratio(-1.0, r))
    ensures HasTangent(At(Arcsin(lib).value, v), lib.Arcsine(v), Ratio(1.0, r))
  {
    hide HasTangent, Times, Ratio, Library.Valid, IsExact, At, Library.Root, Library.Arcsine, Library.Arccosine;
    InnerRoot(lib, v);
    ArccosExact(lib, v);
    ExactTangent(Arccos(lib), v, lib.Arccosine(v), Ratio(-1.0, r));
    ArcsinExact(lib, v);
    ExactTangent(Arcsin(lib), v, lib.Arcsine(v), Ratio(1.0, r));
  }

  lemma MinusTimes(x: real)
    ensures Times(-1.0, x) == -x
  {}

  lemma ArcsecExact(lib: Library, v: real)
    requires lib.Valid()
    ensures IsExact(Arcsec(lib), v) && IsExact(Arccosec(lib), v)
  {
    hide HasTangent, Times, Ratio, Library.Valid, IsExact, At, Recip, IsComposite, Library.Root, Library.Arcsine,
      Library.Arccosine, Arccos, Arcsin;
    if v == 0.0 {
      NoValue(Arcsec(lib), v);
      NoValue(Arccosec(lib), v);
    } else {
      var w := Ratio(1.0, v);
      RecipSize(v);
      if Abs(v) <= 1.0 {
        ArcsecEdge(lib, v);
      } else {
        var r := lib.Root(1.0 - Times(w, w));
        ArccosTangent(lib, w, r);
        RecipTangent(v);
        RecipComposites(lib);
        ArcValues(lib, w);
        var d := Ratio(-1.0, Times(v, v));
        ChainAt(Recip(), Arccos(lib), Arcsec(lib).value, v, w, d, lib.Arccosine(w), Ratio(-1.0, r));
        ChainAt(Recip(), Arcsin(lib), Arccosec(lib).value, v, w, d, lib.Arcsine(w), Ratio(1.0, r));
        MinusTimes(Times(w, w));
        InnerRoot(lib, w);
        RecipRoot(lib, v, w, -1.0);
        RecipSlope(-1.0, r, v);
        RecipSlope(1.0, r, v);
        var R := Times(Abs(v), Times(Abs(v), r));
        ExactVia(Arcsec(lib), v, lib.Arccosine(w), Ratio(1.0, R), lib.Arccosine(w), Times(Ratio(-1.0, r), d));
        ExactVia(Arccosec(lib), v, lib.Arcsine(w), Ratio(-1.0, R), lib.Arcsine(w), Times(Ratio(1.0, r), d));
      }
    }
  }

  lemma ArcValues(lib: Library, w: real)
    ensures Abs(w) <= 1.0 ==>
      Arccos(lib).value(w) == Some(lib.Arccosine(w)) && Arcsin(lib).value(w) == Some(lib.Arcsine(w))
    ensures Abs(w) > 1.0 ==> Arccos(lib).value(w).None? && Arcsin(lib).value(w).None?
  {
    hide Times, Ratio, Library.Root, Library.Arcsine, Library.Arccosine;
  }

  lemma ArcsecEdge(lib: Library, v: real)
    requires lib.Valid() && v != 0.0 && Abs(v) <= 1.0
    ensures IsExact(Arcsec(lib), v) && IsExact(Arccosec(lib), v)
  {
    hide HasTangent, Times, Ratio, Library.Valid, IsExact, At, Library.Root, Library.Arcsine, Library.Arccosine, Arccos,
      Arcsin;
    forall u | u != 0.0 && Abs(u) < 1.0 ensures Arcsec(lib).value(u).None? && Arccosec(lib).value(u).None? {
      RecipSize(u);
      ArcValues(lib, Ratio(1.0, u));
    }
    if Abs(v) < 1.0 {
      NoValue(Arcsec(lib), v);
      NoValue(Arccosec(lib), v);
    } else if v == 1.0 {
      NoTangentLeft(Arcsec(lib), v);
      NoTangentLeft(Arccosec(lib), v);
    } else {
      NoTangentRight(Arcsec(lib), v);
      NoTangentRight(Arccosec(lib), v);
    }
  }

  lemma ArsinhTangent(lib: Library, v: real, r: real)
    requires lib.Valid() && r == lib.Root(Times(v, v) + 1.0)
    ensures r > 0.0 && v + r > 0.0 && Arsinh(lib).value(v) == Some(lib.Logarithm(v + r))
    ensures HasTangent(At(Arsinh(lib).value, v), lib.Logarithm(v + r), Ratio(1.0, r))
  {
    hide HasTangent, Times, Ratio, Library.Valid, IsExact, At, Library.Root, Library.Logarithm;
    NonZero(v);
    Roots(lib, Times(v, v) + 1.0);
    RootAbove(v, r, 1.0);
    ArsinhExact(lib, v);
    ExactTangent(Arsinh(lib), v, lib.Logarithm(v + r), Ratio(1.0, r));
  }

  lemma ArcosechExact(lib: Library, v: real)
    requires lib.Valid()
    ensures IsExact(Arcosech(lib), v)
  {
    hide HasTangent, Times, Ratio, Library.Valid, IsExact, At, Recip, IsComposite, Library.Root, Library.Logarithm,
      Arsinh;
    if v == 0.0 {
      NoValue(Arcosech(lib), v);
    } else {
      var w := Ratio(1.0, v);
      RecipSize(v);
      var r := lib.Root(Times(w, w) + 1.0);
      ArsinhTangent(lib, w, r);
      RecipTangent(v);
      RecipComposites(lib);
      var a, d := lib.Logarithm(w + r), Ratio(-1.0, Times(v, v));
      ChainAt(Recip(), Arsinh(lib), Arcosech(lib).value, v, w, d, a, Ratio(1.0, r));
      TimesUnits(Times(w, w));
      NonZero(w);
      RecipRoot(lib, v, w, 1.0);
      RecipSlope(1.0, r, v);
      ExactVia(Arcosech(lib), v, a, Ratio(-1.0, Times(Abs(v), Times(Abs(v), r))), a, Times(Ratio(1.0, r), d));
    }
  }

  // ----- area secant -----

  function Arsech(lib: Library): Entry {
    Entry(v => if 0.0 < v <= 1.0 then Some(lib.Logarithm(Ratio(1.0 + lib.Root(1.0 - Times(v, v)), v))) else None,
          v => if 0.0 < v < 1.0 && Times(v, lib.Root(1.0 - Times(v, v))) != 0.0
               then Some(Ratio(-1.0, Times(v, lib.Root(1.0 - Times(v, v))))) else None)
  }

  function Complement(): Function { u => Some(1.0 - Times(u, u)) }

  function InnerRootOf(lib: Library): Function {
    u => if 1.0 - Times(u, u) >= 0.0 then Some(lib.Root(1.0 - Times(u, u))) else None
  }

  function OneMore(lib: Library): Function {
    u => if 1.0 - Times(u, u) >= 0.0 then Some(1.0 + lib.Root(1.0 - Times(u, u))) else None
  }

  function SecantQuotient(lib: Library): Function {
    u => if 1.0 - Times(u, u) >= 0.0 && u != 0.0 then Some(Ratio(1.0 + lib.Root(1.0 - Times(u, u)), u)) else None
  }

  lemma ArsechParts(lib: Library, one: Function)
    requires lib.Valid() && forall u :: one(u) == Some(1.0)
    ensures IsDifference(one, Sqr().value, Complement())
    ensures IsComposite(Complement(), Sqrt(lib).value, InnerRootOf(lib))
    ensures IsSum(one, InnerRootOf(lib), OneMore(lib))
    ensures IsQuotient(OneMore(lib), Plus().value, SecantQuotient(lib))
  {
    hide Times, Ratio, Library.Root, Library.Logarithm, Library.Valid;
  }

  lemma ArsechComposite(lib: Library)
    requires lib.Valid()
    ensures IsComposite(SecantQuotient(lib), Ln(lib).value, Arsech(lib).value)
  {
    hide Times, Ratio, Library.Root, Library.Logarithm, Library.Valid;
    forall u | SecantQuotient(lib)(u).Some?
      ensures Arsech(lib).value(u) == Ln(lib).value(SecantQuotient(lib)(u).value)
    {
      Roots(lib, 1.0 - Times(u, u));
      OuterSquare(u);
      RatioSign(1.0 + lib.Root(1.0 - Times(u, u)), u);
    }
  }

  lemma ArsechTangent(lib: Library, v: real, r: real)
    requires lib.Valid() && 0.0 < v < 1.0 && r == lib.Root(1.0 - Times(v, v)) && r > 0.0
    requires Times(r, r) == 1.0 - Times(v, v)
    ensures Times(v, r) != 0.0
    ensures HasTangent(At(Arsech(lib).value, v), lib.Logarithm(Ratio(1.0 + r, v)), Ratio(-1.0, Times(v, r)))
  {
    hide HasTangent, Times, Ratio, Library.Valid, At, Sqr, Plus, Sqrt, Ln, Complement, InnerRootOf, OneMore,
      SecantQuotient, Arsech, IsComposite, IsSum, IsDifference, IsQuotient, Library.Root, Library.Logarithm;
    var q, e := 1.0 - Times(v, v), Times(2.0, v);
    var one: Function := u => Some(1.0);
    ConstAt(1.0, one, v);
    SqrTangent(v);
    PlusTangent(v);
    ArsechParts(lib, one);
    ArsechComposite(lib);
    SubAt(one, Sqr().value, Complement(), v, 1.0, 0.0, Times(v, v), e);
    InnerSquare(v);
    SqrtTangent(lib, q);
    ChainAt(Complement(), Sqrt(lib), InnerRootOf(lib), v, q, 0.0 - e, r, Ratio(0.5, r));
    var d := Times(Ratio(0.5, r), 0.0 - e);
    AddAt(one, InnerRootOf(lib), OneMore(lib), v, 1.0, 0.0, r, d);
    OverAt(OneMore(lib), Plus().value, SecantQuotient(lib), v, 1.0 + r, 0.0 + d, v, 1.0);
    var w, s := Ratio(1.0 + r, v), Ratio(Times(v, 0.0 + d) - Times(1.0 + r, 1.0), Times(v, v));
    RatioSign(1.0 + r, v);
    LnTangent(lib, w);
    ChainAt(SecantQuotient(lib), Ln(lib), Arsech(lib).value, v, w, s, lib.Logarithm(w), Ratio(1.0, w));
    Products(v, r);
    ArsechSlope(v, r);
    SameTangent(At(Arsech(lib).value, v), lib.Logarithm(w), Times(Ratio(1.0, w), s), Ratio(-1.0, Times(v, r)));
  }

  lemma ArsechSlope(v: real, r: real)
    requires 0.0 < v && r > 0.0 && Times(r, r) == 1.0 - Times(v, v) && Times(v, v) != 0.0 && Times(v, r) != 0.0
    requires Ratio(1.0 + r, v) != 0.0
    ensures var d := Times(Ratio(0.5, r), 0.0 - Times(2.0, v));
      Times(Ratio(1.0, Ratio(1.0 + r, v)), Ratio(Times(v, 0.0 + d) - Times(1.0 + r, 1.0), Times(v, v)))
      == Ratio(-1.0, Times(v, r))
  {
    hide Ratio;
    var d := Times(Ratio(0.5, r), 0.0 - Times(2.0, v));
    var h, w := Ratio(0.5, r), Ratio(1.0 + r, v);
    var n := Times(v, 0.0 + d) - Times(1.0 + r, 1.0);
    var p, s := Ratio(1.0, w), Ratio(n, Times(v, v));
    Over(0.5, r, h);
    Over(1.0 + r, v, w);
    Over(1.0, w, p);
    Over(n, Times(v, v), s);
    ArsechNumerator(v, r, h, d, n);
    ArsechAlgebra(v, r, w, p, s, n);
    Over(-1.0, Times(v, r), Times(p, s));
  }

  lemma ArsechNumerator(v: real, r: real, h: real, d: real, n: real)
    requires h * r == 0.5 && d == h * (0.0 - 2.0 * v) && n == v * (0.0 + d) - (1.0 + r) * 1.0
    requires r * r == 1.0 - v * v
    ensures n * r == -(1.0 + r)
  {
    assert d * r == (h * r) * (0.0 - 2.0 * v);
    assert d * r == -v;
    assert n * r == v * (d * r) - (1.0 + r) * r;
  }

  lemma ArsechAlgebra(v: real, r: real, w: real, p: real, s: real, n: real)
    requires v > 0.0 && r > 0.0 && w * v == 1.0 + r && p * w == 1.0 && s * (v * v) == n && n * r == -(1.0 + r)
    ensures Times(Times(p, s), Times(v, r)) == -1.0
  {
    var x, m, y := (p * s) * (v * r), w * v, s * (v * v);
    assert x * m == (p * w) * (y * r);
    assert y * r == -m;
    Products(x + 1.0, m);
    assert Times(x + 1.0, m) == 0.0;
  }

  lemma ArsechExact(lib: Library, v: real)
    requires lib.Valid()
    ensures IsExact(Arsech(lib), v)
  {
    hide HasTangent, Times, Ratio, Library.Valid, IsExact, At, Library.Root, Library.Logarithm;
    if v <= 0.0 || v > 1.0 {
      NoValue(Arsech(lib), v);
    } else if v == 1.0 {
      NoTangentRight(Arsech(lib), v);
    } else {
      var r := lib.Root(1.0 - Times(v, v));
      InnerRoot(lib, v);
      Roots(lib, 1.0 - Times(v, v));
      ArsechTangent(lib, v, r);
      ExactBy(Arsech(lib), v, lib.Logarithm(Ratio(1.0 + r, v)), Ratio(-1.0, Times(v, r)));
    }
  }

  // ----- the table -----

  function Undefined(): Entry { Entry(v => None, v => None) }

  /** The functions of one argument by name. */
  function FunctionOf(lib: Library, op: string): Entry {
    match op
    case "+" => Plus()
    case "-" => Minus()
    case "ln" => Ln(lib)
    case "log10" => Log(lib, 10.0)
    case "log2" => Log(lib, 2.0)
    case "sqrt" => Sqrt(lib)
    case "exp" => Exp(lib)
    case "sinc" => Sinc(lib)
    case "norm" => Sqr()
    case "sin" => Sin(lib)
    case "cos" => Cos(lib)
    case "tan" => Tan(lib)
    case "sec" => Sec(lib)
    case "cot" => Cot(lib)
    case "cosec" => Cosec(lib)
    case "abs" => AbsEntry()
    case "step" => Step()
    case "sign" => Sign()
    case "arcsin" => Arcsin(lib)
    case "arccos" => Arccos(lib)
    case "arctan" => Arctan(lib)
    case "arccot" => Arccot(lib)
    case "arcsec" => Arcsec(lib)
    case "arccosec" => Arccosec(lib)
    case "sqr" => Sqr()
    case "sinh" => Sinh(lib)
    case "cosh" => Cosh(lib)
    case "tanh" => Tanh(lib)
    case "coth" => Coth(lib)
    case "arsinh" => Arsinh(lib)
    case "arcosh" => Arcosh(lib)
    case "artanh" => Artanh(lib)
    case "arcoth" => Arcoth(lib)
    case "arsech" => Arsech(lib)
    case "arcosech" => Arcosech(lib)
    case "limexp" => Limexp(lib)
    case "vt" => Scaled(lib.kBoverQ)
    case _ => Undefined()
  }

  /** Every entry of the table holds a function and its derivative. */
  lemma TableExact(lib: Library, op: string, v: real)
    requires lib.Valid()
    ensures IsExact(FunctionOf(lib, op), v)
  {
    hide IsExact, Library.Valid, Plus, Minus, Ln, Log, Sqrt, Exp, Sinc, Sqr, Sin, Cos, Tan, Sec, Cot, Cosec, AbsEntry,
      Step, Sign, Arcsin, Arccos, Arctan, Arccot, Arcsec, Arccosec, Sinh, Cosh, Tanh, Coth, Arsinh, Arcosh, Artanh,
      Arcoth, Arsech, Arcosech, Limexp, Scaled;
    match op {
      case "+" => LinesExact(v, 0.0);
      case "-" => LinesExact(v, 0.0);
      case "ln" => LnExact(lib, v);
      case "log10" => LogExact(lib, 10.0, v);
      case "log2" => LogExact(lib, 2.0, v);
      case "sqrt" => SqrtExact(lib, v);
      case "exp" => ExpExact(lib, v);
      case "sinc" => SincExact(lib, v);
      case "norm" => SqrExact(v);
      case "sin" => SinExact(lib, v);
      case "cos" => CosExact(lib, v);
      case "tan" => TanExact(lib, v);
      case "sec" => SecExact(lib, v);
      case "cot" => CotExact(lib, v);
      case "cosec" => CosecExact(lib, v);
      case "abs" => AbsExact(v);
      case "step" => StepsExact(v);
      case "sign" => StepsExact(v);
      case "arcsin" => ArcsinExact(lib, v);
      case "arccos" => ArccosExact(lib, v);
      case "arctan" => ArctanExact(lib, v);
      case "arccot" => ArccotExact(lib, v);
      case "arcsec" => ArcsecExact(lib, v);
      case "arccosec" => ArcsecExact(lib, v);
      case "sqr" => SqrExact(v);
      case "sinh" => HyperExact(lib, v);
      case "cosh" => HyperExact(lib, v);
      case "tanh" => TanhExact(lib, v);
      case "coth" => CothExact(lib, v);
      case "arsinh" => ArsinhExact(lib, v);
      case "arcosh" => ArcoshExact(lib, v);
      case "artanh" => ArtanhExact(lib, v);
      case "arcoth" => ArcothExact(lib, v);
      case "arsech" => ArsechExact(lib, v);
      case "arcosech" => ArcosechExact(lib, v);
      case "limexp" => LimexpExact(lib, v);
      case "vt" => LinesExact(v, lib.kBoverQ);
      case _ => NoValue(Undefined(), v);
    }
  }

  // ----- powers -----

  function IPow(v: real, n: nat): real {
    if n == 0 then 1.0 else Times(v, IPow(v, n - 1))
  }

  lemma {:induction false} PowerNonZero(a: real, n: nat)
    requires a != 0.0
    ensures IPow(a, n) != 0.0
  {
    hide Times;
    if n > 0 {
      PowerNonZero(a, n - 1);
      Products(a, IPow(a, n - 1));
    }
  }

  predicate IsInteger(b: real) { b.Floor as real == b }

  /** Integer powers. */
  function ZPow(a: real, n: int): real
    requires a != 0.0 || n >= 0
  {
    if n >= 0 then IPow(a, n)
    else
      PowerNonZero(a, -n);
      Ratio(1.0, IPow(a, -n))
  }

  /** a to the power of b: for integers b by multiplication, for other exponents and a > 0 by
      the logarithm. */
  function PowValue(lib: Library, a: real, b: real): Option<real> {
    if IsInteger(b) && (a != 0.0 || b >= 0.0) then Some(ZPow(a, b.Floor))
    else if a > 0.0 then Some(lib.Exponential(Times(b, lib.Logarithm(a))))
    else if a == 0.0 && b > 0.0 then Some(0.0)
    else None
  }

  lemma {:induction false} NaturalPower(lib: Library, a: real, n: nat)
    requires lib.Valid() && a > 0.0
    ensures IPow(a, n) == lib.Exponential(Times(n as real, lib.Logarithm(a)))
  {
    hide Library.Valid, Times, Library.Exponential, Library.Logarithm;
    var l := lib.Logarithm(a);
    if n == 0 {
      TimesUnits(l);
      ExpPositive(lib, 0.0);
    } else {
      NaturalPower(lib, a, n - 1);
      LnIdentities(lib, a);
      TimesAdd(l, 1.0, (n - 1) as real);
      TimesUnits(l);
      ExpSums(lib, l, Times((n - 1) as real, l));
      assert 1.0 + (n - 1) as real == n as real;
    }
  }

  /** For positive bases all powers are given by the logarithm. */
  lemma PositivePower(lib: Library, a: real, b: real)
    requires lib.Valid() && a > 0.0
    ensures PowValue(lib, a, b) == Some(lib.Exponential(Times(b, lib.Logarithm(a))))
  {
    hide Library.Valid, Times, Library.Exponential, Library.Logarithm, IPow, Ratio;
    if IsInteger(b) {
      var n, l := b.Floor, lib.Logarithm(a);
      if n >= 0 {
        NaturalPower(lib, a, n);
      } else {
        var x := Times((-n) as real, l);
        NaturalPower(lib, a, -n);
        Products(b, l);
        assert (-n) as real == -b;
        ExpPositive(lib, x);
        TimesComm(lib.Exponential(x), lib.Exponential(-x));
        PowerNonZero(a, -n);
        Over(1.0, lib.Exponential(x), lib.Exponential(-x));
      }
    }
  }

  /** The derivative of a natural power. */
  function DPow(a: real, d: real, n: nat): real {
    if n == 0 then 0.0 else Times(Times(n as real, IPow(a, n - 1)), d)
  }

  lemma PowerStep(a: real, d: real, n: nat)
    requires n > 0
    ensures DPow(a, d, n) == Times(a, DPow(a, d, n - 1)) + Times(IPow(a, n - 1), d)
  {
    var p := IPow(a, n - 1);
    if n == 1 {
      TimesUnits(a);
    } else {
      var q := IPow(a, n - 2);
      assert p == a * q;
      assert a * (((n - 1) as real * q) * d) == ((n - 1) as real * p) * d;
      assert (n as real * p) * d == ((n - 1) as real * p) * d + p * d;
    }
  }

  function PowerGerm(f: Germ, n: nat): Germ { h => if f(h).Some? then Some(IPow(f(h).value, n)) else None }

  lemma {:induction false} PowerTangent(f: Germ, a: real, d: real, n: nat)
    requires HasTangent(f, a, d)
    ensures HasTangent(PowerGerm(f, n), IPow(a, n), DPow(a, d, n))
  {
    hide HasTangent, Times;
    var k := PowerGerm(f, n);
    if n == 0 {
      var one: Germ := h => Some(1.0);
      TangentConst(one, 1.0);
      var step := TangentNearby(f, a, d, 1.0);
      forall h | Abs(h) < step ensures one(h) == k(h) { assert IPow(f(h).value, 0) == 1.0; }
      TangentLocal(one, k, 1.0, 0.0, step);
    } else {
      PowerTangent(f, a, d, n - 1);
      PowerGerms(f, n);
      TangentMul(f, PowerGerm(f, n - 1), k, a, d, IPow(a, n - 1), DPow(a, d, n - 1));
      PowerStep(a, d, n);
    }
  }

  lemma PowerGerms(f: Germ, n: nat)
    requires n > 0
    ensures var g, k := PowerGerm(f, n - 1), PowerGerm(f, n);
      forall h {:trigger k(h)} :: f(h).Some? && g(h).Some? ==> k(h) == Some(Times(f(h).value, g(h).value))
  {
    hide Times;
    var g, k := PowerGerm(f, n - 1), PowerGerm(f, n);
    forall h | f(h).Some? ensures k(h) == Some(Times(f(h).value, g(h).value)) {
      var v := f(h).value;
      assert IPow(v, n) == Times(v, IPow(v, n - 1));
    }
  }

  /** The derivative of an integer power. */
  function ZSlope(a: real, d: real, n: int): real
    requires a != 0.0 || n >= 0
  {
    if n == 0 then 0.0 else Times(Times(n as real, ZPow(a, n - 1)), d)
  }

  lemma IntegerTangent(f: Germ, k: Germ, a: real, d: real, n: int)
    requires HasTangent(f, a, d) && (a != 0.0 || n >= 0)
    requires forall h {:trigger k(h)} ::
      f(h).Some? && (f(h).value != 0.0 || n >= 0) ==> k(h) == Some(ZPow(f(h).value, n))
    ensures HasTangent(k, ZPow(a, n), ZSlope(a, d, n))
  {
    hide HasTangent, Times, Ratio, IPow, DPow;
    if n >= 0 {
      var p := PowerGerm(f, n);
      PowerTangent(f, a, d, n);
      var step := TangentNearby(f, a, d, 1.0);
      TangentLocal(p, k, IPow(a, n), DPow(a, d, n), step);
      NaturalSlope(a, d, n);
      SameTangent(k, ZPow(a, n), DPow(a, d, n), ZSlope(a, d, n));
    } else {
      NegativeTangent(f, k, a, d, -n);
      assert 0 - (-n) == n;
    }
  }

  lemma NaturalSlope(a: real, d: real, n: nat)
    ensures DPow(a, d, n) == ZSlope(a, d, n)
  {
    hide Times;
  }

  lemma NegativeTangent(f: Germ, k: Germ, a: real, d: real, m: nat)
    requires HasTangent(f, a, d) && a != 0.0 && m > 0
    requires forall h {:trigger k(h)} :: f(h).Some? && f(h).value != 0.0 ==> k(h) == Some(ZPow(f(h).value, 0 - m))
    ensures HasTangent(k, ZPow(a, 0 - m), ZSlope(a, d, 0 - m))
  {
    hide HasTangent, Times, Ratio, DPow, ZSlope;
    var g := PowerGerm(f, m);
    var one: Germ := h => Some(1.0);
    TangentConst(one, 1.0);
    PowerTangent(f, a, d, m);
    PowerNonZero(a, m);
    forall h {:trigger k(h)} | g(h).Some? && g(h).value != 0.0 ensures k(h) == Some(Ratio(1.0, g(h).value)) {
      PowerZero(f(h).value, m);
    }
    var p, e := IPow(a, m), DPow(a, d, m);
    TangentOver(one, g, k, 1.0, 0.0, p, e);
    NegativeSlope(a, d, m);
    SameTangent(k, Ratio(1.0, p), Ratio(Times(p, 0.0) - Times(1.0, e), Times(p, p)), ZSlope(a, d, 0 - m));
  }

  lemma PowerZero(v: real, m: nat)
    requires m > 0 && IPow(v, m) != 0.0
    ensures v != 0.0 && ZPow(v, 0 - m) == Ratio(1.0, IPow(v, m))
  {
    hide Times, Ratio;
    Products(v, IPow(v, m - 1));
  }

  lemma NegativeSlope(a: real, d: real, m: nat)
    requires a != 0.0 && m > 0 && IPow(a, m) != 0.0 && Times(IPow(a, m), IPow(a, m)) != 0.0
    ensures Ratio(Times(IPow(a, m), 0.0) - Times(1.0, DPow(a, d, m)), Times(IPow(a, m), IPow(a, m)))
         == ZSlope(a, d, 0 - m)
  {
    hide Ratio, Times;
    var p, q, c := IPow(a, m), IPow(a, m - 1), m as real;
    PowerNonZero(a, m + 1);
    assert IPow(a, m + 1) == Times(a, p);
    var z := Ratio(1.0, Times(a, p));
    Over(1.0, Times(a, p), z);
    NegativeAlgebra(a, d, p, q, z, c);
    Over(Times(p, 0.0) - Times(1.0, DPow(a, d, m)), Times(p, p), Times(Times(-c, z), d));
    assert (0 - m) as real == -c && -(0 - m - 1) == m + 1;
  }

  lemma NegativeAlgebra(a: real, d: real, p: real, q: real, z: real, c: real)
    requires p == Times(a, q) && Times(z, Times(a, p)) == 1.0
    ensures Times(Times(Times(-c, z), d), Times(p, p)) == Times(p, 0.0) - Times(1.0, Times(Times(c, q), d))
  {
    var ap := a * p;
    assert p * p == ap * q;
    assert (((-c) * z) * d) * (ap * q) == -(c * (z * ap)) * (d * q);
    assert c * (d * q) == (c * q) * d;
  }

  lemma LnOf(lib: Library, f: Germ, F: Germ, a: real, d: real)
    requires lib.Valid() && HasTangent(f, a, d) && a > 0.0
    requires forall h {:trigger F(h)} :: f(h).Some? ==> F(h) == Ln(lib).value(f(h).value)
    ensures HasTangent(F, lib.Logarithm(a), Times(Ratio(1.0, a), d))
  {
    hide HasTangent, Times, Ratio, Library.Valid, Ln, Library.Logarithm, IsExact;
    LnExact(lib, a);
    LnEntry(lib, a);
    Composite(f, Ln(lib), F, a, d);
  }

  lemma ExpOf(lib: Library, f: Germ, F: Germ, a: real, d: real)
    requires lib.Valid() && HasTangent(f, a, d)
    requires forall h {:trigger F(h)} :: f(h).Some? ==> F(h) == Exp(lib).value(f(h).value)
    ensures HasTangent(F, lib.Exponential(a), Times(lib.Exponential(a), d))
  {
    hide HasTangent, Times, Library.Valid, Exp, Library.Exponential, IsExact;
    ExpExact(lib, a);
    ExpEntry(lib, a);
    Composite(f, Exp(lib), F, a, d);
  }

  lemma SqrtOf(lib: Library, f: Germ, F: Germ, a: real, d: real)
    requires lib.Valid() && HasTangent(f, a, d) && a > 0.0
    requires forall h {:trigger F(h)} :: f(h).Some? ==> F(h) == Sqrt(lib).value(f(h).value)
    ensures lib.Root(a) > 0.0 && HasTangent(F, lib.Root(a), Times(Ratio(0.5, lib.Root(a)), d))
  {
    hide HasTangent, Times, Ratio, Library.Valid, Sqrt, Library.Root, IsExact;
    Roots(lib, a);
    SqrtExact(lib, a);
    SqrtEntry(lib, a);
    Composite(f, Sqrt(lib), F, a, d);
  }

  function LnGerm(lib: Library, f: Germ): Germ { h => if f(h).Some? then Ln(lib).value(f(h).value) else None }

  function ProductGerm(f: Germ, g: Germ): Germ {
    h => if f(h).Some? && g(h).Some? then Some(Times(f(h).value, g(h).value)) else None
  }

  function SumGerm(f: Germ, g: Germ): Germ {
    h => if f(h).Some? && g(h).Some? then Some(f(h).value + g(h).value) else None
  }

  function ExpGerm(lib: Library, f: Germ): Germ { h => if f(h).Some? then Exp(lib).value(f(h).value) else None }

  function SqrtGerm(lib: Library, f: Germ): Germ { h => if f(h).Some? then Sqrt(lib).value(f(h).value) else None }

  lemma GermValues(lib: Library, f: Germ, g: Germ)
    ensures forall h {:trigger LnGerm(lib, f)(h)} :: f(h).Some? ==> LnGerm(lib, f)(h) == Ln(lib).value(f(h).value)
    ensures forall h {:trigger ExpGerm(lib, f)(h)} :: f(h).Some? ==> ExpGerm(lib, f)(h) == Exp(lib).value(f(h).value)
    ensures forall h {:trigger SqrtGerm(lib, f)(h)} :: f(h).Some? ==> SqrtGerm(lib, f)(h) == Sqrt(lib).value(f(h).value)
    ensures forall h {:trigger ProductGerm(f, g)(h)} :: f(h).Some? && g(h).Some? ==>
      ProductGerm(f, g)(h) == Some(Times(f(h).value, g(h).value))
    ensures forall h {:trigger SumGerm(f, g)(h)} :: f(h).Some? && g(h).Some? ==>
      SumGerm(f, g)(h) == Some(f(h).value + g(h).value)
  {
    hide Ln, Exp, Sqrt, Times;
  }

  /** The derivative of a power with a positive base. */
  lemma PositiveTangent(lib: Library, f: Germ, g: Germ, k: Germ, a: real, d: real, b: real, e: real)
    requires lib.Valid() && HasTangent(f, a, d) && HasTangent(g, b, e) && a > 0.0
    requires forall h {:trigger k(h)} ::
      f(h).Some? && g(h).Some? && f(h).value > 0.0 ==> k(h) == PowValue(lib, f(h).value, g(h).value)
    ensures PowValue(lib, a, b).Some?
    ensures var p := PowValue(lib, a, b).value;
      HasTangent(k, p, Times(p, Times(e, lib.Logarithm(a)) + Ratio(Times(b, d), a)))
  {
    hide HasTangent, Times, Ratio, Library.Valid, PowValue, Library.Exponential, Library.Logarithm, PowerLog;
    var l, y := lib.Logarithm(a), Times(b, lib.Logarithm(a));
    var p, x := lib.Exponential(y), Times(b, Times(Ratio(1.0, a), d)) + Times(lib.Logarithm(a), e);
    PositivePower(lib, a, b);
    PowerLogTangent(lib, f, g, a, d, b, e);
    var K := PowerLog(lib, f, g);
    var step := TangentNearby(f, a, d, a);
    var near := TangentNearby(g, b, e, 1.0);
    forall h | Abs(h) < Min(step, near) ensures K(h) == k(h) {
      PowerLogValue(lib, f, g, h);
    }
    TangentLocal(K, k, p, Times(p, x), Min(step, near));
    PositiveSlope(a, d, b, e, l);
    SameTangent(k, p, Times(p, x), Times(p, Times(e, l) + Ratio(Times(b, d), a)));
  }

  /** exp(g ln f). */
  function PowerLog(lib: Library, f: Germ, g: Germ): Germ { ExpGerm(lib, ProductGerm(g, LnGerm(lib, f))) }

  lemma PowerLogTangent(lib: Library, f: Germ, g: Germ, a: real, d: real, b: real, e: real)
    requires lib.Valid() && HasTangent(f, a, d) && HasTangent(g, b, e) && a > 0.0
    ensures var p := lib.Exponential(Times(b, lib.Logarithm(a)));
      HasTangent(PowerLog(lib, f, g), p, Times(p, Times(b, Times(Ratio(1.0, a), d)) + Times(lib.Logarithm(a), e)))
  {
    hide HasTangent, Times, Ratio, Library.Valid, Ln, Exp, Library.Exponential, Library.Logarithm, LnGerm, ProductGerm,
      ExpGerm, SqrtGerm, SumGerm, Sqrt;
    var l, m := lib.Logarithm(a), Times(Ratio(1.0, a), d);
    var F := LnGerm(lib, f);
    GermValues(lib, f, g);
    LnOf(lib, f, F, a, d);
    GermValues(lib, g, F);
    TangentMul(g, F, ProductGerm(g, F), b, e, l, m);
    GermValues(lib, ProductGerm(g, F), g);
    ExpOf(lib, ProductGerm(g, F), PowerLog(lib, f, g), Times(b, l), Times(b, m) + Times(l, e));
  }

  lemma PowerLogValue(lib: Library, f: Germ, g: Germ, h: real)
    requires lib.Valid() && f(h).Some? && g(h).Some? && f(h).value > 0.0
    ensures PowerLog(lib, f, g)(h) == PowValue(lib, f(h).value, g(h).value)
  {
    hide Times, Ratio, Library.Valid, PowValue, Ln, Exp, Library.Exponential, Library.Logarithm;
    PowerGermValue(lib, f(h).value, g(h).value);
  }

  lemma LnEntry(lib: Library, a: real)
    ensures a > 0.0 ==> Ln(lib).value(a) == Some(lib.Logarithm(a)) && Ln(lib).slope(a) == Some(Ratio(1.0, a))
  {
    hide Ratio, Library.Logarithm;
  }

  lemma ExpEntry(lib: Library, x: real)
    ensures Exp(lib).value(x) == Some(lib.Exponential(x)) == Exp(lib).slope(x)
  {
    hide Library.Exponential;
  }

  lemma PowerGermValue(lib: Library, v: real, w: real)
    requires lib.Valid() && v > 0.0
    ensures Ln(lib).value(v) == Some(lib.Logarithm(v))
    ensures Exp(lib).value(Times(w, lib.Logarithm(v))) == PowValue(lib, v, w)
  {
    hide Times, Ratio, Library.Valid, PowValue, Ln, Exp, Library.Exponential, Library.Logarithm;
    LnEntry(lib, v);
    ExpEntry(lib, Times(w, lib.Logarithm(v)));
    PositivePower(lib, v, w);
  }

  lemma PositiveSlope(a: real, d: real, b: real, e: real, l: real)
    requires a != 0.0
    ensures Times(b, Times(Ratio(1.0, a), d)) + Times(l, e) == Times(e, l) + Ratio(Times(b, d), a)
  {
    hide Ratio;
    var z := Ratio(1.0, a);
    Over(1.0, a, z);
    assert (b * (z * d)) * a == (b * d) * (z * a);
    Over(Times(b, d), a, Times(b, Times(z, d)));
  }

  // ----- the hypotenuse -----

  function HypotValue(lib: Library, a: real, b: real): real { lib.Root(Times(a, a) + Times(b, b)) }

  lemma SquareSum(a: real, b: real)
    ensures Times(a, a) + Times(b, b) >= 0.0
    ensures Times(a, a) + Times(b, b) == 0.0 <==> a == 0.0 && b == 0.0
  {
    hide Times;
    NonZero(a);
    NonZero(b);
  }

  lemma HypotTangent(lib: Library, f: Germ, g: Germ, k: Germ, a: real, d: real, b: real, e: real)
    requires lib.Valid() && HasTangent(f, a, d) && HasTangent(g, b, e) && (a != 0.0 || b != 0.0)
    requires forall h {:trigger k(h)} ::
      f(h).Some? && g(h).Some? ==> k(h) == Some(HypotValue(lib, f(h).value, g(h).value))
    ensures HypotValue(lib, a, b) > 0.0
    ensures HasTangent(k, HypotValue(lib, a, b), Ratio(Times(d, a) + Times(e, b), HypotValue(lib, a, b)))
  {
    hide HasTangent, Times, Ratio, Library.Valid, Library.Root, HypotGerm;
    var q, r := Times(a, a) + Times(b, b), HypotValue(lib, a, b);
    SquareSum(a, b);
    Roots(lib, q);
    HypotGermTangent(lib, f, g, a, d, b, e);
    var K, x := HypotGerm(lib, f, g), (Times(a, d) + Times(a, d)) + (Times(b, e) + Times(b, e));
    var s := TangentNearby(f, a, d, 1.0);
    var t := TangentNearby(g, b, e, 1.0);
    forall h | Abs(h) < Min(s, t) ensures K(h) == k(h) {
      HypotGermValue(lib, f, g, h);
    }
    TangentLocal(K, k, r, Times(Ratio(0.5, r), x), Min(s, t));
    HypotSlope(a, d, b, e, r);
    SameTangent(k, r, Times(Ratio(0.5, r), x), Ratio(Times(d, a) + Times(e, b), r));
  }

  function HypotGerm(lib: Library, f: Germ, g: Germ): Germ {
    SqrtGerm(lib, SumGerm(ProductGerm(f, f), ProductGerm(g, g)))
  }

  lemma HypotGermTangent(lib: Library, f: Germ, g: Germ, a: real, d: real, b: real, e: real)
    requires lib.Valid() && HasTangent(f, a, d) && HasTangent(g, b, e) && HypotValue(lib, a, b) > 0.0
    requires Times(a, a) + Times(b, b) > 0.0
    ensures var r := HypotValue(lib, a, b);
      HasTangent(HypotGerm(lib, f, g), r,
                 Times(Ratio(0.5, r), (Times(a, d) + Times(a, d)) + (Times(b, e) + Times(b, e))))
  {
    hide HasTangent, Times, Ratio, Library.Valid, Ln, Exp, Sqrt, Library.Root, LnGerm, ProductGerm, ExpGerm, SqrtGerm,
      SumGerm;
    var F, G := ProductGerm(f, f), ProductGerm(g, g);
    GermValues(lib, f, f);
    GermValues(lib, g, g);
    TangentMul(f, f, F, a, d, a, d);
    TangentMul(g, g, G, b, e, b, e);
    var x, y := Times(a, d) + Times(a, d), Times(b, e) + Times(b, e);
    GermValues(lib, F, G);
    TangentAdd(F, G, SumGerm(F, G), Times(a, a), x, Times(b, b), y);
    GermValues(lib, SumGerm(F, G), F);
    SqrtOf(lib, SumGerm(F, G), HypotGerm(lib, f, g), Times(a, a) + Times(b, b), x + y);
  }

  lemma HypotGermValue(lib: Library, f: Germ, g: Germ, h: real)
    requires lib.Valid() && f(h).Some? && g(h).Some?
    ensures HypotGerm(lib, f, g)(h) == Some(HypotValue(lib, f(h).value, g(h).value))
  {
    hide Times, Ratio, Library.Valid, Sqrt, Library.Root;
    SquareSum(f(h).value, g(h).value);
    SqrtEntry(lib, Times(f(h).value, f(h).value) + Times(g(h).value, g(h).value));
  }

  lemma SqrtEntry(lib: Library, v: real)
    ensures v >= 0.0 ==> Sqrt(lib).value(v) == Some(lib.Root(v))
    ensures v > 0.0 && lib.Root(v) != 0.0 ==> Sqrt(lib).slope(v) == Some(Ratio(0.5, lib.Root(v)))
  {
    hide Ratio, Library.Root;
  }

  lemma HypotSlope(a: real, d: real, b: real, e: real, r: real)
    requires r != 0.0
    ensures Times(Ratio(0.5, r), (Times(a, d) + Times(a, d)) + (Times(b, e) + Times(b, e)))
         == Ratio(Times(d, a) + Times(e, b), r)
  {
    hide Ratio;
    var z, n := Ratio(0.5, r), (a * d + a * d) + (b * e + b * e);
    Over(0.5, r, z);
    assert (z * n) * r == (z * r) * n;
    Over(Times(d, a) + Times(e, b), r, Times(z, n));
  }

  lemma LibraryPower(lib: Library, a: real, b: real)
    requires lib.Valid() && PowValue(lib, a, b).Some?
    ensures lib.pow(a, b) == PowValue(lib, a, b).value
  {
    hide PowValue, Trig.Valid, Library.SmallAngle, Library.ExpSum, Library.SmallExp, Library.LnOfExp, Library.IsRoot,
      Library.IsArcsin, Library.IsArccos, Library.IsArctan, IsSteady, Times;
    assert lib.IsPower(a, b);
  }

  lemma LibraryHypot(lib: Library, a: real, b: real)
    requires lib.Valid()
    ensures lib.hypot(a, b) == HypotValue(lib, a, b)
  {
    hide PowValue, Trig.Valid, Library.SmallAngle, Library.ExpSum, Library.SmallExp, Library.LnOfExp, Library.IsRoot,
      Library.IsArcsin, Library.IsArccos, Library.IsArctan, IsSteady, Times, Library.Root, Library.IsPower;
  }

  lemma Limits(lib: Library)
    requires lib.Valid()
    ensures lib.expLimit == lib.Exponential(lib.limitexp) && lib.euler == lib.Exponential(1.0)
  {
    hide PowValue, Trig.Valid, Library.SmallAngle, Library.ExpSum, Library.SmallExp, Library.LnOfExp, Library.IsRoot,
      Library.IsArcsin, Library.IsArccos, Library.IsArctan, IsSteady, Times, Library.Root, Library.IsPower;
  }
}
