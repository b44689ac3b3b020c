/** First order expansions of functions of one variable near a point. */
module Germs {
  import opened ComplexNumbers
  import opened Options

  // ----- real arithmetic -----

  lemma ProductBound(x: real, y: real, X: real, Y: real)
    requires Abs(x) <= X && Abs(y) <= Y
    ensures Abs(Times(x, y)) <= Times(X, Y)
  {
    assert Abs(x * y) == Abs(x) * Abs(y);
    assert Abs(x) * Abs(y) <= X * Abs(y);
    assert X * Abs(y) <= X * Y;
  }

  lemma Triangle(x: real, y: real, z: real, X: real, Y: real, Z: real)
    requires Abs(x) <= X && Abs(y) <= Y && Abs(z) <= Z
    ensures Abs(x + y + z) <= X + Y + Z
  {}

  // ----- first order expansions -----

  /** v is a + h d up to M h h. */
  ghost predicate Close(v: Option<real>, a: real, d: real, M: real, h: real) {
    v.Some? && Abs(v.value - a - Times(h, d)) <= Times(M, Times(h, h))
  }

  lemma SmallSquare(h: real)
    requires Abs(h) < 1.0
    ensures 0.0 <= Times(h, h) <= Abs(h)
  {
    assert h * h == Abs(h) * Abs(h);
    TimesMonotone(Abs(h), 1.0, Abs(h));
  }

  lemma TimesComm(x: real, y: real)
    ensures Times(x, y) == Times(y, x)
  {}

  /** How far a close value can be from its center. */
  lemma CloseBound(v: real, a: real, d: real, M: real, h: real)
    requires Close(Some(v), a, d, M, h) && M >= 0.0 && Abs(h) < 1.0
    ensures Abs(v - a) <= Times(Abs(h), Abs(d) + M)
  {
    hide Times;
    SmallSquare(h);
    ProductBound(h, d, Abs(h), Abs(d));
    TimesMonotone(Times(h, h), Abs(h), M);
    TimesComm(M, Abs(h));
    TimesAdd(Abs(h), Abs(d), M);
  }

  lemma CloseAdd(v: real, w: real, a: real, b: real, d: real, e: real, M: real, N: real, h: real)
    requires Close(Some(v), a, d, M, h) && Close(Some(w), b, e, N, h)
    ensures Close(Some(v + w), a + b, d + e, M + N, h)
  {
    hide Times;
    TimesAdd(h, d, e);
    TimesAdd(Times(h, h), M, N);
  }

  lemma CloseNeg(v: real, a: real, d: real, M: real, h: real)
    requires Close(Some(v), a, d, M, h)
    ensures Close(Some(-v), -a, -d, M, h)
  {
    assert Times(h, -d) == -Times(h, d);
  }

  function MulBound(a: real, d: real, M: real, b: real, e: real, N: real): real {
    Times(Abs(d), Abs(e)) + Times(M, Abs(b) + Abs(e) + N) + Times(Abs(a) + Abs(d), N)
  }

  lemma MulResidual(a: real, d: real, r: real, b: real, e: real, s: real, h: real)
    ensures Times(a + Times(h, d) + r, b + Times(h, e) + s) - Times(a, b) - Times(h, Times(a, e) + Times(b, d))
         == Times(Times(d, e), Times(h, h)) + Times(r, b + Times(h, e) + s) + Times(a + Times(h, d), s)
  {}

  lemma MulSum(t: real, M: real, G: real, A: real, N: real, q: real)
    ensures Times(t, q) + Times(Times(M, q), G) + Times(A, Times(N, q)) == Times(t + Times(M, G) + Times(A, N), q)
  {}

  lemma CloseMul(v: real, w: real, a: real, b: real, d: real, e: real, M: real, N: real, h: real)
    requires Close(Some(v), a, d, M, h) && Close(Some(w), b, e, N, h) && M >= 0.0 && N >= 0.0 && Abs(h) < 1.0
    ensures Close(Some(Times(v, w)), Times(a, b), Times(a, e) + Times(b, d), MulBound(a, d, M, b, e, N), h)
  {
    hide Times;
    var r, s, q := v - a - Times(h, d), w - b - Times(h, e), Times(h, h);
    var G, A := Abs(b) + Abs(e) + N, Abs(a) + Abs(d);
    MulParts(v, w, a, b, d, e, M, N, h);
    MulResidual(a, d, r, b, e, s, h);
    assert v == a + Times(h, d) + r && w == b + Times(h, e) + s;
    MulSum(Times(Abs(d), Abs(e)), M, G, A, N, q);
    Triangle(Times(Times(d, e), q), Times(r, w), Times(a + Times(h, d), s),
             Times(Times(Abs(d), Abs(e)), q), Times(Times(M, q), G), Times(A, Times(N, q)));
  }

  lemma MulParts(v: real, w: real, a: real, b: real, d: real, e: real, M: real, N: real, h: real)
    requires Close(Some(v), a, d, M, h) && Close(Some(w), b, e, N, h) && M >= 0.0 && N >= 0.0 && Abs(h) < 1.0
    ensures var r, s, q := v - a - Times(h, d), w - b - Times(h, e), Times(h, h);
      && Abs(Times(Times(d, e), q)) <= Times(Times(Abs(d), Abs(e)), q)
      && Abs(Times(r, w)) <= Times(Times(M, q), Abs(b) + Abs(e) + N)
      && Abs(Times(a + Times(h, d), s)) <= Times(Abs(a) + Abs(d), Times(N, q))
  {
    hide Times;
    var r, s, q := v - a - Times(h, d), w - b - Times(h, e), Times(h, h);
    SmallSquare(h);
    ProductBound(d, e, Abs(d), Abs(e));
    ProductBound(Times(d, e), q, Times(Abs(d), Abs(e)), q);
    CloseSize(w, b, e, N, h);
    ProductBound(r, w, Times(M, q), Abs(b) + Abs(e) + N);
    ProductBound(h, d, 1.0, Abs(d));
    TimesUnits(Abs(d));
    ProductBound(a + Times(h, d), s, Abs(a) + Abs(d), Times(N, q));
  }

  lemma CloseSize(w: real, b: real, e: real, N: real, h: real)
    requires Close(Some(w), b, e, N, h) && N >= 0.0 && Abs(h) < 1.0
    ensures Abs(w) <= Abs(b) + Abs(e) + N
  {
    hide Times;
    CloseBound(w, b, e, N, h);
    TimesMonotone(Abs(h), 1.0, Abs(e) + N);
    TimesUnits(Abs(e) + N);
  }

  /** Half the size of a nonzero center is kept near it. */
  lemma CloseHalf(w: real, b: real, e: real, N: real, h: real)
    requires Close(Some(w), b, e, N, h) && N >= 0.0 && Abs(h) < 1.0 && Times(Abs(h), Abs(e) + N) <= Abs(b) / 2.0
    ensures Abs(w) >= Abs(b) / 2.0
  {
    hide Times;
    CloseBound(w, b, e, N, h);
  }

  function InvBound(b: real, e: real, N: real): real
    requires Times(Abs(b), Times(b, b)) != 0.0
  {
    2.0 * (Times(Abs(e), Abs(e)) + Times(Abs(e), N) + Times(Abs(b), N)) / Times(Abs(b), Times(b, b))
  }

  lemma InvResidual(b: real, e: real, s: real, h: real, w: real)
    requires b != 0.0 && Times(b, b) != 0.0 && w != 0.0 && w == b + Times(h, e) + s
    ensures Times(1.0 / w - 1.0 / b - Times(h, -e / Times(b, b)), Times(w, Times(b, b)))
         == Times(Times(e, e), Times(h, h)) + Times(Times(h, e), s) + Times(-b, s)
  {
    var bb := b * b;
    var u, p, z := 1.0 / w, 1.0 / b, -e / bb;
    assert u * w == 1.0 && p * b == 1.0 && z * bb == -e;
    assert u * (w * bb) == bb;
    assert p * (w * bb) == w * b by { assert p * (w * (b * b)) == (p * b) * (w * b); }
    assert (h * z) * (w * bb) == (h * w) * (z * bb);
    assert (u - p - h * z) * (w * bb) == u * (w * bb) - p * (w * bb) - (h * z) * (w * bb);
    assert w * b == b * b + h * e * b + s * b;
    assert (h * w) * e == (h * e) * b + (e * e) * (h * h) + (h * e) * s;
  }

  lemma InvParts(b: real, e: real, s: real, h: real, N: real)
    requires Abs(s) <= Times(N, Times(h, h)) && Abs(h) < 1.0 && N >= 0.0
    ensures Abs(Times(Times(e, e), Times(h, h)) + Times(Times(h, e), s) + Times(-b, s))
         <= Times(Times(Abs(e), Abs(e)) + Times(Abs(e), N) + Times(Abs(b), N), Times(h, h))
  {
    hide Times;
    var q := Times(h, h);
    SmallSquare(h);
    ProductBound(e, e, Abs(e), Abs(e));
    ProductBound(Times(e, e), q, Times(Abs(e), Abs(e)), q);
    ProductBound(h, e, 1.0, Abs(e));
    TimesUnits(Abs(e));
    ProductBound(Times(h, e), s, Abs(e), Times(N, q));
    ProductBound(-b, s, Abs(b), Times(N, q));
    InvSum(Times(Abs(e), Abs(e)), Abs(e), Abs(b), N, q);
    Triangle(Times(Times(e, e), q), Times(Times(h, e), s), Times(-b, s),
             Times(Times(Abs(e), Abs(e)), q), Times(Abs(e), Times(N, q)), Times(Abs(b), Times(N, q)));
  }

  lemma InvSum(t: real, e: real, b: real, N: real, q: real)
    ensures Times(t, q) + Times(e, Times(N, q)) + Times(b, Times(N, q)) == Times(t + Times(e, N) + Times(b, N), q)
  {}

  /** |y| |w bb| <= K q and |w| >= |b| / 2 bound y. */
  lemma DivideBound(y: real, w: real, b: real, K: real, q: real)
    requires b != 0.0 && Abs(w) >= Abs(b) / 2.0 && K >= 0.0 && q >= 0.0
    requires Abs(Times(y, Times(w, Times(b, b)))) <= Times(K, q)
    ensures Times(Abs(b), Times(b, b)) > 0.0 && Abs(y) <= Times(2.0 * K / Times(Abs(b), Times(b, b)), q)
  {
    hide Times;
    Squares(b, 0.0, 0.0);
    var bb := Times(b, b);
    var c, t := Times(Abs(b), bb), Times(w, bb);
    AbsTimes(w, bb);
    AbsTimes(y, t);
    TimesMonotone(Abs(b) / 2.0, Abs(w), bb);
    Halves(Abs(b), bb);
    TimesMonotone(c / 2.0, Abs(t), Abs(y));
    Quotient(Abs(y), c, K, q);
  }

  lemma AbsTimes(x: real, y: real)
    ensures Abs(Times(x, y)) == Times(Abs(x), Abs(y))
  {}

  lemma Halves(x: real, y: real)
    ensures Times(x / 2.0, y) == Times(x, y) / 2.0
  {}

  lemma Quotient(y: real, c: real, K: real, q: real)
    requires c > 0.0 && Times(y, c / 2.0) <= Times(K, q)
    ensures y <= Times(2.0 * K / c, q)
  {
    var z := 2.0 * K / c;
    assert z * c == 2.0 * K;
    assert (z * q) * c == (z * c) * q;
    assert (y - z * q) * c <= 0.0;
  }

  lemma CloseInv(w: real, b: real, e: real, N: real, h: real)
    requires Close(Some(w), b, e, N, h) && N >= 0.0 && Abs(h) < 1.0 && b != 0.0
    requires Times(Abs(h), Abs(e) + N) <= Abs(b) / 2.0
    ensures w != 0.0 && Times(b, b) != 0.0 && Times(Abs(b), Times(b, b)) != 0.0
    ensures Close(Some(1.0 / w), 1.0 / b, -e / Times(b, b), InvBound(b, e, N), h)
  {
    hide Times;
    CloseHalf(w, b, e, N, h);
    assert w != 0.0;
    var s, q := w - b - Times(h, e), Times(h, h);
    SmallSquare(h);
    Squares(b, e, N);
    var y := 1.0 / w - 1.0 / b - Times(h, -e / Times(b, b));
    InvResidual(b, e, s, h, w);
    InvParts(b, e, s, h, N);
    DivideBound(y, w, b, Times(Abs(e), Abs(e)) + Times(Abs(e), N) + Times(Abs(b), N), q);
  }

  lemma Squares(b: real, e: real, N: real)
    requires b != 0.0 && N >= 0.0
    ensures Times(b, b) > 0.0 && Times(Abs(b), Times(b, b)) > 0.0
    ensures Times(Abs(e), Abs(e)) + Times(Abs(e), N) + Times(Abs(b), N) >= 0.0
  {
    hide Times;
    AbsTimes(b, b);
    TimesPositive(Abs(b), Abs(b));
    SquareAbs(b);
    TimesPositive(Abs(b), Times(b, b));
    ProductBound(0.0, 0.0, Abs(e), Abs(e));
    ProductBound(0.0, 0.0, Abs(e), N);
    ProductBound(0.0, 0.0, Abs(b), N);
  }

  lemma SquareAbs(b: real)
    ensures Times(b, b) == Times(Abs(b), Abs(b))
  {}

  lemma BoundsPositive(a: real, d: real, M: real, b: real, e: real, N: real)
    requires M >= 0.0 && N >= 0.0
    ensures MulBound(a, d, M, b, e, N) >= 0.0
    ensures b != 0.0 ==> Times(Abs(b), Times(b, b)) != 0.0 && InvBound(b, e, N) >= 0.0
  {
    hide Times;
    ProductBound(0.0, 0.0, Abs(d), Abs(e));
    ProductBound(0.0, 0.0, M, Abs(b) + Abs(e) + N);
    ProductBound(0.0, 0.0, Abs(a) + Abs(d), N);
    if b != 0.0 { Squares(b, e, N); }
  }

  lemma CloseOver(v: real, w: real, a: real, b: real, d: real, e: real, M: real, N: real, h: real)
    requires Close(Some(v), a, d, M, h) && Close(Some(w), b, e, N, h) && M >= 0.0 && N >= 0.0 && Abs(h) < 1.0
    requires b != 0.0 && Times(Abs(h), Abs(e) + N) <= Abs(b) / 2.0
    ensures w != 0.0 && Times(b, b) != 0.0 && Times(Abs(b), Times(b, b)) != 0.0
    ensures Close(Some(Ratio(v, w)), Ratio(a, b), Ratio(Times(b, d) - Times(a, e), Times(b, b)),
                  OverBound(a, d, M, b, e, N), h)
  {
    hide Times, Ratio;
    CloseInv(w, b, e, N, h);
    BoundsPositive(a, d, M, b, e, N);
    CloseMul(v, 1.0 / w, a, 1.0 / b, d, -e / Times(b, b), M, InvBound(b, e, N), h);
    QuotientValues(v, w, a, b, d, e);
  }

  function OverBound(a: real, d: real, M: real, b: real, e: real, N: real): real
    requires b != 0.0 && Times(b, b) != 0.0 && Times(Abs(b), Times(b, b)) != 0.0
  {
    MulBound(a, d, M, 1.0 / b, -e / Times(b, b), InvBound(b, e, N))
  }

  lemma QuotientValues(v: real, w: real, a: real, b: real, d: real, e: real)
    requires w != 0.0 && b != 0.0 && Times(b, b) != 0.0
    ensures Times(v, 1.0 / w) == Ratio(v, w) && Times(a, 1.0 / b) == Ratio(a, b)
    ensures Times(a, -e / Times(b, b)) + Times(1.0 / b, d) == Ratio(Times(b, d) - Times(a, e), Times(b, b))
  {
    var bb := b * b;
    var z, p := -e / bb, 1.0 / b;
    assert z * bb == -e && p * bb == b by { assert p * b == 1.0; assert p * (b * b) == (p * b) * b; }
    assert (a * z + p * d) * bb == a * (z * bb) + (p * bb) * d;
    Divided(a * z + p * d, bb, b * d - a * e);
  }

  lemma Divided(x: real, c: real, y: real)
    requires c != 0.0 && x * c == y
    ensures x == y / c
  {}

  /** A step that keeps half of a nonzero denominator. */
  function SafeStep(b: real, e: real, N: real): real
    requires N >= 0.0
  {
    Abs(b) / (2.0 * (Abs(e) + N + 1.0))
  }

  lemma SafeSteps(b: real, e: real, N: real, h: real)
    requires N >= 0.0 && b != 0.0 && Abs(h) < SafeStep(b, e, N)
    ensures Times(Abs(h), Abs(e) + N) <= Abs(b) / 2.0
  {
    var c, s := Abs(e) + N + 1.0, SafeStep(b, e, N);
    assert s * (2.0 * c) == Abs(b);
    assert Abs(h) * c <= s * c;
    assert Abs(h) * (c - 1.0) <= Abs(h) * c;
  }

  lemma SafePositive(b: real, e: real, N: real)
    requires N >= 0.0 && b != 0.0
    ensures SafeStep(b, e, N) > 0.0
  {}

  lemma CloseValue(o: Option<real>, a: real, d: real, M: real, h: real) returns (v: real)
    requires Close(o, a, d, M, h)
    ensures o == Some(v)
  {
    v := o.value;
  }

  lemma OverBoundPositive(a: real, d: real, M: real, b: real, e: real, N: real)
    requires b != 0.0 && Times(b, b) != 0.0 && Times(Abs(b), Times(b, b)) != 0.0 && M >= 0.0 && N >= 0.0
    ensures OverBound(a, d, M, b, e, N) >= 0.0
  {
    hide Times, MulBound, InvBound;
    BoundsPositive(a, d, M, b, e, N);
    BoundsPositive(a, d, M, 1.0 / b, -e / Times(b, b), InvBound(b, e, N));
  }

  function Min(x: real, y: real): real { if x < y then x else y }

  // ----- tangents -----

  /** The values of a function near a point, by the distance from it; absent where the
      function is not defined. */
  type Germ = real -> Option<real>

  ghost predicate IsTangent(g: Germ, a: real, d: real, M: real, step: real) {
    M >= 0.0 && 0.0 < step <= 1.0 && forall h {:trigger g(h)} :: Abs(h) < step ==> Close(g(h), a, d, M, h)
  }

  /** g(h) is a + h d up to M h h, for some M and all small h. */
  ghost predicate HasTangent(g: Germ, a: real, d: real) {
    exists M, step :: IsTangent(g, a, d, M, step)
  }

  lemma TangentAt(g: Germ, a: real, d: real, M: real, step: real, h: real) returns (v: real)
    requires IsTangent(g, a, d, M, step) && Abs(h) < step
    ensures g(h) == Some(v) && Close(Some(v), a, d, M, h) && Abs(h) < 1.0
  {
    hide Close;
    assert Close(g(h), a, d, M, h);
    v := CloseValue(g(h), a, d, M, h);
  }

  /** The value at the point itself. */
  lemma TangentValue(g: Germ, a: real, d: real)
    requires HasTangent(g, a, d)
    ensures g(0.0) == Some(a)
  {
    var M, step :| IsTangent(g, a, d, M, step);
    var v := TangentAt(g, a, d, M, step, 0.0);
    TimesUnits(d);
    TimesUnits(0.0);
    TimesUnits(M);
  }

  /** Equal germs have equal tangents. */
  lemma TangentLocal(f: Germ, g: Germ, a: real, d: real, r: real)
    requires HasTangent(f, a, d) && r > 0.0 && forall h {:trigger f(h)} {:trigger g(h)} :: Abs(h) < r ==> f(h) == g(h)
    ensures HasTangent(g, a, d)
  {
    hide Close, Abs;
    var M, step :| IsTangent(f, a, d, M, step);
    assert IsTangent(g, a, d, M, Min(step, r));
  }

  lemma TangentConst(g: Germ, a: real)
    requires forall h :: g(h) == Some(a)
    ensures HasTangent(g, a, 0.0)
  {
    forall h | Abs(h) < 1.0 ensures Close(g(h), a, 0.0, 0.0, h) {
      TimesUnits(h);
      TimesUnits(Times(h, h));
    }
    assert IsTangent(g, a, 0.0, 0.0, 1.0);
  }

  lemma TangentLine(g: Germ, a: real)
    requires forall h :: g(h) == Some(a + h)
    ensures HasTangent(g, a, 1.0)
  {
    forall h | Abs(h) < 1.0 ensures Close(g(h), a, 1.0, 0.0, h) {
      TimesUnits(h);
      TimesUnits(Times(h, h));
    }
    assert IsTangent(g, a, 1.0, 0.0, 1.0);
  }

  lemma TangentNeg(f: Germ, k: Germ, a: real, d: real)
    requires HasTangent(f, a, d) && forall h :: f(h).Some? ==> k(h) == Some(-f(h).value)
    ensures HasTangent(k, -a, -d)
  {
    hide Close, HasTangent;
    var M, step := TangentBounds(f, a, d);
    forall h | Abs(h) < step ensures Close(k(h), -a, -d, M, h) {
      var v := TangentAt(f, a, d, M, step, h);
      CloseNeg(v, a, d, M, h);
    }
    TangentBy(k, -a, -d, M, step);
  }

  lemma TangentBounds(f: Germ, a: real, d: real) returns (M: real, step: real)
    requires HasTangent(f, a, d)
    ensures IsTangent(f, a, d, M, step)
  {
    M, step :| IsTangent(f, a, d, M, step);
  }

  lemma TangentBy(f: Germ, a: real, d: real, M: real, step: real)
    requires IsTangent(f, a, d, M, step)
    ensures HasTangent(f, a, d)
  {}

  lemma TangentAdd(f: Germ, g: Germ, k: Germ, a: real, d: real, b: real, e: real)
    requires HasTangent(f, a, d) && HasTangent(g, b, e)
    requires forall h :: f(h).Some? && g(h).Some? ==> k(h) == Some(f(h).value + g(h).value)
    ensures HasTangent(k, a + b, d + e)
  {
    hide Close, HasTangent;
    var M, s := TangentBounds(f, a, d);
    var N, t := TangentBounds(g, b, e);
    forall h | Abs(h) < Min(s, t) ensures Close(k(h), a + b, d + e, M + N, h) {
      var v := TangentAt(f, a, d, M, s, h);
      var w := TangentAt(g, b, e, N, t, h);
      CloseAdd(v, w, a, b, d, e, M, N, h);
    }
    TangentBy(k, a + b, d + e, M + N, Min(s, t));
  }

  lemma TangentSub(f: Germ, g: Germ, k: Germ, a: real, d: real, b: real, e: real)
    requires HasTangent(f, a, d) && HasTangent(g, b, e)
    requires forall h :: f(h).Some? && g(h).Some? ==> k(h) == Some(f(h).value - g(h).value)
    ensures HasTangent(k, a - b, d - e)
  {
    hide HasTangent;
    var n: Germ := h => match g(h) case Some(w) => Some(-w) case None => None;
    TangentNeg(g, n, b, e);
    TangentAdd(f, n, k, a, d, -b, -e);
    assert a + -b == a - b && d + -e == d - e;
  }

  lemma TangentMul(f: Germ, g: Germ, k: Germ, a: real, d: real, b: real, e: real)
    requires HasTangent(f, a, d) && HasTangent(g, b, e)
    requires forall h :: f(h).Some? && g(h).Some? ==> k(h) == Some(Times(f(h).value, g(h).value))
    ensures HasTangent(k, Times(a, b), Times(a, e) + Times(b, d))
  {
    hide Close, HasTangent, MulBound, Times;
    var M, s := TangentBounds(f, a, d);
    var N, t := TangentBounds(g, b, e);
    BoundsPositive(a, d, M, b, e, N);
    forall h | Abs(h) < Min(s, t)
      ensures Close(k(h), Times(a, b), Times(a, e) + Times(b, d), MulBound(a, d, M, b, e, N), h)
    {
      var v := TangentAt(f, a, d, M, s, h);
      var w := TangentAt(g, b, e, N, t, h);
      CloseMul(v, w, a, b, d, e, M, N, h);
    }
    TangentBy(k, Times(a, b), Times(a, e) + Times(b, d), MulBound(a, d, M, b, e, N), Min(s, t));
  }

  /** A constant multiple. */
  lemma TangentScale(c: real, g: Germ, k: Germ, b: real, e: real)
    requires HasTangent(g, b, e) && forall h :: g(h).Some? ==> k(h) == Some(Times(c, g(h).value))
    ensures HasTangent(k, Times(c, b), Times(c, e))
  {
    hide HasTangent, Times;
    var f: Germ := h => Some(c);
    TangentConst(f, c);
    TangentMul(f, g, k, c, 0.0, b, e);
    TimesUnits(b);
  }

  lemma TangentOver(f: Germ, g: Germ, k: Germ, a: real, d: real, b: real, e: real)
    requires HasTangent(f, a, d) && HasTangent(g, b, e) && b != 0.0
    requires forall h :: f(h).Some? && g(h).Some? && g(h).value != 0.0 ==> k(h) == Some(Ratio(f(h).value, g(h).value))
    ensures Times(b, b) != 0.0 && HasTangent(k, Ratio(a, b), Ratio(Times(b, d) - Times(a, e), Times(b, b)))
  {
    hide Close, HasTangent, MulBound, InvBound, SafeStep, Times, Ratio, OverBound, Abs;
    var M, s := TangentBounds(f, a, d);
    var N, t := TangentBounds(g, b, e);
    Squares(b, e, N);
    SafePositive(b, e, N);
    OverBoundPositive(a, d, M, b, e, N);
    var K, step := OverBound(a, d, M, b, e, N), Min(Min(s, t), SafeStep(b, e, N));
    forall h | Abs(h) < step
      ensures Close(k(h), Ratio(a, b), Ratio(Times(b, d) - Times(a, e), Times(b, b)), K, h)
    {
      var v := TangentAt(f, a, d, M, s, h);
      var w := TangentAt(g, b, e, N, t, h);
      SafeSteps(b, e, N, h);
      CloseOver(v, w, a, b, d, e, M, N, h);
    }
    TangentBy(k, Ratio(a, b), Ratio(Times(b, d) - Times(a, e), Times(b, b)), K, step);
  }

  // ----- chain rule -----

  /** r s + t for the remainders r of the inner and t of the outer function. */
  lemma ChainResidual(d: real, s: real, r: real, t: real, h: real)
    ensures Times(Times(h, d) + r, s) + t - Times(h, Times(s, d)) == Times(r, s) + t
  {}

  lemma SquareBound(k: real, h: real, L: real)
    requires Abs(k) <= Times(Abs(h), L)
    ensures Times(k, k) <= Times(Times(L, L), Times(h, h))
  {
    hide Times;
    ProductBound(k, k, Times(Abs(h), L), Times(Abs(h), L));
    AbsTimes(k, k);
    SquareProduct(h, L);
    SquareAbs(h);
    Signs(k);
  }

  lemma Signs(k: real)
    ensures Times(k, k) >= 0.0
  {}

  lemma SquareProduct(h: real, L: real)
    ensures Times(Times(Abs(h), L), Times(Abs(h), L)) == Times(Times(L, L), Times(Abs(h), Abs(h)))
  {
    var x := Abs(h);
    assert (x * L) * (x * L) == (L * L) * (x * x);
  }

  /** The remainder of the outer function, at a distance k that is at most L h. */
  lemma OuterRemainder(t: real, k: real, h: real, N: real, L: real)
    requires Abs(t) <= Times(N, Times(k, k)) && Abs(k) <= Times(Abs(h), L) && N >= 0.0
    ensures Abs(t) <= Times(Times(N, Times(L, L)), Times(h, h))
  {
    hide Times, Abs;
    SquareBound(k, h, L);
    TimesMonotone(Times(k, k), Times(Times(L, L), Times(h, h)), N);
    TimesAssoc(N, Times(L, L), Times(h, h));
  }

  lemma TimesAssoc(x: real, y: real, z: real)
    ensures Times(x, Times(y, z)) == Times(Times(x, y), z)
  {}

  lemma CloseChain(v: real, w: real, a: real, d: real, M: real, b: real, s: real, N: real, h: real)
    requires Close(Some(v), a, d, M, h) && M >= 0.0 && N >= 0.0 && Abs(h) < 1.0
    requires Close(Some(w), b, s, N, v - a)
    ensures var K := Times(M, Abs(s)) + Times(N, Times(Abs(d) + M, Abs(d) + M));
      K >= 0.0 && Close(Some(w), b, Times(s, d), K, h)
  {
    hide Times;
    var k, L, q := v - a, Abs(d) + M, Times(h, h);
    var r, t := k - Times(h, d), w - b - Times(k, s);
    CloseBound(v, a, d, M, h);
    OuterRemainder(t, k, h, N, L);
    Signs(h);
    ProductBound(r, s, Times(M, q), Abs(s));
    ChainResidual(d, s, r, t, h);
    assert k == Times(h, d) + r;
    ChainSum(M, Abs(s), Times(N, Times(L, L)), q);
    TimesNonNegative(M, Abs(s));
    TimesNonNegative(L, L);
    TimesNonNegative(N, Times(L, L));
  }

  lemma ChainSum(M: real, s: real, K: real, q: real)
    ensures Times(Times(M, q), s) + Times(K, q) == Times(Times(M, s) + K, q)
  {}

  /** A step within which a tangent moves less than r. */
  lemma TangentNearby(g: Germ, a: real, d: real, r: real) returns (step: real)
    requires HasTangent(g, a, d) && r > 0.0
    ensures 0.0 < step <= 1.0 && forall h {:trigger g(h)} :: Abs(h) < step ==> g(h).Some? && Abs(g(h).value - a) < r
  {
    hide Close, HasTangent;
    var M, s := TangentBounds(g, a, d);
    var L := Abs(d) + M + 1.0;
    step := Min(s, r / L);
    NearbyStep(r, L);
    forall h | Abs(h) < step ensures g(h).Some? && Abs(g(h).value - a) < r {
      var v := TangentAt(g, a, d, M, s, h);
      CloseBound(v, a, d, M, h);
      NearbyBound(Abs(h), r, L);
    }
  }

  lemma NearbyStep(r: real, L: real)
    requires r > 0.0 && L >= 1.0
    ensures r / L > 0.0
  {}

  lemma NearbyBound(k: real, r: real, L: real)
    requires 0.0 <= k && L >= 1.0 && r > 0.0 && k < r / L
    ensures Times(k, L - 1.0) < r
  {
    var s := r / L;
    assert s * L == r;
    assert k * (L - 1.0) <= k * L;
    assert k * L < s * L;
  }

  /** The chain rule: g is the outer function near the value a of the inner function f. */
  lemma TangentChain(f: Germ, g: Germ, k: Germ, a: real, d: real, b: real, s: real)
    requires HasTangent(f, a, d) && HasTangent(g, b, s)
    requires forall h :: f(h).Some? ==> k(h) == g(f(h).value - a)
    ensures HasTangent(k, b, Times(s, d))
  {
    hide Close, HasTangent, Times;
    var M, sf := TangentBounds(f, a, d);
    var N, sg := TangentBounds(g, b, s);
    var near := TangentNearby(f, a, d, sg);
    var K, step := Times(M, Abs(s)) + Times(N, Times(Abs(d) + M, Abs(d) + M)), Min(sf, near);
    forall h | Abs(h) < step ensures K >= 0.0 && Close(k(h), b, Times(s, d), K, h) {
      var v := TangentAt(f, a, d, M, sf, h);
      var w := TangentAt(g, b, s, N, sg, v - a);
      CloseChain(v, w, a, d, M, b, s, N, h);
    }
    assert Abs(0.0) < step;
    TangentBy(k, b, Times(s, d), K, step);
  }

  // ----- inverse functions -----

  /** f(a + k) == v + h with k at most L h: then k is h / s up to a multiple of h h. */
  lemma CloseInverse(k: real, a: real, v: real, s: real, N: real, L: real, h: real)
    requires Close(Some(v + h), v, s, N, k) && N >= 0.0 && s != 0.0 && Abs(k) <= Times(Abs(h), L)
    ensures var K := Times(N, Times(L, L)) / Abs(s);
      K >= 0.0 && Close(Some(a + k), a, Ratio(1.0, s), K, h)
  {
    hide Times, Ratio;
    var t := h - Times(k, s);
    OuterRemainder(t, k, h, N, L);
    Signs(L);
    TimesNonNegative(N, Times(L, L));
    InverseBound(k, s, Times(N, Times(L, L)), h);
  }

  lemma InverseBound(k: real, s: real, K: real, h: real)
    requires s != 0.0 && K >= 0.0 && Abs(h - Times(k, s)) <= Times(K, Times(h, h))
    ensures K / Abs(s) >= 0.0 && Abs(k - Times(h, Ratio(1.0, s))) <= Times(K / Abs(s), Times(h, h))
  {
    hide Times, Ratio;
    var y := k - Times(h, Ratio(1.0, s));
    AbsTimes(y, s);
    InverseResidual(k, s, h);
    DividedBound(Abs(y), Abs(s), K, Times(h, h));
  }

  lemma InverseResidual(k: real, s: real, h: real)
    requires s != 0.0
    ensures Times(k - Times(h, Ratio(1.0, s)), s) == Times(k, s) - h
  {
    var p := 1.0 / s;
    assert p * s == 1.0;
    assert (k - h * p) * s == k * s - h * (p * s);
  }

  lemma DividedBound(y: real, c: real, K: real, q: real)
    requires c > 0.0 && K >= 0.0 && Times(y, c) <= Times(K, q)
    ensures K / c >= 0.0 && y <= Times(K / c, q)
  {
    var z := K / c;
    assert z * c == K;
    assert (z * q) * c == K * q;
    assert (y - z * q) * c <= 0.0;
  }

  function InverseFactor(s: real, N: real, L: real): real
    requires s != 0.0
  {
    Times(N, Times(L, L)) / Abs(s)
  }

  lemma InverseAt(f: Germ, w: Option<real>, a: real, v: real, s: real, N: real, sf: real, L: real, h: real)
    requires IsTangent(f, v, s, N, sf) && s != 0.0 && L >= 0.0 && Abs(h) < sf / (L + 1.0)
    requires w.Some? && Abs(w.value - a) <= Times(Abs(h), L) && f(w.value - a) == Some(v + h)
    ensures InverseFactor(s, N, L) >= 0.0 && Close(w, a, Ratio(1.0, s), InverseFactor(s, N, L), h)
  {
    hide Close, Times, Ratio;
    var k := w.value - a;
    NearbyBound(Abs(h), sf, L + 1.0);
    assert (L + 1.0) - 1.0 == L;
    var y := TangentAt(f, v, s, N, sf, k);
    CloseInverse(k, a, v, s, N, L, h);
    assert a + k == w.value;
  }

  /** The inverse g of f, which does not move by more than a multiple of h. */
  lemma TangentInverse(f: Germ, g: Germ, a: real, v: real, s: real, L: real, r: real)
    requires HasTangent(f, v, s) && s != 0.0 && r > 0.0 && L >= 0.0
    requires forall h {:trigger g(h)} :: Abs(h) < r ==>
      g(h).Some? && Abs(g(h).value - a) <= Times(Abs(h), L) && f(g(h).value - a) == Some(v + h)
    ensures HasTangent(g, a, Ratio(1.0, s))
  {
    hide Close, HasTangent, Times, Ratio, InverseFactor;
    var N, sf := TangentBounds(f, v, s);
    NearbyStep(sf, L + 1.0);
    var K, step := InverseFactor(s, N, L), Min(Min(r, 1.0), sf / (L + 1.0));
    assert 0.0 < step <= 1.0 && step <= r && step <= sf / (L + 1.0);
    hide Min;
    forall h | Abs(h) < step ensures K >= 0.0 && Close(g(h), a, Ratio(1.0, s), K, h) {
      InverseAt(f, g(h), a, v, s, N, sf, L, h);
    }
    assert Abs(0.0) < step;
    TangentBy(g, a, Ratio(1.0, s), K, step);
  }

  // ----- when there is no tangent -----

  lemma SmallGap(d: real, K: real, h: real)
    requires K >= 0.0 && 0.0 < h && Times(h, Abs(d)) <= Times(K, Times(h, h))
    ensures Abs(d) <= Times(K, h)
  {
    assert h * (Abs(d) - K * h) <= 0.0;
  }

  /** There is at most one tangent. */
  lemma TangentUnique(g: Germ, a: real, d: real, b: real, e: real)
    requires HasTangent(g, a, d) && HasTangent(g, b, e)
    ensures a == b && d == e
  {
    hide HasTangent;
    TangentValue(g, a, d);
    TangentValue(g, b, e);
    var M, s := TangentBounds(g, a, d);
    var N, t := TangentBounds(g, a, e);
    if d != e {
      var K, gap := M + N, Abs(d - e);
      var h := Min(Min(s, t) / 2.0, gap / (2.0 * (K + 1.0)));
      GapStep(gap, K);
      var v := TangentAt(g, a, d, M, s, h);
      var w := TangentAt(g, a, e, N, t, h);
      GapBound(v, a, d, e, M, N, h);
      SmallGap(d - e, K, h);
      GapClosed(gap, K, h);
      assert false;
    }
  }

  lemma GapStep(gap: real, K: real)
    requires gap > 0.0 && K >= 0.0
    ensures gap / (2.0 * (K + 1.0)) > 0.0
  {}

  lemma GapClosed(gap: real, K: real, h: real)
    requires gap > 0.0 && K >= 0.0 && 0.0 < h <= gap / (2.0 * (K + 1.0))
    ensures Times(K, h) < gap
  {
    var s := gap / (2.0 * (K + 1.0));
    assert s * (2.0 * (K + 1.0)) == gap;
    assert K * h <= (K + 1.0) * h;
    assert (K + 1.0) * h <= (K + 1.0) * s;
    assert (K + 1.0) * s == gap / 2.0;
  }

  lemma GapBound(v: real, a: real, d: real, e: real, M: real, N: real, h: real)
    requires Close(Some(v), a, d, M, h) && Close(Some(v), a, e, N, h) && h > 0.0
    ensures Times(h, Abs(d - e)) <= Times(M + N, Times(h, h))
  {
    var q := Times(h, h);
    assert Times(M + N, q) == Times(M, q) + Times(N, q);
    assert Times(h, d) - Times(h, e) == Times(h, d - e);
    assert Abs(Times(h, d - e)) == Times(h, Abs(d - e));
  }

  /** A function that is undefined at points as close as one likes has no tangent. */
  lemma UndefinedNear(g: Germ, a: real, d: real, sign: real)
    requires sign == 1.0 || sign == -1.0
    requires forall h :: 0.0 < h < 1.0 ==> g(Times(sign, h)).None?
    ensures !HasTangent(g, a, d)
  {
    if HasTangent(g, a, d) {
      var M, step := TangentBounds(g, a, d);
      var h := step / 2.0;
      assert Abs(Times(sign, h)) == h && g(Times(sign, h)).None?;
      var v := TangentAt(g, a, d, M, step, Times(sign, h));
    }
  }
}
