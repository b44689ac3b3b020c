/** Symbolic derivatives are the derivatives of the expressions. */
module Tangents {
  import opened ComplexNumbers
  import opened Options
  import opened Equations
  import opened Differentiation
  import opened MathLibrary
  import opened Germs
  import opened RealValues
  import opened RuleValues

  /** The environment with variable x moved by h. */
  function Shift(env: string -> real, x: string, h: real): string -> real {
    y => if y == x then env(x) + h else env(y)
  }

  /** The expression near env, by the distance of x. */
  function EvalGerm(lib: Library, e: Node, env: string -> real, x: string): Germ {
    h => Eval(lib, e, Shift(env, x, h))
  }

  /** The symbolic derivative has a value at env, which is the derivative there. */
  ghost predicate IsDerivative(lib: Library, e: Node, env: string -> real, x: string) {
    && Eval(lib, e, env).Some? && Eval(lib, Derive(lib, e, x), env).Some?
    && HasTangent(EvalGerm(lib, e, env, x), Eval(lib, e, env).value, Eval(lib, Derive(lib, e, x), env).value)
  }

  // ----- where expressions are regular -----

  /** A power that the rule differentiates: with a positive base (named e only if it is the base
      of the natural logarithm), or with an integer exponent that does not depend on x. */
  ghost predicate RegularPower(lib: Library, f0: Node, f1: Node, env: string -> real, x: string, a: real, b: real) {
    var d1 := Derive(lib, f1, x);
    || (a > 0.0 && (f0 == Reference("e") && !IsZero(d1) ==> env("e") == lib.euler))
    || (IsInteger(b) && IsZero(d1) && !Mentions(f1, x) && (a != 0.0 || b >= 1.0 || IsZero(f1)))
  }

  ghost predicate RegularPair(lib: Library, op: string, f0: Node, f1: Node, env: string -> real, x: string, a: real,
                              b: real) {
    match op
    case "/" => b != 0.0
    case "^" => RegularPower(lib, f0, f1, env, x, a, b)
    case "hypot" => a != 0.0 || b != 0.0
    case _ => true
  }

  ghost predicate RegularAt(lib: Library, op: string, a: real) {
    FunctionOf(lib, op).slope(a).Some? && RuleHolds(op, a)
  }

  /** Every function of the expression has a derivative at its argument, and its rule holds. */
  ghost predicate Regular(lib: Library, e: Node, env: string -> real, x: string) {
    match e
    case Const(_) => true
    case Reference(_) => true
    case Application(op, args) =>
      if |args| == 1 then
        && op in UNARY && Regular(lib, args[0], env, x)
        && var v := Eval(lib, args[0], env);
           v.Some? && RegularAt(lib, op, v.value)
      else if |args| == 2 then
        && op in BINARY && Regular(lib, args[0], env, x) && Regular(lib, args[1], env, x)
        && var v, w := Eval(lib, args[0], env), Eval(lib, args[1], env);
           v.Some? && w.Some? && RegularPair(lib, op, args[0], args[1], env, x, v.value, w.value)
      else
        && |args| == 3 && op == "?:" && RegularCondition(lib, args[0], env, x)
        && var c := Truth(lib, args[0], env);
           c.Some? && if c.value then Regular(lib, args[1], env, x) else Regular(lib, args[2], env, x)
  }

  /** No comparison of the condition is at its limit. */
  ghost predicate RegularCondition(lib: Library, e: Node, env: string -> real, x: string) {
    && e.Application?
    && if |e.args| == 2 && e.n in COMPARISONS then
         && Regular(lib, e.args[0], env, x) && Regular(lib, e.args[1], env, x)
         && var v, w := Eval(lib, e.args[0], env), Eval(lib, e.args[1], env);
            v.Some? && w.Some? && v.value != w.value
       else
         && 1 <= |e.args| <= 2
         && forall i :: 0 <= i < |e.args| ==> RegularCondition(lib, e.args[i], env, x)
  }

  // ----- expressions near a point -----

  lemma {:induction false} GermUnary(lib: Library, op: string, f0: Node, env: string -> real, x: string)
    ensures var f, k := EvalGerm(lib, f0, env, x), EvalGerm(lib, App1(op, f0), env, x);
      forall h {:trigger k(h)} :: f(h).Some? ==> k(h) == FunctionOf(lib, op).value(f(h).value)
  {
    hide FunctionOf, Eval;
    var f, k := EvalGerm(lib, f0, env, x), EvalGerm(lib, App1(op, f0), env, x);
    forall h | f(h).Some? ensures k(h) == FunctionOf(lib, op).value(f(h).value) {
      EvalUnary(lib, op, f0, Shift(env, x, h), f(h).value);
    }
  }

  lemma {:induction false} ShiftNothing(env: string -> real, x: string, n: string)
    ensures Shift(env, x, 0.0)(n) == env(n)
  {}

  lemma {:induction false} DeriveUnary(lib: Library, op: string, f0: Node, env: string -> real, x: string)
    requires lib.Valid() && IsDerivative(lib, f0, env, x) && op in UNARY && RegularAt(lib, op, Eval(lib, f0, env).value)
    ensures IsDerivative(lib, App1(op, f0), env, x)
  {
    hide FunctionOf, Eval, Library.Valid, HasTangent, EvalGerm, Times, UnaryRule, IsExact, Derive;
    var d0 := Derive(lib, f0, x);
    var a, d := Eval(lib, f0, env).value, Eval(lib, d0, env).value;
    TableExact(lib, op, a);
    GermUnary(lib, op, f0, env, x);
    Composite(EvalGerm(lib, f0, env, x), FunctionOf(lib, op), EvalGerm(lib, App1(op, f0), env, x), a, d);
    EvalUnary(lib, op, f0, env, a);
    UnaryRuleIs(lib, op, f0, d0, env, a, d);
    DeriveOne(lib, op, f0, x);
    TimesComm(d, FunctionOf(lib, op).slope(a).value);
  }

  lemma {:induction false} DeriveOne(lib: Library, op: string, f0: Node, x: string)
    requires op in UNARY
    ensures Derive(lib, App1(op, f0), x) == UnaryRule(lib, op, f0, Derive(lib, f0, x))
  {
    hide UnaryRule;
  }

  lemma {:induction false} DeriveTwo(lib: Library, op: string, f0: Node, f1: Node, x: string)
    requires op in BINARY
    ensures Derive(lib, App2(op, f0, f1), x)
         == BinaryRule(lib, op, f0, f1, Derive(lib, f0, x), Derive(lib, f1, x))
    ensures (f0.Const? ==> Derive(lib, f0, x) == Con(0.0)) && (f1.Const? ==> Derive(lib, f1, x) == Con(0.0))
  {
    hide BinaryRule, UnaryRule;
  }

  lemma {:induction false} GermBinary(lib: Library, f0: Node, f1: Node, env: string -> real, x: string)
    ensures var f, g := EvalGerm(lib, f0, env, x), EvalGerm(lib, f1, env, x);
      && (var k := EvalGerm(lib, App2("+", f0, f1), env, x);
          forall h {:trigger k(h)} :: f(h).Some? && g(h).Some? ==> k(h) == Some(f(h).value + g(h).value))
      && (var k := EvalGerm(lib, App2("-", f0, f1), env, x);
          forall h {:trigger k(h)} :: f(h).Some? && g(h).Some? ==> k(h) == Some(f(h).value - g(h).value))
      && (var k := EvalGerm(lib, App2("*", f0, f1), env, x);
          forall h {:trigger k(h)} :: f(h).Some? && g(h).Some? ==> k(h) == Some(Times(f(h).value, g(h).value)))
      && (var k := EvalGerm(lib, App2("/", f0, f1), env, x);
          forall h {:trigger k(h)} :: f(h).Some? && g(h).Some? && g(h).value != 0.0 ==>
            k(h) == Some(Ratio(f(h).value, g(h).value)))
      && (var k := EvalGerm(lib, App2("^", f0, f1), env, x);
          forall h {:trigger k(h)} :: f(h).Some? && g(h).Some? ==> k(h) == PowValue(lib, f(h).value, g(h).value))
      && (var k := EvalGerm(lib, App2("hypot", f0, f1), env, x);
          forall h {:trigger k(h)} :: f(h).Some? && g(h).Some? ==>
            k(h) == Some(HypotValue(lib, f(h).value, g(h).value)))
  {
    hide Eval, Times, Ratio, PowValue, HypotValue;
    var f, g := EvalGerm(lib, f0, env, x), EvalGerm(lib, f1, env, x);
    forall h | f(h).Some? && g(h).Some?
      ensures EvalGerm(lib, App2("+", f0, f1), env, x)(h) == Some(f(h).value + g(h).value)
      ensures EvalGerm(lib, App2("-", f0, f1), env, x)(h) == Some(f(h).value - g(h).value)
      ensures EvalGerm(lib, App2("*", f0, f1), env, x)(h) == Some(Times(f(h).value, g(h).value))
      ensures g(h).value != 0.0 ==>
        EvalGerm(lib, App2("/", f0, f1), env, x)(h) == Some(Ratio(f(h).value, g(h).value))
      ensures EvalGerm(lib, App2("^", f0, f1), env, x)(h) == PowValue(lib, f(h).value, g(h).value)
      ensures EvalGerm(lib, App2("hypot", f0, f1), env, x)(h) == Some(HypotValue(lib, f(h).value, g(h).value))
    {
      EvalBinary(lib, f0, f1, Shift(env, x, h), f(h).value, g(h).value);
      EvalPowers(lib, f0, f1, Shift(env, x, h), f(h).value, g(h).value);
    }
  }

  // ----- rules for two arguments -----

  /** Two expressions with their derivatives d0 and d1, and the values of all four. */
  ghost predicate IsPair(lib: Library, f0: Node, f1: Node, d0: Node, d1: Node, env: string -> real,
                         a: real, b: real, p: real, q: real) {
    && Eval(lib, f0, env) == Some(a) && Eval(lib, f1, env) == Some(b)
    && Eval(lib, d0, env) == Some(p) && Eval(lib, d1, env) == Some(q)
    && (f0.Const? ==> d0 == Con(0.0)) && (f1.Const? ==> d1 == Con(0.0))
  }

  lemma {:induction false} ConstantValue(lib: Library, f0: Node, f1: Node, d0: Node, d1: Node, env: string -> real,
                                         a: real, b: real, p: real, q: real)
    requires IsPair(lib, f0, f1, d0, d1, env, a, b, p, q)
    ensures (f0.Const? ==> p == 0.0) && (f1.Const? ==> q == 0.0)
    ensures (IsZero(d0) ==> p == 0.0) && (IsZero(d1) ==> q == 0.0)
  {
    hide Eval;
    EvalConst(lib, d0, env);
    EvalConst(lib, d1, env);
  }

  lemma {:induction false} RuleSums(lib: Library, f0: Node, f1: Node, d0: Node, d1: Node, env: string -> real,
                                    a: real, b: real, p: real, q: real)
    requires IsPair(lib, f0, f1, d0, d1, env, a, b, p, q)
    ensures Eval(lib, PlusRule(d0, d1), env) == Some(p + q) && Eval(lib, MinusRule(d0, d1), env) == Some(p - q)
  {
    hide PlusReduce, MinusReduce, Eval;
    EvalPlus(lib, d0, d1, env);
    EvalMinus(lib, d0, d1, env);
    EvalBinary(lib, d0, d1, env, p, q);
  }

  lemma {:induction false} RuleTimes(lib: Library, f0: Node, f1: Node, d0: Node, d1: Node, env: string -> real,
                                     a: real, b: real, p: real, q: real)
    requires IsPair(lib, f0, f1, d0, d1, env, a, b, p, q)
    ensures Eval(lib, TimesRule(f0, f1, d0, d1), env) == Some(Times(a, q) + Times(b, p))
  {
    hide Times, TimesReduce, PlusReduce, Eval;
    ConstantValue(lib, f0, f1, d0, d1, env, a, b, p, q);
    EvalCon(lib, 0.0, env);
    TimesUnits(a);
    TimesUnits(b);
    EvalTimes(lib, f0, d1, env);
    EvalTimes(lib, f1, d0, env);
    EvalPlus(lib, TimesReduce(f0, d1), TimesReduce(f1, d0), env);
  }

  lemma {:induction false} RuleOver(lib: Library, f0: Node, f1: Node, d0: Node, d1: Node, env: string -> real,
                                    a: real, b: real, p: real, q: real)
    requires IsPair(lib, f0, f1, d0, d1, env, a, b, p, q) && b != 0.0
    ensures Times(b, b) != 0.0
    ensures Eval(lib, OverRule(f0, f1, d0, d1), env) == Some(Ratio(Times(b, p) - Times(a, q), Times(b, b)))
  {
    hide Times, Ratio, TimesReduce, MinusReduce, SqrReduce, OverReduce, Eval, Abs;
    ConstantValue(lib, f0, f1, d0, d1, env, a, b, p, q);
    EvalCon(lib, 0.0, env);
    TimesUnits(a);
    TimesUnits(b);
    Squares(b, 0.0, 0.0);
    var t1, t2 := TimesReduce(f0, d1), TimesReduce(f1, d0);
    EvalTimes(lib, f0, d1, env);
    EvalTimes(lib, f1, d0, env);
    EvalMinus(lib, t2, t1, env);
    EvalSqr(lib, f1, env);
    Ratios(Times(b, b));
    EvalOver(lib, MinusReduce(t2, t1), SqrReduce(f1), env);
  }

  lemma {:induction false} RuleHypot(lib: Library, f0: Node, f1: Node, d0: Node, d1: Node, env: string -> real,
                                     a: real, b: real, p: real, q: real)
    requires lib.Valid() && IsPair(lib, f0, f1, d0, d1, env, a, b, p, q) && HypotValue(lib, a, b) != 0.0
    ensures Eval(lib, HypotRule(lib, f0, f1, d0, d1), env)
         == Some(Ratio(Times(p, a) + Times(q, b), HypotValue(lib, a, b)))
  {
    hide Times, Ratio, TimesReduce, PlusReduce, OverReduce, HypotReduce, Eval, Library.Valid, HypotValue;
    var t2, t3 := TimesReduce(d0, f0), TimesReduce(d1, f1);
    EvalTimes(lib, d0, f0, env);
    EvalTimes(lib, d1, f1, env);
    EvalPlus(lib, t2, t3, env);
    EvalHypot(lib, f0, f1, env);
    EvalOver(lib, PlusReduce(t2, t3), HypotReduce(lib, f0, f1), env);
  }

  lemma TimesZero(t: Node, f1: Node, d0: Node)
    ensures IsZero(d0) ==> TimesReduce(t, d0) == Con(0.0)
    ensures IsZero(f1) ==> TimesReduce(TimesReduce(f1, t), d0) == Con(0.0)
  {}

  /** The rule for exponents with the derivative zero. */
  lemma {:induction false} RuleConstantPower(lib: Library, f0: Node, f1: Node, d0: Node, d1: Node, env: string -> real,
                                             a: real, b: real, p: real)
    requires lib.Valid() && IsPair(lib, f0, f1, d0, d1, env, a, b, p, 0.0) && IsZero(d1)
    requires !IsZero(f1) ==> PowValue(lib, a, b - 1.0).Some?
    ensures Eval(lib, PowerRule(lib, f0, f1, d0, d1), env)
         == Some(if IsZero(f1) then 0.0 else Times(Times(b, PowValue(lib, a, b - 1.0).value), p))
  {
    hide Times, TimesReduce, MinusReduce, PowerReduce, PlusReduce, LnReduce, OverReduce, Eval, Library.Valid, PowValue;
    ConstantValue(lib, f0, f1, d0, d1, env, a, b, p, 0.0);
    EvalCon(lib, 0.0, env);
    EvalCon(lib, 1.0, env);
    var t1 := MinusReduce(f1, Con(1.0));
    var t2 := PowerReduce(lib, f0, t1);
    var t3 := TimesReduce(f1, t2);
    TimesZero(t3, f1, d0);
    TimesZero(t2, f1, d0);
    if IsZero(f1) {
    } else if f0.Const? {
      TimesUnits(Times(b, PowValue(lib, a, b - 1.0).value));
    } else {
      EvalMinus(lib, f1, Con(1.0), env);
      EvalPower(lib, f0, t1, env);
      EvalTimes(lib, f1, t2, env);
      EvalTimes(lib, t3, d0, env);
    }
  }

  /** The rule for exponents that vary. */
  lemma {:induction false} RuleVaryingPower(lib: Library, f0: Node, f1: Node, d0: Node, d1: Node, env: string -> real,
                                            a: real, b: real, p: real, q: real)
    requires lib.Valid() && IsPair(lib, f0, f1, d0, d1, env, a, b, p, q) && !IsZero(d1) && a > 0.0
    requires PowValue(lib, a, b).Some? && (f0 == Reference("e") ==> env("e") == lib.euler)
    ensures Eval(lib, PowerRule(lib, f0, f1, d0, d1), env)
         == Some(Times(PowValue(lib, a, b).value, Times(q, lib.Logarithm(a)) + Ratio(Times(b, p), a)))
  {
    hide Times, Ratio, TimesReduce, PowerReduce, PlusReduce, LnReduce, OverReduce, Eval, Library.Valid, PowValue,
      Library.Logarithm;
    EvalConst(lib, f0, env);
    var t1, l := PowerReduce(lib, f0, f1), LnReduce(lib, f0);
    var t2, t3 := TimesReduce(d1, l), TimesReduce(f1, d0);
    var t4 := OverReduce(t3, f0);
    EvalPower(lib, f0, f1, env);
    EvalLn(lib, f0, env);
    EvalTimes(lib, d1, l, env);
    EvalTimes(lib, f1, d0, env);
    EvalOver(lib, t3, f0, env);
    EvalPlus(lib, t2, t4, env);
    EvalTimes(lib, t1, PlusReduce(t2, t4), env);
  }

  // ----- derivatives of pairs -----

  lemma {:induction false} DerivativeBy(lib: Library, e: Node, rule: Node, env: string -> real, x: string, a: real,
                                        d: real)
    requires Eval(lib, e, env) == Some(a) && Derive(lib, e, x) == rule && Eval(lib, rule, env) == Some(d)
    requires HasTangent(EvalGerm(lib, e, env, x), a, d)
    ensures IsDerivative(lib, e, env, x)
  {}

  lemma {:induction false} DeriveSums(lib: Library, f0: Node, f1: Node, env: string -> real, x: string)
    requires IsDerivative(lib, f0, env, x) && IsDerivative(lib, f1, env, x)
    ensures IsDerivative(lib, App2("+", f0, f1), env, x) && IsDerivative(lib, App2("-", f0, f1), env, x)
  {
    hide Eval, HasTangent, EvalGerm, Times, Derive, PlusRule, MinusRule, Ratio, PowValue, HypotValue;
    var d0, d1 := Derive(lib, f0, x), Derive(lib, f1, x);
    var f, g := EvalGerm(lib, f0, env, x), EvalGerm(lib, f1, env, x);
    var a, p := Eval(lib, f0, env).value, Eval(lib, d0, env).value;
    var b, q := Eval(lib, f1, env).value, Eval(lib, d1, env).value;
    GermBinary(lib, f0, f1, env, x);
    EvalBinary(lib, f0, f1, env, a, b);
    DeriveTwo(lib, "+", f0, f1, x);
    DeriveTwo(lib, "-", f0, f1, x);
    RuleSums(lib, f0, f1, d0, d1, env, a, b, p, q);
    TangentAdd(f, g, EvalGerm(lib, App2("+", f0, f1), env, x), a, p, b, q);
    TangentSub(f, g, EvalGerm(lib, App2("-", f0, f1), env, x), a, p, b, q);
    DerivativeBy(lib, App2("+", f0, f1), PlusRule(d0, d1), env, x, a + b, p + q);
    DerivativeBy(lib, App2("-", f0, f1), MinusRule(d0, d1), env, x, a - b, p - q);
  }

  lemma {:induction false} DeriveProduct(lib: Library, f0: Node, f1: Node, env: string -> real, x: string)
    requires IsDerivative(lib, f0, env, x) && IsDerivative(lib, f1, env, x)
    ensures IsDerivative(lib, App2("*", f0, f1), env, x)
  {
    hide Eval, HasTangent, EvalGerm, Times, Derive, TimesRule, Ratio, PowValue, HypotValue;
    var d0, d1 := Derive(lib, f0, x), Derive(lib, f1, x);
    var a, p := Eval(lib, f0, env).value, Eval(lib, d0, env).value;
    var b, q := Eval(lib, f1, env).value, Eval(lib, d1, env).value;
    GermBinary(lib, f0, f1, env, x);
    EvalBinary(lib, f0, f1, env, a, b);
    DeriveTwo(lib, "*", f0, f1, x);
    RuleTimes(lib, f0, f1, d0, d1, env, a, b, p, q);
    TangentMul(EvalGerm(lib, f0, env, x), EvalGerm(lib, f1, env, x), EvalGerm(lib, App2("*", f0, f1), env, x),
               a, p, b, q);
    DerivativeBy(lib, App2("*", f0, f1), TimesRule(f0, f1, d0, d1), env, x, Times(a, b), Times(a, q) + Times(b, p));
  }

  lemma {:induction false} DeriveQuotient(lib: Library, f0: Node, f1: Node, env: string -> real, x: string)
    requires IsDerivative(lib, f0, env, x) && IsDerivative(lib, f1, env, x) && Eval(lib, f1, env).value != 0.0
    ensures IsDerivative(lib, App2("/", f0, f1), env, x)
  {
    hide Eval, HasTangent, EvalGerm, Times, Derive, OverRule, Ratio, PowValue, HypotValue;
    var d0, d1 := Derive(lib, f0, x), Derive(lib, f1, x);
    var a, p := Eval(lib, f0, env).value, Eval(lib, d0, env).value;
    var b, q := Eval(lib, f1, env).value, Eval(lib, d1, env).value;
    GermBinary(lib, f0, f1, env, x);
    EvalBinary(lib, f0, f1, env, a, b);
    DeriveTwo(lib, "/", f0, f1, x);
    RuleOver(lib, f0, f1, d0, d1, env, a, b, p, q);
    TangentOver(EvalGerm(lib, f0, env, x), EvalGerm(lib, f1, env, x), EvalGerm(lib, App2("/", f0, f1), env, x), a, p,
                b, q);
    DerivativeBy(lib, App2("/", f0, f1), OverRule(f0, f1, d0, d1), env, x, Ratio(a, b),
                 Ratio(Times(b, p) - Times(a, q), Times(b, b)));
  }

  lemma {:induction false} DeriveHypot(lib: Library, f0: Node, f1: Node, env: string -> real, x: string)
    requires lib.Valid() && IsDerivative(lib, f0, env, x) && IsDerivative(lib, f1, env, x)
    requires Eval(lib, f0, env).value != 0.0 || Eval(lib, f1, env).value != 0.0
    ensures IsDerivative(lib, App2("hypot", f0, f1), env, x)
  {
    hide Eval, HasTangent, EvalGerm, Times, Derive, HypotRule, Ratio, PowValue, HypotValue, Library.Valid;
    var d0, d1 := Derive(lib, f0, x), Derive(lib, f1, x);
    var a, p := Eval(lib, f0, env).value, Eval(lib, d0, env).value;
    var b, q := Eval(lib, f1, env).value, Eval(lib, d1, env).value;
    GermBinary(lib, f0, f1, env, x);
    EvalPowers(lib, f0, f1, env, a, b);
    DeriveTwo(lib, "hypot", f0, f1, x);
    HypotTangent(lib, EvalGerm(lib, f0, env, x), EvalGerm(lib, f1, env, x),
                 EvalGerm(lib, App2("hypot", f0, f1), env, x), a, p, b, q);
    RuleHypot(lib, f0, f1, d0, d1, env, a, b, p, q);
    var r := HypotValue(lib, a, b);
    DerivativeBy(lib, App2("hypot", f0, f1), HypotRule(lib, f0, f1, d0, d1), env, x, r,
                 Ratio(Times(p, a) + Times(q, b), r));
  }

  lemma OneLess(lib: Library, a: real, b: real)
    requires lib.Valid() && a > 0.0
    ensures PowValue(lib, a, b).Some? && PowValue(lib, a, b - 1.0).Some?
    ensures PowValue(lib, a, b).value == Times(PowValue(lib, a, b - 1.0).value, a)
  {
    hide Library.Valid, Times, PowValue, Library.Exponential, Library.Logarithm;
    var l := lib.Logarithm(a);
    PositivePower(lib, a, b);
    PositivePower(lib, a, b - 1.0);
    LnIdentities(lib, a);
    ExpSums(lib, Times(b - 1.0, l), l);
    TimesAdd(l, b - 1.0, 1.0);
    TimesUnits(l);
    assert b - 1.0 + 1.0 == b;
  }

  lemma ConstantPowerSlope(P: real, Q: real, a: real, b: real, p: real, l: real)
    requires a != 0.0 && P == Times(Q, a)
    ensures Times(P, Times(0.0, l) + Ratio(Times(b, p), a)) == Times(Times(b, Q), p)
    ensures b == 0.0 ==> Times(Times(b, Q), p) == 0.0
  {
    hide Ratio;
    var z := Ratio(Times(b, p), a);
    Over(Times(b, p), a, z);
    assert (Q * a) * z == Q * (z * a);
    assert Q * (b * p) == (b * Q) * p;
  }

  lemma {:induction false} DerivePositivePower(lib: Library, f0: Node, f1: Node, env: string -> real, x: string)
    requires lib.Valid() && IsDerivative(lib, f0, env, x) && IsDerivative(lib, f1, env, x)
    requires Eval(lib, f0, env).value > 0.0
    requires f0 == Reference("e") && !IsZero(Derive(lib, f1, x)) ==> env("e") == lib.euler
    ensures IsDerivative(lib, App2("^", f0, f1), env, x)
  {
    hide Eval, HasTangent, EvalGerm, Times, Derive, PowerRule, Ratio, PowValue, HypotValue, Library.Valid,
      Library.Logarithm;
    var d0, d1 := Derive(lib, f0, x), Derive(lib, f1, x);
    var a, p := Eval(lib, f0, env).value, Eval(lib, d0, env).value;
    var b, q := Eval(lib, f1, env).value, Eval(lib, d1, env).value;
    GermBinary(lib, f0, f1, env, x);
    EvalPowers(lib, f0, f1, env, a, b);
    DeriveTwo(lib, "^", f0, f1, x);
    PositiveTangent(lib, EvalGerm(lib, f0, env, x), EvalGerm(lib, f1, env, x), EvalGerm(lib, App2("^", f0, f1), env, x),
                    a, p, b, q);
    var P, l := PowValue(lib, a, b).value, lib.Logarithm(a);
    var s := Times(P, Times(q, l) + Ratio(Times(b, p), a));
    if IsZero(d1) {
      ConstantValue(lib, f0, f1, d0, d1, env, a, b, p, q);
      OneLess(lib, a, b);
      RuleConstantPower(lib, f0, f1, d0, d1, env, a, b, p);
      ConstantPowerSlope(P, PowValue(lib, a, b - 1.0).value, a, b, p, l);
      EvalConst(lib, f1, env);
    } else {
      RuleVaryingPower(lib, f0, f1, d0, d1, env, a, b, p, q);
    }
    DerivativeBy(lib, App2("^", f0, f1), PowerRule(lib, f0, f1, d0, d1), env, x, P, s);
  }

  // ----- expressions without x -----

  /** Moving x does not change an expression that does not mention it. */
  lemma {:induction false} EvalFree(lib: Library, e: Node, env: string -> real, x: string, h: real)
    requires !Mentions(e, x)
    ensures Eval(lib, e, Shift(env, x, h)) == Eval(lib, e, env) && Truth(lib, e, Shift(env, x, h)) == Truth(lib, e, env)
  {
    hide FunctionOf, UnaryValue, BinaryValue, Compare, Connect;
    if e.Application? {
      forall i | 0 <= i < |e.args|
        ensures Eval(lib, e.args[i], Shift(env, x, h)) == Eval(lib, e.args[i], env)
        ensures Truth(lib, e.args[i], Shift(env, x, h)) == Truth(lib, e.args[i], env)
      {
        EvalFree(lib, e.args[i], env, x, h);
      }
    }
  }

  lemma IntegerPowers(lib: Library, v: real, b: real)
    requires IsInteger(b) && (v != 0.0 || b.Floor >= 0)
    ensures PowValue(lib, v, b) == Some(ZPow(v, b.Floor))
  {}

  lemma {:induction false} GermInteger(lib: Library, f0: Node, f1: Node, env: string -> real, x: string, b: real)
    requires !Mentions(f1, x) && Eval(lib, f1, env) == Some(b) && IsInteger(b)
    ensures var f, k := EvalGerm(lib, f0, env, x), EvalGerm(lib, App2("^", f0, f1), env, x);
      forall h {:trigger k(h)} ::
        f(h).Some? && (f(h).value != 0.0 || b.Floor >= 0) ==> k(h) == Some(ZPow(f(h).value, b.Floor))
  {
    hide Eval, PowValue, ZPow, IsInteger;
    var f, k := EvalGerm(lib, f0, env, x), EvalGerm(lib, App2("^", f0, f1), env, x);
    forall h | f(h).Some? && (f(h).value != 0.0 || b.Floor >= 0) ensures k(h) == Some(ZPow(f(h).value, b.Floor)) {
      EvalFree(lib, f1, env, x, h);
      EvalPowers(lib, f0, f1, Shift(env, x, h), f(h).value, b);
      IntegerPowers(lib, f(h).value, b);
    }
  }

  lemma {:induction false} DeriveIntegerPower(lib: Library, f0: Node, f1: Node, env: string -> real, x: string)
    requires lib.Valid() && IsDerivative(lib, f0, env, x) && IsDerivative(lib, f1, env, x)
    requires IsInteger(Eval(lib, f1, env).value) && IsZero(Derive(lib, f1, x)) && !Mentions(f1, x)
    requires Eval(lib, f0, env).value != 0.0 || Eval(lib, f1, env).value >= 1.0 || IsZero(f1)
    ensures IsDerivative(lib, App2("^", f0, f1), env, x)
  {
    hide Eval, HasTangent, EvalGerm, Times, Derive, PowerRule, Ratio, PowValue, HypotValue, Library.Valid, ZPow;
    var d0, d1 := Derive(lib, f0, x), Derive(lib, f1, x);
    var a, p, b := Eval(lib, f0, env).value, Eval(lib, d0, env).value, Eval(lib, f1, env).value;
    var n := b.Floor;
    DeriveTwo(lib, "^", f0, f1, x);
    ConstantValue(lib, f0, f1, d0, d1, env, a, b, p, Eval(lib, d1, env).value);
    EvalConst(lib, f1, env);
    GermInteger(lib, f0, f1, env, x, b);
    IntegerTangent(EvalGerm(lib, f0, env, x), EvalGerm(lib, App2("^", f0, f1), env, x), a, p, n);
    EvalPowers(lib, f0, f1, env, a, b);
    IntegerPowers(lib, a, b);
    if !IsZero(f1) {
      assert (b - 1.0).Floor == n - 1;
      IntegerPowers(lib, a, b - 1.0);
      if n == 0 {
        TimesUnits(ZPow(a, n - 1));
        TimesUnits(p);
      }
    }
    RuleConstantPower(lib, f0, f1, d0, d1, env, a, b, p);
    DerivativeBy(lib, App2("^", f0, f1), PowerRule(lib, f0, f1, d0, d1), env, x, ZPow(a, n), ZSlope(a, p, n));
  }

  lemma {:induction false} DeriveBinary(lib: Library, op: string, f0: Node, f1: Node, env: string -> real, x: string)
    requires lib.Valid() && IsDerivative(lib, f0, env, x) && IsDerivative(lib, f1, env, x) && op in BINARY
    requires RegularPair(lib, op, f0, f1, env, x, Eval(lib, f0, env).value, Eval(lib, f1, env).value)
    ensures IsDerivative(lib, App2(op, f0, f1), env, x)
  {
    hide Eval, Derive, Library.Valid;
    var a, b := Eval(lib, f0, env).value, Eval(lib, f1, env).value;
    if op == "/" {
      DeriveQuotient(lib, f0, f1, env, x);
    } else if op == "hypot" {
      DeriveHypot(lib, f0, f1, env, x);
    } else if op == "^" {
      if a > 0.0 && (f0 == Reference("e") && !IsZero(Derive(lib, f1, x)) ==> env("e") == lib.euler) {
        DerivePositivePower(lib, f0, f1, env, x);
      } else {
        DeriveIntegerPower(lib, f0, f1, env, x);
      }
    } else if op == "*" {
      DeriveProduct(lib, f0, f1, env, x);
    } else {
      DeriveSums(lib, f0, f1, env, x);
    }
  }

  // ----- conditions -----

  /** The truth of the condition stays the same near env. */
  ghost predicate IsKept(lib: Library, c: Node, env: string -> real, x: string, r: real) {
    r > 0.0 && forall h :: Abs(h) < r ==> Truth(lib, c, Shift(env, x, h)) == Truth(lib, c, env)
  }

  lemma CompareKept(op: string, a: real, b: real, v: real, w: real)
    requires a != b && Abs(v - a) < Abs(a - b) / 2.0 && Abs(w - b) < Abs(a - b) / 2.0
    ensures Compare(op, v, w) == Compare(op, a, b)
  {}

  lemma {:induction false} TruthCompare(lib: Library, c: Node, env: string -> real, v: real, w: real)
    requires c.Application? && |c.args| == 2 && c.n in COMPARISONS
    requires Eval(lib, c.args[0], env) == Some(v) && Eval(lib, c.args[1], env) == Some(w)
    ensures Truth(lib, c, env) == Compare(c.n, v, w)
  {
    hide Eval, Compare;
  }

  lemma {:induction false} ComparisonKept(lib: Library, c: Node, env: string -> real, x: string) returns (r: real)
    requires c.Application? && |c.args| == 2 && c.n in COMPARISONS
    requires IsDerivative(lib, c.args[0], env, x) && IsDerivative(lib, c.args[1], env, x)
    requires Eval(lib, c.args[0], env).value != Eval(lib, c.args[1], env).value
    ensures IsKept(lib, c, env, x, r)
  {
    hide Eval, Truth, HasTangent, Compare, Derive;
    var f0, f1 := c.args[0], c.args[1];
    var a, b := Eval(lib, f0, env).value, Eval(lib, f1, env).value;
    var gap := Abs(a - b) / 2.0;
    var s := TangentNearby(EvalGerm(lib, f0, env, x), a, Eval(lib, Derive(lib, f0, x), env).value, gap);
    var t := TangentNearby(EvalGerm(lib, f1, env, x), b, Eval(lib, Derive(lib, f1, x), env).value, gap);
    r := Min(s, t);
    TruthCompare(lib, c, env, a, b);
    forall h | Abs(h) < r ensures Truth(lib, c, Shift(env, x, h)) == Truth(lib, c, env) {
      var v, w := EvalGerm(lib, f0, env, x)(h).value, EvalGerm(lib, f1, env, x)(h).value;
      TruthCompare(lib, c, Shift(env, x, h), v, w);
      CompareKept(c.n, a, b, v, w);
    }
  }

  lemma {:induction false} ConnectiveKept(lib: Library, c: Node, env: string -> real, x: string, r: real, s: real)
    requires c.Application? && 1 <= |c.args| <= 2 && !(|c.args| == 2 && c.n in COMPARISONS)
    requires IsKept(lib, c.args[0], env, x, r) && (|c.args| == 2 ==> IsKept(lib, c.args[1], env, x, s)) && s > 0.0
    ensures IsKept(lib, c, env, x, Min(r, s))
  {
    hide Eval, Connect, Shift;
  }

  lemma {:induction false} GermChoice(lib: Library, c: Node, f1: Node, f2: Node, env: string -> real, x: string,
                                      r: real)
    requires IsKept(lib, c, env, x, r) && Truth(lib, c, env).Some?
    ensures var chosen := if Truth(lib, c, env).value then f1 else f2;
      var f, k := EvalGerm(lib, chosen, env, x), EvalGerm(lib, App3("?:", c, f1, f2), env, x);
      forall h {:trigger f(h)} {:trigger k(h)} :: Abs(h) < r ==> f(h) == k(h)
  {
    hide Eval, Truth;
    var b := Truth(lib, c, env).value;
    var f, k := EvalGerm(lib, if b then f1 else f2, env, x), EvalGerm(lib, App3("?:", c, f1, f2), env, x);
    forall h | Abs(h) < r ensures f(h) == k(h) {
      EvalChoice(lib, c, f1, f2, Shift(env, x, h), b);
    }
  }

  lemma {:induction false} DeriveThree(lib: Library, c: Node, f1: Node, f2: Node, x: string)
    ensures Derive(lib, App3("?:", c, f1, f2), x) == IfRule(c, Derive(lib, f1, x), Derive(lib, f2, x))
  {
    hide BinaryRule, UnaryRule;
  }

  lemma {:induction false} RuleChoice(lib: Library, c: Node, d1: Node, d2: Node, env: string -> real, b: bool)
    requires Truth(lib, c, env) == Some(b)
    ensures Eval(lib, IfRule(c, d1, d2), env) == Eval(lib, if b then d1 else d2, env)
  {
    hide Eval, Truth;
    EvalConst(lib, d1, env);
    EvalConst(lib, d2, env);
    EvalChoice(lib, c, d1, d2, env, b);
  }

  lemma {:induction false} DeriveChoice(lib: Library, c: Node, f1: Node, f2: Node, env: string -> real, x: string,
                                        r: real)
    requires IsKept(lib, c, env, x, r) && Truth(lib, c, env).Some?
    requires IsDerivative(lib, if Truth(lib, c, env).value then f1 else f2, env, x)
    ensures IsDerivative(lib, App3("?:", c, f1, f2), env, x)
  {
    hide Eval, Truth, HasTangent, Derive, EvalGerm, IsKept, IfRule;
    var b, e := Truth(lib, c, env).value, App3("?:", c, f1, f2);
    var chosen, d1, d2 := if b then f1 else f2, Derive(lib, f1, x), Derive(lib, f2, x);
    var a, d := Eval(lib, chosen, env).value, Eval(lib, Derive(lib, chosen, x), env).value;
    IsKeptPositive(lib, c, env, x, r);
    GermChoice(lib, c, f1, f2, env, x, r);
    TangentLocal(EvalGerm(lib, chosen, env, x), EvalGerm(lib, e, env, x), a, d, r);
    EvalChoice(lib, c, f1, f2, env, b);
    RuleChoice(lib, c, d1, d2, env, b);
    DeriveThree(lib, c, f1, f2, x);
    DerivativeBy(lib, e, IfRule(c, d1, d2), env, x, a, d);
  }

  lemma {:induction false} IsKeptPositive(lib: Library, c: Node, env: string -> real, x: string, r: real)
    requires IsKept(lib, c, env, x, r)
    ensures r > 0.0
  {}

  // ----- the theorem -----

  lemma {:induction false} DeriveLeaf(lib: Library, e: Node, env: string -> real, x: string)
    requires e.Const? || e.Reference?
    ensures IsDerivative(lib, e, env, x)
  {
    hide HasTangent, Eval, Derive;
    var g := EvalGerm(lib, e, env, x);
    LeafValues(lib, e, env, x);
    if e.Reference? && e.n == x {
      TangentLine(g, env(x));
    } else {
      TangentConst(g, Eval(lib, e, env).value);
    }
  }

  lemma {:induction false} LeafValues(lib: Library, e: Node, env: string -> real, x: string)
    requires e.Const? || e.Reference?
    ensures var d := if e.Reference? && e.n == x then 1.0 else 0.0;
      Derive(lib, e, x) == Con(d) && Eval(lib, Con(d), env) == Some(d)
    ensures Eval(lib, e, env) == Some(if e.Const? then e.d else env(e.n))
    ensures forall h :: EvalGerm(lib, e, env, x)(h)
                     == Some(if e.Reference? && e.n == x then env(x) + h else Eval(lib, e, env).value)
  {
    hide UnaryRule, BinaryRule, UnaryValue, BinaryValue, Eval;
    EvalConst(lib, e, env);
    EvalCon(lib, 0.0, env);
    EvalCon(lib, 1.0, env);
    if e.Reference? { EvalReference(lib, e.n, env); }
    forall h
      ensures EvalGerm(lib, e, env, x)(h)
           == Some(if e.Reference? && e.n == x then env(x) + h else Eval(lib, e, env).value)
    {
      EvalConst(lib, e, Shift(env, x, h));
      if e.Reference? { EvalReference(lib, e.n, Shift(env, x, h)); }
    }
  }

  lemma {:induction false} RegularArgs(lib: Library, e: Node, env: string -> real, x: string)
    requires e.Application? && Regular(lib, e, env, x)
    ensures |e.args| == 1 ==> e == App1(e.n, e.args[0]) && Regular(lib, e.args[0], env, x)
    ensures |e.args| == 2 ==>
      e == App2(e.n, e.args[0], e.args[1]) && Regular(lib, e.args[0], env, x) && Regular(lib, e.args[1], env, x)
    ensures |e.args| > 2 ==>
      && |e.args| == 3 && e.n == "?:" && e == App3("?:", e.args[0], e.args[1], e.args[2])
      && RegularCondition(lib, e.args[0], env, x) && Truth(lib, e.args[0], env).Some?
      && Regular(lib, if Truth(lib, e.args[0], env).value then e.args[1] else e.args[2], env, x)
    ensures 1 <= |e.args|
  {
    hide Eval, Truth, RegularAt, RegularPair, RegularCondition;
  }

  lemma {:induction false} RegularOnes(lib: Library, e: Node, env: string -> real, x: string)
    requires e.Application? && Regular(lib, e, env, x)
    ensures |e.args| == 1 ==>
      && e.n in UNARY && Eval(lib, e.args[0], env).Some? && RegularAt(lib, e.n, Eval(lib, e.args[0], env).value)
    ensures |e.args| == 2 ==>
      && e.n in BINARY && Eval(lib, e.args[0], env).Some? && Eval(lib, e.args[1], env).Some?
      && RegularPair(lib, e.n, e.args[0], e.args[1], env, x, Eval(lib, e.args[0], env).value,
                     Eval(lib, e.args[1], env).value)
  {
    hide Eval, Truth, RegularAt, RegularPair, RegularCondition;
  }

  /** Where an expression is regular, its symbolic derivative has a value, which is the
      derivative of the expression. */
  lemma {:induction false} Differentiates(lib: Library, e: Node, env: string -> real, x: string)
    requires lib.Valid() && Regular(lib, e, env, x)
    ensures IsDerivative(lib, e, env, x)
    decreases e
  {
    hide Eval, Truth, Regular, RegularCondition, RegularAt, RegularPair, IsDerivative, Derive, IsKept, Library.Valid;
    if !e.Application? {
      DeriveLeaf(lib, e, env, x);
    } else {
      var args := e.args;
      RegularArgs(lib, e, env, x);
      RegularOnes(lib, e, env, x);
      if |args| == 1 {
        Differentiates(lib, args[0], env, x);
        DeriveUnary(lib, e.n, args[0], env, x);
      } else if |args| == 2 {
        Differentiates(lib, args[0], env, x);
        Differentiates(lib, args[1], env, x);
        DeriveBinary(lib, e.n, args[0], args[1], env, x);
      } else {
        var r := ConditionKept(lib, args[0], env, x);
        var b := Truth(lib, args[0], env).value;
        if b { Differentiates(lib, args[1], env, x); } else { Differentiates(lib, args[2], env, x); }
        DeriveChoice(lib, args[0], args[1], args[2], env, x, r);
      }
    }
  }

  lemma {:induction false} ConditionKept(lib: Library, c: Node, env: string -> real, x: string) returns (r: real)
    requires lib.Valid() && RegularCondition(lib, c, env, x)
    ensures IsKept(lib, c, env, x, r)
    decreases c
  {
    hide Eval, Truth, Regular, IsDerivative, Derive, IsKept, Library.Valid;
    if |c.args| == 2 && c.n in COMPARISONS {
      Differentiates(lib, c.args[0], env, x);
      Differentiates(lib, c.args[1], env, x);
      r := ComparisonKept(lib, c, env, x);
    } else {
      var s := 1.0;
      assert RegularCondition(lib, c.args[0], env, x);
      r := ConditionKept(lib, c.args[0], env, x);
      if |c.args| == 2 {
        assert RegularCondition(lib, c.args[1], env, x);
        s := ConditionKept(lib, c.args[1], env, x);
        IsKeptPositive(lib, c.args[1], env, x, s);
      }
      ConnectiveKept(lib, c, env, x, r, s);
      r := Min(r, s);
    }
  }

  /** e(x + h) == e(x) + h e'(x) up to M h h near x, where e' is the symbolic derivative. */
  lemma {:induction false} DeriveIsDerivative(lib: Library, e: Node, env: string -> real,
                                              x: string) returns (M: real, delta: real)
    requires lib.Valid() && Regular(lib, e, env, x)
    ensures Eval(lib, e, env).Some? && Eval(lib, Derive(lib, e, x), env).Some?
    ensures IsTangent(EvalGerm(lib, e, env, x), Eval(lib, e, env).value, Eval(lib, Derive(lib, e, x), env).value, M,
                      delta)
  {
    hide Eval, Derive, Regular, Library.Valid, HasTangent, EvalGerm;
    Differentiates(lib, e, env, x);
    M, delta := TangentBounds(EvalGerm(lib, e, env, x), Eval(lib, e, env).value,
                              Eval(lib, Derive(lib, e, x), env).value);
  }

  /** The derivative as a limit: the remainder is smaller than any share of h. */
  lemma {:induction false} DeriveIsLimit(lib: Library, e: Node, env: string -> real, x: string,
                                         eps: real) returns (delta: real)
    requires lib.Valid() && Regular(lib, e, env, x) && eps > 0.0
    ensures Eval(lib, e, env).Some? && Eval(lib, Derive(lib, e, x), env).Some? && delta > 0.0
    ensures var g := EvalGerm(lib, e, env, x);
      forall h {:trigger g(h)} :: Abs(h) < delta ==>
        && g(h).Some?
        && Abs(g(h).value - Eval(lib, e, env).value - Times(h, Eval(lib, Derive(lib, e, x), env).value))
           <= Times(eps, Abs(h))
  {
    hide Eval, Derive, Regular, Library.Valid, EvalGerm, Times;
    var M, step := DeriveIsDerivative(lib, e, env, x);
    var g, a, d := EvalGerm(lib, e, env, x), Eval(lib, e, env).value, Eval(lib, Derive(lib, e, x), env).value;
    delta := Min(step, eps / (M + 1.0));
    LimitStep(M, eps);
    forall h | Abs(h) < delta
      ensures g(h).Some? && Abs(g(h).value - a - Times(h, d)) <= Times(eps, Abs(h))
    {
      var v := TangentAt(g, a, d, M, step, h);
      LimitBound(M, eps, h);
    }
  }

  lemma LimitStep(M: real, eps: real)
    requires M >= 0.0 && eps > 0.0
    ensures eps / (M + 1.0) > 0.0
  {}

  lemma LimitBound(M: real, eps: real, h: real)
    requires M >= 0.0 && eps > 0.0 && Abs(h) < eps / (M + 1.0)
    ensures Times(M, Times(h, h)) <= Times(eps, Abs(h))
  {
    var s, k := eps / (M + 1.0), Abs(h);
    assert s * (M + 1.0) == eps;
    assert h * h == k * k;
    assert M * k <= M * s;
    assert (M * k) * k <= eps * k;
    assert M * (k * k) == (M * k) * k;
  }

  // ----- rational expressions -----

  /** Expressions of + - * / sqr and powers with natural constants. */
  predicate IsRational(e: Node) {
    match e
    case Const(_) => true
    case Reference(_) => true
    case Application(op, args) =>
      || (|args| == 1 && op in {"+", "-", "sqr"} && IsRational(args[0]))
      || (|args| == 2 && op in {"+", "-", "*", "/"} && IsRational(args[0]) && IsRational(args[1]))
      || (|args| == 2 && op == "^" && IsRational(args[0]) && args[1].Const? && IsInteger(args[1].d) && args[1].d >= 0.0)
  }

  lemma {:induction false} LineSlopes(lib: Library, op: string, a: real)
    requires op in {"+", "-", "sqr"}
    ensures op in UNARY && RegularAt(lib, op, a)
  {
    hide Times;
  }

  lemma {:induction false} DefinedArgs(lib: Library, e: Node, env: string -> real)
    requires e.Application? && 1 <= |e.args| <= 2 && Eval(lib, e, env).Some?
    ensures Eval(lib, e.args[0], env).Some? && (|e.args| == 2 ==> Eval(lib, e.args[1], env).Some?)
    ensures |e.args| == 2 && e.n == "/" ==> Eval(lib, e.args[1], env).value != 0.0
  {
    hide FunctionOf, PowValue, HypotValue, Times, Ratio;
  }

  lemma {:induction false} ConstantPower(lib: Library, f0: Node, f1: Node, env: string -> real, x: string, a: real,
                                         b: real)
    requires f1 == Const(b) && IsInteger(b) && b >= 0.0
    ensures RegularPower(lib, f0, f1, env, x, a, b)
  {
    assert Derive(lib, f1, x) == Con(0.0);
  }

  /** Rational expressions are regular wherever they have a value. */
  lemma {:induction false} RationalRegular(lib: Library, e: Node, env: string -> real, x: string)
    requires IsRational(e) && Eval(lib, e, env).Some?
    ensures Regular(lib, e, env, x)
  {
    hide Eval, Derive, RegularAt, RegularPower, Truth, RegularCondition;
    if e.Application? {
      DefinedArgs(lib, e, env);
      RationalRegular(lib, e.args[0], env, x);
      if |e.args| == 1 {
        LineSlopes(lib, e.n, Eval(lib, e.args[0], env).value);
      } else {
        if e.n == "^" {
          EvalConst(lib, e.args[1], env);
          ConstantPower(lib, e.args[0], e.args[1], env, x, Eval(lib, e.args[0], env).value, e.args[1].d);
        } else {
          RationalRegular(lib, e.args[1], env, x);
        }
      }
    }
  }

  // ----- where the rules fail -----

  lemma {:induction false} FunctionGerm(lib: Library, op: string, x: string, env: string -> real)
    ensures var f, k := At(FunctionOf(lib, op).value, env(x)), EvalGerm(lib, App1(op, Reference(x)), env, x);
      forall h {:trigger f(h)} {:trigger k(h)} :: f(h) == k(h)
  {
    hide FunctionOf, Eval;
    var f, k := At(FunctionOf(lib, op).value, env(x)), EvalGerm(lib, App1(op, Reference(x)), env, x);
    forall h ensures f(h) == k(h) {
      EvalReference(lib, x, Shift(env, x, h));
      EvalUnary(lib, op, Reference(x), Shift(env, x, h), env(x) + h);
    }
  }

  lemma {:induction false} RegularFunction(lib: Library, op: string, x: string, env: string -> real)
    requires op in UNARY && RegularAt(lib, op, env(x))
    ensures Regular(lib, App1(op, Reference(x)), env, x)
  {
    hide RegularAt, Truth, RegularCondition, RegularPair;
    EvalReference(lib, x, env);
  }

  lemma {:induction false} DeriveFunction(lib: Library, op: string, x: string)
    requires op in UNARY
    ensures Derive(lib, App1(op, Reference(x)), x) == UnaryRule(lib, op, Reference(x), Con(1.0))
  {
    hide UnaryRule;
    DeriveOne(lib, op, Reference(x), x);
  }

  /** The rules of arcsec, arccosec and arcosech have the wrong sign for negative arguments. */
  lemma {:induction false} WrongSign(lib: Library, op: string, x: string, env: string -> real, s: real)
    requires lib.Valid() && op in {"arcsec", "arccosec", "arcosech"} && env(x) <= 0.0
    requires FunctionOf(lib, op).slope(env(x)) == Some(s)
    ensures Eval(lib, UnaryRule(lib, op, Reference(x), Con(1.0)), env) == Some(-s) && s != 0.0
  {
    hide Eval, FunctionOf, Library.Valid, OverReduce, NegReduce, SqrtReduce, TimesReduce, SqrMinusOne, OnePlusSqr;
    if op == "arcosech" { WrongArcosech(lib, x, env, s); } else { WrongArcsec(lib, op, x, env, s); }
  }

  lemma {:induction false} WrongArcosech(lib: Library, x: string, env: string -> real, s: real)
    requires lib.Valid() && env(x) <= 0.0 && FunctionOf(lib, "arcosech").slope(env(x)) == Some(s)
    ensures var f0, d0 := Reference(x), Con(1.0);
      Eval(lib, OverReduce(NegReduce(d0), TimesReduce(f0, SqrtReduce(OnePlusSqr(f0)))), env) == Some(-s) && s != 0.0
  {
    hide Eval, FunctionOf, Times, Ratio, Library.Valid, Library.Root, OverReduce, NegReduce, SqrtReduce, TimesReduce,
      OnePlusSqr, Arsinh;
    var a, f0, d0 := env(x), Reference(x), Con(1.0);
    var r := lib.Root(1.0 + Times(a, a));
    AreaSecantNames(lib);
    EvalReference(lib, x, env);
    EvalCon(lib, 1.0, env);
    SquareTerms(lib, f0, env, a);
    NonZero(a);
    Products(a, r);
    RootQuotients(lib, f0, d0, OnePlusSqr(f0), env, a, 1.0, 1.0 + Times(a, a));
    OppositeSigns(-1.0, a, r);
  }

  lemma {:induction false} WrongArcsec(lib: Library, op: string, x: string, env: string -> real, s: real)
    requires lib.Valid() && env(x) <= 0.0 && (op == "arcsec" || op == "arccosec")
    requires FunctionOf(lib, op).slope(env(x)) == Some(s)
    ensures var f0, d0 := Reference(x), Con(1.0);
      var d := if op == "arcsec" then d0 else NegReduce(d0);
      var rule := OverReduce(d, TimesReduce(f0, SqrtReduce(SqrMinusOne(f0))));
      Eval(lib, rule, env) == Some(-s) && s != 0.0
  {
    hide Eval, FunctionOf, Times, Ratio, Library.Valid, Library.Root, OverReduce, NegReduce, SqrtReduce, TimesReduce,
      SqrMinusOne, Arccos, Arcsin;
    var a, f0, d0 := env(x), Reference(x), Con(1.0);
    var r, e := lib.Root(Times(a, a) - 1.0), if op == "arcsec" then 1.0 else -1.0;
    ArcsecNames(lib);
    EvalReference(lib, x, env);
    EvalCon(lib, 1.0, env);
    SquareTerms(lib, f0, env, a);
    OuterRoot(lib, a);
    RootQuotients(lib, f0, d0, SqrMinusOne(f0), env, a, 1.0, Times(a, a) - 1.0);
    OppositeSigns(e, a, r);
  }

  lemma OppositeSigns(e: real, a: real, r: real)
    requires e != 0.0 && a <= 0.0 && Times(a, r) != 0.0 && Times(Abs(a), r) != 0.0
    ensures Times(1.0, Ratio(e, Times(a, r))) == -Ratio(e, Times(Abs(a), r)) && Ratio(e, Times(Abs(a), r)) != 0.0
  {
    hide Times, Ratio;
    Products(a, r);
    assert Abs(a) == -a;
    NegatedRatio(e, Times(a, r));
    TimesUnits(Ratio(e, Times(a, r)));
    QuotientZero(e, Times(Abs(a), r));
  }

  lemma {:induction false} SincAtOrigin(lib: Library, x: string, env: string -> real)
    requires env(x) == 0.0
    ensures Eval(lib, UnaryRule(lib, "sinc", Reference(x), Con(1.0)), env).None?
  {
    hide Eval, Times, Ratio;
    var f0 := Reference(x);
    var n := App2("-", App1("cos", f0), App1("sinc", f0));
    assert MinusReduce(App1("cos", f0), App1("sinc", f0)) == n;
    assert UnaryRule(lib, "sinc", f0, Con(1.0)) == App2("/", n, f0);
    EvalReference(lib, x, env);
    ZeroDenominator(lib, n, f0, env);
  }

  lemma {:induction false} ZeroDenominator(lib: Library, n: Node, f0: Node, env: string -> real)
    requires Eval(lib, f0, env) == Some(0.0)
    ensures Eval(lib, App2("/", n, f0), env).None?
  {
    hide FunctionOf, PowValue, HypotValue;
  }

  /** The rule of a function gives its derivative if and only if the function has one and the
      rule holds at the argument. */
  lemma {:induction false} RuleExact(lib: Library, op: string, x: string, env: string -> real)
    requires lib.Valid() && op in UNARY
    ensures IsDerivative(lib, App1(op, Reference(x)), env, x) <==> RegularAt(lib, op, env(x))
  {
    hide Eval, FunctionOf, Library.Valid, HasTangent, EvalGerm, At, Derive, UnaryRule, Regular;
    var v, e, f := env(x), App1(op, Reference(x)), FunctionOf(lib, op);
    if RegularAt(lib, op, v) {
      RegularFunction(lib, op, x, env);
      Differentiates(lib, e, env, x);
    } else if IsDerivative(lib, e, env, x) {
      var a, d := Eval(lib, e, env).value, Eval(lib, Derive(lib, e, x), env).value;
      FunctionGerm(lib, op, x, env);
      TangentLocal(EvalGerm(lib, e, env, x), At(f.value, v), a, d, 1.0);
      TableExact(lib, op, v);
      DeriveFunction(lib, op, x);
      if f.slope(v).Some? {
        var s := f.slope(v).value;
        if op == "sinc" {
          SincAtOrigin(lib, x, env);
        } else {
          WrongSign(lib, op, x, env, s);
          TangentUnique(At(f.value, v), a, d, f.value(v).value, s);
        }
      }
    }
  }

  /** Inputs with a value where the rule is not the derivative. */
  lemma {:induction false} RuleInputs(lib: Library, x: string, env: string -> real)
    requires lib.Valid()
    ensures env(x) == -2.0 ==>
      && Eval(lib, App1("arcsec", Reference(x)), env).Some? && !IsDerivative(lib, App1("arcsec", Reference(x)), env, x)
      && Eval(lib, App1("arccosec", Reference(x)), env).Some?
      && !IsDerivative(lib, App1("arccosec", Reference(x)), env, x)
      && !IsDerivative(lib, App1("arcosech", Reference(x)), env, x)
    ensures env(x) == 0.0 ==>
      && Eval(lib, App1("abs", Reference(x)), env) == Some(0.0) && !IsDerivative(lib, App1("abs", Reference(x)), env, x)
      && Eval(lib, App1("sinc", Reference(x)), env) == Some(1.0)
      && !IsDerivative(lib, App1("sinc", Reference(x)), env, x)
      && Eval(lib, App1("step", Reference(x)), env) == Some(0.5)
      && !IsDerivative(lib, App1("step", Reference(x)), env, x)
  {
    hide Eval, Library.Valid, IsDerivative, Times, Library.Root, Library.Arcsine, Library.Arccosine, RegularAt,
      FunctionOf;
    EvalReference(lib, x, env);
    if env(x) == -2.0 {
      InputSigns(lib);
      EvalUnary(lib, "arcsec", Reference(x), env, -2.0);
      EvalUnary(lib, "arccosec", Reference(x), env, -2.0);
      RuleExact(lib, "arcsec", x, env);
      RuleExact(lib, "arccosec", x, env);
      RuleExact(lib, "arcosech", x, env);
    }
    if env(x) == 0.0 {
      InputZeros(lib);
      EvalUnary(lib, "abs", Reference(x), env, 0.0);
      EvalUnary(lib, "sinc", Reference(x), env, 0.0);
      EvalUnary(lib, "step", Reference(x), env, 0.0);
      RuleExact(lib, "abs", x, env);
      RuleExact(lib, "sinc", x, env);
      RuleExact(lib, "step", x, env);
    }
  }

  lemma InputSigns(lib: Library)
    ensures FunctionOf(lib, "arcsec").value(-2.0).Some? && FunctionOf(lib, "arccosec").value(-2.0).Some?
    ensures !RegularAt(lib, "arcsec", -2.0) && !RegularAt(lib, "arccosec", -2.0) && !RegularAt(lib, "arcosech", -2.0)
  {
    hide Times, Library.Root, Library.Arcsine, Library.Arccosine, Arsinh;
    assert FunctionOf(lib, "arcsec") == Arcsec(lib) && FunctionOf(lib, "arccosec") == Arccosec(lib);
    assert Ratio(1.0, -2.0) == -0.5;
    ArcValues(lib, -0.5);
  }

  lemma InputZeros(lib: Library)
    ensures FunctionOf(lib, "abs").value(0.0) == Some(0.0) && FunctionOf(lib, "sinc").value(0.0) == Some(1.0)
    ensures FunctionOf(lib, "step").value(0.0) == Some(0.5)
    ensures !RegularAt(lib, "abs", 0.0) && !RegularAt(lib, "sinc", 0.0) && !RegularAt(lib, "step", 0.0)
  {
    hide Times, Ratio, Library.Sine, Library.Cosine;
    assert FunctionOf(lib, "abs") == AbsEntry() && FunctionOf(lib, "sinc") == Sinc(lib);
    assert FunctionOf(lib, "step") == Step();
  }

  /** A choice between two constants that depends on the sign of x. */
  function Jump(x: string): Node { App3("?:", App2("<", Reference(x), Con(0.0)), Con(0.0), Con(1.0)) }

  lemma {:induction false} JumpValue(lib: Library, x: string, env: string -> real)
    ensures Eval(lib, Jump(x), env) == Some(if env(x) < 0.0 then 0.0 else 1.0)
  {
    hide Eval, Truth;
    EvalReference(lib, x, env);
    EvalCon(lib, 0.0, env);
    EvalCon(lib, 1.0, env);
    TruthLess(lib, Reference(x), Con(0.0), env, env(x), 0.0);
    EvalChoice(lib, App2("<", Reference(x), Con(0.0)), Con(0.0), Con(1.0), env, env(x) < 0.0);
  }

  /** Its symbolic derivative is the literal zero, but it has no derivative where it jumps. */
  lemma {:induction false} JumpInput(lib: Library, x: string, env: string -> real)
    requires env(x) == 0.0
    ensures Derive(lib, Jump(x), x) == Con(0.0) && Eval(lib, Jump(x), env) == Some(1.0)
    ensures !IsDerivative(lib, Jump(x), env, x)
  {
    hide Eval, HasTangent, Times;
    DeriveThree(lib, App2("<", Reference(x), Con(0.0)), Con(0.0), Con(1.0), x);
    JumpValue(lib, x, env);
    var g := EvalGerm(lib, Jump(x), env, x);
    forall h | -1.0 < h < 0.0 ensures g(h) == Some(0.0 + Times(h, 0.0)) {
      JumpValue(lib, x, Shift(env, x, h));
      TimesUnits(h);
    }
    if IsDerivative(lib, Jump(x), env, x) {
      LeftLimit(g, 1.0, Eval(lib, Con(0.0), env).value, 0.0, 0.0);
    }
  }

  lemma {:induction false} DeriveEuler(lib: Library, x: string)
    requires x != "e"
    ensures Derive(lib, App2("^", Reference("e"), Reference(x)), x) == App2("^", Reference("e"), Reference(x))
  {
    DeriveTwo(lib, "^", Reference("e"), Reference(x), x);
    assert Derive(lib, Reference("e"), x) == Con(0.0) && Derive(lib, Reference(x), x) == Con(1.0);
    assert TimesReduce(Reference(x), Con(0.0)) == Con(0.0);
    assert LnReduce(lib, Reference("e")) == Con(1.0);
  }

  lemma {:induction false} EulerTangent(lib: Library, x: string, env: string -> real)
    requires lib.Valid() && x != "e" && env("e") > 0.0
    ensures PowValue(lib, env("e"), env(x)).Some?
    ensures var P := PowValue(lib, env("e"), env(x)).value;
      && P != 0.0 && Eval(lib, App2("^", Reference("e"), Reference(x)), env) == Some(P)
      && HasTangent(EvalGerm(lib, App2("^", Reference("e"), Reference(x)), env, x), P,
                    Times(P, lib.Logarithm(env("e"))))
  {
    hide Eval, HasTangent, EvalGerm, Times, Ratio, Library.Valid, PowValue, Library.Logarithm, Library.Exponential,
      Derive;
    var f0, f1, a, b := Reference("e"), Reference(x), env("e"), env(x);
    ReferenceTangents(lib, x, env);
    GermBinary(lib, f0, f1, env, x);
    PositiveTangent(lib, EvalGerm(lib, f0, env, x), EvalGerm(lib, f1, env, x), EvalGerm(lib, App2("^", f0, f1), env, x),
                    a, 0.0, b, 1.0);
    var P, l := PowValue(lib, a, b).value, lib.Logarithm(a);
    EvalReference(lib, "e", env);
    EvalReference(lib, x, env);
    EvalPowers(lib, f0, f1, env, a, b);
    PositivePower(lib, a, b);
    ExpPositive(lib, Times(b, l));
    TimesUnits(l);
    TimesUnits(b);
    Ratios(a);
    SameTangent(EvalGerm(lib, App2("^", f0, f1), env, x), P, Times(P, Times(1.0, l) + Ratio(Times(b, 0.0), a)),
                Times(P, l));
  }

  lemma {:induction false} ReferenceTangents(lib: Library, x: string, env: string -> real)
    requires x != "e"
    ensures HasTangent(EvalGerm(lib, Reference("e"), env, x), env("e"), 0.0)
    ensures HasTangent(EvalGerm(lib, Reference(x), env, x), env(x), 1.0)
  {
    hide HasTangent;
    TangentConst(EvalGerm(lib, Reference("e"), env, x), env("e"));
    TangentLine(EvalGerm(lib, Reference(x), env, x), env(x));
  }

  /** A base named e is differentiated as the base of the natural logarithm: e to the power of x
      has its derivative if and only if e has that value. */
  lemma {:induction false} EulerExact(lib: Library, x: string, env: string -> real)
    requires lib.Valid() && x != "e" && env("e") > 0.0
    ensures IsDerivative(lib, App2("^", Reference("e"), Reference(x)), env, x) <==> env("e") == lib.euler
  {
    hide Eval, HasTangent, EvalGerm, Times, Library.Valid, PowValue, Library.Logarithm, Library.Exponential, Derive;
    var e, a := App2("^", Reference("e"), Reference(x)), env("e");
    EulerTangent(lib, x, env);
    DeriveEuler(lib, x);
    var P, l := PowValue(lib, a, env(x)).value, lib.Logarithm(a);
    LnIdentities(lib, a);
    Limits(lib);
    TimesUnits(P);
    if IsDerivative(lib, e, env, x) {
      TangentUnique(EvalGerm(lib, e, env, x), P, P, P, Times(P, l));
      Cancelled(P, l);
    }
    if a == lib.euler {
      DerivativeBy(lib, e, e, env, x, P, P);
    }
  }

  lemma Cancelled(P: real, l: real)
    requires P != 0.0 && P == Times(P, l)
    ensures l == 1.0
  {
    assert P * (l - 1.0) == 0.0;
  }

  lemma {:induction false} RegularReferences(lib: Library, x: string, y: string, env: string -> real)
    requires x != y && (env(x) > 0.0 || (IsInteger(env(y)) && (env(x) != 0.0 || env(y) >= 1.0)))
    ensures Regular(lib, App2("^", Reference(x), Reference(y)), env, x)
  {
    assert Derive(lib, Reference(y), x) == Con(0.0);
    assert RegularPower(lib, Reference(x), Reference(y), env, x, env(x), env(y));
  }

  lemma {:induction false} PowerReferences(lib: Library, x: string, y: string, env: string -> real, h: real)
    requires x != y
    ensures EvalGerm(lib, App2("^", Reference(x), Reference(y)), env, x)(h) == PowValue(lib, env(x) + h, env(y))
    ensures Eval(lib, App2("^", Reference(x), Reference(y)), env) == PowValue(lib, env(x), env(y))
  {
    hide PowValue;
    var s := Shift(env, x, h);
    assert Eval(lib, Reference(x), s) == Some(env(x) + h) && Eval(lib, Reference(y), s) == Some(env(y));
    assert Eval(lib, App2("^", Reference(x), Reference(y)), s) == PowValue(lib, env(x) + h, env(y));
  }

  lemma {:induction false} DerivePower(lib: Library, x: string, y: string)
    requires x != y
    ensures Derive(lib, App2("^", Reference(x), Reference(y)), x)
         == App2("*", Reference(y), App2("^", Reference(x), App2("-", Reference(y), Con(1.0))))
  {
    var f0, f1 := Reference(x), Reference(y);
    DeriveTwo(lib, "^", f0, f1, x);
    assert Derive(lib, f0, x) == Con(1.0) && Derive(lib, f1, x) == Con(0.0);
    var t := App2("^", f0, App2("-", f1, Con(1.0)));
    assert PowerReduce(lib, f0, MinusReduce(f1, Con(1.0))) == t;
    assert TimesReduce(TimesReduce(f1, t), Con(1.0)) == App2("*", f1, t);
  }

  /** The derivative of zero to the power of zero divides by zero. */
  lemma {:induction false} ZeroPower(lib: Library, x: string, y: string, env: string -> real)
    requires x != y && env(x) == 0.0 == env(y)
    ensures Eval(lib, App2("^", Reference(x), Reference(y)), env) == Some(1.0)
    ensures Eval(lib, Derive(lib, App2("^", Reference(x), Reference(y)), x), env) == None
  {
    hide Derive;
    DerivePower(lib, x, y);
    PowerReferences(lib, x, y, env, 0.0);
    assert IPow(0.0, 0) == 1.0;
    var e := App2("-", Reference(y), Con(1.0));
    assert Eval(lib, e, env) == Some(-1.0);
    assert Eval(lib, App2("^", Reference(x), e), env) == PowValue(lib, 0.0, -1.0);
  }

  /** The power of two variables has its derivative for positive bases, and for integer
      exponents unless the base is zero and the exponent below one. */
  lemma {:induction false} PowerExact(lib: Library, x: string, y: string, env: string -> real)
    requires lib.Valid() && x != y
    ensures IsDerivative(lib, App2("^", Reference(x), Reference(y)), env, x)
      <==> env(x) > 0.0 || (IsInteger(env(y)) && (env(x) != 0.0 || env(y) >= 1.0))
  {
    hide Eval, Derive, HasTangent, EvalGerm, Regular, Library.Valid, ZPow, Library.Exponential;
    var e, a, b := App2("^", Reference(x), Reference(y)), env(x), env(y);
    if a > 0.0 || (IsInteger(b) && (a != 0.0 || b >= 1.0)) {
      RegularReferences(lib, x, y, env);
      Differentiates(lib, e, env, x);
    } else {
      PowerReferences(lib, x, y, env, 0.0);
      if IsDerivative(lib, e, env, x) {
        if b == 0.0 {
          ZeroPower(lib, x, y, env);
        } else {
          var g := EvalGerm(lib, e, env, x);
          forall h | 0.0 < h < 1.0 ensures g(Times(-1.0, h)).None? {
            PowerReferences(lib, x, y, env, Times(-1.0, h));
          }
          UndefinedNear(g, Eval(lib, e, env).value, Eval(lib, Derive(lib, e, x), env).value, -1.0);
        }
      }
    }
  }
}
