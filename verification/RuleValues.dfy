/** The rules of the differentiator evaluate to the derivatives of the functions. */
module RuleValues {
  import opened ComplexNumbers
  import opened Options
  import opened Equations
  import opened Differentiation
  import opened MathLibrary
  import opened Germs
  import opened RealValues

  /** The arguments where the rule agrees with the derivative.  The rules of arcsec, arccosec
      and arcosech have the sign of positive arguments, and that of sinc divides by the
      argument. */
  predicate RuleHolds(op: string, a: real) {
    && (op == "arcsec" || op == "arccosec" || op == "arcosech" ==> a > 0.0)
    && (op == "sinc" ==> a != 0.0)
  }

  /** The function and its argument, where the derivative of the argument is d. */
  ghost predicate IsGiven(lib: Library, f0: Node, d0: Node, env: string -> real, a: real, d: real) {
    Eval(lib, f0, env) == Some(a) && Eval(lib, d0, env) == Some(d)
  }

  // ----- quotients -----

  lemma {:induction false} OverBy(lib: Library, d0: Node, x: Node, env: string -> real, d: real, y: real)
    requires Eval(lib, d0, env) == Some(d) && Eval(lib, x, env) == Some(y) && y != 0.0
    ensures Eval(lib, OverReduce(d0, x), env) == Some(Times(d, Ratio(1.0, y)))
    ensures Eval(lib, OverReduce(NegReduce(d0), x), env) == Some(Times(d, Ratio(-1.0, y)))
  {
    hide Eval, OverReduce, NegReduce, Times, Ratio;
    EvalNeg(lib, d0, env);
    EvalOver(lib, d0, x, env);
    EvalOver(lib, NegReduce(d0), x, env);
    Shares(d, y);
  }

  lemma Shares(d: real, y: real)
    requires y != 0.0
    ensures Ratio(d, y) == Times(d, Ratio(1.0, y)) && Ratio(-d, y) == Times(d, Ratio(-1.0, y))
  {
    hide Ratio;
    var z := Ratio(1.0, y);
    Over(1.0, y, z);
    NegatedRatio(1.0, y);
    assert (d * z) * y == d * (z * y);
    Over(d, y, Times(d, z));
    assert (d * -z) * y == -(d * (z * y));
    Over(-d, y, Times(d, -z));
  }

  lemma {:induction false} SquareTerms(lib: Library, f0: Node, env: string -> real, a: real)
    requires Eval(lib, f0, env) == Some(a)
    ensures Eval(lib, OneMinusSqr(f0), env) == Some(1.0 - Times(a, a))
    ensures Eval(lib, SqrMinusOne(f0), env) == Some(Times(a, a) - 1.0)
    ensures Eval(lib, OnePlusSqr(f0), env) == Some(1.0 + Times(a, a))
    ensures Eval(lib, SqrPlusOne(f0), env) == Some(Times(a, a) + 1.0)
  {
    hide Eval, SqrReduce, MinusReduce, PlusReduce, Times;
    EvalSqr(lib, f0, env);
    EvalCon(lib, 1.0, env);
    EvalMinus(lib, Con(1.0), SqrReduce(f0), env);
    EvalMinus(lib, SqrReduce(f0), Con(1.0), env);
    EvalPlus(lib, Con(1.0), SqrReduce(f0), env);
    EvalPlus(lib, SqrReduce(f0), Con(1.0), env);
  }

  /** d / sqrt(x) and d / (f sqrt(x)), with both signs. */
  lemma {:induction false} RootQuotients(lib: Library, f0: Node, d0: Node, x: Node, env: string -> real,
                                         a: real, d: real, y: real)
    requires lib.Valid() && IsGiven(lib, f0, d0, env, a, d) && Eval(lib, x, env) == Some(y) && y >= 0.0
    ensures lib.Root(y) != 0.0 ==>
      && Eval(lib, OverReduce(d0, SqrtReduce(x)), env) == Some(Times(d, Ratio(1.0, lib.Root(y))))
      && Eval(lib, OverReduce(NegReduce(d0), SqrtReduce(x)), env) == Some(Times(d, Ratio(-1.0, lib.Root(y))))
    ensures Times(a, lib.Root(y)) != 0.0 ==>
      && Eval(lib, OverReduce(d0, TimesReduce(f0, SqrtReduce(x))), env)
         == Some(Times(d, Ratio(1.0, Times(a, lib.Root(y)))))
      && Eval(lib, OverReduce(NegReduce(d0), TimesReduce(f0, SqrtReduce(x))), env)
         == Some(Times(d, Ratio(-1.0, Times(a, lib.Root(y)))))
  {
    hide Eval, OverReduce, NegReduce, SqrtReduce, TimesReduce, Times, Ratio, Library.Valid, Library.Root;
    var r := lib.Root(y);
    EvalSqrt(lib, x, env);
    EvalTimes(lib, f0, SqrtReduce(x), env);
    if r != 0.0 { OverBy(lib, d0, SqrtReduce(x), env, d, r); }
    if Times(a, r) != 0.0 { OverBy(lib, d0, TimesReduce(f0, SqrtReduce(x)), env, d, Times(a, r)); }
  }

  lemma {:induction false} SquareOf(lib: Library, g: Node, env: string -> real, y: real)
    requires lib.Valid() && Eval(lib, g, env) == Some(y) && !g.Const?
    ensures Eval(lib, PowerReduce(lib, g, Con(2.0)), env) == Some(Times(y, y))
  {
    hide Eval, PowerReduce, Library.Valid, Times;
    EvalCon(lib, 2.0, env);
    SecondPower(lib, y);
    EvalPower(lib, g, Con(2.0), env);
  }

  lemma SecondPower(lib: Library, y: real)
    ensures PowValue(lib, y, 2.0) == Some(Times(y, y))
  {
    hide Times;
    assert (2.0).Floor == 2;
    assert IPow(y, 2) == Times(y, IPow(y, 1)) && IPow(y, 1) == Times(y, IPow(y, 0));
    TimesUnits(y);
  }

  // ----- the rules by groups -----

  /** The rule of op evaluates to d times the derivative of op. */
  ghost predicate RuleIs(lib: Library, op: string, rule: Node, env: string -> real, a: real, d: real) {
    var s := FunctionOf(lib, op).slope(a);
    s.Some? && RuleHolds(op, a) ==> Eval(lib, rule, env) == Some(Times(d, s.value))
  }

  lemma {:induction false} RuleBy(lib: Library, op: string, rule: Node, env: string -> real, a: real, d: real, e: Entry)
    requires FunctionOf(lib, op) == e
    requires e.slope(a).Some? && RuleHolds(op, a) ==> Eval(lib, rule, env) == Some(Times(d, e.slope(a).value))
    ensures RuleIs(lib, op, rule, env, a, d)
  {}

  lemma SignNames(lib: Library)
    ensures FunctionOf(lib, "+") == Plus() && FunctionOf(lib, "-") == Minus()
    ensures FunctionOf(lib, "step") == Step() && FunctionOf(lib, "sign") == Sign()
    ensures FunctionOf(lib, "vt") == Scaled(lib.kBoverQ)
  {
    hide Plus, Minus, Step, Sign, Scaled;
  }

  lemma {:induction false} SignRules(lib: Library, f0: Node, d0: Node, env: string -> real, a: real, d: real)
    requires IsGiven(lib, f0, d0, env, a, d)
    ensures RuleIs(lib, "+", d0, env, a, d) && RuleIs(lib, "-", NegReduce(d0), env, a, d)
    ensures RuleIs(lib, "step", Con(0.0), env, a, d) && RuleIs(lib, "sign", Con(0.0), env, a, d)
    ensures RuleIs(lib, "vt", TimesReduce(d0, Con(lib.kBoverQ)), env, a, d)
  {
    hide Eval, NegReduce, TimesReduce, Times, RuleIs, RuleHolds, FunctionOf;
    SignNames(lib);
    EvalNeg(lib, d0, env);
    EvalCon(lib, 0.0, env);
    EvalCon(lib, lib.kBoverQ, env);
    EvalTimes(lib, d0, Con(lib.kBoverQ), env);
    Constants(d, d);
    RuleBy(lib, "+", d0, env, a, d, Plus());
    RuleBy(lib, "-", NegReduce(d0), env, a, d, Minus());
    RuleBy(lib, "step", Con(0.0), env, a, d, Step());
    RuleBy(lib, "sign", Con(0.0), env, a, d, Sign());
    RuleBy(lib, "vt", TimesReduce(d0, Con(lib.kBoverQ)), env, a, d, Scaled(lib.kBoverQ));
  }

  lemma SquareNames(lib: Library)
    ensures FunctionOf(lib, "sqr") == Sqr() && FunctionOf(lib, "norm") == Sqr()
  {
    hide Sqr;
  }

  lemma {:induction false} SquareRules(lib: Library, f0: Node, d0: Node, env: string -> real, a: real, d: real)
    requires IsGiven(lib, f0, d0, env, a, d)
    ensures RuleIs(lib, "sqr", TimesReduce(TimesReduce(Con(2.0), d0), f0), env, a, d)
    ensures RuleIs(lib, "norm", TimesReduce(TimesReduce(d0, Con(2.0)), f0), env, a, d)
  {
    hide Eval, TimesReduce, Times, RuleIs, RuleHolds, FunctionOf;
    SquareNames(lib);
    var x, y := TimesReduce(Con(2.0), d0), TimesReduce(d0, Con(2.0));
    EvalCon(lib, 2.0, env);
    EvalTimes(lib, Con(2.0), d0, env);
    EvalTimes(lib, x, f0, env);
    EvalTimes(lib, d0, Con(2.0), env);
    EvalTimes(lib, y, f0, env);
    Doubled(a, d);
    RuleBy(lib, "sqr", TimesReduce(x, f0), env, a, d, Sqr());
    RuleBy(lib, "norm", TimesReduce(y, f0), env, a, d, Sqr());
  }

  lemma Doubled(a: real, d: real)
    ensures Times(Times(2.0, d), a) == Times(d, Times(2.0, a)) == Times(Times(d, 2.0), a)
  {}

  lemma LnNames(lib: Library)
    ensures FunctionOf(lib, "ln") == Ln(lib) && FunctionOf(lib, "log10") == Log(lib, 10.0)
    ensures FunctionOf(lib, "log2") == Log(lib, 2.0)
  {
    hide Ln, Log;
  }

  lemma {:induction false} LnRules(lib: Library, f0: Node, d0: Node, env: string -> real, a: real, d: real)
    requires lib.Valid() && IsGiven(lib, f0, d0, env, a, d)
    ensures RuleIs(lib, "ln", OverReduce(d0, f0), env, a, d)
    ensures RuleIs(lib, "log10", OverReduce(OverReduce(d0, f0), LnReduce(lib, Con(10.0))), env, a, d)
    ensures RuleIs(lib, "log2", OverReduce(OverReduce(d0, f0), LnReduce(lib, Con(2.0))), env, a, d)
  {
    hide Eval, OverReduce, LnReduce, Times, Ratio, RuleIs, RuleHolds, Library.Valid, Library.Logarithm, FunctionOf;
    LnNames(lib);
    if a > 0.0 {
      OverBy(lib, d0, f0, env, d, a);
      LogRule(lib, f0, d0, env, a, d, 10.0);
      LogRule(lib, f0, d0, env, a, d, 2.0);
    }
    RuleBy(lib, "ln", OverReduce(d0, f0), env, a, d, Ln(lib));
    RuleBy(lib, "log10", OverReduce(OverReduce(d0, f0), LnReduce(lib, Con(10.0))), env, a, d, Log(lib, 10.0));
    RuleBy(lib, "log2", OverReduce(OverReduce(d0, f0), LnReduce(lib, Con(2.0))), env, a, d, Log(lib, 2.0));
  }

  lemma {:induction false} LogRule(lib: Library, f0: Node, d0: Node, env: string -> real, a: real, d: real, base: real)
    requires lib.Valid() && IsGiven(lib, f0, d0, env, a, d) && a > 0.0 && base > 0.0
    ensures lib.Logarithm(base) != 0.0 ==>
      Eval(lib, OverReduce(OverReduce(d0, f0), LnReduce(lib, Con(base))), env)
      == Some(Times(d, Ratio(Ratio(1.0, a), lib.Logarithm(base))))
  {
    hide Eval, OverReduce, LnReduce, Times, Ratio, Library.Valid, Library.Logarithm;
    var l := lib.Logarithm(base);
    EvalCon(lib, base, env);
    EvalLn(lib, Con(base), env);
    OverBy(lib, d0, f0, env, d, a);
    if l != 0.0 {
      EvalOver(lib, OverReduce(d0, f0), LnReduce(lib, Con(base)), env);
      Scaling(d, Ratio(1.0, a), l);
    }
  }

  lemma Scaling(d: real, x: real, y: real)
    requires y != 0.0
    ensures Ratio(Times(d, x), y) == Times(d, Ratio(x, y))
  {
    hide Ratio;
    var z := Ratio(x, y);
    Over(x, y, z);
    assert (d * z) * y == d * (z * y);
    Over(Times(d, x), y, Times(d, z));
  }

  lemma SqrtNames(lib: Library)
    ensures FunctionOf(lib, "sqrt") == Sqrt(lib)
  {
    hide Sqrt;
  }

  lemma {:induction false} SqrtRule(lib: Library, f0: Node, d0: Node, env: string -> real, a: real, d: real)
    requires lib.Valid() && IsGiven(lib, f0, d0, env, a, d)
    ensures RuleIs(lib, "sqrt", OverReduce(TimesReduce(Con(0.5), d0), SqrtReduce(f0)), env, a, d)
  {
    hide Eval, OverReduce, TimesReduce, SqrtReduce, Times, Ratio, RuleIs, RuleHolds, Library.Valid, Library.Root,
      FunctionOf;
    SqrtNames(lib);
    var n, r := TimesReduce(Con(0.5), d0), lib.Root(a);
    EvalCon(lib, 0.5, env);
    EvalTimes(lib, Con(0.5), d0, env);
    if a > 0.0 && r != 0.0 {
      EvalSqrt(lib, f0, env);
      EvalOver(lib, n, SqrtReduce(f0), env);
      TimesComm(0.5, d);
      Scaling(d, 0.5, r);
    }
    RuleBy(lib, "sqrt", OverReduce(n, SqrtReduce(f0)), env, a, d, Sqrt(lib));
  }

  lemma {:induction false} AppBy(lib: Library, op: string, func: string, d0: Node, f0: Node, env: string -> real,
                                 d: real, a: real, y: real)
    requires Eval(lib, d0, env) == Some(d) && Eval(lib, f0, env) == Some(a)
    requires FunctionOf(lib, func).value(a) == Some(y)
    requires FunctionOf(lib, op).slope(a).Some? ==> FunctionOf(lib, op).slope(a).value == y
    ensures RuleIs(lib, op, AppReduce(func, d0, f0), env, a, d)
  {
    hide Eval, FunctionOf, AppReduce, Times, RuleHolds;
    EvalApp(lib, func, d0, f0, env, d, a, y);
  }

  lemma ExpNames(lib: Library)
    ensures FunctionOf(lib, "exp") == Exp(lib) && FunctionOf(lib, "sinh") == Sinh(lib)
    ensures FunctionOf(lib, "cosh") == Cosh(lib) && FunctionOf(lib, "abs") == AbsEntry()
    ensures FunctionOf(lib, "sign") == Sign()
  {
    hide AbsEntry, Cosh, Exp, Sign, Sinh;
  }

  lemma {:induction false} ExpRules(lib: Library, f0: Node, d0: Node, env: string -> real, a: real, d: real)
    requires IsGiven(lib, f0, d0, env, a, d)
    ensures RuleIs(lib, "exp", AppReduce("exp", d0, f0), env, a, d)
    ensures RuleIs(lib, "sinh", AppReduce("cosh", d0, f0), env, a, d)
    ensures RuleIs(lib, "cosh", AppReduce("sinh", d0, f0), env, a, d)
    ensures RuleIs(lib, "abs", AppReduce("sign", d0, f0), env, a, d)
  {
    hide Eval, AppReduce, RuleIs, Library.Exponential, Library.HyperSine, Library.HyperCosine, FunctionOf;
    ExpNames(lib);
    AppBy(lib, "exp", "exp", d0, f0, env, d, a, lib.Exponential(a));
    AppBy(lib, "sinh", "cosh", d0, f0, env, d, a, lib.HyperCosine(a));
    AppBy(lib, "cosh", "sinh", d0, f0, env, d, a, lib.HyperSine(a));
    AppBy(lib, "abs", "sign", d0, f0, env, d, a, if a < 0.0 then -1.0 else 1.0);
  }

  lemma SinNames(lib: Library)
    ensures FunctionOf(lib, "sin") == Sin(lib) && FunctionOf(lib, "cos") == Cos(lib)
  {
    hide Cos, Sin;
  }

  lemma {:induction false} SinRules(lib: Library, f0: Node, d0: Node, env: string -> real, a: real, d: real)
    requires IsGiven(lib, f0, d0, env, a, d)
    ensures RuleIs(lib, "sin", AppReduce("cos", d0, f0), env, a, d)
    ensures RuleIs(lib, "cos", AppReduce("sin", NegReduce(d0), f0), env, a, d)
  {
    hide Eval, AppReduce, NegReduce, Times, RuleIs, RuleHolds, Library.Sine, Library.Cosine, FunctionOf;
    SinNames(lib);
    AppBy(lib, "sin", "cos", d0, f0, env, d, a, lib.Cosine(a));
    EvalNeg(lib, d0, env);
    EvalApp(lib, "sin", NegReduce(d0), f0, env, -d, a, lib.Sine(a));
    Products(d, lib.Sine(a));
    RuleBy(lib, "cos", AppReduce("sin", NegReduce(d0), f0), env, a, d, Cos(lib));
  }

  // ----- quotients of sine and cosine -----

  lemma TrigNames(lib: Library)
    ensures FunctionOf(lib, "sin") == Sin(lib) && FunctionOf(lib, "cos") == Cos(lib)
    ensures FunctionOf(lib, "sec") == Sec(lib) && FunctionOf(lib, "cosec") == Cosec(lib)
  {
    hide Cos, Cosec, Sec, Sin;
  }

  lemma {:induction false} TrigValues(lib: Library, f0: Node, env: string -> real, a: real)
    requires Eval(lib, f0, env) == Some(a)
    ensures Eval(lib, App1("sin", f0), env) == Some(lib.Sine(a))
    ensures Eval(lib, App1("cos", f0), env) == Some(lib.Cosine(a))
    ensures lib.Cosine(a) != 0.0 ==> Eval(lib, App1("sec", f0), env) == Some(Ratio(1.0, lib.Cosine(a)))
    ensures lib.Sine(a) != 0.0 ==> Eval(lib, App1("cosec", f0), env) == Some(Ratio(1.0, lib.Sine(a)))
  {
    hide Eval, Ratio, Times, Library.Sine, Library.Cosine, FunctionOf;
    TrigNames(lib);
    EvalUnary(lib, "sin", f0, env, a);
    EvalUnary(lib, "cos", f0, env, a);
    EvalUnary(lib, "sec", f0, env, a);
    EvalUnary(lib, "cosec", f0, env, a);
  }

  lemma RatioSquare(y: real)
    requires y != 0.0 && Times(y, y) != 0.0
    ensures Times(Ratio(1.0, y), Ratio(1.0, y)) == Ratio(1.0, Times(y, y))
  {
    hide Ratio;
    var z := Ratio(1.0, y);
    Over(1.0, y, z);
    assert (z * z) * (y * y) == (z * y) * (z * y);
    Over(1.0, Times(y, y), Times(z, z));
  }

  lemma TanNames(lib: Library)
    ensures FunctionOf(lib, "tan") == Tan(lib)
  {
    hide Tan;
  }

  lemma {:induction false} TanRule(lib: Library, f0: Node, d0: Node, env: string -> real, a: real, d: real)
    requires lib.Valid() && IsGiven(lib, f0, d0, env, a, d)
    ensures RuleIs(lib, "tan", TimesReduce(d0, PowerReduce(lib, App1("sec", f0), Con(2.0))), env, a, d)
  {
    hide Eval, TimesReduce, PowerReduce, Times, Ratio, RuleIs, RuleHolds, Library.Valid, Library.Sine, Library.Cosine,
      FunctionOf;
    TanNames(lib);
    var c, x := lib.Cosine(a), PowerReduce(lib, App1("sec", f0), Con(2.0));
    NonZero(c);
    if c != 0.0 {
      TrigValues(lib, f0, env, a);
      SquareOf(lib, App1("sec", f0), env, Ratio(1.0, c));
      EvalTimes(lib, d0, x, env);
      RatioSquare(c);
    }
    RuleBy(lib, "tan", TimesReduce(d0, x), env, a, d, Tan(lib));
  }

  lemma CotNames(lib: Library)
    ensures FunctionOf(lib, "cot") == Cot(lib)
  {
    hide Cot;
  }

  lemma {:induction false} CotRule(lib: Library, f0: Node, d0: Node, env: string -> real, a: real, d: real)
    requires lib.Valid() && IsGiven(lib, f0, d0, env, a, d)
    ensures RuleIs(lib, "cot", TimesReduce(NegReduce(d0), PowerReduce(lib, App1("cosec", f0), Con(2.0))), env, a, d)
  {
    hide Eval, TimesReduce, NegReduce, PowerReduce, Times, Ratio, RuleIs, RuleHolds, Library.Valid, Library.Sine,
      Library.Cosine, FunctionOf;
    CotNames(lib);
    var s, x := lib.Sine(a), PowerReduce(lib, App1("cosec", f0), Con(2.0));
    NonZero(s);
    if s != 0.0 {
      TrigValues(lib, f0, env, a);
      SquareOf(lib, App1("cosec", f0), env, Ratio(1.0, s));
      EvalNeg(lib, d0, env);
      EvalTimes(lib, NegReduce(d0), x, env);
      RatioSquare(s);
      NegatedRatio(1.0, Times(s, s));
      Products(d, Ratio(1.0, Times(s, s)));
    }
    RuleBy(lib, "cot", TimesReduce(NegReduce(d0), x), env, a, d, Cot(lib));
  }

  lemma SecNames(lib: Library)
    ensures FunctionOf(lib, "sec") == Sec(lib)
  {
    hide Sec;
  }

  lemma {:induction false} SecRule(lib: Library, f0: Node, d0: Node, env: string -> real, a: real, d: real)
    requires lib.Valid() && IsGiven(lib, f0, d0, env, a, d)
    ensures RuleIs(lib, "sec",
                   TimesReduce(d0, OverReduce(App1("sin", f0), PowerReduce(lib, App1("cos", f0), Con(2.0)))),
                   env, a, d)
  {
    hide Eval, TimesReduce, OverReduce, PowerReduce, Times, Ratio, RuleIs, RuleHolds, Library.Valid, Library.Sine,
      Library.Cosine, FunctionOf;
    SecNames(lib);
    var c, x := lib.Cosine(a), PowerReduce(lib, App1("cos", f0), Con(2.0));
    var y := OverReduce(App1("sin", f0), x);
    NonZero(c);
    if c != 0.0 {
      TrigValues(lib, f0, env, a);
      SquareOf(lib, App1("cos", f0), env, c);
      EvalOver(lib, App1("sin", f0), x, env);
      EvalTimes(lib, d0, y, env);
    }
    RuleBy(lib, "sec", TimesReduce(d0, y), env, a, d, Sec(lib));
  }

  lemma CosecNames(lib: Library)
    ensures FunctionOf(lib, "cosec") == Cosec(lib)
  {
    hide Cosec;
  }

  lemma {:induction false} CosecRule(lib: Library, f0: Node, d0: Node, env: string -> real, a: real, d: real)
    requires lib.Valid() && IsGiven(lib, f0, d0, env, a, d)
    ensures RuleIs(lib, "cosec",
                   TimesReduce(NegReduce(d0), OverReduce(App1("cos", f0), PowerReduce(lib, App1("sin", f0), Con(2.0)))),
                   env, a, d)
  {
    hide Eval, TimesReduce, NegReduce, OverReduce, PowerReduce, Times, Ratio, RuleIs, RuleHolds, Library.Valid,
      Library.Sine, Library.Cosine, FunctionOf;
    CosecNames(lib);
    var s, x := lib.Sine(a), PowerReduce(lib, App1("sin", f0), Con(2.0));
    var y := OverReduce(App1("cos", f0), x);
    NonZero(s);
    if s != 0.0 {
      TrigValues(lib, f0, env, a);
      SquareOf(lib, App1("sin", f0), env, s);
      EvalOver(lib, App1("cos", f0), x, env);
      EvalNeg(lib, d0, env);
      EvalTimes(lib, NegReduce(d0), y, env);
      NegatedRatio(lib.Cosine(a), Times(s, s));
      Products(d, Ratio(lib.Cosine(a), Times(s, s)));
    }
    RuleBy(lib, "cosec", TimesReduce(NegReduce(d0), y), env, a, d, Cosec(lib));
  }

  lemma SincNames(lib: Library)
    ensures FunctionOf(lib, "sinc") == Sinc(lib)
  {
    hide Sinc;
  }

  lemma {:induction false} SincRule(lib: Library, f0: Node, d0: Node, env: string -> real, a: real, d: real)
    requires lib.Valid() && IsGiven(lib, f0, d0, env, a, d)
    ensures RuleIs(lib, "sinc", TimesReduce(d0, OverReduce(MinusReduce(App1("cos", f0), App1("sinc", f0)), f0)),
                   env, a, d)
  {
    hide Eval, TimesReduce, OverReduce, MinusReduce, Times, Ratio, RuleIs, Library.Valid, Library.Sine,
      Library.Cosine, FunctionOf;
    SincNames(lib);
    var x := MinusReduce(App1("cos", f0), App1("sinc", f0));
    var y := OverReduce(x, f0);
    if a != 0.0 {
      TrigValues(lib, f0, env, a);
      EvalUnary(lib, "sinc", f0, env, a);
      EvalMinus(lib, App1("cos", f0), App1("sinc", f0), env);
      EvalOver(lib, x, f0, env);
      EvalTimes(lib, d0, y, env);
    }
    RuleBy(lib, "sinc", TimesReduce(d0, y), env, a, d, Sinc(lib));
  }

  // ----- inverse functions -----

  lemma ArcNames(lib: Library)
    ensures FunctionOf(lib, "arcsin") == Arcsin(lib) && FunctionOf(lib, "arccos") == Arccos(lib)
  {
    hide Arccos, Arcsin;
  }

  lemma {:induction false} ArcRules(lib: Library, f0: Node, d0: Node, env: string -> real, a: real, d: real)
    requires lib.Valid() && IsGiven(lib, f0, d0, env, a, d)
    ensures RuleIs(lib, "arcsin", OverReduce(d0, SqrtReduce(OneMinusSqr(f0))), env, a, d)
    ensures RuleIs(lib, "arccos", OverReduce(NegReduce(d0), SqrtReduce(OneMinusSqr(f0))), env, a, d)
  {
    hide Eval, OverReduce, NegReduce, SqrtReduce, TimesReduce, OneMinusSqr, Times, Ratio, RuleIs, RuleHolds,
      Library.Valid, Library.Root, Library.Arcsine, Library.Arccosine, FunctionOf;
    ArcNames(lib);
    SquareTerms(lib, f0, env, a);
    if -1.0 < a < 1.0 {
      InnerRoot(lib, a);
      RootQuotients(lib, f0, d0, OneMinusSqr(f0), env, a, d, 1.0 - Times(a, a));
    }
    RuleBy(lib, "arcsin", OverReduce(d0, SqrtReduce(OneMinusSqr(f0))), env, a, d, Arcsin(lib));
    RuleBy(lib, "arccos", OverReduce(NegReduce(d0), SqrtReduce(OneMinusSqr(f0))), env, a, d, Arccos(lib));
  }

  lemma ArctanNames(lib: Library)
    ensures FunctionOf(lib, "arctan") == Arctan(lib) && FunctionOf(lib, "arccot") == Arccot(lib)
  {
    hide Arccot, Arctan;
  }

  lemma {:induction false} ArctanRules(lib: Library, f0: Node, d0: Node, env: string -> real, a: real, d: real)
    requires IsGiven(lib, f0, d0, env, a, d)
    ensures RuleIs(lib, "arctan", OverReduce(d0, OnePlusSqr(f0)), env, a, d)
    ensures RuleIs(lib, "arccot", OverReduce(NegReduce(d0), OnePlusSqr(f0)), env, a, d)
  {
    hide Eval, OverReduce, NegReduce, OnePlusSqr, Times, Ratio, RuleIs, RuleHolds, Library.Arctangent, FunctionOf;
    ArctanNames(lib);
    SquareTerms(lib, f0, env, a);
    NonZero(a);
    OverBy(lib, d0, OnePlusSqr(f0), env, d, 1.0 + Times(a, a));
    RuleBy(lib, "arctan", OverReduce(d0, OnePlusSqr(f0)), env, a, d, Arctan(lib));
    RuleBy(lib, "arccot", OverReduce(NegReduce(d0), OnePlusSqr(f0)), env, a, d, Arccot(lib));
  }

  /** Where the rules of arcsec and arccosec are used. */
  lemma OuterRoot(lib: Library, a: real)
    requires lib.Valid() && Abs(a) > 1.0
    ensures Times(a, a) - 1.0 > 0.0 && lib.Root(Times(a, a) - 1.0) > 0.0
    ensures Times(a, lib.Root(Times(a, a) - 1.0)) != 0.0
  {
    hide Library.Valid, Times, Library.Root;
    OuterSquare(a);
    Roots(lib, Times(a, a) - 1.0);
    Products(a, lib.Root(Times(a, a) - 1.0));
  }

  lemma ArcsecNames(lib: Library)
    ensures FunctionOf(lib, "arcsec") == Arcsec(lib) && FunctionOf(lib, "arccosec") == Arccosec(lib)
  {
    hide Arccosec, Arcsec;
  }

  lemma {:induction false} ArcsecRules(lib: Library, f0: Node, d0: Node, env: string -> real, a: real, d: real)
    requires lib.Valid() && IsGiven(lib, f0, d0, env, a, d)
    ensures RuleIs(lib, "arcsec", OverReduce(d0, TimesReduce(f0, SqrtReduce(SqrMinusOne(f0)))), env, a, d)
    ensures RuleIs(lib, "arccosec", OverReduce(NegReduce(d0), TimesReduce(f0, SqrtReduce(SqrMinusOne(f0)))), env, a, d)
  {
    hide Eval, OverReduce, NegReduce, SqrtReduce, TimesReduce, SqrMinusOne, Times, Ratio, RuleIs, Library.Valid,
      Library.Root, Arccos, Arcsin, FunctionOf;
    ArcsecNames(lib);
    var x := TimesReduce(f0, SqrtReduce(SqrMinusOne(f0)));
    SquareTerms(lib, f0, env, a);
    if Abs(a) > 1.0 {
      OuterRoot(lib, a);
      RootQuotients(lib, f0, d0, SqrMinusOne(f0), env, a, d, Times(a, a) - 1.0);
    }
    RuleBy(lib, "arcsec", OverReduce(d0, x), env, a, d, Arcsec(lib));
    RuleBy(lib, "arccosec", OverReduce(NegReduce(d0), x), env, a, d, Arccosec(lib));
  }

  // ----- hyperbolic functions -----

  lemma HyperNames(lib: Library)
    ensures FunctionOf(lib, "tanh") == Tanh(lib) && FunctionOf(lib, "coth") == Coth(lib)
  {
    hide Coth, Tanh;
  }

  lemma {:induction false} HyperRules(lib: Library, f0: Node, d0: Node, env: string -> real, a: real, d: real)
    requires lib.Valid() && IsGiven(lib, f0, d0, env, a, d)
    ensures RuleIs(lib, "tanh", OverReduce(d0, PowerReduce(lib, App1("cosh", f0), Con(2.0))), env, a, d)
    ensures RuleIs(lib, "coth", OverReduce(NegReduce(d0), PowerReduce(lib, App1("sinh", f0), Con(2.0))), env, a, d)
  {
    hide Eval, OverReduce, NegReduce, PowerReduce, Times, Ratio, RuleIs, RuleHolds, Library.Valid, Library.HyperSine,
      Library.HyperCosine, FunctionOf;
    HyperNames(lib);
    var s, c := lib.HyperSine(a), lib.HyperCosine(a);
    var x, y := PowerReduce(lib, App1("cosh", f0), Con(2.0)), PowerReduce(lib, App1("sinh", f0), Con(2.0));
    HyperValues(lib, f0, env, a);
    SquareOf(lib, App1("cosh", f0), env, c);
    SquareOf(lib, App1("sinh", f0), env, s);
    if Times(c, c) != 0.0 { OverBy(lib, d0, x, env, d, Times(c, c)); }
    if Times(s, s) != 0.0 { OverBy(lib, d0, y, env, d, Times(s, s)); }
    RuleBy(lib, "tanh", OverReduce(d0, x), env, a, d, Tanh(lib));
    RuleBy(lib, "coth", OverReduce(NegReduce(d0), y), env, a, d, Coth(lib));
  }

  lemma HyperValueNames(lib: Library)
    ensures FunctionOf(lib, "sinh") == Sinh(lib) && FunctionOf(lib, "cosh") == Cosh(lib)
  {
    hide Cosh, Sinh;
  }

  lemma {:induction false} HyperValues(lib: Library, f0: Node, env: string -> real, a: real)
    requires Eval(lib, f0, env) == Some(a)
    ensures Eval(lib, App1("sinh", f0), env) == Some(lib.HyperSine(a))
    ensures Eval(lib, App1("cosh", f0), env) == Some(lib.HyperCosine(a))
  {
    hide Eval, Library.HyperSine, Library.HyperCosine, FunctionOf;
    HyperValueNames(lib);
    EvalUnary(lib, "sinh", f0, env, a);
    EvalUnary(lib, "cosh", f0, env, a);
  }

  lemma AreaRootNames(lib: Library)
    ensures FunctionOf(lib, "arsinh") == Arsinh(lib) && FunctionOf(lib, "arcosh") == Arcosh(lib)
  {
    hide Arcosh, Arsinh;
  }

  lemma {:induction false} AreaRootRules(lib: Library, f0: Node, d0: Node, env: string -> real, a: real, d: real)
    requires lib.Valid() && IsGiven(lib, f0, d0, env, a, d)
    ensures RuleIs(lib, "arsinh", OverReduce(d0, SqrtReduce(SqrPlusOne(f0))), env, a, d)
    ensures RuleIs(lib, "arcosh", OverReduce(d0, SqrtReduce(SqrMinusOne(f0))), env, a, d)
  {
    hide Eval, OverReduce, NegReduce, SqrtReduce, TimesReduce, SqrPlusOne, SqrMinusOne, Times, Ratio, RuleIs, RuleHolds,
      Library.Valid, Library.Root, Library.Logarithm, FunctionOf;
    AreaRootNames(lib);
    SquareTerms(lib, f0, env, a);
    NonZero(a);
    RootQuotients(lib, f0, d0, SqrPlusOne(f0), env, a, d, Times(a, a) + 1.0);
    if Times(a, a) - 1.0 >= 0.0 { RootQuotients(lib, f0, d0, SqrMinusOne(f0), env, a, d, Times(a, a) - 1.0); }
    assert Times(a, a) - 1.0 == Times(a, a) + -1.0;
    RuleBy(lib, "arsinh", OverReduce(d0, SqrtReduce(SqrPlusOne(f0))), env, a, d, Arsinh(lib));
    RuleBy(lib, "arcosh", OverReduce(d0, SqrtReduce(SqrMinusOne(f0))), env, a, d, Arcosh(lib));
  }

  lemma AreaNames(lib: Library)
    ensures FunctionOf(lib, "artanh") == Artanh(lib) && FunctionOf(lib, "arcoth") == Arcoth(lib)
  {
    hide Arcoth, Artanh;
  }

  lemma {:induction false} AreaRules(lib: Library, f0: Node, d0: Node, env: string -> real, a: real, d: real)
    requires IsGiven(lib, f0, d0, env, a, d)
    ensures RuleIs(lib, "artanh", OverReduce(d0, OneMinusSqr(f0)), env, a, d)
    ensures RuleIs(lib, "arcoth", OverReduce(NegReduce(d0), SqrMinusOne(f0)), env, a, d)
  {
    hide Eval, OverReduce, NegReduce, OneMinusSqr, SqrMinusOne, Times, Ratio, RuleIs, RuleHolds, Library.Logarithm,
      FunctionOf;
    AreaNames(lib);
    SquareTerms(lib, f0, env, a);
    if 1.0 - Times(a, a) != 0.0 {
      OverBy(lib, d0, OneMinusSqr(f0), env, d, 1.0 - Times(a, a));
      OverBy(lib, d0, SqrMinusOne(f0), env, d, Times(a, a) - 1.0);
    }
    RuleBy(lib, "artanh", OverReduce(d0, OneMinusSqr(f0)), env, a, d, Artanh(lib));
    RuleBy(lib, "arcoth", OverReduce(NegReduce(d0), SqrMinusOne(f0)), env, a, d, Arcoth(lib));
  }

  lemma AreaSecantNames(lib: Library)
    ensures FunctionOf(lib, "arsech") == Arsech(lib) && FunctionOf(lib, "arcosech") == Arcosech(lib)
  {
    hide Arcosech, Arsech;
  }

  lemma {:induction false} AreaSecantRules(lib: Library, f0: Node, d0: Node, env: string -> real, a: real, d: real)
    requires lib.Valid() && IsGiven(lib, f0, d0, env, a, d)
    ensures RuleIs(lib, "arsech", OverReduce(NegReduce(d0), TimesReduce(f0, SqrtReduce(OneMinusSqr(f0)))), env, a, d)
    ensures RuleIs(lib, "arcosech", OverReduce(NegReduce(d0), TimesReduce(f0, SqrtReduce(OnePlusSqr(f0)))), env, a, d)
  {
    hide Eval, OverReduce, NegReduce, SqrtReduce, TimesReduce, OneMinusSqr, OnePlusSqr, Times, Ratio, RuleIs,
      Library.Valid, Library.Root, Library.Logarithm, Arsinh, FunctionOf;
    AreaSecantNames(lib);
    var x, y := TimesReduce(f0, SqrtReduce(OneMinusSqr(f0))), TimesReduce(f0, SqrtReduce(OnePlusSqr(f0)));
    SquareTerms(lib, f0, env, a);
    NonZero(a);
    RootQuotients(lib, f0, d0, OnePlusSqr(f0), env, a, d, 1.0 + Times(a, a));
    if 0.0 < a < 1.0 {
      InnerRoot(lib, a);
      RootQuotients(lib, f0, d0, OneMinusSqr(f0), env, a, d, 1.0 - Times(a, a));
    }
    RuleBy(lib, "arsech", OverReduce(NegReduce(d0), x), env, a, d, Arsech(lib));
    RuleBy(lib, "arcosech", OverReduce(NegReduce(d0), y), env, a, d, Arcosech(lib));
  }

  lemma {:induction false} EvalChoice(lib: Library, f0: Node, f1: Node, f2: Node, env: string -> real, c: bool)
    requires Truth(lib, f0, env) == Some(c)
    ensures Eval(lib, App3("?:", f0, f1, f2), env) == if c then Eval(lib, f1, env) else Eval(lib, f2, env)
  {
    hide FunctionOf, UnaryValue, BinaryValue, Truth;
  }

  lemma {:induction false} TruthLess(lib: Library, f0: Node, f1: Node, env: string -> real, a: real, b: real)
    requires Eval(lib, f0, env) == Some(a) && Eval(lib, f1, env) == Some(b)
    ensures Truth(lib, App2("<", f0, f1), env) == Some(a < b)
  {
    hide FunctionOf, UnaryValue, BinaryValue, Eval;
  }

  lemma LimexpNames(lib: Library)
    ensures FunctionOf(lib, "exp") == Exp(lib) && FunctionOf(lib, "limexp") == Limexp(lib)
  {
    hide Exp, Limexp;
  }

  lemma {:induction false} LimexpValue(lib: Library, f0: Node, d0: Node, env: string -> real, a: real, d: real)
    requires lib.Valid() && IsGiven(lib, f0, d0, env, a, d)
    ensures RuleIs(lib, "limexp", LimexpRule(lib, f0, d0), env, a, d)
  {
    hide Eval, Truth, TimesReduce, Times, RuleIs, RuleHolds, Library.Valid, Library.Exponential, FunctionOf;
    LimexpNames(lib);
    var less := App2("<", f0, Con(lib.limitexp));
    var x := App3("?:", less, App1("exp", f0), Con(lib.expLimit));
    EvalCon(lib, lib.limitexp, env);
    EvalCon(lib, lib.expLimit, env);
    TruthLess(lib, f0, Con(lib.limitexp), env, a, lib.limitexp);
    EvalUnary(lib, "exp", f0, env, a);
    EvalChoice(lib, less, App1("exp", f0), Con(lib.expLimit), env, a < lib.limitexp);
    Limits(lib);
    EvalTimes(lib, d0, x, env);
    RuleBy(lib, "limexp", TimesReduce(d0, x), env, a, d, Limexp(lib));
  }

  // ----- all rules -----

  const PLAIN: set<string> :=
    {"+", "-", "step", "sign", "vt", "sqr", "norm", "ln", "log10", "log2", "sqrt", "exp", "sinh", "cosh", "abs",
      "sin", "cos"}

  lemma {:induction false} PlainRules(lib: Library, op: string, f0: Node, d0: Node, env: string -> real, a: real,
                                       d: real)
    requires lib.Valid() && IsGiven(lib, f0, d0, env, a, d) && op in PLAIN
    ensures op in UNARY && RuleIs(lib, op, UnaryRule(lib, op, f0, d0), env, a, d)
  {
    hide RuleIs, IsGiven, Library.Valid, OverReduce, NegReduce, SqrtReduce, TimesReduce, PowerReduce, MinusReduce,
      LnReduce, AppReduce, OneMinusSqr, SqrMinusOne, OnePlusSqr, SqrPlusOne, LimexpRule;
    if op in {"+", "-", "step", "sign", "vt"} {
      SignRules(lib, f0, d0, env, a, d);
    } else if op in {"sqr", "norm"} {
      SquareRules(lib, f0, d0, env, a, d);
    } else if op in {"ln", "log10", "log2"} {
      LnRules(lib, f0, d0, env, a, d);
    } else if op == "sqrt" {
      SqrtRule(lib, f0, d0, env, a, d);
    } else if op in {"exp", "sinh", "cosh", "abs"} {
      ExpRules(lib, f0, d0, env, a, d);
    } else if op in {"sin", "cos"} {
      SinRules(lib, f0, d0, env, a, d);
    }
  }

  lemma {:induction false} OtherRules(lib: Library, op: string, f0: Node, d0: Node, env: string -> real, a: real,
                                       d: real)
    requires lib.Valid() && IsGiven(lib, f0, d0, env, a, d) && op in UNARY && op !in PLAIN
    ensures RuleIs(lib, op, UnaryRule(lib, op, f0, d0), env, a, d)
  {
    hide RuleIs, IsGiven, Library.Valid, OverReduce, NegReduce, SqrtReduce, TimesReduce, PowerReduce, MinusReduce,
      LnReduce, AppReduce, OneMinusSqr, SqrMinusOne, OnePlusSqr, SqrPlusOne, LimexpRule;
    if op == "tan" {
      TanRule(lib, f0, d0, env, a, d);
    } else if op == "cot" {
      CotRule(lib, f0, d0, env, a, d);
    } else if op == "sec" {
      SecRule(lib, f0, d0, env, a, d);
    } else if op == "cosec" {
      CosecRule(lib, f0, d0, env, a, d);
    } else if op == "sinc" {
      SincRule(lib, f0, d0, env, a, d);
    } else if op in {"arcsin", "arccos"} {
      ArcRules(lib, f0, d0, env, a, d);
    } else if op in {"arctan", "arccot"} {
      ArctanRules(lib, f0, d0, env, a, d);
    } else if op in {"arcsec", "arccosec"} {
      ArcsecRules(lib, f0, d0, env, a, d);
    } else if op in {"tanh", "coth"} {
      HyperRules(lib, f0, d0, env, a, d);
    } else if op in {"arsinh", "arcosh"} {
      AreaRootRules(lib, f0, d0, env, a, d);
    } else if op in {"artanh", "arcoth"} {
      AreaRules(lib, f0, d0, env, a, d);
    } else if op in {"arsech", "arcosech"} {
      AreaSecantRules(lib, f0, d0, env, a, d);
    } else {
      LimexpValue(lib, f0, d0, env, a, d);
    }
  }

  /** The rule of every function of the table evaluates to its derivative times d, wherever it
      has one and the rule holds. */
  lemma {:induction false} UnaryRuleIs(lib: Library, op: string, f0: Node, d0: Node, env: string -> real, a: real,
                                       d: real)
    requires lib.Valid() && IsGiven(lib, f0, d0, env, a, d) && op in UNARY
    ensures RuleIs(lib, op, UnaryRule(lib, op, f0, d0), env, a, d)
  {
    hide RuleIs, IsGiven, Library.Valid, UnaryRule;
    if op in PLAIN {
      PlainRules(lib, op, f0, d0, env, a, d);
    } else {
      OtherRules(lib, op, f0, d0, env, a, d);
    }
  }
}
