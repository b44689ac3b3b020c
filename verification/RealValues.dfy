/** The values of expressions on reals, which the simplifications of the differentiator keep. */
module RealValues {
  import opened ComplexNumbers
  import opened Options
  import opened Equations
  import opened Differentiation
  import opened MathLibrary
  import opened Germs

  // ----- values -----

  function UnaryValue(lib: Library, op: string, v: Option<real>): Option<real> {
    if v.None? then None else FunctionOf(lib, op).value(v.value)
  }

  function BinaryValue(lib: Library, op: string, v: Option<real>, w: Option<real>): Option<real> {
    if v.None? || w.None? then None
    else match op
      case "+" => Some(v.value + w.value)
      case "-" => Some(v.value - w.value)
      case "*" => Some(Times(v.value, w.value))
      case "/" => if w.value == 0.0 then None else Some(Ratio(v.value, w.value))
      case "^" => PowValue(lib, v.value, w.value)
      case "hypot" => Some(HypotValue(lib, v.value, w.value))
      case _ => None
  }

  function Compare(op: string, v: real, w: real): Option<bool> {
    match op
    case "<" => Some(v < w)
    case ">" => Some(v > w)
    case "<=" => Some(v <= w)
    case ">=" => Some(v >= w)
    case "==" => Some(v == w)
    case "!=" => Some(v != w)
    case _ => None
  }

  function Connect(op: string, p: bool, q: bool): Option<bool> {
    match op
    case "&&" => Some(p && q)
    case "||" => Some(p || q)
    case "^^" => Some(p != q)
    case _ => None
  }

  const COMPARISONS: set<string> := {"<", ">", "<=", ">=", "==", "!="}

  /** The value of an expression; absent where it has no real one. */
  function Eval(lib: Library, e: Node, env: string -> real): Option<real> {
    match e
    case Const(d) => Some(d)
    case Reference(n) => Some(env(n))
    case Application(op, args) =>
      if |args| == 1 then UnaryValue(lib, op, Eval(lib, args[0], env))
      else if |args| == 2 then BinaryValue(lib, op, Eval(lib, args[0], env), Eval(lib, args[1], env))
      else if |args| == 3 && op == "?:" then
        var c := Truth(lib, args[0], env);
        if c.None? then None else if c.value then Eval(lib, args[1], env) else Eval(lib, args[2], env)
      else None
  }

  /** The truth of a condition. */
  function Truth(lib: Library, e: Node, env: string -> real): Option<bool> {
    if !e.Application? then None
    else if |e.args| == 1 && e.n == "!" then
      var p := Truth(lib, e.args[0], env);
      if p.None? then None else Some(!p.value)
    else if |e.args| == 2 && e.n in COMPARISONS then
      var v, w := Eval(lib, e.args[0], env), Eval(lib, e.args[1], env);
      if v.None? || w.None? then None else Compare(e.n, v.value, w.value)
    else if |e.args| == 2 then
      var p, q := Truth(lib, e.args[0], env), Truth(lib, e.args[1], env);
      if p.None? || q.None? then None else Connect(e.n, p.value, q.value)
    else None
  }

  lemma {:induction false} EvalUnary(lib: Library, op: string, f0: Node, env: string -> real, a: real)
    requires Eval(lib, f0, env) == Some(a)
    ensures Eval(lib, App1(op, f0), env) == FunctionOf(lib, op).value(a)
  {
    hide FunctionOf;
  }

  lemma {:induction false} EvalBinary(lib: Library, f0: Node, f1: Node, env: string -> real, a: real, b: real)
    requires Eval(lib, f0, env) == Some(a) && Eval(lib, f1, env) == Some(b)
    ensures Eval(lib, App2("+", f0, f1), env) == Some(a + b) && Eval(lib, App2("-", f0, f1), env) == Some(a - b)
    ensures Eval(lib, App2("*", f0, f1), env) == Some(Times(a, b))
    ensures Eval(lib, App2("/", f0, f1), env) == if b == 0.0 then None else Some(Ratio(a, b))
  {
    hide FunctionOf, Times, Ratio;
  }

  lemma {:induction false} EvalPowers(lib: Library, f0: Node, f1: Node, env: string -> real, a: real, b: real)
    requires Eval(lib, f0, env) == Some(a) && Eval(lib, f1, env) == Some(b)
    ensures Eval(lib, App2("^", f0, f1), env) == PowValue(lib, a, b)
    ensures Eval(lib, App2("hypot", f0, f1), env) == Some(HypotValue(lib, a, b))
  {
    hide FunctionOf, PowValue, HypotValue;
  }

  lemma {:induction false} EvalCon(lib: Library, d: real, env: string -> real)
    ensures Eval(lib, Con(d), env) == Some(d)
  {}

  lemma {:induction false} EvalConst(lib: Library, f: Node, env: string -> real)
    ensures f.Const? ==> Eval(lib, f, env) == Some(f.d)
  {}

  lemma {:induction false} EvalReference(lib: Library, n: string, env: string -> real)
    ensures Eval(lib, Reference(n), env) == Some(env(n))
  {}

  lemma {:induction false} EvalSign(lib: Library, f0: Node, env: string -> real, a: real)
    requires Eval(lib, f0, env) == Some(a)
    ensures Eval(lib, App1("+", f0), env) == Some(a) && Eval(lib, App1("-", f0), env) == Some(-a)
    ensures Eval(lib, App1("sqr", f0), env) == Some(Times(a, a))
  {
    hide Times, Eval;
    EvalUnary(lib, "+", f0, env, a);
    EvalUnary(lib, "-", f0, env, a);
    EvalUnary(lib, "sqr", f0, env, a);
  }

  // ----- simplifications -----

  lemma {:induction false} EvalNeg(lib: Library, f0: Node, env: string -> real)
    requires Eval(lib, f0, env).Some?
    ensures Eval(lib, NegReduce(f0), env) == Some(-Eval(lib, f0, env).value)
  {
    hide Eval;
    EvalConst(lib, f0, env);
    EvalCon(lib, 0.0, env);
    EvalCon(lib, -Eval(lib, f0, env).value, env);
    EvalSign(lib, f0, env, Eval(lib, f0, env).value);
  }

  lemma {:induction false} EvalPlus(lib: Library, f0: Node, f1: Node, env: string -> real)
    requires Eval(lib, f0, env).Some? && Eval(lib, f1, env).Some?
    ensures Eval(lib, PlusReduce(f0, f1), env) == Some(Eval(lib, f0, env).value + Eval(lib, f1, env).value)
  {
    hide Eval;
    EvalConst(lib, f0, env);
    EvalConst(lib, f1, env);
    EvalCon(lib, 0.0, env);
    EvalCon(lib, Eval(lib, f0, env).value + Eval(lib, f1, env).value, env);
    EvalBinary(lib, f0, f1, env, Eval(lib, f0, env).value, Eval(lib, f1, env).value);
  }

  lemma {:induction false} EvalMinus(lib: Library, f0: Node, f1: Node, env: string -> real)
    requires Eval(lib, f0, env).Some? && Eval(lib, f1, env).Some?
    ensures Eval(lib, MinusReduce(f0, f1), env) == Some(Eval(lib, f0, env).value - Eval(lib, f1, env).value)
  {
    hide Eval, NegReduce;
    EvalConst(lib, f0, env);
    EvalConst(lib, f1, env);
    EvalCon(lib, 0.0, env);
    EvalCon(lib, Eval(lib, f0, env).value - Eval(lib, f1, env).value, env);
    EvalNeg(lib, f1, env);
    EvalBinary(lib, f0, f1, env, Eval(lib, f0, env).value, Eval(lib, f1, env).value);
  }

  lemma Constants(a: real, b: real)
    ensures Times(-1.0, b) == -b && Times(a, -1.0) == -a
    ensures Times(1.0, b) == b && Times(a, 1.0) == a && Times(0.0, b) == 0.0 && Times(a, 0.0) == 0.0
  {}

  lemma {:induction false} EvalTimes(lib: Library, f0: Node, f1: Node, env: string -> real)
    requires Eval(lib, f0, env).Some? && Eval(lib, f1, env).Some?
    ensures Eval(lib, TimesReduce(f0, f1), env) == Some(Times(Eval(lib, f0, env).value, Eval(lib, f1, env).value))
  {
    hide Eval, NegReduce, Times;
    EvalConst(lib, f0, env);
    EvalConst(lib, f1, env);
    EvalCon(lib, 0.0, env);
    EvalCon(lib, Times(Eval(lib, f0, env).value, Eval(lib, f1, env).value), env);
    var a, b := Eval(lib, f0, env).value, Eval(lib, f1, env).value;
    EvalNeg(lib, f0, env);
    EvalNeg(lib, f1, env);
    Constants(a, b);
    EvalBinary(lib, f0, f1, env, a, b);
  }

  lemma {:induction false} EvalSqr(lib: Library, f0: Node, env: string -> real)
    requires Eval(lib, f0, env).Some?
    ensures Eval(lib, SqrReduce(f0), env) == Some(Times(Eval(lib, f0, env).value, Eval(lib, f0, env).value))
  {
    hide Eval, Times;
    EvalConst(lib, f0, env);
    EvalCon(lib, 0.0, env);
    EvalCon(lib, 1.0, env);
    EvalCon(lib, Times(Eval(lib, f0, env).value, Eval(lib, f0, env).value), env);
    var a := Eval(lib, f0, env).value;
    Constants(a, a);
    EvalSign(lib, f0, env, a);
  }

  lemma OverSquare(v: real)
    requires Times(v, v) != 0.0
    ensures v != 0.0 && Ratio(v, Times(v, v)) == Ratio(1.0, v)
  {
    assert v != 0.0 by { TimesUnits(v); }
    assert (1.0 / v) * (v * v) == v by {
      assert (1.0 / v) * v == 1.0;
      assert (1.0 / v) * (v * v) == ((1.0 / v) * v) * v;
    }
    Divided(1.0 / v, v * v, v);
  }

  lemma Ratios(a: real)
    ensures Ratio(a, 1.0) == a && Ratio(a, -1.0) == -a && (a != 0.0 ==> Ratio(0.0, a) == 0.0)
  {}

  lemma {:induction false} EvalOver(lib: Library, f0: Node, f1: Node, env: string -> real)
    requires Eval(lib, f0, env).Some? && Eval(lib, f1, env).Some? && Eval(lib, f1, env).value != 0.0
    ensures Eval(lib, OverReduce(f0, f1), env) == Some(Ratio(Eval(lib, f0, env).value, Eval(lib, f1, env).value))
  {
    hide Eval, NegReduce, Times, Ratio;
    EvalConst(lib, f0, env);
    EvalConst(lib, f1, env);
    EvalCon(lib, 0.0, env);
    EvalCon(lib, 1.0, env);
    EvalCon(lib, Ratio(Eval(lib, f0, env).value, Eval(lib, f1, env).value), env);
    var a, b := Eval(lib, f0, env).value, Eval(lib, f1, env).value;
    EvalNeg(lib, f0, env);
    Ratios(a);
    Ratios(b);
    EvalBinary(lib, f0, f1, env, a, b);
    var (g0, g1) := OverReduceAdv(f0, f1);
    if g1 != f1 {
      assert f1 == App1("sqr", f0);
      EvalSign(lib, f0, env, a);
      OverSquare(a);
      EvalBinary(lib, g0, g1, env, 1.0, a);
    }
  }

  lemma {:induction false} EvalSqrt(lib: Library, f0: Node, env: string -> real)
    requires lib.Valid() && Eval(lib, f0, env).Some? && Eval(lib, f0, env).value >= 0.0
    ensures Eval(lib, SqrtReduce(f0), env) == Some(lib.Root(Eval(lib, f0, env).value))
  {
    hide Eval, Library.Valid, Times, Sqrt, Library.Root;
    EvalConst(lib, f0, env);
    EvalCon(lib, 0.0, env);
    EvalCon(lib, 1.0, env);
    var a := Eval(lib, f0, env).value;
    TimesUnits(1.0);
    TimesUnits(0.0);
    RootIs(lib, 1.0, 1.0);
    RootIs(lib, 0.0, 0.0);
    EvalUnary(lib, "sqrt", f0, env, a);
    SqrtName(lib, a);
  }

  lemma SqrtName(lib: Library, a: real)
    requires a >= 0.0
    ensures FunctionOf(lib, "sqrt").value(a) == Some(lib.Root(a))
  {
    hide Library.Root, Sqrt;
    assert FunctionOf(lib, "sqrt") == Sqrt(lib);
    SqrtEntry(lib, a);
  }

  /** The logarithm; a reference to e is taken for the base of the natural logarithm. */
  lemma {:induction false} EvalLn(lib: Library, f0: Node, env: string -> real)
    requires lib.Valid() && Eval(lib, f0, env).Some? && Eval(lib, f0, env).value > 0.0
    requires f0 == Reference("e") ==> env("e") == lib.euler
    ensures Eval(lib, LnReduce(lib, f0), env) == Some(lib.Logarithm(Eval(lib, f0, env).value))
  {
    hide Eval, Library.Valid, Times, Ln, Library.Logarithm;
    EvalConst(lib, f0, env);
    EvalCon(lib, 0.0, env);
    EvalCon(lib, 1.0, env);
    EvalReference(lib, "e", env);
    var a := Eval(lib, f0, env).value;
    LnIdentities(lib, a);
    EvalUnary(lib, "ln", f0, env, a);
    LnName(lib, a);
  }

  lemma LnName(lib: Library, a: real)
    requires a > 0.0
    ensures FunctionOf(lib, "ln").value(a) == Some(lib.Logarithm(a))
  {
    hide Library.Logarithm, Ln;
    assert FunctionOf(lib, "ln") == Ln(lib);
    LnEntry(lib, a);
  }

  lemma {:induction false} OnePower(n: nat)
    ensures IPow(1.0, n) == 1.0
  {
    if n > 0 { OnePower(n - 1); }
  }

  lemma {:induction false} ZeroPower(n: nat)
    requires n > 0
    ensures IPow(0.0, n) == 0.0
  {
    TimesUnits(IPow(0.0, n - 1));
  }

  lemma PowerUnits(lib: Library, a: real, b: real)
    requires lib.Valid()
    ensures PowValue(lib, 1.0, b) == Some(1.0) && PowValue(lib, a, 1.0) == Some(a)
    ensures b > 0.0 ==> PowValue(lib, 0.0, b) == Some(0.0)
    ensures PowValue(lib, a, 0.0) == Some(1.0)
  {
    hide Library.Valid, Times, Library.Exponential, Library.Logarithm, Ratio;
    LnIdentities(lib, 1.0);
    ExpPositive(lib, 0.0);
    TimesUnits(b);
    PositivePower(lib, 1.0, b);
    assert IPow(a, 1) == Times(a, IPow(a, 0));
    TimesUnits(a);
    assert (1.0).Floor == 1 && (0.0).Floor == 0;
    if b > 0.0 && IsInteger(b) { ZeroPower(b.Floor); }
  }

  lemma {:induction false} EvalPower(lib: Library, f0: Node, f1: Node, env: string -> real)
    requires lib.Valid() && Eval(lib, f0, env).Some? && Eval(lib, f1, env).Some?
    requires PowValue(lib, Eval(lib, f0, env).value, Eval(lib, f1, env).value).Some?
    requires IsZero(f0) ==> Eval(lib, f1, env).value > 0.0
    ensures Eval(lib, PowerReduce(lib, f0, f1), env)
         == PowValue(lib, Eval(lib, f0, env).value, Eval(lib, f1, env).value)
  {
    hide Eval, Library.Valid, PowValue;
    EvalConst(lib, f0, env);
    EvalConst(lib, f1, env);
    EvalCon(lib, 0.0, env);
    EvalCon(lib, 1.0, env);
    EvalCon(lib, lib.pow(Eval(lib, f0, env).value, Eval(lib, f1, env).value), env);
    var a, b := Eval(lib, f0, env).value, Eval(lib, f1, env).value;
    PowerUnits(lib, a, b);
    LibraryPower(lib, a, b);
    EvalPowers(lib, f0, f1, env, a, b);
  }

  lemma {:induction false} EvalHypot(lib: Library, f0: Node, f1: Node, env: string -> real)
    requires lib.Valid() && Eval(lib, f0, env).Some? && Eval(lib, f1, env).Some?
    ensures Eval(lib, HypotReduce(lib, f0, f1), env)
         == Some(HypotValue(lib, Eval(lib, f0, env).value, Eval(lib, f1, env).value))
  {
    hide Eval, Library.Valid, Times, Library.Root, SqrtReduce, SqrReduce;
    EvalConst(lib, f0, env);
    EvalConst(lib, f1, env);
    EvalCon(lib, 0.0, env);
    EvalCon(lib, lib.hypot(Eval(lib, f0, env).value, Eval(lib, f1, env).value), env);
    var a, b := Eval(lib, f0, env).value, Eval(lib, f1, env).value;
    LibraryHypot(lib, a, b);
    EvalPowers(lib, f0, f1, env, a, b);
    EvalSqr(lib, f0, env);
    EvalSqr(lib, f1, env);
    NonZero(a);
    NonZero(b);
    EvalSqrt(lib, SqrReduce(f0), env);
    EvalSqrt(lib, SqrReduce(f1), env);
    TimesUnits(0.0);
    RootIs(lib, 0.0, 0.0);
  }

  /** An outer derivative times an inner one. */
  lemma {:induction false} EvalApp(lib: Library, func: string, d0: Node, f0: Node, env: string -> real, d: real,
                                   a: real, y: real)
    requires Eval(lib, d0, env) == Some(d) && Eval(lib, f0, env) == Some(a)
    requires FunctionOf(lib, func).value(a) == Some(y)
    ensures Eval(lib, AppReduce(func, d0, f0), env) == Some(Times(d, y))
  {
    hide FunctionOf, Times, TimesReduce, Eval;
    EvalConst(lib, d0, env);
    EvalCon(lib, 0.0, env);
    EvalUnary(lib, func, f0, env, a);
    EvalTimes(lib, d0, App1(func, f0), env);
    TimesUnits(y);
  }
}
