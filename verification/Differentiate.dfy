/** Symbolic differentiation with the simplifications applied on the way. */
module Differentiation {
  import opened ComplexNumbers
  import opened Equations
  import opened MathLibrary

  type Node = Expr<real>

  function Con(d: real): Node { Const(d) }

  function App1(op: string, f0: Node): Node { Application(op, [f0]) }

  function App2(op: string, f0: Node, f1: Node): Node { Application(op, [f0, f1]) }

  function App3(op: string, f0: Node, f1: Node, f2: Node): Node { Application(op, [f0, f1, f2]) }

  predicate IsVal(f: Node, d: real) { f.Const? && f.d == d }

  predicate IsZero(f: Node) { IsVal(f, 0.0) }

  predicate IsOne(f: Node) { IsVal(f, 1.0) }

  predicate IsNeg(f: Node) { IsVal(f, -1.0) }

  // ----- simplifications -----

  function PlusReduce(f0: Node, f1: Node): Node {
    if IsZero(f0) && IsZero(f1) then Con(0.0)
    else if IsZero(f0) then f1
    else if IsZero(f1) then f0
    else if f0.Const? && f1.Const? then Con(f0.d + f1.d)
    else App2("+", f0, f1)
  }

  function NegReduce(f0: Node): Node {
    if IsZero(f0) then Con(0.0) else if f0.Const? then Con(-f0.d) else App1("-", f0)
  }

  function MinusReduce(f0: Node, f1: Node): Node {
    if IsZero(f0) && IsZero(f1) then Con(0.0)
    else if IsZero(f0) then NegReduce(f1)
    else if IsZero(f1) then f0
    else if f0.Const? && f1.Const? then Con(f0.d - f1.d)
    else App2("-", f0, f1)
  }

  function TimesReduce(f0: Node, f1: Node): Node {
    if IsZero(f0) || IsZero(f1) then Con(0.0)
    else if IsOne(f0) then f1
    else if IsNeg(f0) then NegReduce(f1)
    else if IsOne(f1) then f0
    else if IsNeg(f1) then NegReduce(f0)
    else if f0.Const? && f1.Const? then Con(Times(f0.d, f1.d))
    else App2("*", f0, f1)
  }

  /** x / sqr(x) becomes 1 / x. */
  function OverReduceAdv(f0: Node, f1: Node): (Node, Node) {
    if f0.Reference? && f1.Application? && f1.n == "sqr" && |f1.args| == 1 && f1.args[0] == f0
    then (Con(1.0), f0) else (f0, f1)
  }

  function OverReduce(f0: Node, f1: Node): Node {
    if IsOne(f0) && IsOne(f1) then Con(1.0)
    else if IsZero(f0) then Con(0.0)
    else if f0.Const? && f1.Const? then (if IsZero(f1) then App2("/", f0, f1) else Con(Ratio(f0.d, f1.d)))
    else if IsOne(f1) then f0
    else if IsNeg(f1) then NegReduce(f0)
    else
      var (g0, g1) := OverReduceAdv(f0, f1);
      App2("/", g0, g1)
  }

  function PowerReduce(lib: Library, f0: Node, f1: Node): Node {
    if IsOne(f0) then Con(1.0)
    else if IsZero(f0) then Con(0.0)
    else if f0.Const? && f1.Const? then (if IsZero(f1) then Con(1.0) else Con(lib.pow(f0.d, f1.d)))
    else if IsOne(f1) then f0
    else App2("^", f0, f1)
  }

  function LnReduce(lib: Library, f0: Node): Node {
    if IsOne(f0) then Con(0.0)
    else if IsVal(f0, lib.euler) || f0 == Reference("e") then Con(1.0)
    else App1("ln", f0)
  }

  function SqrtReduce(f0: Node): Node {
    if IsOne(f0) then Con(1.0) else if IsZero(f0) then Con(0.0) else App1("sqrt", f0)
  }

  function SqrReduce(f0: Node): Node {
    if IsOne(f0) then Con(1.0)
    else if IsZero(f0) then Con(0.0)
    else if f0.Const? then Con(Times(f0.d, f0.d))
    else App1("sqr", f0)
  }

  function HypotReduce(lib: Library, f0: Node, f1: Node): Node {
    if IsZero(f0) && IsZero(f1) then Con(0.0)
    else if IsZero(f0) then SqrtReduce(SqrReduce(f1))
    else if IsZero(f1) then SqrtReduce(SqrReduce(f0))
    else if f0.Const? && f1.Const? then Con(lib.hypot(f0.d, f1.d))
    else App2("hypot", f0, f1)
  }

  /** An outer derivative times an inner one. */
  function AppReduce(func: string, d0: Node, f0: Node): Node {
    if IsOne(d0) then App1(func, f0) else if IsZero(d0) then Con(0.0) else TimesReduce(d0, App1(func, f0))
  }

  // ----- rules -----

  function PlusRule(d0: Node, d1: Node): Node {
    if !d0.Const? && !d1.Const? then App2("+", d0, d1) else PlusReduce(d0, d1)
  }

  function MinusRule(d0: Node, d1: Node): Node {
    if !d0.Const? && !d1.Const? then App2("-", d0, d1) else MinusReduce(d0, d1)
  }

  function TimesRule(f0: Node, f1: Node, d0: Node, d1: Node): Node {
    if f0.Const? && f1.Const? then Con(0.0) else PlusReduce(TimesReduce(f0, d1), TimesReduce(f1, d0))
  }

  function OverRule(f0: Node, f1: Node, d0: Node, d1: Node): Node {
    if f0.Const? && f1.Const? then Con(0.0)
    else OverReduce(MinusReduce(TimesReduce(f1, d0), TimesReduce(f0, d1)), SqrReduce(f1))
  }

  function PowerRule(lib: Library, f0: Node, f1: Node, d0: Node, d1: Node): Node {
    if f0.Const? && f1.Const? then Con(0.0)
    else if IsZero(d1) then
      TimesReduce(TimesReduce(f1, PowerReduce(lib, f0, MinusReduce(f1, Con(1.0)))), d0)
    else
      TimesReduce(PowerReduce(lib, f0, f1),
                  PlusReduce(TimesReduce(d1, LnReduce(lib, f0)), OverReduce(TimesReduce(f1, d0), f0)))
  }

  function IfRule(f0: Node, d1: Node, d2: Node): Node {
    if d1.Const? && d2.Const? && d1.d == d2.d then Con(d1.d) else App3("?:", f0, d1, d2)
  }

  function LimexpRule(lib: Library, f0: Node, d0: Node): Node {
    TimesReduce(d0, App3("?:", App2("<", f0, Con(lib.limitexp)), App1("exp", f0), Con(lib.expLimit)))
  }

  function HypotRule(lib: Library, f0: Node, f1: Node, d0: Node, d1: Node): Node {
    OverReduce(PlusReduce(TimesReduce(d0, f0), TimesReduce(d1, f1)), HypotReduce(lib, f0, f1))
  }

  /** 1 - sqr, sqr - 1, 1 + sqr and sqr + 1 of the argument. */
  function OneMinusSqr(f0: Node): Node { MinusReduce(Con(1.0), SqrReduce(f0)) }

  function SqrMinusOne(f0: Node): Node { MinusReduce(SqrReduce(f0), Con(1.0)) }

  function OnePlusSqr(f0: Node): Node { PlusReduce(Con(1.0), SqrReduce(f0)) }

  function SqrPlusOne(f0: Node): Node { PlusReduce(SqrReduce(f0), Con(1.0)) }

  /** Functions of one argument with an entry in the table. */
  const UNARY: set<string> := {
    "+", "-", "ln", "log10", "log2", "sqrt", "exp", "sinc", "norm", "sin", "cos", "tan", "sec", "cot", "cosec",
    "abs", "step", "sign", "arcsin", "arccos", "arctan", "arccot", "arcsec", "arccosec", "sqr", "sinh", "cosh",
    "tanh", "coth", "arsinh", "arcosh", "artanh",
    "arcoth", "arsech", "arcosech", "limexp", "vt" }

  const BINARY: set<string> := {"+", "-", "*", "/", "^", "hypot"}

  /** The rules for functions of one argument. */
  function UnaryRule(lib: Library, op: string, f0: Node, d0: Node): Node
    requires op in UNARY
  {
    match op
    case "+" => d0
    case "-" => NegReduce(d0)
    case "ln" => OverReduce(d0, f0)
    case "log10" => OverReduce(OverReduce(d0, f0), LnReduce(lib, Con(10.0)))
    case "log2" => OverReduce(OverReduce(d0, f0), LnReduce(lib, Con(2.0)))
    case "sqrt" => OverReduce(TimesReduce(Con(0.5), d0), SqrtReduce(f0))
    case "exp" => AppReduce("exp", d0, f0)
    case "sinc" => TimesReduce(d0, OverReduce(MinusReduce(App1("cos", f0), App1("sinc", f0)), f0))
    case "norm" => TimesReduce(TimesReduce(d0, Con(2.0)), f0)
    case "sin" => AppReduce("cos", d0, f0)
    case "cos" => AppReduce("sin", NegReduce(d0), f0)
    case "tan" => TimesReduce(d0, PowerReduce(lib, App1("sec", f0), Con(2.0)))
    case "sec" => TimesReduce(d0, OverReduce(App1("sin", f0), PowerReduce(lib, App1("cos", f0), Con(2.0))))
    case "cot" => TimesReduce(NegReduce(d0), PowerReduce(lib, App1("cosec", f0), Con(2.0)))
    case "cosec" => TimesReduce(NegReduce(d0), OverReduce(App1("cos", f0), PowerReduce(lib, App1("sin", f0), Con(2.0))))
    case "abs" => AppReduce("sign", d0, f0)
    case "step" => Con(0.0)
    case "sign" => Con(0.0)
    case "arcsin" => OverReduce(d0, SqrtReduce(OneMinusSqr(f0)))
    case "arccos" => OverReduce(NegReduce(d0), SqrtReduce(OneMinusSqr(f0)))
    case "arctan" => OverReduce(d0, OnePlusSqr(f0))
    case "arccot" => OverReduce(NegReduce(d0), OnePlusSqr(f0))
    case "arcsec" => OverReduce(d0, TimesReduce(f0, SqrtReduce(SqrMinusOne(f0))))
    case "arccosec" => OverReduce(NegReduce(d0), TimesReduce(f0, SqrtReduce(SqrMinusOne(f0))))
    case "sqr" => TimesReduce(TimesReduce(Con(2.0), d0), f0)
    case "sinh" => AppReduce("cosh", d0, f0)
    case "cosh" => AppReduce("sinh", d0, f0)
    case "tanh" => OverReduce(d0, PowerReduce(lib, App1("cosh", f0), Con(2.0)))
    case "coth" => OverReduce(NegReduce(d0), PowerReduce(lib, App1("sinh", f0), Con(2.0)))
    case "arsinh" => OverReduce(d0, SqrtReduce(SqrPlusOne(f0)))
    case "arcosh" => OverReduce(d0, SqrtReduce(SqrMinusOne(f0)))
    case "artanh" => OverReduce(d0, OneMinusSqr(f0))
    case "arcoth" => OverReduce(NegReduce(d0), SqrMinusOne(f0))
    case "arsech" => OverReduce(NegReduce(d0), TimesReduce(f0, SqrtReduce(OneMinusSqr(f0))))
    case "arcosech" => OverReduce(NegReduce(d0), TimesReduce(f0, SqrtReduce(OnePlusSqr(f0))))
    case "limexp" => LimexpRule(lib, f0, d0)
    case _ => TimesReduce(d0, Con(lib.kBoverQ))
  }

  function BinaryRule(lib: Library, op: string, f0: Node, f1: Node, d0: Node, d1: Node): Node
    requires op in BINARY
  {
    match op
    case "+" => PlusRule(d0, d1)
    case "-" => MinusRule(d0, d1)
    case "*" => TimesRule(f0, f1, d0, d1)
    case "/" => OverRule(f0, f1, d0, d1)
    case "^" => PowerRule(lib, f0, f1, d0, d1)
    case _ => HypotRule(lib, f0, f1, d0, d1)
  }

  /** The derivative with respect to x.  An application without a differentiator is returned
      as it is. */
  function Derive(lib: Library, e: Node, x: string): Node {
    match e
    case Const(_) => Con(0.0)
    case Reference(n) => Con(if n == x then 1.0 else 0.0)
    case Application(op, args) =>
      if |args| == 1 && op in UNARY then UnaryRule(lib, op, args[0], Derive(lib, args[0], x))
      else if |args| == 2 && op in BINARY then
        BinaryRule(lib, op, args[0], args[1], Derive(lib, args[0], x), Derive(lib, args[1], x))
      else if |args| == 3 && op == "?:" then IfRule(args[0], Derive(lib, args[1], x), Derive(lib, args[2], x))
      else e
  }

  // ----- expressions without the variable -----

  /** The variable does not occur where the rules differentiate, and they know every
      application there. */
  predicate Independent(e: Node, x: string) {
    match e
    case Const(_) => true
    case Reference(n) => n != x
    case Application(op, args) =>
      || (|args| == 1 && op in UNARY && (op == "step" || op == "sign" || Independent(args[0], x)))
      || (|args| == 2 && op in BINARY && Independent(args[0], x) && Independent(args[1], x))
      || (|args| == 3 && op == "?:" && Independent(args[1], x) && Independent(args[2], x))
  }

  lemma UnaryZero(lib: Library, op: string, f0: Node, d0: Node)
    requires op in UNARY && (op == "step" || op == "sign" || d0 == Con(0.0))
    ensures UnaryRule(lib, op, f0, d0) == Con(0.0)
  {
    hide SqrtReduce, SqrReduce, PlusReduce, MinusReduce, LnReduce, PowerReduce;
  }

  lemma BinaryZero(lib: Library, op: string, f0: Node, f1: Node)
    requires op in BINARY
    ensures BinaryRule(lib, op, f0, f1, Con(0.0), Con(0.0)) == Con(0.0)
  {
    hide SqrReduce, LnReduce, PowerReduce, HypotReduce;
  }

  /** The derivative simplifies to the literal zero. */
  lemma {:induction false} DeriveZero(lib: Library, e: Node, x: string)
    requires Independent(e, x)
    ensures Derive(lib, e, x) == Con(0.0)
  {
    hide UnaryRule, BinaryRule;
    if e.Application? {
      var args := e.args;
      if |args| == 1 {
        if !(e.n == "step" || e.n == "sign") { DeriveZero(lib, args[0], x); }
        UnaryZero(lib, e.n, args[0], Derive(lib, args[0], x));
      } else if |args| == 2 {
        DeriveZero(lib, args[0], x);
        DeriveZero(lib, args[1], x);
        BinaryZero(lib, e.n, args[0], args[1]);
      } else {
        DeriveZero(lib, args[1], x);
        DeriveZero(lib, args[2], x);
      }
    }
  }
}
