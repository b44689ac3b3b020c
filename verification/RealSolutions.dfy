/** What the solver computes for equations on reals. */
module RealSolutions {
  import opened ComplexNumbers
  import opened Options
  import opened Equations
  import opened Differentiation
  import opened MathLibrary
  import opened RealValues

  // ----- functions on reals -----

  /** Truth values among the reals. */
  function Code(b: bool): real { if b then 1.0 else 0.0 }

  predicate IsUnary(lib: Library, apply: (string, seq<real>) -> real, op: string, v: real) {
    FunctionOf(lib, op).value(v).Some? ==> apply(op, [v]) == FunctionOf(lib, op).value(v).value
  }

  predicate IsBinary(lib: Library, apply: (string, seq<real>) -> real, op: string, v: real, w: real) {
    && (var r := BinaryValue(lib, op, Some(v), Some(w)); r.Some? ==> apply(op, [v, w]) == r.value)
    && (var r := Compare(op, v, w); r.Some? ==> apply(op, [v, w]) == Code(r.value))
  }

  predicate IsConnective(apply: (string, seq<real>) -> real, op: string, p: bool, q: bool) {
    var r := Connect(op, p, q);
    r.Some? ==> apply(op, [Code(p), Code(q)]) == Code(r.value)
  }

  predicate IsChoice(apply: (string, seq<real>) -> real, p: bool, v: real, w: real) {
    apply("?:", [Code(p), v, w]) == if p then v else w
  }

  /** The functions that are applied compute what the names say, for arguments in their order. */
  ghost predicate Computes(lib: Library, apply: (string, seq<real>) -> real) {
    && (forall op, v :: IsUnary(lib, apply, op, v))
    && (forall op, v, w :: IsBinary(lib, apply, op, v, w))
    && (forall op, p, q :: IsConnective(apply, op, p, q))
    && (forall p: bool :: apply("!", [Code(p)]) == Code(!p))
    && (forall p, v, w :: IsChoice(apply, p, v, w))
  }

  // ----- values of applications -----

  /** A function is applied to the values of all arguments in their order. */
  lemma {:induction false} ValueApplication<V>(e: Expr<V>, env: string -> Option<V>, apply: (string, seq<V>) -> V,
                                               values: seq<V>)
    requires e.Application? && |values| == |e.args|
    requires forall i :: 0 <= i < |values| ==> Value(e.args[i], env, apply) == Some(values[i])
    ensures Value(e, env, apply) == Some(apply(e.n, values))
  {
    var args := e.args;
    forall i | 0 <= i < |args| ensures ArgValue(args, i, env, apply) == Some(values[i]) {}
    assert seq(|args|, i requires 0 <= i < |args| => ArgValue(args, i, env, apply).value) == values;
  }

  /** A value needs the values of all variables that are mentioned, and there is one if they are
      given. */
  lemma {:induction false} ValueDefined<V>(e: Expr<V>, env: string -> Option<V>, apply: (string, seq<V>) -> V)
    ensures Value(e, env, apply).Some? <==> forall name :: Mentions(e, name) ==> env(name).Some?
  {
    if e.Application? {
      var args := e.args;
      forall i | 0 <= i < |args|
        ensures ArgValue(args, i, env, apply).Some? <==> forall name :: Mentions(args[i], name) ==> env(name).Some?
      {
        ValueDefined(args[i], env, apply);
      }
      if forall name :: Mentions(e, name) ==> env(name).Some? {
        forall i | 0 <= i < |args| ensures ArgValue(args, i, env, apply).Some? {
          forall name | Mentions(args[i], name) ensures env(name).Some? { assert Mentions(e, name); }
        }
      }
      if Value(e, env, apply).Some? {
        forall name | Mentions(e, name) ensures env(name).Some? {
          var i :| 0 <= i < |args| && Mentions(args[i], name);
          assert ArgValue(args, i, env, apply).Some?;
        }
      }
    }
  }

  function Total(env: string -> real): string -> Option<real> { name => Some(env(name)) }

  lemma UnaryComputed(lib: Library, apply: (string, seq<real>) -> real, op: string, v: real)
    requires Computes(lib, apply)
    ensures FunctionOf(lib, op).value(v).Some? ==> apply(op, [v]) == FunctionOf(lib, op).value(v).value
  {
    hide FunctionOf;
    assert IsUnary(lib, apply, op, v);
  }

  lemma NotComputed(lib: Library, apply: (string, seq<real>) -> real, p: bool)
    requires Computes(lib, apply)
    ensures apply("!", [Code(p)]) == Code(!p)
  {}

  lemma BinaryComputed(lib: Library, apply: (string, seq<real>) -> real, op: string, v: real, w: real)
    requires Computes(lib, apply)
    ensures BinaryValue(lib, op, Some(v), Some(w)).Some? ==>
      apply(op, [v, w]) == BinaryValue(lib, op, Some(v), Some(w)).value
    ensures Compare(op, v, w).Some? ==> apply(op, [v, w]) == Code(Compare(op, v, w).value)
  {
    hide BinaryValue, Compare;
    assert IsBinary(lib, apply, op, v, w);
  }

  lemma ConnectiveComputed(lib: Library, apply: (string, seq<real>) -> real, op: string, p: bool, q: bool)
    requires Computes(lib, apply)
    ensures Connect(op, p, q).Some? ==> apply(op, [Code(p), Code(q)]) == Code(Connect(op, p, q).value)
  {
    hide Connect;
    assert IsConnective(apply, op, p, q);
  }

  lemma ChoiceComputed(lib: Library, apply: (string, seq<real>) -> real, p: bool, v: real, w: real)
    requires Computes(lib, apply)
    ensures apply("?:", [Code(p), v, w]) == if p then v else w
  {
    assert IsChoice(apply, p, v, w);
  }

  /** The expression has a value for all variables given; it is the real value and the code of
      the truth value wherever there is one. */
  ghost predicate Agrees(lib: Library, e: Node, env: string -> real, apply: (string, seq<real>) -> real) {
    var r := Value(e, Total(env), apply);
    && r.Some?
    && (Eval(lib, e, env).Some? ==> r == Eval(lib, e, env))
    && (Truth(lib, e, env).Some? ==> r == Some(Code(Truth(lib, e, env).value)))
  }

  lemma {:induction false} AgreesOne(lib: Library, e: Node, env: string -> real, apply: (string, seq<real>) -> real)
    requires Computes(lib, apply) && e.Application? && |e.args| == 1 && Agrees(lib, e.args[0], env, apply)
    ensures Agrees(lib, e, env, apply)
  {
    hide Computes, Value, FunctionOf;
    var v := Value(e.args[0], Total(env), apply).value;
    ValueApplication(e, Total(env), apply, [v]);
    UnaryComputed(lib, apply, e.n, v);
    if Truth(lib, e.args[0], env).Some? { NotComputed(lib, apply, Truth(lib, e.args[0], env).value); }
  }

  lemma {:induction false} AgreesTwo(lib: Library, e: Node, env: string -> real, apply: (string, seq<real>) -> real)
    requires Computes(lib, apply) && e.Application? && |e.args| == 2
    requires Agrees(lib, e.args[0], env, apply) && Agrees(lib, e.args[1], env, apply)
    ensures Agrees(lib, e, env, apply)
  {
    hide Computes, Value, FunctionOf, BinaryValue, Compare, Connect;
    var v, w := Value(e.args[0], Total(env), apply).value, Value(e.args[1], Total(env), apply).value;
    ValueApplication(e, Total(env), apply, [v, w]);
    BinaryComputed(lib, apply, e.n, v, w);
    AbsentValues(lib, e.n, Eval(lib, e.args[0], env), Eval(lib, e.args[1], env));
    var p, q := Truth(lib, e.args[0], env), Truth(lib, e.args[1], env);
    if p.Some? && q.Some? { ConnectiveComputed(lib, apply, e.n, p.value, q.value); }
  }

  lemma AbsentValues(lib: Library, op: string, v: Option<real>, w: Option<real>)
    ensures BinaryValue(lib, op, v, w).Some? ==> v.Some? && w.Some?
  {}

  lemma {:induction false} AgreesThree(lib: Library, e: Node, env: string -> real, apply: (string, seq<real>) -> real)
    requires Computes(lib, apply) && e.Application? && |e.args| == 3
    requires Agrees(lib, e.args[0], env, apply) && Agrees(lib, e.args[1], env, apply)
    requires Agrees(lib, e.args[2], env, apply)
    ensures Agrees(lib, e, env, apply)
  {
    hide Computes, Value, FunctionOf, BinaryValue, Compare, Connect;
    var T := Total(env);
    var u, v, w := Value(e.args[0], T, apply).value, Value(e.args[1], T, apply).value, Value(e.args[2], T, apply).value;
    ValueApplication(e, T, apply, [u, v, w]);
    var p := Truth(lib, e.args[0], env);
    if p.Some? { ChoiceComputed(lib, apply, p.value, v, w); }
  }

  /** The evaluation of equations computes the real values. */
  lemma {:induction false} ValueIsEval(lib: Library, e: Node, env: string -> real, apply: (string, seq<real>) -> real)
    requires Computes(lib, apply)
    ensures Agrees(lib, e, env, apply)
  {
    hide Computes, Agrees, Value;
    if e.Application? && 1 <= |e.args| <= 3 {
      ValueIsEval(lib, e.args[0], env, apply);
      if |e.args| == 1 {
        AgreesOne(lib, e, env, apply);
      } else {
        ValueIsEval(lib, e.args[1], env, apply);
        if |e.args| == 2 {
          AgreesTwo(lib, e, env, apply);
        } else {
          ValueIsEval(lib, e.args[2], env, apply);
          AgreesThree(lib, e, env, apply);
        }
      }
    } else {
      AgreesOther(lib, e, env, apply);
    }
  }

  lemma {:induction false} AgreesOther(lib: Library, e: Node, env: string -> real, apply: (string, seq<real>) -> real)
    requires e.Application? ==> |e.args| == 0 || |e.args| > 3
    ensures Agrees(lib, e, env, apply)
  {
    hide FunctionOf, BinaryValue;
    ValueDefined(e, Total(env), apply);
  }

  // ----- solutions -----

  /** The results of the equations as an environment. */
  ghost function Results(eqs: seq<Equation<real>>): string -> real
    reads Elems(eqs)
  {
    var values := Values(eqs);
    name => var r := Lookup(eqs, values)(name); if r.Some? then r.value else 0.0
  }

  /** The result of an equation that holds is the real value of its body under the results. */
  lemma {:induction false} HoldsOnReals(lib: Library, eqs: seq<Equation<real>>, e: Equation<real>,
                                        apply: (string, seq<real>) -> real)
    requires Computes(lib, apply) && Equations.Holds(eqs, e, apply) && e.value.Some?
    ensures Eval(lib, e.body, Results(eqs)).Some? ==> e.value == Eval(lib, e.body, Results(eqs))
  {
    hide Computes, Eval, Value, Lookup;
    var env, lookup := Results(eqs), Lookup(eqs, Values(eqs));
    ValueDefined(e.body, lookup, apply);
    ValueExt(e.body, lookup, Total(env), apply);
    ValueIsEval(lib, e.body, env, apply);
  }

  /** Solves equations on reals: if they look back, the result of each evaluable equation is the
      real value of its body under all results. */
  method SolveReals(lib: Library, checker: Checker<real>, apply: (string, seq<real>) -> real) returns (ghost m: nat)
    requires Computes(lib, apply) && NoDuplicates(checker.equations)
    requires forall k :: 0 <= k < |checker.equations| ==> !checker.equations[k].evalPossible
    modifies checker, Elems(checker.equations)
    ensures multiset(checker.equations) == multiset(old(checker.equations)) && m <= |checker.equations|
    ensures old(IsProper(checker.equations)) ==>
      IsEvaluable(old(checker.equations), checker.equations, m) && LooksBack(checker.equations, m)
    ensures LooksBack(checker.equations, m) ==>
      forall e :: e in old(checker.equations) && e in checker.equations[..m] && !e.skip && e.value.Some? ==>
        var r := Eval(lib, e.body, Results(checker.equations)); r.Some? ==> e.value == r
  {
    hide Computes, NoDuplicates, IsProper, IsEvaluable, LooksBack, Equations.Holds, CountedInOrder, Counted, Evaluated,
      Eval;
    ghost var first;
    m, first := checker.Solve(apply);
    if LooksBack(checker.equations, m) {
      forall e | e in old(checker.equations) && e in checker.equations[..m] && !e.skip && e.value.Some?
        ensures var r := Eval(lib, e.body, Results(checker.equations)); r.Some? ==> e.value == r
      {
        HoldsOnReals(lib, checker.equations, e, apply);
      }
    }
  }

  /** x = 3 and y = x - 1 give y = 2. */
  lemma DifferenceInput(lib: Library, x: Equation<real>, y: Equation<real>, values: seq<Option<real>>,
                        apply: (string, seq<real>) -> real)
    requires Computes(lib, apply) && x.result == "x" && x.body == Con(3.0) && !x.skip
    requires y.result == "y" && y.body == App2("-", Reference("x"), Con(1.0)) && !y.skip
    requires |values| == 2 && Evaluated([x, y], 2, 2, [None, None], values, apply)
    ensures values == [Some(3.0), Some(2.0)]
  {
    hide Computes, Evaluated;
    var eqs := [x, y];
    var env := Lookup(eqs, values[..1] + [None, None][1..]);
    DifferenceSteps(x, y, values, apply);
    assert eqs[0].result == "x";
    assert FindEquation(eqs, "x") == Some(0);
    assert env("x") == values[0];
    ValueApplication(y.body, env, apply, [3.0, 1.0]);
    BinaryComputed(lib, apply, "-", 3.0, 1.0);
  }

  lemma DifferenceSteps(x: Equation<real>, y: Equation<real>, values: seq<Option<real>>,
                        apply: (string, seq<real>) -> real)
    requires |values| == 2 && Evaluated([x, y], 2, 2, [None, None], values, apply) && !x.skip && !y.skip
    requires x.body == Con(3.0)
    ensures values[0] == Some(3.0)
    ensures values[1] == Value(y.body, Lookup([x, y], values[..1] + [None, None][1..]), apply)
  {
    assert [x, y][1] == y && [x, y][0] == x;
  }
}
