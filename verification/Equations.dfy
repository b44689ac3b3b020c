/** The equation checker and solver: ordering of equations by their dependencies and
    evaluation in that order. */
module Equations {
  import opened Options

  /** Right hand sides: constants, references to variables and applications of functions. */
  datatype Expr<V> = Const(d: V) | Reference(n: string) | Application(n: string, args: seq<Expr<V>>)

  /** The names an expression refers to. */
  ghost predicate Mentions<V>(e: Expr<V>, name: string) {
    match e
    case Const(_) => false
    case Reference(n) => n == name
    case Application(_, args) => exists i :: 0 <= i < |args| && Mentions(args[i], name)
  }

  /** The value of an expression, for the values of variables and the functions given. */
  ghost function Value<V>(e: Expr<V>, env: string -> Option<V>, apply: (string, seq<V>) -> V): Option<V>
    decreases e, 1
  {
    match e
    case Const(d) => Some(d)
    case Reference(n) => env(n)
    case Application(n, args) =>
      if forall i :: 0 <= i < |args| ==> ArgValue(args, i, env, apply).Some?
      then Some(apply(n, seq(|args|, i requires 0 <= i < |args| => ArgValue(args, i, env, apply).value)))
      else None
  }

  ghost function ArgValue<V>(args: seq<Expr<V>>, i: nat, env: string -> Option<V>,
                             apply: (string, seq<V>) -> V): Option<V>
    requires i < |args|
    decreases args, 0
  {
    Value(args[i], env, apply)
  }

  lemma {:induction false} ValueExt<V>(e: Expr<V>, a: string -> Option<V>, b: string -> Option<V>,
                                       apply: (string, seq<V>) -> V)
    requires forall name :: Mentions(e, name) ==> a(name) == b(name)
    ensures Value(e, a, apply) == Value(e, b, apply)
  {
    if e.Application? {
      var args := e.args;
      forall i | 0 <= i < |args| ensures ArgValue(args, i, a, apply) == ArgValue(args, i, b, apply) {
        forall name | Mentions(args[i], name) ensures a(name) == b(name) { assert Mentions(e, name); }
        ValueExt(args[i], a, b, apply);
      }
      if forall i :: 0 <= i < |args| ==> ArgValue(args, i, a, apply).Some? {
        assert seq(|args|, i requires 0 <= i < |args| => ArgValue(args, i, a, apply).value)
            == seq(|args|, i requires 0 <= i < |args| => ArgValue(args, i, b, apply).value);
      }
    }
  }

  /** An equation of the list, with the fields that checker and solver update. */
  class Equation<V> {
    const result: string
    const body: Expr<V>
    const deps: seq<string>
    const skip: bool
    var evalPossible: bool
    var evaluated: nat
    var value: Option<V>

    constructor (result: string, body: Expr<V>, deps: seq<string>, skip: bool)
      ensures this.result == result && this.body == body && this.deps == deps && this.skip == skip
      ensures !evalPossible && evaluated == 0 && value == None
    {
      this.result, this.body, this.deps, this.skip := result, body, deps, skip;
      evalPossible, evaluated, value := false, 0, None;
    }
  }

  // ----- dependencies -----

  predicate IsDigit(c: char) { '0' <= c <= '9' }

  /** Generated variables end with a dot and four digits. */
  predicate IsGenerated(name: string) {
    var len := |name|;
    && len > 5 && IsDigit(name[len - 1]) && IsDigit(name[len - 2]) && IsDigit(name[len - 3]) && IsDigit(name[len - 4])
    && name[len - 5] == '.'
  }

  predicate AllDigits(s: string) { forall i :: 0 <= i < |s| ==> IsDigit(s[i]) }

  /** The generated names are a base, a dot and four digits, for every base that is not empty,
      and there are no others. */
  lemma GeneratedNames(name: string)
    ensures IsGenerated(name) <==>
      exists base, digits :: |base| > 0 && |digits| == 4 && AllDigits(digits) && name == base + "." + digits
  {
    hide IsDigit;
    var len := |name|;
    if IsGenerated(name) { GeneratedParts(name); }
    if base, digits :| |base| > 0 && |digits| == 4 && AllDigits(digits) && name == base + "." + digits {
      PartsGenerated(base, digits);
    }
  }

  lemma GeneratedParts(name: string)
    requires IsGenerated(name)
    ensures var base, digits := name[..|name| - 5], name[|name| - 4..];
      |base| > 0 && |digits| == 4 && AllDigits(digits) && name == base + "." + digits
  {
    hide IsDigit;
    var base, digits := name[..|name| - 5], name[|name| - 4..];
    forall i | 0 <= i < 4 ensures IsDigit(digits[i]) { assert digits[i] == name[|name| - 4 + i]; }
  }

  lemma PartsGenerated(base: string, digits: string)
    requires |base| > 0 && |digits| == 4 && AllDigits(digits)
    ensures IsGenerated(base + "." + digits)
  {
    hide IsDigit;
    var name := base + "." + digits;
    assert name[|base|] == '.';
    forall i | 0 <= i < 4 ensures name[|name| - 4 + i] == digits[i] {}
    assert IsDigit(digits[0]) && IsDigit(digits[1]) && IsDigit(digits[2]) && IsDigit(digits[3]);
  }

  ghost predicate Defines<V>(eqs: seq<Equation<V>>, name: string) {
    exists k :: 0 <= k < |eqs| && eqs[k].result == name
  }

  /** The first equation that defines the variable. */
  function FindEquation<V>(eqs: seq<Equation<V>>, name: string): (r: Option<nat>)
    ensures r.Some? <==> Defines(eqs, name)
    ensures r.Some? ==>
      r.value < |eqs| && eqs[r.value].result == name && forall k :: 0 <= k < r.value ==> eqs[k].result != name
  {
    if |eqs| == 0 then None
    else
      var r := FindEquation(eqs[..|eqs| - 1], name);
      assert r.None? && Defines(eqs, name) ==> eqs[|eqs| - 1].result == name;
      if r.Some? then r else if eqs[|eqs| - 1].result == name then Some(|eqs| - 1) else None
  }

  /** All dependencies of an equation are generated or defined by the given equations. */
  ghost predicate Ready<V>(eqs: seq<Equation<V>>, e: Equation<V>) {
    forall i :: 0 <= i < |e.deps| ==> IsGenerated(e.deps[i]) || Defines(eqs, e.deps[i])
  }

  /** How many of the first n dependencies are defined by the equations. */
  ghost function Found<V>(eqs: seq<Equation<V>>, deps: seq<string>, n: nat): nat
    requires n <= |deps|
  {
    if n == 0 then 0 else Found(eqs, deps, n - 1) + if Defines(eqs, deps[n - 1]) then 1 else 0
  }

  ghost function Gens(deps: seq<string>, n: nat): nat
    requires n <= |deps|
  {
    if n == 0 then 0 else Gens(deps, n - 1) + if IsGenerated(deps[n - 1]) then 1 else 0
  }

  /** Dependencies that are neither generated nor defined. */
  ghost function Missing<V>(eqs: seq<Equation<V>>, deps: seq<string>, n: nat): nat
    requires n <= |deps|
  {
    if n == 0 then 0
    else Missing(eqs, deps, n - 1) + if !IsGenerated(deps[n - 1]) && !Defines(eqs, deps[n - 1]) then 1
    else 0
  }

  /** Dependencies that are generated and defined as well. */
  ghost function Both<V>(eqs: seq<Equation<V>>, deps: seq<string>, n: nat): nat
    requires n <= |deps|
  {
    if n == 0 then 0
    else Both(eqs, deps, n - 1) + if IsGenerated(deps[n - 1]) && Defines(eqs, deps[n - 1]) then 1
    else 0
  }

  /** What the two counters of the checker compare: a dependency that is generated and
      defined makes up for one that is missing. */
  lemma {:induction false} CountsCompare<V>(eqs: seq<Equation<V>>, deps: seq<string>, n: nat)
    requires n <= |deps|
    ensures Found(eqs, deps, n) + Gens(deps, n) + Missing(eqs, deps, n) == n + Both(eqs, deps, n)
    ensures Missing(eqs, deps, n) == 0 <==> forall i :: 0 <= i < n ==> IsGenerated(deps[i]) || Defines(eqs, deps[i])
    ensures Both(eqs, deps, n) == 0 <==> forall i :: 0 <= i < n ==> !(IsGenerated(deps[i]) && Defines(eqs, deps[i]))
  {
    hide IsGenerated, Defines;
    if n > 0 { CountsCompare(eqs, deps, n - 1); }
  }

  /** The comparison is exact if and only if no compensation can happen. */
  lemma CountsExact<V>(eqs: seq<Equation<V>>, e: Equation<V>)
    ensures var n, both := |e.deps|, Both(eqs, e.deps, |e.deps|);
      ((Counted(eqs, e) <==> Ready(eqs, e))
       <==> both == 0 || (Missing(eqs, e.deps, n) != 0 && Missing(eqs, e.deps, n) != both))
  {
    CountsCompare(eqs, e.deps, |e.deps|);
  }

  /** The comparison that the checker makes. */
  ghost predicate Counted<V>(eqs: seq<Equation<V>>, e: Equation<V>) {
    Found(eqs, e.deps, |e.deps|) == |e.deps| - Gens(e.deps, |e.deps|)
  }

  /** No equation defines a generated variable. */
  ghost predicate NoGenerated<V>(eqs: seq<Equation<V>>) {
    forall k :: 0 <= k < |eqs| ==> !IsGenerated(eqs[k].result)
  }

  /** An equation on top of a generated one is taken for evaluable although it lacks "z". */
  lemma Compensated<V>(g: Equation<V>, e: Equation<V>)
    requires g.result == "x.0001" && e.deps == ["x.0001", "z"]
    ensures Counted([g], e) && !Ready([g], e)
  {
    assert [g][0].result == "x.0001";
    assert Defines([g], e.deps[0]) && !Defines([g], e.deps[1]);
    assert IsGenerated(e.deps[0]) && !IsGenerated(e.deps[1]);
    assert Found([g], e.deps, 0) == 0 && Gens(e.deps, 0) == 0;
    assert Found([g], e.deps, 1) == 1 && Gens(e.deps, 1) == 1;
    assert Found([g], e.deps, 2) == 1 && Gens(e.deps, 2) == 1;
  }

  // ----- the order -----

  /** Every equation finds its dependencies in the equations before it. */
  ghost predicate Ordered<V>(eqs: seq<Equation<V>>) {
    forall k :: 0 <= k < |eqs| ==> Ready(eqs[..k], eqs[k])
  }

  /** Every equation is taken for evaluable after the equations before it. */
  ghost predicate CountedInOrder<V>(eqs: seq<Equation<V>>) {
    forall k :: 0 <= k < |eqs| ==> Counted(eqs[..k], eqs[k])
  }

  /** A set of equations that contains every equation whose dependencies it defines. */
  ghost predicate Closed<V(!new)>(all: set<Equation<V>>, T: set<Equation<V>>) {
    forall e :: e in all && ReadyIn(T, e) ==> e in T
  }

  ghost predicate ReadyIn<V>(T: set<Equation<V>>, e: Equation<V>) {
    forall i :: 0 <= i < |e.deps| ==> IsGenerated(e.deps[i]) || DefinedIn(T, e.deps[i])
  }

  ghost predicate DefinedIn<V>(T: set<Equation<V>>, name: string) {
    exists d :: d in T && d.result == name
  }

  function Elems<V>(eqs: seq<Equation<V>>): set<Equation<V>> {
    set k | 0 <= k < |eqs| :: eqs[k]
  }

  /** The least closed set. */
  ghost predicate IsLeastClosed<V(!new)>(all: set<Equation<V>>, marked: set<Equation<V>>) {
    Closed(all, marked) && forall T :: T <= all && Closed(all, T) ==> marked <= T
  }

  lemma DefinesElems<V>(eqs: seq<Equation<V>>, name: string)
    ensures Defines(eqs, name) <==> DefinedIn(Elems(eqs), name)
  {
    if Defines(eqs, name) {
      var k :| 0 <= k < |eqs| && eqs[k].result == name;
      assert eqs[k] in Elems(eqs);
    }
  }

  lemma ReadyElems<V>(eqs: seq<Equation<V>>, e: Equation<V>)
    ensures Ready(eqs, e) <==> ReadyIn(Elems(eqs), e)
  {
    hide IsGenerated, Defines, DefinedIn;
    forall i | 0 <= i < |e.deps| ensures Defines(eqs, e.deps[i]) <==> DefinedIn(Elems(eqs), e.deps[i]) {
      DefinesElems(eqs, e.deps[i]);
    }
  }

  lemma ReadyMore<V>(S: set<Equation<V>>, T: set<Equation<V>>, e: Equation<V>)
    requires S <= T && ReadyIn(S, e)
    ensures ReadyIn(T, e)
  {
    hide IsGenerated;
    forall i | 0 <= i < |e.deps| ensures IsGenerated(e.deps[i]) || DefinedIn(T, e.deps[i]) {
      if !IsGenerated(e.deps[i]) {
        assert DefinedIn(S, e.deps[i]);
        var d :| d in S && d.result == e.deps[i];
        assert d in T;
      }
    }
  }

  /** An ordered sequence lies inside of every closed set. */
  lemma {:induction false} OrderedInside<V(!new)>(eqs: seq<Equation<V>>, all: set<Equation<V>>, T: set<Equation<V>>)
    requires Ordered(eqs) && Elems(eqs) <= all && Closed(all, T)
    ensures Elems(eqs) <= T
  {
    hide Ready, ReadyIn;
    if |eqs| > 0 {
      var init, e := eqs[..|eqs| - 1], eqs[|eqs| - 1];
      OrderedInit(eqs);
      forall d | d in Elems(init) ensures d in all { assert d in Elems(eqs); }
      OrderedInside(init, all, T);
      ReadyElems(init, e);
      ReadyMore(Elems(init), T, e);
      assert e in Elems(eqs);
      forall d | d in Elems(eqs) ensures d in T { assert d == e || d in Elems(init); }
    }
  }

  lemma OrderedInit<V>(eqs: seq<Equation<V>>)
    requires Ordered(eqs) && |eqs| > 0
    ensures Ordered(eqs[..|eqs| - 1]) && Ready(eqs[..|eqs| - 1], eqs[|eqs| - 1])
  {
    hide Ready;
    var init := eqs[..|eqs| - 1];
    forall k | 0 <= k < |init| ensures Ready(init[..k], init[k]) { assert init[..k] == eqs[..k]; }
  }

  /** A closed ordered sequence is the least closed set. */
  lemma OrderedLeast<V(!new)>(root: seq<Equation<V>>, rest: seq<Equation<V>>, all: set<Equation<V>>)
    requires Ordered(root) && all == Elems(root + rest)
    requires forall k :: 0 <= k < |rest| ==> !Ready(root, rest[k])
    ensures IsLeastClosed(all, Elems(root))
  {
    hide Ready, ReadyIn;
    forall e | e in all && ReadyIn(Elems(root), e) ensures e in Elems(root) {
      ReadyElems(root, e);
      assert e in Elems(root) || e in Elems(rest);
    }
    assert Elems(root) <= all by {
      forall d | d in Elems(root) ensures d in all {
        var k :| 0 <= k < |root| && root[k] == d;
        assert (root + rest)[k] == d;
      }
    }
    forall T | T <= all && Closed(all, T) ensures Elems(root) <= T { OrderedInside(root, all, T); }
  }

  /** What is evaluable does not depend on the order of the equations. */
  lemma LeastClosedUnique<V(!new)>(all: set<Equation<V>>, a: set<Equation<V>>, b: set<Equation<V>>)
    requires IsLeastClosed(all, a) && IsLeastClosed(all, b) && a <= all && b <= all
    ensures a == b
  {}

  /** Position of the equation that defines a variable, for unique left hand sides. */
  ghost predicate UniqueResults<V>(eqs: seq<Equation<V>>) {
    forall a, b :: 0 <= a < b < |eqs| ==> eqs[a].result != eqs[b].result
  }

  /** Equation p[a + 1] defines a variable that equation p[a] depends on. */
  ghost predicate IsDependencyPath<V>(eqs: seq<Equation<V>>, p: seq<nat>) {
    && (forall a :: 0 <= a < |p| ==> p[a] < |eqs|)
    && forall a :: 0 < a < |p| ==> Needs(eqs[p[a - 1]], eqs[p[a]].result)
  }

  predicate Needs<V>(e: Equation<V>, name: string) { name in e.deps && !IsGenerated(name) }

  /** Along the dependencies of an evaluable equation the positions fall: it lies on no
      cycle and depends on none. */
  lemma {:induction false} NoCycles<V>(eqs: seq<Equation<V>>, m: nat, p: seq<nat>, a: nat)
    requires m <= |eqs| && Ordered(eqs[..m]) && UniqueResults(eqs)
    requires IsDependencyPath(eqs, p) && |p| > 0 && p[0] < m && a < |p|
    ensures p[a] < m && forall b :: 0 <= b < a ==> p[a] < p[b]
  {
    hide IsGenerated;
    if a > 0 {
      NoCycles(eqs, m, p, a - 1);
      var e, name := eqs[p[a - 1]], eqs[p[a]].result;
      assert Needs(e, name);
      var i :| 0 <= i < |e.deps| && e.deps[i] == name;
      assert eqs[..m][p[a - 1]] == e && eqs[..m][..p[a - 1]] == eqs[..p[a - 1]];
      assert Defines(eqs[..p[a - 1]], name);
      var k :| 0 <= k < p[a - 1] && eqs[k].result == name;
      assert k == p[a];
    }
  }

  class Checker<V(!new)> {
    var equations: seq<Equation<V>>

    /** Removes an equation from the list: its first occurrence, and nothing else. */
    method DropEquation(eqn: Equation<V>) returns (ghost i: nat)
      requires eqn in equations
      modifies this
      ensures i < |old(equations)| && old(equations)[i] == eqn && eqn !in old(equations)[..i]
      ensures equations == old(equations)[..i] + old(equations)[i + 1..]
      ensures multiset(equations) == multiset(old(equations)) - multiset{eqn}
    {
      var prev := -1;
      if eqn != equations[0] {
        prev := 0;
        while equations[prev + 1] != eqn
          invariant 0 <= prev && prev + 1 < |equations| && eqn in equations[prev + 1..] && eqn !in equations[..prev + 1]
          decreases |equations| - prev
        {
          prev := prev + 1;
        }
      }
      i := prev + 1;
      assert equations == equations[..prev + 1] + [eqn] + equations[prev + 2..];
      equations := equations[..prev + 1] + equations[prev + 2..];
    }

    /** Counts the dependencies found in previous equations and the generated ones. */
    method CountDependencies(root: seq<Equation<V>>, eqn: Equation<V>) returns (found: nat, gens: nat)
      ensures found == Found(root, eqn.deps, |eqn.deps|) && gens == Gens(eqn.deps, |eqn.deps|)
    {
      hide Defines, IsGenerated;
      found, gens := 0, 0;
      for i := 0 to |eqn.deps|
        invariant found == Found(root, eqn.deps, i) && gens == Gens(eqn.deps, i)
      {
        var name := eqn.deps[i];
        if FindEquation(root, name).Some? { found := found + 1; }
        if IsGenerated(name) { gens := gens + 1; }
      }
    }

    /** Removes an equation from the current list, appends it to the new list and marks it. */
    method AppendEquation(root: seq<Equation<V>>, eqn: Equation<V>, ghost i: nat) returns (more: seq<Equation<V>>)
      requires i < |equations| && equations[i] == eqn
      requires forall k :: 0 <= k < |equations| && k != i ==> equations[k] != eqn
      modifies this, eqn`evalPossible
      ensures more == root + [eqn] && eqn.evalPossible
      ensures equations == old(equations)[..i] + old(equations)[i + 1..]
      ensures forall k :: 0 <= k < |equations| ==> equations[k] != eqn
    {
      var dropped := DropEquation(eqn);
      assert dropped == i;
      more := root + [eqn];
      eqn.evalPossible := true;
    }

    /** Moves equations to a new list, starting over after each, while one is taken for
        evaluable after those in the new list. */
    method MoveEquations() returns (root: seq<Equation<V>>)
      requires NoDuplicates(equations) && forall k :: 0 <= k < |equations| ==> !equations[k].evalPossible
      modifies this, Elems(equations)`evalPossible
      ensures SplitOf(old(equations), root, equations) && CountedInOrder(root)
      ensures forall k :: 0 <= k < |equations| ==> !Counted(root, equations[k]) && !equations[k].evalPossible
      ensures forall k :: 0 <= k < |root| ==> root[k].evalPossible
    {
      hide IsGenerated, Counted, CountedInOrder, SplitOf, NoDuplicates, Found, Gens;
      ghost var all := equations;
      root := [];
      var i := 0;
      NothingOrdered(all);
      while i < |equations|
        invariant i <= |equations|
        invariant SplitOf(all, root, equations) && CountedInOrder(root)
        invariant forall k :: 0 <= k < |root| ==> root[k].evalPossible
        invariant forall k :: 0 <= k < |equations| ==> !equations[k].evalPossible
        invariant forall k :: 0 <= k < i ==> !Counted(root, equations[k])
        decreases |equations|, |equations| - i
      {
        var eqn := equations[i];
        Move(all, root, equations, i);
        var found, gens := CountDependencies(root, eqn);
        CountedBy(root, eqn, found, gens);
        if found == |eqn.deps| - gens {
          CountedNext(root, eqn);
          root := AppendEquation(root, eqn, i);
          i := 0;
        } else {
          i := i + 1;
        }
      }
    }

    /** Reorders the list: the equations taken for evaluable come first and are marked.  If no
        equation defines a generated variable, they are the evaluable ones: the least set that
        is closed under having all dependencies defined. */
    method ReorderEquations() returns (ghost m: nat)
      requires NoDuplicates(equations) && forall k :: 0 <= k < |equations| ==> !equations[k].evalPossible
      modifies this, Elems(equations)`evalPossible
      ensures multiset(equations) == multiset(old(equations))
      ensures m <= |equations| && CountedInOrder(equations[..m])
      ensures forall k :: m <= k < |equations| ==> !Counted(equations[..m], equations[k])
      ensures forall k :: 0 <= k < |equations| ==> (equations[k].evalPossible <==> k < m)
      ensures NoGenerated(old(equations)) ==> IsEvaluable(old(equations), equations, m)
    {
      hide IsGenerated, Counted, CountedInOrder, SplitOf, NoDuplicates, NoGenerated, IsEvaluable;
      ghost var all := equations;
      var root := MoveEquations();
      m := |root|;
      Rejoin(all, root, equations);
      ghost var rest := equations;
      if |root| > 0 {
        equations := root + equations;
      }
      assert equations == root + rest;
      assert equations[..m] == root && equations[m..] == rest;
      forall k | 0 <= k < |equations| ensures equations[k].evalPossible <==> k < m {
        assert equations[k] == if k < m then root[k] else rest[k - m];
      }
      if NoGenerated(all) { AllEvaluable(all, root, rest); }
    }

    /** The result of a right hand side for the current results of the equations. */
    method EvaluateBody(e: Expr<V>, apply: (string, seq<V>) -> V, ghost env: string -> Option<V>) returns (r: Option<V>)
      requires forall name ::
        env(name) == if FindEquation(equations, name).Some?
                     then equations[FindEquation(equations, name).value].value
                     else None
      ensures r == Value(e, env, apply)
      decreases e
    {
      hide Defines;
      match e
      case Const(d) => r := Some(d);
      case Reference(n) =>
        r := None;
        var ref := FindEquation(equations, n);
        if ref.Some? { r := equations[ref.value].value; }
      case Application(n, args) =>
        var errors, values := 0, [];
        for i := 0 to |args|
          invariant errors > 0 ==> exists k :: 0 <= k < i && ArgValue(args, k, env, apply).None?
          invariant errors == 0 ==>
            |values| == i && forall k :: 0 <= k < i ==> ArgValue(args, k, env, apply) == Some(values[k])
        {
          var a := EvaluateBody(args[i], apply, env);
          assert a == ArgValue(args, i, env, apply);
          if a.Some? { values := values + [a.value]; } else { errors := errors + 1; }
        }
        r := None;
        if errors == 0 {
          assert values == seq(|args|, i requires 0 <= i < |args| => ArgValue(args, i, env, apply).value);
          r := Some(apply(n, values));
        }
    }

    /** Evaluates one equation and stores its result. */
    method Calculate(k: nat, apply: (string, seq<V>) -> V)
      requires k < |equations| && forall j :: 0 <= j < |equations| && j != k ==> equations[j] != equations[k]
      modifies equations[k]
      ensures equations[k].evalPossible == old(equations[k].evalPossible)
      ensures Values(equations)
           == old(Values(equations))[k := Value(equations[k].body, Lookup(equations, old(Values(equations))), apply)]
    {
      hide Value, Defines;
      var eqn := equations[k];
      ghost var before := Values(equations);
      var r := EvaluateBody(eqn.body, apply, Lookup(equations, before));
      assert Values(equations) == before;
      eqn.value := r;
      eqn.evaluated := eqn.evaluated + 1;
      forall j | 0 <= j < |equations| ensures Values(equations)[j] == before[k := r][j] {}
    }

    /** Evaluates the marked equations in their order, each under the results at that time.  If
        they look back, each result is its body evaluated under the final results. */
    method Evaluate(apply: (string, seq<V>) -> V, ghost m: nat)
      requires m <= |equations| && NoDuplicates(equations)
      requires forall k :: 0 <= k < |equations| ==> (equations[k].evalPossible <==> k < m)
      modifies Elems(equations)
      ensures Evaluated(equations, m, |equations|, old(Values(equations)), Values(equations), apply)
      ensures LooksBack(equations, m) ==>
        Solved(equations, m, old(Values(equations)), Values(equations), apply)
      ensures forall k :: 0 <= k < |equations| ==> (equations[k].evalPossible <==> k < m)
    {
      hide LooksBack, NoDuplicates, Solved, Evaluated;
      ghost var first := Values(equations);
      NoneEvaluated(equations, m, first, apply);
      for k := 0 to |equations|
        invariant forall j :: 0 <= j < |equations| ==> (equations[j].evalPossible <==> j < m)
        invariant Evaluated(equations, m, k, first, Values(equations), apply)
      {
        var eqn := equations[k];
        ghost var before := Values(equations);
        Once(equations, k);
        if eqn.evalPossible && !eqn.skip {
          assert eqn in Elems(equations);
          Calculate(k, apply);
        }
        EvaluatedStep(equations, m, k, first, before, Values(equations), apply);
      }
      if LooksBack(equations, m) { EvaluatedSolves(equations, m, first, Values(equations), apply); }
    }

    /** Checks the order of the equations and evaluates them.  For unique variables that are not
        generated, and bodies that mention dependencies only, the evaluable equations, which are
        the least closed set, hold under the final results. */
    method Solve(apply: (string, seq<V>) -> V) returns (ghost m: nat, ghost first: seq<Option<V>>)
      requires NoDuplicates(equations) && forall k :: 0 <= k < |equations| ==> !equations[k].evalPossible
      modifies this, Elems(equations)
      ensures multiset(equations) == multiset(old(equations)) && m <= |equations| && |first| == |equations|
      ensures CountedInOrder(equations[..m])
      ensures forall k :: m <= k < |equations| ==> !Counted(equations[..m], equations[k])
      ensures forall e, k :: e in old(equations) && 0 <= k < |equations| && equations[k] == e ==>
        first[k] == old(e.value)
      ensures Evaluated(equations, m, |equations|, first, Values(equations), apply)
      ensures LooksBack(equations, m) ==> forall e :: e in old(equations) ==>
        if e in equations[..m] && !e.skip then Holds(equations, e, apply) else e.value == old(e.value)
      ensures old(IsProper(equations)) ==> IsEvaluable(old(equations), equations, m) && LooksBack(equations, m)
    {
      hide NoDuplicates, IsEvaluable, CountedInOrder, Counted, Solved, Evaluated, Value, LooksBack, NoGenerated,
        Covered, UniqueResults;
      ghost var all := equations;
      m := ReorderEquations();
      SameElems(all, equations);
      ghost var eqs := equations;
      first := Values(equations);
      Reordered(all, eqs);
      Evaluate(apply, m);
      assert equations == eqs;
      if LooksBack(eqs, m) {
        forall e | e in all
          ensures if e in eqs[..m] && !e.skip then Holds(eqs, e, apply) else e.value == old(e.value)
        {
          assert e in Elems(eqs);
          ghost var k :| 0 <= k < |eqs| && eqs[k] == e;
          SolvedAt(eqs, m, k, first, Values(eqs), apply);
        }
      }
      if IsProper(all) { ProperLooksBack(all, eqs, m); }
    }
  }

  /** Every evaluable equation that is not skipped holds under the values. */
  ghost predicate Holds<V>(eqs: seq<Equation<V>>, e: Equation<V>, apply: (string, seq<V>) -> V)
    reads Elems(eqs), e
  {
    e.value == Value(e.body, Lookup(eqs, Values(eqs)), apply)
  }

  /** The marked equations before position k have been evaluated one after another: each under
      the new results before it and the first ones from it on; the others keep theirs. */
  ghost predicate Evaluated<V>(eqs: seq<Equation<V>>, m: nat, k: nat, first: seq<Option<V>>, values: seq<Option<V>>,
                               apply: (string, seq<V>) -> V)
    requires m <= |eqs| == |first| == |values| && k <= |eqs|
  {
    forall j :: 0 <= j < |eqs| ==>
      values[j] == if j < k && j < m && !eqs[j].skip
                   then Value(eqs[j].body, Lookup(eqs, values[..j] + first[j..]), apply)
                   else first[j]
  }

  /** The marked equations solve the system under the values, the others keep theirs. */
  ghost predicate Solved<V>(eqs: seq<Equation<V>>, m: nat, first: seq<Option<V>>, values: seq<Option<V>>,
                            apply: (string, seq<V>) -> V)
    requires m <= |eqs| == |first| == |values|
  {
    forall j :: 0 <= j < |eqs| ==>
      values[j] == if j < m && !eqs[j].skip then Value(eqs[j].body, Lookup(eqs, values), apply) else first[j]
  }

  /** What a marked equation mentions is defined before it or not at all. */
  ghost predicate LooksBack<V>(eqs: seq<Equation<V>>, m: nat)
    requires m <= |eqs|
  {
    forall j, name :: 0 <= j < m && !eqs[j].skip && Mentions(eqs[j].body, name) ==> IsBefore(eqs, name, j)
  }

  ghost predicate IsBefore<V>(eqs: seq<Equation<V>>, name: string, j: nat) {
    FindEquation(eqs, name).Some? ==> FindEquation(eqs, name).value < j
  }

  lemma NoneEvaluated<V>(eqs: seq<Equation<V>>, m: nat, first: seq<Option<V>>, apply: (string, seq<V>) -> V)
    requires m <= |eqs| == |first|
    ensures Evaluated(eqs, m, 0, first, first, apply)
  {}

  lemma EvaluatedStep<V>(eqs: seq<Equation<V>>, m: nat, k: nat, first: seq<Option<V>>, before: seq<Option<V>>,
                         after: seq<Option<V>>, apply: (string, seq<V>) -> V)
    requires m <= |eqs| == |first| == |before| == |after| && k < |eqs| && Evaluated(eqs, m, k, first, before, apply)
    requires after == if k < m && !eqs[k].skip
                      then before[k := Value(eqs[k].body, Lookup(eqs, before), apply)]
                      else before
    ensures Evaluated(eqs, m, k + 1, first, after, apply)
  {
    hide Value, Lookup;
    assert before == before[..k] + first[k..];
    forall j | 0 <= j <= k ensures after[..j] == before[..j] {}
  }

  /** The values of what an equation mentions, and so its own, are those before it. */
  lemma SameValue<V>(eqs: seq<Equation<V>>, j: nat, v: seq<Option<V>>, w: seq<Option<V>>, apply: (string, seq<V>) -> V)
    requires j < |eqs| == |v| == |w| && forall name :: Mentions(eqs[j].body, name) ==> IsBefore(eqs, name, j)
    requires forall i :: 0 <= i < j ==> v[i] == w[i]
    ensures Value(eqs[j].body, Lookup(eqs, v), apply) == Value(eqs[j].body, Lookup(eqs, w), apply)
  {
    hide Value, Mentions;
    ValueExt(eqs[j].body, Lookup(eqs, v), Lookup(eqs, w), apply);
  }

  /** Equations that look back hold under the final results. */
  lemma EvaluatedSolves<V>(eqs: seq<Equation<V>>, m: nat, first: seq<Option<V>>, values: seq<Option<V>>,
                           apply: (string, seq<V>) -> V)
    requires m <= |eqs| == |first| == |values| && LooksBack(eqs, m)
    requires Evaluated(eqs, m, |eqs|, first, values, apply)
    ensures Solved(eqs, m, first, values, apply)
  {
    hide Value, Lookup, Mentions, IsBefore;
    forall j | 0 <= j < m && !eqs[j].skip
      ensures Value(eqs[j].body, Lookup(eqs, values[..j] + first[j..]), apply)
           == Value(eqs[j].body, Lookup(eqs, values), apply)
    {
      SameValue(eqs, j, values[..j] + first[j..], values, apply);
    }
  }

  /** An equation that mentions a generated variable defined behind it is evaluated too early:
      it has no value, although it would have one under the final results. */
  lemma LateDefinition<V>(a: Equation<V>, g: Equation<V>, values: seq<Option<V>>, d: V, apply: (string, seq<V>) -> V)
    requires a.result == "a" && a.body == Reference("x.0001") && a.deps == ["x.0001"] && !a.skip
    requires g.result == "x.0001" && g.body == Const(d) && g.deps == [] && !g.skip
    requires |values| == 2 && Evaluated([a, g], 2, 2, [None, None], values, apply)
    ensures CountedInOrder([a, g]) && values == [None, Some(d)] && !Solved([a, g], 2, [None, None], values, apply)
  {
    var eqs, name := [a, g], "x.0001";
    assert eqs[1].result == name;
    assert Defines(eqs, name) && eqs[0].result != name by { assert |"a"| != |name|; }
    assert FindEquation(eqs, name) == Some(1);
    assert values[..0] + [None, None][0..] == [None, None];
    assert values[0] == Lookup(eqs, [None, None])(name);
    assert Lookup(eqs, values)(name) == values[1] == Some(d);
    LateCounts(a, g);
  }

  lemma LateCounts<V>(a: Equation<V>, g: Equation<V>)
    requires a.deps == ["x.0001"] && g.deps == []
    ensures CountedInOrder([a, g])
  {
    var eqs := [a, g];
    var none := eqs[..0];
    assert IsGenerated("x.0001") && !Defines(none, "x.0001");
    assert Found(none, a.deps, 0) == 0 && Gens(a.deps, 0) == 0;
    assert Found(none, a.deps, 1) == 0 && Gens(a.deps, 1) == 1;
    assert Counted(none, a) && Counted(eqs[..1], g);
    forall k | 0 <= k < |eqs| ensures Counted(eqs[..k], eqs[k]) {}
  }

  /** Each variable has one equation, none is generated, and bodies mention dependencies only. */
  ghost predicate IsProper<V>(eqs: seq<Equation<V>>) {
    UniqueResults(eqs) && NoGenerated(eqs) && forall k :: 0 <= k < |eqs| ==> Covered(eqs[k])
  }

  /** Then evaluable equations look back. */
  lemma OrderedLooksBack<V>(eqs: seq<Equation<V>>, m: nat)
    requires m <= |eqs| && Ordered(eqs[..m]) && IsProper(eqs)
    ensures LooksBack(eqs, m)
  {
    hide IsGenerated, Mentions;
    forall j, name | 0 <= j < m && !eqs[j].skip && Mentions(eqs[j].body, name) ensures IsBefore(eqs, name, j) {
      assert Covered(eqs[j]);
      var i :| 0 <= i < |eqs[j].deps| && eqs[j].deps[i] == name;
      assert eqs[..m][j] == eqs[j] && eqs[..m][..j] == eqs[..j];
      var found := FindEquation(eqs, name);
      if found.Some? && Defines(eqs[..j], name) {
        var d :| 0 <= d < j && eqs[..j][d].result == name;
        assert eqs[d].result == name && found.value == d;
      }
    }
  }

  lemma ProperLooksBack<V(!new)>(all: seq<Equation<V>>, eqs: seq<Equation<V>>, m: nat)
    requires multiset(eqs) == multiset(all) && IsProper(all) && IsEvaluable(all, eqs, m)
    ensures LooksBack(eqs, m)
  {
    hide UniqueResults, NoGenerated, Covered, LooksBack, Ordered, Ready, IsLeastClosed;
    Reordered(all, eqs);
    OrderedLooksBack(eqs, m);
  }

  lemma SolvedAt<V>(eqs: seq<Equation<V>>, m: nat, k: nat, first: seq<Option<V>>, values: seq<Option<V>>,
                    apply: (string, seq<V>) -> V)
    requires m <= |eqs| == |first| == |values| && k < |eqs| && Solved(eqs, m, first, values, apply)
    requires NoDuplicates(eqs)
    ensures values[k] == if eqs[k] in eqs[..m] && !eqs[k].skip
                         then Value(eqs[k].body, Lookup(eqs, values), apply)
                         else first[k]
  {
    hide Value, Lookup, NoDuplicates;
    Once(eqs, k);
    if k < m { assert eqs[..m][k] == eqs[k]; }
  }

  lemma Once<V>(eqs: seq<Equation<V>>, k: nat)
    requires NoDuplicates(eqs) && k < |eqs|
    ensures forall j :: 0 <= j < |eqs| && j != k ==> eqs[j] != eqs[k]
  {
    forall j | 0 <= j < |eqs| && j != k ensures eqs[j] != eqs[k] {
      if eqs[j] == eqs[k] { if j < k { Twice(eqs, j, k); } else { Twice(eqs, k, j); } }
    }
  }

  /** The values that solve equations that look back are determined by the equations. */
  lemma SolutionUnique<V>(eqs: seq<Equation<V>>, m: nat, first: seq<Option<V>>, v: seq<Option<V>>, w: seq<Option<V>>,
                          apply: (string, seq<V>) -> V)
    requires m <= |eqs| == |first| == |v| == |w| && LooksBack(eqs, m)
    requires Solved(eqs, m, first, v, apply) && Solved(eqs, m, first, w, apply)
    ensures v == w
  {
    hide Value, Lookup, Mentions, IsBefore;
    for j := 0 to m
      invariant forall i :: 0 <= i < j ==> v[i] == w[i]
    {
      if !eqs[j].skip { SameValue(eqs, j, v, w, apply); }
    }
  }

  // ----- evaluation -----

  ghost function Values<V>(eqs: seq<Equation<V>>): (r: seq<Option<V>>)
    reads Elems(eqs)
    ensures |r| == |eqs| && forall k :: 0 <= k < |eqs| ==> r[k] == eqs[k].value
  {
    if |eqs| == 0 then [] else
      assert forall e :: e in Elems(eqs[..|eqs| - 1]) ==> e in Elems(eqs);
      assert eqs[|eqs| - 1] in Elems(eqs);
      Values(eqs[..|eqs| - 1]) + [eqs[|eqs| - 1].value]
  }

  /** The variables as a reference sees them: the value of the first equation of that name. */
  ghost function Lookup<V>(eqs: seq<Equation<V>>, values: seq<Option<V>>): string -> Option<V>
    requires |values| == |eqs|
  {
    name => if FindEquation(eqs, name).Some? then values[FindEquation(eqs, name).value] else None
  }

  /** Bodies mention only what is among the dependencies. */
  ghost predicate Covered<V>(e: Equation<V>) {
    forall name :: Mentions(e.body, name) ==> name in e.deps
  }

  lemma NothingOrdered<V>(all: seq<Equation<V>>)
    ensures CountedInOrder<V>([]) && SplitOf(all, [], all)
  {
    assert [] + all == all;
  }

  lemma SameElems<V>(a: seq<Equation<V>>, b: seq<Equation<V>>)
    requires multiset(a) == multiset(b)
    ensures Elems(a) == Elems(b)
  {
    forall e ensures e in Elems(a) <==> e in Elems(b) {
      assert e in Elems(a) <==> e in multiset(a);
      assert e in Elems(b) <==> e in multiset(b);
    }
  }

  /** The new and the old list together hold all equations. */
  ghost predicate SplitOf<V>(all: seq<Equation<V>>, root: seq<Equation<V>>, eqs: seq<Equation<V>>) {
    multiset(root + eqs) == multiset(all)
  }

  lemma Rejoin<V>(all: seq<Equation<V>>, root: seq<Equation<V>>, eqs: seq<Equation<V>>)
    requires SplitOf(all, root, eqs)
    ensures Elems(all) == Elems(root + eqs) && multiset(root + eqs) == multiset(all)
  {
    SameElems(all, root + eqs);
  }

  lemma CountedBy<V>(root: seq<Equation<V>>, e: Equation<V>, found: nat, gens: nat)
    requires found == Found(root, e.deps, |e.deps|) && gens == Gens(e.deps, |e.deps|)
    ensures Counted(root, e) <==> found == |e.deps| - gens
  {}

  lemma CountedNext<V>(root: seq<Equation<V>>, e: Equation<V>)
    requires CountedInOrder(root) && Counted(root, e)
    ensures CountedInOrder(root + [e])
  {
    hide Counted;
    var s := root + [e];
    forall k | 0 <= k < |s| ensures Counted(s[..k], s[k]) {
      if k < |root| { assert s[..k] == root[..k]; } else { assert s[..k] == root; }
    }
  }

  /** The first m equations are the evaluable ones of the list, in an order in which every
      equation finds its dependencies before it. */
  ghost predicate IsEvaluable<V(!new)>(all: seq<Equation<V>>, eqs: seq<Equation<V>>, m: nat) {
    && m <= |eqs| && Ordered(eqs[..m])
    && (forall k :: m <= k < |eqs| ==> !Ready(eqs[..m], eqs[k]))
    && IsLeastClosed(Elems(all), Elems(eqs[..m]))
  }

  lemma AllEvaluable<V(!new)>(all: seq<Equation<V>>, root: seq<Equation<V>>, rest: seq<Equation<V>>)
    requires multiset(root + rest) == multiset(all) && NoGenerated(all) && CountedInOrder(root)
    requires forall k :: 0 <= k < |rest| ==> !Counted(root, rest[k])
    ensures IsEvaluable(all, root + rest, |root|)
  {
    hide Ready, IsGenerated, Counted, NoGenerated, IsLeastClosed;
    var eqs, m := root + rest, |root|;
    assert eqs[..m] == root;
    SameElems(all, eqs);
    forall k | 0 <= k < |root| ensures Ready(root[..k], root[k]) {
      assert root[..k] + (root[k..] + rest) == eqs;
      ReadyCounted(all, root[..k], root[k..] + rest, root[k]);
    }
    forall k | m <= k < |eqs| ensures !Ready(root, eqs[k]) { ReadyCounted(all, root, rest, eqs[k]); }
    OrderedLeast(root, rest, Elems(all));
  }

  lemma ReadyCounted<V>(all: seq<Equation<V>>, root: seq<Equation<V>>, eqs: seq<Equation<V>>, e: Equation<V>)
    requires multiset(root + eqs) == multiset(all) && NoGenerated(all)
    ensures Counted(root, e) <==> Ready(root, e)
  {
    hide IsGenerated, Ready, Counted;
    CountsExact(root, e);
    NothingBoth(all, root, eqs, e);
  }

  /** Moving one equation from the old list to the end of the new one. */
  lemma Move<V>(all: seq<Equation<V>>, root: seq<Equation<V>>, eqs: seq<Equation<V>>, i: nat)
    requires i < |eqs| && SplitOf(all, root, eqs) && NoDuplicates(all)
    ensures eqs[i] in Elems(all) && forall k :: 0 <= k < |eqs| && k != i ==> eqs[k] != eqs[i]
    ensures SplitOf(all, root + [eqs[i]], eqs[..i] + eqs[i + 1..])
  {
    var e, rest := eqs[i], eqs[..i] + eqs[i + 1..];
    assert eqs == eqs[..i] + [e] + eqs[i + 1..];
    SameElems(all, root + eqs);
    assert (root + eqs)[|root| + i] == e;
    assert multiset(root + eqs) == multiset(root) + multiset(rest) + multiset{e};
    assert e in multiset(all);
    assert multiset(all)[e] == 1;
    assert multiset(rest)[e] == 0;
    Elsewhere(eqs, i);
  }

  lemma Elsewhere<V>(eqs: seq<Equation<V>>, i: nat)
    requires i < |eqs| && multiset(eqs[..i] + eqs[i + 1..])[eqs[i]] == 0
    ensures forall k :: 0 <= k < |eqs| && k != i ==> eqs[k] != eqs[i]
  {
    var rest := eqs[..i] + eqs[i + 1..];
    assert eqs[i] !in rest;
    forall k | 0 <= k < |eqs| && k != i ensures eqs[k] in rest { assert rest[if k < i then k else k - 1] == eqs[k]; }
  }

  lemma NothingBoth<V>(all: seq<Equation<V>>, root: seq<Equation<V>>, eqs: seq<Equation<V>>, e: Equation<V>)
    requires multiset(root + eqs) == multiset(all) && NoGenerated(all)
    ensures Both(root, e.deps, |e.deps|) == 0
  {
    hide IsGenerated;
    SameElems(all, root + eqs);
    forall k | 0 <= k < |root| ensures !IsGenerated(root[k].result) {
      assert (root + eqs)[k] in Elems(root + eqs);
    }
    CountsCompare(root, e.deps, |e.deps|);
  }

  lemma UniqueOnce<V>(eqs: seq<Equation<V>>)
    requires UniqueResults(eqs)
    ensures NoDuplicates(eqs)
  {
    forall e | e in eqs ensures multiset(eqs)[e] == 1 {
      var k :| 0 <= k < |eqs| && eqs[k] == e;
      assert eqs == eqs[..k] + [e] + eqs[k + 1..];
      assert e !in eqs[..k] && e !in eqs[k + 1..];
    }
  }

  /** Reordering keeps what holds of every equation and that results are unique. */
  lemma Reordered<V>(all: seq<Equation<V>>, eqs: seq<Equation<V>>)
    requires multiset(eqs) == multiset(all)
    ensures NoDuplicates(all) ==> NoDuplicates(eqs)
    ensures IsProper(all) ==> IsProper(eqs)
  {
    hide IsGenerated, Covered, UniqueResults;
    forall k | 0 <= k < |eqs| ensures eqs[k] in all { assert eqs[k] in multiset(eqs); }
    if NoDuplicates(all) {
      forall e | e in eqs ensures multiset(eqs)[e] == 1 { assert e in multiset(eqs); }
    }
    if IsProper(all) { ReorderedUnique(all, eqs); }
  }

  lemma ReorderedUnique<V>(all: seq<Equation<V>>, eqs: seq<Equation<V>>)
    requires multiset(eqs) == multiset(all) && UniqueResults(all)
    ensures UniqueResults(eqs)
  {
    UniqueOnce(all);
    forall a, b | 0 <= a < b < |eqs| ensures eqs[a].result != eqs[b].result {
      assert eqs[a] in multiset(eqs) && eqs[b] in multiset(eqs);
      var i :| 0 <= i < |all| && all[i] == eqs[a];
      var j :| 0 <= j < |all| && all[j] == eqs[b];
      if eqs[a] == eqs[b] { Twice(eqs, a, b); }
    }
  }

  lemma Twice<V>(eqs: seq<Equation<V>>, a: nat, b: nat)
    requires a < b < |eqs| && eqs[a] == eqs[b]
    ensures multiset(eqs)[eqs[a]] >= 2
  {
    assert eqs == eqs[..b] + [eqs[b]] + eqs[b + 1..];
    assert eqs[..b][a] == eqs[a];
    assert eqs[a] in multiset(eqs[..b]);
  }

  /** Every equation occurs once in the list. */
  ghost predicate NoDuplicates<V>(eqs: seq<Equation<V>>) {
    forall e :: e in eqs ==> multiset(eqs)[e] == 1
  }
}
