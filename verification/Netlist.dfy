/** Netlist definitions and the cycle check of subcircuit types. */
module Netlist {
  import opened Options

  /** A definition line: its type, instance name, nodes and `Type` reference. */
  datatype Definition = Definition(kind: string, instance: string, nodes: seq<string>, reference: Option<string>) {
    predicate IsSub() { kind == "Sub" }
  }

  /** A subcircuit type: its name, its ports and its elements. */
  datatype Subcircuit = Subcircuit(instance: string, ports: seq<string>, sub: seq<Definition>)

  /** The subcircuit of the given name: the first one in the list. */
  function FindFrom(lib: seq<Subcircuit>, name: string, k: nat): (r: Option<nat>)
    requires k <= |lib|
    ensures r.Some? ==> k <= r.value < |lib| && lib[r.value].instance == name
    ensures r.Some? ==> forall i :: k <= i < r.value ==> lib[i].instance != name
    ensures r.None? ==> forall i :: k <= i < |lib| ==> lib[i].instance != name
    decreases |lib| - k
  {
    if k == |lib| then None else if lib[k].instance == name then Some(k) else FindFrom(lib, name, k + 1)
  }

  function Find(lib: seq<Subcircuit>, name: string): (r: Option<nat>)
    ensures r.Some? ==> r.value < |lib| && lib[r.value].instance == name
  {
    FindFrom(lib, name, 0)
  }

  /** The subcircuit that an instance refers to. */
  function GetSubcircuit(lib: seq<Subcircuit>, def: Definition): Option<nat> {
    if def.reference.Some? then Find(lib, def.reference.value) else None
  }

  // ----- the graph of subcircuit types -----

  /** The k-th element of type i refers to a type by the given name. */
  predicate Refers(lib: seq<Subcircuit>, i: int, k: int, name: string) {
    0 <= i < |lib| && 0 <= k < |lib[i].sub| && lib[i].sub[k].IsSub() && lib[i].sub[k].reference == Some(name)
  }

  ghost predicate Uses(lib: seq<Subcircuit>, i: int, j: int) {
    exists k, name :: Refers(lib, i, k, name) && Find(lib, name) == Some(j)
  }

  /** Every reference of type i is defined. */
  ghost predicate Defined(lib: seq<Subcircuit>, i: int) {
    forall k, name :: Refers(lib, i, k, name) ==> Find(lib, name).Some?
  }

  ghost predicate IsPath(lib: seq<Subcircuit>, p: seq<int>) {
    && |p| > 0 && (forall a :: 0 <= a < |p| ==> 0 <= p[a] < |lib|)
    && forall a :: 0 < a < |p| ==> Uses(lib, p[a - 1], p[a])
  }

  ghost predicate NoRepeat(p: seq<int>) {
    forall a, b :: 0 <= a < b < |p| ==> p[a] != p[b]
  }

  /** No path visits a type of the given names. */
  ghost predicate Avoids(lib: seq<Subcircuit>, p: seq<int>, deps: seq<string>)
    requires IsPath(lib, p)
  {
    forall a :: 0 <= a < |p| ==> lib[p[a]].instance !in deps
  }

  /** Everything reachable from type i is defined, lies on no cycle and avoids `deps`. */
  ghost predicate Clear(lib: seq<Subcircuit>, i: int, deps: seq<string>) {
    forall p :: IsPath(lib, p) && p[0] == i ==> Defined(lib, p[|p| - 1]) && NoRepeat(p) && Avoids(lib, p, deps)
  }

  /** Every reachable subcircuit type is defined and the reachable graph is acyclic. */
  ghost predicate Sound(lib: seq<Subcircuit>, i: int) {
    forall p :: IsPath(lib, p) && p[0] == i ==> Defined(lib, p[|p| - 1]) && NoRepeat(p)
  }

  lemma SoundIsClear(lib: seq<Subcircuit>, i: int)
    ensures Sound(lib, i) <==> Clear(lib, i, [])
  {}

  lemma FindOwn(lib: seq<Subcircuit>, name: string)
    requires Find(lib, name).Some?
    ensures Find(lib, lib[Find(lib, name).value].instance) == Find(lib, name)
  {}

  lemma PathPrefix(lib: seq<Subcircuit>, i: int, q: seq<int>)
    requires IsPath(lib, q) && 0 <= i < |lib| && Uses(lib, i, q[0])
    ensures IsPath(lib, [i] + q)
  {
    var p := [i] + q;
    forall a | 0 < a < |p| ensures Uses(lib, p[a - 1], p[a]) {
      if a > 1 { assert p[a - 1] == q[a - 2] && p[a] == q[a - 1]; }
    }
  }

  lemma PathTail(lib: seq<Subcircuit>, p: seq<int>)
    requires IsPath(lib, p) && |p| > 1
    ensures IsPath(lib, p[1..]) && Uses(lib, p[0], p[1])
  {
    hide Uses;
    var q := p[1..];
    assert Uses(lib, p[1 - 1], p[1]);
    forall a | 0 < a < |q| ensures Uses(lib, q[a - 1], q[a]) {
      assert Uses(lib, p[a + 1 - 1], p[a + 1]);
    }
  }

  /** What a clear type promises about itself and about the types it uses. */
  lemma ClearUnfold(lib: seq<Subcircuit>, i: nat, deps: seq<string>, j: int)
    requires i < |lib| && Find(lib, lib[i].instance) == Some(i) && Clear(lib, i, deps)
    ensures lib[i].instance !in deps && Defined(lib, i)
    ensures Uses(lib, i, j) ==> Clear(lib, j, deps + [lib[i].instance])
  {
    hide Find, Uses;
    assert IsPath(lib, [i]) && Avoids(lib, [i], deps) && [i][0] == i;
    if Uses(lib, i, j) {
      forall q | IsPath(lib, q) && q[0] == j
        ensures Defined(lib, q[|q| - 1]) && NoRepeat(q) && Avoids(lib, q, deps + [lib[i].instance])
      {
        ClearTail(lib, i, deps, q);
      }
    }
  }

  lemma ClearTail(lib: seq<Subcircuit>, i: nat, deps: seq<string>, q: seq<int>)
    requires i < |lib| && Find(lib, lib[i].instance) == Some(i) && Clear(lib, i, deps)
    requires IsPath(lib, q) && Uses(lib, i, q[0])
    ensures Defined(lib, q[|q| - 1]) && NoRepeat(q) && Avoids(lib, q, deps + [lib[i].instance])
  {
    PathPrefix(lib, i, q);
    var p := [i] + q;
    hide Find, Uses, Defined;
    assert p[0] == i && p[|p| - 1] == q[|q| - 1];
    assert NoRepeat(p) && Avoids(lib, p, deps);
    forall a, b | 0 <= a < b < |q| ensures q[a] != q[b] { assert p[a + 1] != p[b + 1]; }
    forall a | 0 <= a < |q| ensures lib[q[a]].instance !in deps + [lib[i].instance] {
      assert p[a + 1] == q[a] && p[0] != p[a + 1];
      UniqueName(lib, q, a, i);
    }
  }

  /** Types on a path behind its first one are found by their names. */
  lemma UniqueName(lib: seq<Subcircuit>, q: seq<int>, a: nat, i: nat)
    requires IsPath(lib, q) && a < |q| && i < |lib| && q[a] != i && Find(lib, lib[i].instance) == Some(i)
    requires Uses(lib, i, q[0])
    ensures lib[q[a]].instance != lib[i].instance
  {
    if a > 0 { assert Uses(lib, q[a - 1], q[a]); }
  }

  /** A type is clear when it is new, its references are defined and what it uses is clear. */
  lemma ClearFold(lib: seq<Subcircuit>, i: nat, deps: seq<string>)
    requires i < |lib| && lib[i].instance !in deps && Defined(lib, i)
    requires forall j :: Uses(lib, i, j) ==> Clear(lib, j, deps + [lib[i].instance])
    ensures Clear(lib, i, deps)
  {
    hide Find, Uses, Defined;
    forall p | IsPath(lib, p) && p[0] == i ensures Defined(lib, p[|p| - 1]) && NoRepeat(p) && Avoids(lib, p, deps) {
      if |p| > 1 {
        PathTail(lib, p);
        var q := p[1..];
        assert Clear(lib, q[0], deps + [lib[i].instance]);
        assert NoRepeat(q) && Avoids(lib, q, deps + [lib[i].instance]) && q[|q| - 1] == p[|p| - 1];
        forall a | 0 < a < |p| ensures p[a] == q[a - 1] && lib[p[a]].instance !in deps + [lib[i].instance] {}
      }
    }
  }

  // ----- the check -----

  ghost function Names(lib: seq<Subcircuit>): set<string> {
    set i | 0 <= i < |lib| :: lib[i].instance
  }

  /** The types that are not among the dependencies yet: what the recursion has left. */
  ghost function Rest(lib: seq<Subcircuit>, deps: seq<string>): set<string> {
    set s | s in Names(lib) && s !in deps
  }

  lemma RestDrops(lib: seq<Subcircuit>, i: nat, deps: seq<string>, more: seq<string>)
    requires i < |lib| && lib[i].instance !in deps
    requires forall s :: s in deps + [lib[i].instance] ==> s in more
    ensures Rest(lib, more) < Rest(lib, deps)
  {
    assert lib[i].instance in Rest(lib, deps);
    assert lib[i].instance in deps + [lib[i].instance];
    assert forall s :: s in deps ==> s in deps + [lib[i].instance];
  }

  /** Whether the name refers to a clear type. */
  ghost predicate ClearName(lib: seq<Subcircuit>, name: string, deps: seq<string>) {
    Find(lib, name).Some? && Clear(lib, Find(lib, name).value, deps)
  }

  /** All references of the elements checked so far are clear. */
  ghost predicate ClearNames(lib: seq<Subcircuit>, names: seq<string>, deps: seq<string>) {
    forall s :: s in names ==> ClearName(lib, s, deps)
  }

  lemma ClearByNames(lib: seq<Subcircuit>, i: nat, deps: seq<string>, names: seq<string>)
    requires i < |lib| && Find(lib, lib[i].instance) == Some(i) && lib[i].instance !in deps
    requires forall s :: s in names <==> exists k :: Refers(lib, i, k, s)
    ensures Clear(lib, i, deps) <==> ClearNames(lib, names, deps + [lib[i].instance])
  {
    hide Find, Clear;
    var more := deps + [lib[i].instance];
    if ClearNames(lib, names, more) {
      assert Defined(lib, i) by {
        forall k, name | Refers(lib, i, k, name) ensures Find(lib, name).Some? { assert name in names; }
      }
      forall j | Uses(lib, i, j) ensures Clear(lib, j, more) {
        var k, name :| Refers(lib, i, k, name) && Find(lib, name) == Some(j);
        assert name in names;
      }
      ClearFold(lib, i, deps);
    }
    if Clear(lib, i, deps) {
      forall s | s in names ensures ClearName(lib, s, more) {
        var k :| Refers(lib, i, k, s);
        ClearUnfold(lib, i, deps, 0);
        assert Uses(lib, i, Find(lib, s).value);
        ClearUnfold(lib, i, deps, Find(lib, s).value);
      }
    }
  }

  /** Checks whether type i is defined in cycles: no errors exactly when everything
      reachable from it is defined, acyclic and not among the dependencies. */
  method ValidateSubCycles(lib: seq<Subcircuit>, i: nat, deps0: seq<string>) returns (errors: nat, deps: seq<string>)
    requires i < |lib| && Find(lib, lib[i].instance) == Some(i)
    ensures errors == 0 <==> Clear(lib, i, deps0)
    ensures errors == 0 ==> deps == deps0 + [lib[i].instance]
    ensures forall s :: s in deps0 ==> s in deps
    decreases Rest(lib, deps0)
  {
    hide Find, Clear, Rest;
    errors, deps := 0, deps0;
    if lib[i].instance in deps {
      if Clear(lib, i, deps0) { ClearUnfold(lib, i, deps0, 0); }
      errors := errors + 1;
      return;
    }
    ghost var more := deps0 + [lib[i].instance];
    deps := deps + [lib[i].instance];
    var checked: seq<string> := [];
    for k := 0 to |lib[i].sub|
      invariant forall s :: s in checked <==> exists a :: a < k && Refers(lib, i, a, s)
      invariant errors == 0 <==> ClearNames(lib, checked, more)
      invariant errors == 0 ==> deps == more
      invariant forall s :: s in more ==> s in deps
    {
      var def := lib[i].sub[k];
      ghost var before := checked;
      if def.IsSub() && def.reference.Some? && def.reference.value !in checked {
        var name := def.reference.value;
        checked := checked + [name];
        var error, next := 1, deps;
        var sub := Find(lib, name);
        if sub.Some? {
          FindOwn(lib, name);
          RestDrops(lib, i, deps0, deps);
          error, next := ValidateSubCycles(lib, sub.value, deps);
        }
        CheckedOne(lib, before, name, more);
        assert error == 0 <==> ClearName(lib, name, deps);
        if error > 0 {
          errors := errors + error;
          deps := next;
        }
      }
      NextChecked(lib, i, k, before, checked);
    }
    ClearByNames(lib, i, deps0, checked);
  }

  lemma CheckedOne(lib: seq<Subcircuit>, names: seq<string>, name: string, deps: seq<string>)
    ensures ClearNames(lib, names + [name], deps) <==> ClearNames(lib, names, deps) && ClearName(lib, name, deps)
  {
    hide ClearName;
    assert name in names + [name];
    assert forall s :: s in names ==> s in names + [name];
  }

  lemma NextChecked(lib: seq<Subcircuit>, i: nat, k: nat, before: seq<string>, checked: seq<string>)
    requires i < |lib| && k < |lib[i].sub|
    requires forall s :: s in before <==> exists a :: a < k && Refers(lib, i, a, s)
    requires var d := lib[i].sub[k];
      checked == if d.IsSub() && d.reference.Some? && d.reference.value !in before
                 then before + [d.reference.value]
                 else before
    ensures forall s :: s in checked <==> exists a :: a < k + 1 && Refers(lib, i, a, s)
  {
    forall s ensures s in checked <==> exists a :: a < k + 1 && Refers(lib, i, a, s) {
      if s in checked && s !in before { assert Refers(lib, i, k, s); }
      if s in before { var a :| a < k && Refers(lib, i, a, s); }
      if exists a :: a < k + 1 && Refers(lib, i, a, s) {
        var a :| a < k + 1 && Refers(lib, i, a, s);
        if a < k { assert s in before; }
      }
    }
  }
}
