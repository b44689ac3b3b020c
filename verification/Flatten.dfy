/** Expansion of subcircuit instances into a flat list of circuit definitions. */
module Flattening {
  import opened Options
  import opened Netlist

  // ----- names -----

  function Join(parts: seq<string>): string {
    if |parts| == 0 then "" else if |parts| == 1 then parts[0] else parts[0] + "." + Join(parts[1..])
  }

  /** The name of a node or of an element inside of a subcircuit instance.  An absent
      instance list is left out. */
  function InternalName(kind: string, instances: Option<string>, instance: string, base: string): string {
    match instances
    case Some(list) => kind + "." + list + "." + instance + "." + base
    case None => kind + "." + instance + "." + base
  }

  function InstanceList(instances: seq<string>): Option<string> {
    if |instances| > 0 then Some(Join(instances)) else None
  }

  predicate IsGlobal(node: string) {
    node == "gnd" || (|node| > 0 && node[|node| - 1] == '!')
  }

  // ----- top-down resolution -----

  /** An instance of the subcircuit type with the given number. */
  datatype Frame = Frame(sub: nat, inst: Definition)

  /** The position of the port with the given name, counted from one; the last one if there
      are several, zero if there is none. */
  function PortNr(ports: seq<string>, node: string): (nr: nat)
    ensures nr <= |ports| && (nr > 0 ==> ports[nr - 1] == node)
    ensures forall p :: nr <= p < |ports| ==> ports[p] != node
  {
    if |ports| == 0 then 0
    else if ports[|ports| - 1] == node then |ports|
    else PortNr(ports[..|ports| - 1], node)
  }

  function InstanceNames(path: seq<Frame>): seq<string> {
    seq(|path|, i requires 0 <= i < |path| => path[i].inst.instance)
  }

  ghost predicate ValidFrame(lib: seq<Subcircuit>, fr: Frame) {
    fr.sub < |lib| && |fr.inst.nodes| == |lib[fr.sub].ports|
  }

  ghost predicate ValidPath(lib: seq<Subcircuit>, path: seq<Frame>) {
    forall i :: 0 <= i < |path| ==> ValidFrame(lib, path[i])
  }

  /** A net: a name of the top level, global nodes included, or a node inside of an instance. */
  datatype Net = Top(name: string) | Internal(kind: string, path: seq<string>, node: string)

  /** The net of a node inside of the innermost instance of the path. */
  ghost function NetOf(lib: seq<Subcircuit>, path: seq<Frame>, node: string): Net
    requires ValidPath(lib, path)
    decreases |path|
  {
    if |path| == 0 then Top(node)
    else
      var inner := path[|path| - 1];
      var nr := PortNr(lib[inner.sub].ports, node);
      if nr > 0 then NetOf(lib, path[..|path| - 1], inner.inst.nodes[nr - 1])
      else if IsGlobal(node) then Top(node)
      else Internal(lib[inner.sub].instance, InstanceNames(path), node)
  }

  function NetName(net: Net): string {
    match net
    case Top(name) => name
    case Internal(kind, path, node) => Join([kind] + path + [node])
  }

  // ----- bottom-up translation -----

  /** A node of an expanded element; absent while it is left blank. */
  datatype Slot = Slot(node: Option<string>, xlatenr: nat)

  /** One level of translation: a port of the instance, or a name. */
  datatype Target = External(nr: nat) | Named(name: string)

  function Local(lib: seq<Subcircuit>, outer: seq<string>, fr: Frame, node: string): (t: Target)
    requires fr.sub < |lib|
    ensures t.External? ==> 0 < t.nr <= |lib[fr.sub].ports|
  {
    var nr := PortNr(lib[fr.sub].ports, node);
    if nr > 0 then External(nr)
    else if IsGlobal(node) then Named(node)
    else Named(InternalName(lib[fr.sub].instance, InstanceList(outer), fr.inst.instance, node))
  }

  /** The translation through all instances of a path, from the inside. */
  ghost function Climb(lib: seq<Subcircuit>, outer: seq<string>, path: seq<Frame>, node: string): (t: Target)
    requires ValidPath(lib, path) && |path| > 0
    ensures t.External? ==> 0 < t.nr <= |lib[path[0].sub].ports|
    decreases |path|
  {
    if |path| == 1 then Local(lib, outer, path[0], node)
    else
      var t := Climb(lib, outer + [path[0].inst.instance], path[1..], node);
      if t.Named? then t else Local(lib, outer, path[0], path[1].inst.nodes[t.nr - 1])
  }

  /** The slot of a node once the elements of the outermost instance have been copied. */
  function SlotFor(outer: seq<string>, fr: Frame, t: Target): Slot
    requires t.External? ==> 0 < t.nr <= |fr.inst.nodes|
  {
    match t
    case Named(name) => Slot(Some(name), 0)
    case External(nr) => Slot(if |outer| == 0 then Some(fr.inst.nodes[nr - 1]) else None, nr)
  }

  /** An element inside of the innermost instance of a path. */
  datatype Leaf = Leaf(path: seq<Frame>, element: Definition)

  /** A copied element. */
  datatype Copy = Copy(kind: string, instance: string, subcircuit: Option<string>, nodes: seq<Slot>)

  ghost predicate ValidLeaf(lib: seq<Subcircuit>, leaf: Leaf) {
    |leaf.path| > 0 && ValidPath(lib, leaf.path)
  }

  ghost function CopyOf(lib: seq<Subcircuit>, outer: seq<string>, leaf: Leaf): Copy
    requires ValidLeaf(lib, leaf)
  {
    var inner, e := leaf.path[|leaf.path| - 1], leaf.element;
    var above := outer + InstanceNames(leaf.path[..|leaf.path| - 1]);
    Copy(e.kind, InternalName(lib[inner.sub].instance, InstanceList(above), inner.inst.instance, e.instance),
         Some(lib[inner.sub].instance),
         seq(|e.nodes|,
             i requires 0 <= i < |e.nodes| => SlotFor(outer, leaf.path[0], Climb(lib, outer, leaf.path, e.nodes[i]))))
  }

  ghost function Copies(lib: seq<Subcircuit>, outer: seq<string>, leaves: seq<Leaf>): seq<Copy>
    requires forall i :: 0 <= i < |leaves| ==> ValidLeaf(lib, leaves[i])
  {
    seq(|leaves|, i requires 0 <= i < |leaves| => CopyOf(lib, outer, leaves[i]))
  }

  // ----- the elements below an instance -----

  /** Every instance inside of a subcircuit refers to a type with as many nodes. */
  ghost predicate ValidLibrary(lib: seq<Subcircuit>) {
    forall i, k :: 0 <= i < |lib| && 0 <= k < |lib[i].sub| && lib[i].sub[k].IsSub() ==>
      ValidInstance(lib, lib[i].sub[k])
  }

  ghost predicate ValidInstance(lib: seq<Subcircuit>, def: Definition) {
    GetSubcircuit(lib, def).Some? && |def.nodes| == |lib[GetSubcircuit(lib, def).value].ports|
  }

  /** An instance that can be expanded: types above it are visited, and those below are clear. */
  ghost predicate Expandable(lib: seq<Subcircuit>, visited: seq<string>, fr: Frame) {
    && ValidLibrary(lib) && ValidFrame(lib, fr)
    && Find(lib, lib[fr.sub].instance) == Some(fr.sub) && Clear(lib, fr.sub, visited)
  }

  function Child(lib: seq<Subcircuit>, def: Definition): Frame
    requires GetSubcircuit(lib, def).Some?
  {
    Frame(GetSubcircuit(lib, def).value, def)
  }

  lemma ChildExpandable(lib: seq<Subcircuit>, visited: seq<string>, fr: Frame, k: nat)
    requires Expandable(lib, visited, fr) && k < |lib[fr.sub].sub| && lib[fr.sub].sub[k].IsSub()
    ensures ValidInstance(lib, lib[fr.sub].sub[k])
    ensures Expandable(lib, visited + [lib[fr.sub].instance], Child(lib, lib[fr.sub].sub[k]))
    ensures Rest(lib, visited + [lib[fr.sub].instance]) < Rest(lib, visited)
  {
    hide Find, Clear, Rest;
    var def := lib[fr.sub].sub[k];
    var j := Child(lib, def).sub;
    assert Refers(lib, fr.sub, k, def.reference.value);
    assert Uses(lib, fr.sub, j);
    ClearUnfold(lib, fr.sub, visited, j);
    FindOwn(lib, def.reference.value);
    RestDrops(lib, fr.sub, visited, visited + [lib[fr.sub].instance]);
  }

  function Under(fr: Frame, leaf: Leaf): Leaf { Leaf([fr] + leaf.path, leaf.element) }

  function AllUnder(fr: Frame, leaves: seq<Leaf>): seq<Leaf> {
    seq(|leaves|, i requires 0 <= i < |leaves| => Under(fr, leaves[i]))
  }

  /** The elements below an instance, depth first, the last one first: those of its first
      k elements. */
  ghost function Leaves(lib: seq<Subcircuit>, visited: seq<string>, fr: Frame, k: nat): (r: seq<Leaf>)
    requires Expandable(lib, visited, fr) && k <= |lib[fr.sub].sub|
    ensures forall i :: 0 <= i < |r| ==> ValidLeaf(lib, r[i]) && r[i].path[0] == fr
    decreases Rest(lib, visited), k
  {
    hide Clear, Rest, AllUnder, Find;
    if k == 0 then []
    else
      var def := lib[fr.sub].sub[k - 1];
      if def.IsSub() then
        ChildExpandable(lib, visited, fr, k - 1);
        var child := Child(lib, def);
        var below := Leaves(lib, visited + [lib[fr.sub].instance], child, |lib[child.sub].sub|);
        AllUnderLeaves(lib, fr, child, below);
        AllUnder(fr, below) + Leaves(lib, visited, fr, k - 1)
      else [Leaf([fr], def)] + Leaves(lib, visited, fr, k - 1)
  }

  // ----- both resolutions agree -----

  /** The translation, taken at the innermost instance first. */
  lemma {:induction false} ClimbBack(lib: seq<Subcircuit>, outer: seq<string>, path: seq<Frame>, node: string)
    requires ValidPath(lib, path) && |path| > 1
    ensures var inner, above := path[|path| - 1], path[..|path| - 1];
      var t := Local(lib, outer + InstanceNames(above), inner, node);
      Climb(lib, outer, path, node) == if t.Named? then t else Climb(lib, outer, above, inner.inst.nodes[t.nr - 1])
    decreases |path|
  {
    hide Local;
    var rest, above, inner := path[1..], path[..|path| - 1], path[|path| - 1];
    var deeper := outer + [path[0].inst.instance];
    if |path| == 2 {
      assert outer + InstanceNames(above) == deeper;
    } else {
      ClimbBack(lib, deeper, rest, node);
      assert rest[..|rest| - 1] == above[1..] && rest[|rest| - 1] == inner;
      assert deeper + InstanceNames(above[1..]) == outer + InstanceNames(above);
    }
  }

  lemma {:induction false} JoinAppend(a: seq<string>, b: seq<string>)
    requires |a| > 0 && |b| > 0
    ensures Join(a + b) == Join(a) + "." + Join(b)
  {
    if |a| == 1 {
      assert (a + b)[1..] == b;
    } else {
      assert (a + b)[1..] == a[1..] + b;
      JoinAppend(a[1..], b);
      assert a[0] + "." + (Join(a[1..]) + "." + Join(b)) == (a[0] + "." + Join(a[1..])) + "." + Join(b);
    }
  }

  lemma JoinOne(s: string)
    ensures Join([s]) == s
  {}

  lemma JoinedName(kind: string, above: seq<string>, instance: string, base: string)
    ensures InternalName(kind, InstanceList(above), instance, base) == Join([kind] + (above + [instance]) + [base])
  {
    hide Join;
    JoinOne(kind);
    JoinOne(instance);
    JoinOne(base);
    JoinAppend([kind] + (above + [instance]), [base]);
    JoinAppend([kind], above + [instance]);
    if |above| > 0 {
      JoinAppend(above, [instance]);
      assert kind + "." + (Join(above) + "." + instance) + "." + base
          == kind + "." + Join(above) + "." + instance + "." + base;
    } else {
      assert above + [instance] == [instance];
    }
  }

  /** What a node is called at the top level. */
  ghost function FinalName(lib: seq<Subcircuit>, path: seq<Frame>, node: string): string
    requires ValidPath(lib, path) && |path| > 0
  {
    SlotFor([], path[0], Climb(lib, [], path, node)).node.value
  }

  lemma PathName(lib: seq<Subcircuit>, path: seq<Frame>, node: string)
    requires ValidPath(lib, path) && |path| > 0
    ensures var inner, above := path[|path| - 1], InstanceNames(path[..|path| - 1]);
      && [] + above == above && (|path| == 1 ==> above == [])
      && InternalName(lib[inner.sub].instance, InstanceList(above), inner.inst.instance, node)
         == Join([lib[inner.sub].instance] + InstanceNames(path) + [node])
  {
    hide Join, InternalName, InstanceList;
    var inner, above := path[|path| - 1], InstanceNames(path[..|path| - 1]);
    assert above + [inner.inst.instance] == InstanceNames(path);
    JoinedName(lib[inner.sub].instance, above, inner.inst.instance, node);
  }

  /** The bottom-up translation gives a node the name of its net. */
  lemma {:induction false} TranslationResolves(lib: seq<Subcircuit>, path: seq<Frame>, node: string)
    requires ValidPath(lib, path) && |path| > 0
    ensures FinalName(lib, path, node) == NetName(NetOf(lib, path, node))
    decreases |path|
  {
    hide Join, InternalName, InstanceList, PortNr, IsGlobal, InstanceNames;
    PathName(lib, path, node);
    if |path| > 1 {
      ClimbBack(lib, [], path, node);
      var inner, above := path[|path| - 1], path[..|path| - 1];
      var t := Local(lib, InstanceNames(above), inner, node);
      if t.External? { TranslationResolves(lib, above, inner.inst.nodes[t.nr - 1]); }
    }
  }

  // ----- names identify nets -----

  predicate DotFree(s: string) { '.' !in s }

  predicate AllDotFree(parts: seq<string>) { forall i :: 0 <= i < |parts| ==> DotFree(parts[i]) }

  lemma {:induction false} JoinInjective(a: seq<string>, b: seq<string>)
    requires |a| > 0 && |b| > 0 && AllDotFree(a) && AllDotFree(b) && Join(a) == Join(b)
    ensures a == b
  {
    if |a| == 1 {
      HasDot(b);
    } else if |b| == 1 {
      HasDot(a);
    } else {
      var x, y := Join(a[1..]), Join(b[1..]);
      FirstDot(a[0], x, b[0], y);
      assert AllDotFree(a[1..]) && AllDotFree(b[1..]);
      JoinInjective(a[1..], b[1..]);
      assert a == [a[0]] + a[1..] && b == [b[0]] + b[1..];
    }
  }

  lemma HasDot(parts: seq<string>)
    ensures |parts| > 1 ==> !DotFree(Join(parts))
  {
    if |parts| > 1 { assert Join(parts)[|parts[0]|] == '.'; }
  }

  lemma DotBehind(q: string, y: string, i: nat)
    requires DotFree(q) && i < |q + "." + y| && (q + "." + y)[i] == '.'
    ensures |q| <= i
  {
    assert forall j :: 0 <= j < |q| ==> (q + "." + y)[j] == q[j];
  }

  lemma FirstDot(p: string, x: string, q: string, y: string)
    requires DotFree(p) && DotFree(q) && p + "." + x == q + "." + y
    ensures p == q && x == y
  {
    var s := p + "." + x;
    assert s == q + "." + y;
    assert s[|p|] == '.' && s[|q|] == '.';
    DotBehind(p, x, |q|);
    DotBehind(q, y, |p|);
    assert p == s[..|p|] && q == s[..|q|] && x == s[|p| + 1..] && y == s[|q| + 1..];
  }

  predicate DotFreeNet(net: Net) {
    match net
    case Top(name) => DotFree(name)
    case Internal(kind, path, node) => DotFree(kind) && AllDotFree(path) && DotFree(node)
  }

  lemma NetNameInjective(a: Net, b: Net)
    requires DotFreeNet(a) && DotFreeNet(b) && NetName(a) == NetName(b)
    ensures a == b
  {
    var p := if a.Top? then [a.name] else [a.kind] + a.path + [a.node];
    var q := if b.Top? then [b.name] else [b.kind] + b.path + [b.node];
    JoinInjective(p, q);
    if a.Internal? && b.Internal? {
      assert a.path == p[1..|p| - 1] && b.path == q[1..|q| - 1];
      assert a.kind == p[0] && b.kind == q[0] && a.node == p[|p| - 1] && b.node == q[|q| - 1];
    }
  }

  ghost predicate DotFreeFrame(lib: seq<Subcircuit>, fr: Frame) {
    fr.sub < |lib| && DotFree(lib[fr.sub].instance) && DotFree(fr.inst.instance) && AllDotFree(fr.inst.nodes)
  }

  ghost predicate DotFreePath(lib: seq<Subcircuit>, path: seq<Frame>) {
    forall i :: 0 <= i < |path| ==> DotFreeFrame(lib, path[i])
  }

  lemma {:induction false} NetOfDotFree(lib: seq<Subcircuit>, path: seq<Frame>, node: string)
    requires ValidPath(lib, path) && DotFreePath(lib, path) && DotFree(node)
    ensures DotFreeNet(NetOf(lib, path, node))
    decreases |path|
  {
    hide PortNr;
    if |path| > 0 {
      var inner := path[|path| - 1];
      assert DotFreeFrame(lib, inner);
      forall i | 0 <= i < |path| ensures DotFree(path[i].inst.instance) { assert DotFreeFrame(lib, path[i]); }
      var nr := PortNr(lib[inner.sub].ports, node);
      if nr > 0 { NetOfDotFree(lib, path[..|path| - 1], inner.inst.nodes[nr - 1]); }
    }
  }

  /** The node of a terminal in the flat list: translated inside of an instance, unchanged at
      the top level. */
  ghost function TerminalName(lib: seq<Subcircuit>, path: seq<Frame>, node: string): string
    requires ValidPath(lib, path)
  {
    if |path| == 0 then node else FinalName(lib, path, node)
  }

  /** Two terminals get the same node in the flat list exactly when they are on the same net. */
  lemma Connectivity(lib: seq<Subcircuit>, p: seq<Frame>, x: string, q: seq<Frame>, y: string)
    requires ValidPath(lib, p) && ValidPath(lib, q)
    requires DotFreePath(lib, p) && DotFreePath(lib, q) && DotFree(x) && DotFree(y)
    ensures TerminalName(lib, p, x) == TerminalName(lib, q, y) <==> NetOf(lib, p, x) == NetOf(lib, q, y)
  {
    hide FinalName, DotFree, DotFreePath, DotFreeNet;
    TerminalNet(lib, p, x);
    TerminalNet(lib, q, y);
    NetOfDotFree(lib, p, x);
    NetOfDotFree(lib, q, y);
    if TerminalName(lib, p, x) == TerminalName(lib, q, y) { NetNameInjective(NetOf(lib, p, x), NetOf(lib, q, y)); }
  }

  lemma TerminalNet(lib: seq<Subcircuit>, path: seq<Frame>, node: string)
    requires ValidPath(lib, path)
    ensures TerminalName(lib, path, node) == NetName(NetOf(lib, path, node))
  {
    if |path| > 0 { TranslationResolves(lib, path, node); }
  }

  // ----- in place -----

  /** A node of an element of a subcircuit type. */
  datatype Terminal = Terminal(sub: nat, element: nat, pin: nat)

  /** The translation noted at a node: the node of the instance and the number of the port. */
  datatype Xlate = Xlate(node: string, nr: nat)

  lemma PortNrStep(ports: seq<string>, i: nat, node: string)
    requires i < |ports|
    ensures PortNr(ports[..i + 1], node) == if ports[i] == node then i + 1 else PortNr(ports[..i], node)
  {
    assert ports[..i + 1][..i] == ports[..i];
  }

  /** The note at terminal t after the first i ports of an instance have been compared. */
  ghost predicate Noted(lib: seq<Subcircuit>, xlate: map<Terminal, Xlate>, fr: Frame, k: nat, pin: nat, i: nat)
    requires ValidFrame(lib, fr) && k < |lib[fr.sub].sub| && pin < |lib[fr.sub].sub[k].nodes|
    requires i <= |lib[fr.sub].ports|
  {
    var nr := PortNr(lib[fr.sub].ports[..i], lib[fr.sub].sub[k].nodes[pin]);
    var t := Terminal(fr.sub, k, pin);
    if nr > 0 then t in xlate && xlate[t] == Xlate(fr.inst.nodes[nr - 1], nr) else t !in xlate
  }

  ghost predicate SameOutside(before: map<Terminal, Xlate>, after: map<Terminal, Xlate>, sub: nat, k: nat) {
    forall t: Terminal :: !(t.sub == sub && t.element == k) ==>
      (t in before <==> t in after) && (t in before ==> before[t] == after[t])
  }

  ghost predicate Untranslated(xlate: map<Terminal, Xlate>, sub: nat, k: nat) {
    forall t :: t in xlate ==> !(t.sub == sub && t.element == k)
  }

  ghost predicate PinsInRange(lib: seq<Subcircuit>, xlate: map<Terminal, Xlate>, sub: nat, k: nat)
    requires sub < |lib| && k < |lib[sub].sub|
  {
    forall t :: t in xlate && t.sub == sub && t.element == k ==> t.pin < |lib[sub].sub[k].nodes|
  }

  lemma Restored(before: map<Terminal, Xlate>, noted: map<Terminal, Xlate>, after: map<Terminal, Xlate>, sub: nat,
                 k: nat)
    requires SameOutside(before, noted, sub, k) && SameOutside(noted, after, sub, k)
    requires Untranslated(before, sub, k) && Untranslated(after, sub, k)
    ensures after == before
  {}

  /** All nodes of element k are noted. */
  ghost predicate Translated(lib: seq<Subcircuit>, xlate: map<Terminal, Xlate>, fr: Frame, k: nat)
    requires ValidFrame(lib, fr) && k < |lib[fr.sub].sub|
  {
    forall pin: nat :: pin < |lib[fr.sub].sub[k].nodes| ==> Noted(lib, xlate, fr, k, pin, |lib[fr.sub].ports|)
  }

  /** The slot of a node of element k inside of an instance. */
  ghost function Placed(lib: seq<Subcircuit>, outer: seq<string>, fr: Frame, node: string): Slot
    requires ValidFrame(lib, fr)
  {
    SlotFor(outer, fr, Local(lib, outer, fr, node))
  }

  /** A slot of a copy of element k, one instance further up. */
  ghost function Lifted(lib: seq<Subcircuit>, outer: seq<string>, fr: Frame, e: Definition, s: Slot): Slot
    requires ValidFrame(lib, fr) && (s.node.None? ==> 0 < s.xlatenr <= |e.nodes|)
  {
    if s.node.Some? then s else Placed(lib, outer, fr, e.nodes[s.xlatenr - 1])
  }

  lemma NothingNoted(lib: seq<Subcircuit>, xlate: map<Terminal, Xlate>, fr: Frame, k: nat)
    requires ValidFrame(lib, fr) && k < |lib[fr.sub].sub| && Untranslated(xlate, fr.sub, k)
    ensures forall pin: nat :: pin < |lib[fr.sub].sub[k].nodes| ==> Noted(lib, xlate, fr, k, pin, 0)
    ensures SameOutside(xlate, xlate, fr.sub, k)
  {}

  lemma NoteStep(lib: seq<Subcircuit>, first: map<Terminal, Xlate>, before: map<Terminal, Xlate>,
                 after: map<Terminal, Xlate>,
                 fr: Frame, k: nat, n: nat, i: nat)
    requires ValidFrame(lib, fr) && k < |lib[fr.sub].sub| && n < |lib[fr.sub].sub[k].nodes| && i < |lib[fr.sub].ports|
    requires after == if lib[fr.sub].sub[k].nodes[n] == lib[fr.sub].ports[i]
      then before[Terminal(fr.sub, k, n) := Xlate(fr.inst.nodes[i], i + 1)] else before
    requires Noted(lib, before, fr, k, n, i) && SameOutside(first, before, fr.sub, k)
    ensures Noted(lib, after, fr, k, n, i + 1) && SameOutside(first, after, fr.sub, k)
    ensures forall pin: nat, j: nat :: pin < |lib[fr.sub].sub[k].nodes| && pin != n && j <= |lib[fr.sub].ports| ==>
      (Noted(lib, before, fr, k, pin, j) <==> Noted(lib, after, fr, k, pin, j))
  {
    hide PortNr;
    PortNrStep(lib[fr.sub].ports, i, lib[fr.sub].sub[k].nodes[n]);
  }

  class Expander {
    const lib: seq<Subcircuit>
    var xlate: map<Terminal, Xlate>
    var instances: seq<string>

    constructor (lib: seq<Subcircuit>)
      ensures this.lib == lib && xlate == map[] && instances == []
    {
      this.lib := lib;
      xlate, instances := map[], [];
    }

    /** Notes the nodes of the instance at the nodes of element k. */
    method XlatSubcircuitNodes(fr: Frame, k: nat)
      requires ValidFrame(lib, fr) && k < |lib[fr.sub].sub| && Untranslated(xlate, fr.sub, k)
      modifies this`xlate
      ensures Translated(lib, xlate, fr, k) && SameOutside(old(xlate), xlate, fr.sub, k)
      ensures PinsInRange(lib, xlate, fr.sub, k)
    {
      hide Noted, SameOutside, PortNr;
      var ports, nodes := lib[fr.sub].ports, lib[fr.sub].sub[k].nodes;
      NothingNoted(lib, xlate, fr, k);
      for i := 0 to |ports|
        invariant forall pin: nat :: pin < |nodes| ==> Noted(lib, xlate, fr, k, pin, i)
        invariant SameOutside(old(xlate), xlate, fr.sub, k) && PinsInRange(lib, xlate, fr.sub, k)
      {
        ghost var next := i + 1;
        for n := 0 to |nodes|
          invariant forall pin: nat :: pin < n ==> Noted(lib, xlate, fr, k, pin, next)
          invariant forall pin: nat :: n <= pin < |nodes| ==> Noted(lib, xlate, fr, k, pin, i)
          invariant SameOutside(old(xlate), xlate, fr.sub, k) && PinsInRange(lib, xlate, fr.sub, k)
        {
          ghost var before := xlate;
          if nodes[n] == ports[i] {
            xlate := xlate[Terminal(fr.sub, k, n) := Xlate(fr.inst.nodes[i], i + 1)];
          }
          NoteStep(lib, old(xlate), before, xlate, fr, k, n, i);
        }
      }
    }

    /** Cleans the notes of element k. */
    method CleanupXlatNodes(sub: nat, k: nat)
      requires sub < |lib| && k < |lib[sub].sub| && PinsInRange(lib, xlate, sub, k)
      modifies this`xlate
      ensures SameOutside(old(xlate), xlate, sub, k) && Untranslated(xlate, sub, k)
    {
      for n := 0 to |lib[sub].sub[k].nodes|
        invariant SameOutside(old(xlate), xlate, sub, k)
        invariant forall t :: t in xlate && t.sub == sub && t.element == k ==> n <= t.pin < |lib[sub].sub[k].nodes|
      {
        xlate := xlate - {Terminal(sub, k, n)};
      }
    }

    /** The slot of a node by its note. */
    method PlaceNode(fr: Frame, k: nat, pin: nat, list: Option<string>, ghost outer: seq<string>) returns (s: Slot)
      requires ValidFrame(lib, fr) && k < |lib[fr.sub].sub| && Translated(lib, xlate, fr, k)
      requires pin < |lib[fr.sub].sub[k].nodes| && list == InstanceList(outer)
      ensures s == Placed(lib, outer, fr, lib[fr.sub].sub[k].nodes[pin])
    {
      hide InternalName;
      var node, t := lib[fr.sub].sub[k].nodes[pin], Terminal(fr.sub, k, pin);
      assert Noted(lib, xlate, fr, k, pin, |lib[fr.sub].ports|);
      assert lib[fr.sub].ports[..|lib[fr.sub].ports|] == lib[fr.sub].ports;
      if t in xlate {
        s := Slot(if list.None? then Some(xlate[t].node) else None, xlate[t].nr);
      } else if node == "gnd" || (|node| > 0 && node[|node| - 1] == '!') {
        s := Slot(Some(node), 0);
      } else {
        s := Slot(Some(InternalName(lib[fr.sub].instance, list, fr.inst.instance, node)), 0);
      }
    }

    /** Assigns new nodes to a copy of element k. */
    method CopySubcircuitNodes(fr: Frame, k: nat, list: Option<string>,
                               ghost outer: seq<string>) returns (nodes: seq<Slot>)
      requires ValidFrame(lib, fr) && k < |lib[fr.sub].sub| && Translated(lib, xlate, fr, k)
      requires list == InstanceList(outer)
      ensures |nodes| == |lib[fr.sub].sub[k].nodes|
      ensures forall i :: 0 <= i < |nodes| ==> nodes[i] == Placed(lib, outer, fr, lib[fr.sub].sub[k].nodes[i])
    {
      hide Placed, Translated;
      var e := lib[fr.sub].sub[k];
      var root: seq<Slot> := [];
      for n := 0 to |e.nodes|
        invariant |root| == n
        invariant forall i :: 0 <= i < n ==> root[n - 1 - i] == Placed(lib, outer, fr, e.nodes[i])
      {
        var s := PlaceNode(fr, k, n, list, outer);
        root := [s] + root;
      }
      nodes := ReverseNodes(root);
    }

    /** Assigns the nodes of a copy that have been left blank. */
    method CopyCircuitNodes(fr: Frame, k: nat, copy: Copy, list: Option<string>,
                            ghost outer: seq<string>) returns (c: Copy)
      requires ValidFrame(lib, fr) && k < |lib[fr.sub].sub| && Translated(lib, xlate, fr, k)
      requires list == InstanceList(outer)
      requires forall i :: 0 <= i < |copy.nodes| && copy.nodes[i].node.None? ==>
        0 < copy.nodes[i].xlatenr <= |lib[fr.sub].sub[k].nodes|
      ensures c == copy.(nodes := c.nodes) && |c.nodes| == |copy.nodes|
      ensures forall i :: 0 <= i < |c.nodes| ==> c.nodes[i] == Lifted(lib, outer, fr, lib[fr.sub].sub[k], copy.nodes[i])
    {
      hide Placed, Translated;
      c := copy;
      for n := 0 to |copy.nodes|
        invariant c == copy.(nodes := c.nodes) && |c.nodes| == |copy.nodes|
        invariant forall i :: 0 <= i < |c.nodes| ==>
          c.nodes[i] == if i < n then Lifted(lib, outer, fr, lib[fr.sub].sub[k], copy.nodes[i]) else copy.nodes[i]
      {
        if c.nodes[n].node.None? {
          var s := PlaceNode(fr, k, c.nodes[n].xlatenr - 1, list, outer);
          c := c.(nodes := c.nodes[n := s]);
        }
      }
    }

    /** Terminals that carry notes belong to visited types. */
    ghost predicate NotesVisited(visited: seq<string>)
      reads this
    {
      forall t :: t in xlate ==> t.sub < |lib| && lib[t.sub].instance in visited
    }

    /** The nodes left blank by the copies of instance k are assigned, copy by copy. */
    method AssignBlanks(fr: Frame, k: nat, copies: seq<Copy>, list: Option<string>, ghost outer: seq<string>,
                        ghost leaves: seq<Leaf>)
      returns (root: seq<Copy>)
      requires ValidFrame(lib, fr) && k < |lib[fr.sub].sub| && Translated(lib, xlate, fr, k)
      requires list == InstanceList(outer)
      requires lib[fr.sub].sub[k].IsSub() && ValidInstance(lib, lib[fr.sub].sub[k])
      requires LeavesOf(lib, Child(lib, lib[fr.sub].sub[k]), leaves)
      requires copies == Copies(lib, outer + [fr.inst.instance], leaves)
      ensures LeavesOf(lib, fr, AllUnder(fr, leaves)) && root == Copies(lib, outer, AllUnder(fr, leaves))
    {
      hide CopyOf, Translated, LeavesOf, Lifted, InstanceList;
      root := [];
      AllUnderLeaves(lib, fr, Child(lib, lib[fr.sub].sub[k]), leaves);
      LeavesValid(lib, Child(lib, lib[fr.sub].sub[k]), leaves);
      LeavesValid(lib, fr, AllUnder(fr, leaves));
      for i := 0 to |copies|
        invariant |root| == i && forall n :: 0 <= n < i ==> root[n] == CopyOf(lib, outer, Under(fr, leaves[n]))
      {
        CopyBlanks(lib, outer, fr, lib[fr.sub].sub[k], leaves[i]);
        var c := CopyCircuitNodes(fr, k, copies[i], list, outer);
        LiftedCopy(lib, outer, fr, lib[fr.sub].sub[k], leaves[i], copies[i], c);
        root := root + [c];
      }
    }

    /** Produces a copy of the elements below an instance, in reverse order. */
    method CopySubcircuits(fr: Frame, ghost visited: seq<string>) returns (root: seq<Copy>)
      requires Expandable(lib, visited, fr) && NotesVisited(visited)
      modifies this
      ensures xlate == old(xlate) && instances == old(instances)
      ensures root == Copies(lib, instances, Leaves(lib, visited, fr, |lib[fr.sub].sub|))
      decreases Rest(lib, visited)
    {
      hide CopyOf, Copies, Expandable, Rest, Leaves, Translated, InstanceList, InternalName, PinsInRange, LeavesOf;
      Unvisited(lib, visited, fr);
      ghost var more := visited + [lib[fr.sub].instance];
      root := [];
      for k := 0 to |lib[fr.sub].sub|
        invariant xlate == old(xlate) && instances == old(instances)
        invariant root == Copies(lib, instances, Leaves(lib, visited, fr, k))
      {
        var def := lib[fr.sub].sub[k];
        XlatSubcircuitNodes(fr, k);
        ghost var noted := xlate;
        LeavesStep(lib, visited, fr, k);
        if def.IsSub() {
          ChildExpandable(lib, visited, fr, k);
          var sub := GetSubcircuit(lib, def);
          var instcopy := instances;
          instances := instances + [fr.inst.instance];
          var copy := CopySubcircuits(Frame(sub.value, def), more);
          var list := InstanceList(instcopy);
          ghost var below := Leaves(lib, more, Child(lib, def), |lib[sub.value].sub|);
          var copied := AssignBlanks(fr, k, copy, list, instcopy, below);
          CopiesAppend(lib, instcopy, AllUnder(fr, below), Leaves(lib, visited, fr, k));
          root := copied + root;
          instances := instcopy;
        } else {
          var list := InstanceList(instances);
          var nodes := CopySubcircuitNodes(fr, k, list, instances);
          var name := InternalName(lib[fr.sub].instance, list, fr.inst.instance, def.instance);
          var copy := Copy(def.kind, name, Some(lib[fr.sub].instance), nodes);
          LeafCopy(lib, instances, fr, def, copy);
          CopiesAppend(lib, instances, [Leaf([fr], def)], Leaves(lib, visited, fr, k));
          root := [copy] + root;
        }
        CleanupXlatNodes(fr.sub, k);
        Restored(old(xlate), noted, xlate, fr.sub, k);
      }
    }

    /** Expands the instances of a netlist: their elements come first, the last instance
        first, and the other definitions keep their order. */
    method ExpandSubcircuits(root: seq<Definition>) returns (list: seq<Copy>)
      requires ValidRoot(lib, root) && xlate == map[] && instances == []
      modifies this
      ensures xlate == map[] && instances == []
      ensures IsFlatList(lib, root, list)
    {
      hide ValidRoot, Expandable, Leaves, RootLeaves, RootPlain, CopyOf, Copies;
      list := [];
      NoRoot(lib, root);
      for k := 0 to |root|
        invariant xlate == map[] && instances == []
        invariant list == Copies(lib, [], RootLeaves(lib, root, k)) + RootPlain(root, k)
      {
        var def := root[k];
        NextRoot(lib, root, k);
        if def.IsSub() {
          var sub := GetSubcircuit(lib, def);
          var copy := CopySubcircuits(Frame(sub.value, def), []);
          list := copy + list;
          CopiesAppend(lib, [], Leaves(lib, [], Child(lib, def), |lib[sub.value].sub|), RootLeaves(lib, root, k));
        } else {
          list := list + [Untouched(def)];
        }
      }
      CopiesFlat(lib, RootLeaves(lib, root, |root|));
    }
  }

  // ----- the flat list -----

  /** A definition of the top level that is no instance of a subcircuit. */
  function Untouched(def: Definition): Copy {
    Copy(def.kind, def.instance, None, seq(|def.nodes|, i requires 0 <= i < |def.nodes| => Slot(Some(def.nodes[i]), 0)))
  }

  /** Instances of the netlist refer to known types with as many nodes and without cycles. */
  ghost predicate ValidRoot(lib: seq<Subcircuit>, root: seq<Definition>) {
    && ValidLibrary(lib)
    && forall k :: 0 <= k < |root| && root[k].IsSub() ==>
         ValidInstance(lib, root[k]) && Sound(lib, GetSubcircuit(lib, root[k]).value)
  }

  lemma RootExpandable(lib: seq<Subcircuit>, root: seq<Definition>, k: nat)
    requires ValidRoot(lib, root) && k < |root| && root[k].IsSub()
    ensures ValidInstance(lib, root[k]) && Expandable(lib, [], Child(lib, root[k]))
  {
    hide Find, Sound, Clear;
    FindOwn(lib, root[k].reference.value);
    SoundIsClear(lib, Child(lib, root[k]).sub);
  }

  /** All elements below the instances among the first k definitions. */
  ghost function RootLeaves(lib: seq<Subcircuit>, root: seq<Definition>, k: nat): (r: seq<Leaf>)
    requires ValidRoot(lib, root) && k <= |root|
    ensures forall i :: 0 <= i < |r| ==> ValidLeaf(lib, r[i])
  {
    if k == 0 then []
    else if root[k - 1].IsSub() then
      RootExpandable(lib, root, k - 1);
      var child := Child(lib, root[k - 1]);
      Leaves(lib, [], child, |lib[child.sub].sub|) + RootLeaves(lib, root, k - 1)
    else RootLeaves(lib, root, k - 1)
  }

  function RootPlain(root: seq<Definition>, k: nat): seq<Copy>
    requires k <= |root|
  {
    if k == 0 then []
    else if root[k - 1].IsSub() then RootPlain(root, k - 1)
    else RootPlain(root, k - 1) + [Untouched(root[k - 1])]
  }

  lemma NoRoot(lib: seq<Subcircuit>, root: seq<Definition>)
    requires ValidRoot(lib, root)
    ensures Copies(lib, [], RootLeaves(lib, root, 0)) + RootPlain(root, 0) == []
  {}

  lemma NextRoot(lib: seq<Subcircuit>, root: seq<Definition>, k: nat)
    requires ValidRoot(lib, root) && k < |root|
    ensures var next := k + 1;
      if root[k].IsSub() then
        && ValidInstance(lib, root[k]) && Expandable(lib, [], Child(lib, root[k]))
        && RootPlain(root, next) == RootPlain(root, k)
        && RootLeaves(lib, root, next)
           == Leaves(lib, [], Child(lib, root[k]), |lib[Child(lib, root[k]).sub].sub|) + RootLeaves(lib, root, k)
      else
        && RootLeaves(lib, root, next) == RootLeaves(lib, root, k)
        && RootPlain(root, next) == RootPlain(root, k) + [Untouched(root[k])]
  {
    hide Expandable, ValidRoot, Leaves;
    if root[k].IsSub() { RootExpandable(lib, root, k); }
  }

  /** The flat copy of an element: every terminal is named after its net, none is blank. */
  ghost predicate IsFlat(lib: seq<Subcircuit>, leaf: Leaf, c: Copy)
    requires ValidLeaf(lib, leaf)
  {
    var kind := lib[leaf.path[|leaf.path| - 1].sub].instance;
    && c.kind == leaf.element.kind && c.subcircuit == Some(kind)
    && c.instance == Join([kind] + InstanceNames(leaf.path) + [leaf.element.instance])
    && |c.nodes| == |leaf.element.nodes|
    && forall i :: 0 <= i < |c.nodes| ==> c.nodes[i].node == Some(NetName(NetOf(lib, leaf.path, leaf.element.nodes[i])))
  }

  /** The expanded netlist: the elements below all instances, then the other definitions. */
  ghost predicate IsFlatList(lib: seq<Subcircuit>, root: seq<Definition>, list: seq<Copy>)
    requires ValidRoot(lib, root)
  {
    var leaves, plain := RootLeaves(lib, root, |root|), RootPlain(root, |root|);
    && |list| == |leaves| + |plain|
    && (forall i :: 0 <= i < |leaves| ==> IsFlat(lib, leaves[i], list[i]))
    && list[|leaves|..] == plain
  }

  lemma CopyFlat(lib: seq<Subcircuit>, leaf: Leaf)
    requires ValidLeaf(lib, leaf)
    ensures IsFlat(lib, leaf, CopyOf(lib, [], leaf))
  {
    hide Join, InternalName, InstanceList, InstanceNames, NetName, NetOf, Climb;
    var e, c := leaf.element, CopyOf(lib, [], leaf);
    PathName(lib, leaf.path, e.instance);
    forall i | 0 <= i < |c.nodes| ensures c.nodes[i].node == Some(NetName(NetOf(lib, leaf.path, e.nodes[i]))) {
      TranslationResolves(lib, leaf.path, e.nodes[i]);
    }
  }

  lemma CopiesFlat(lib: seq<Subcircuit>, leaves: seq<Leaf>)
    requires forall i :: 0 <= i < |leaves| ==> ValidLeaf(lib, leaves[i])
    ensures |Copies(lib, [], leaves)| == |leaves|
    ensures forall i :: 0 <= i < |leaves| ==> IsFlat(lib, leaves[i], Copies(lib, [], leaves)[i])
  {
    hide IsFlat, CopyOf, ValidLeaf;
    forall i | 0 <= i < |leaves| ensures IsFlat(lib, leaves[i], Copies(lib, [], leaves)[i]) {
      CopyFlat(lib, leaves[i]);
    }
  }

  // ----- validation -----

  /** The instances among the definitions refer to known types with as many nodes, below
      which everything is defined and free of cycles. */
  ghost predicate ValidInstances(lib: seq<Subcircuit>, defs: seq<Definition>, m: nat)
    requires m <= |defs|
  {
    forall k :: 0 <= k < m && defs[k].IsSub() ==>
      ValidInstance(lib, defs[k]) && Sound(lib, GetSubcircuit(lib, defs[k]).value)
  }

  /** No instance among the definitions has errors in its properties, as counted for its type. */
  ghost predicate ValidProperties(lib: seq<Subcircuit>, defs: seq<Definition>, properties: (nat, Definition) -> nat,
                                  m: nat)
    requires m <= |defs|
  {
    forall k :: 0 <= k < m && defs[k].IsSub() && GetSubcircuit(lib, defs[k]).Some? ==>
      properties(GetSubcircuit(lib, defs[k]).value, defs[k]) == 0
  }

  /** Validates the subcircuit instances of a list of definitions.  `properties` counts the
      errors in the properties of an instance of a type. */
  method ValidateSubcircuits(lib: seq<Subcircuit>, defs: seq<Definition>,
                             properties: (nat, Definition) -> nat) returns (errors: nat)
    ensures errors == 0 <==> ValidInstances(lib, defs, |defs|) && ValidProperties(lib, defs, properties, |defs|)
  {
    hide Sound, Clear, Find;
    errors := 0;
    for k := 0 to |defs|
      invariant errors == 0 <==> ValidInstances(lib, defs, k) && ValidProperties(lib, defs, properties, k)
    {
      var def := defs[k];
      if def.IsSub() {
        if def.reference.None? {
          errors := errors + 1;
        } else {
          var sub := Find(lib, def.reference.value);
          if sub.None? {
            errors := errors + 1;
          } else {
            if |def.nodes| != |lib[sub.value].ports| { errors := errors + 1; }
            errors := errors + properties(sub.value, def);
            FindOwn(lib, def.reference.value);
            SoundIsClear(lib, sub.value);
            var err, deps := ValidateSubCycles(lib, sub.value, []);
            errors := errors + err;
          }
        }
      }
    }
  }

  /** Every instance of the netlist and of the types is valid, and so are its properties. */
  ghost predicate ValidNetlist(lib: seq<Subcircuit>, root: seq<Definition>, properties: (nat, Definition) -> nat,
                               m: nat)
    requires m <= |lib|
  {
    && ValidInstances(lib, root, |root|) && ValidProperties(lib, root, properties, |root|)
    && forall i :: 0 <= i < m ==>
         ValidInstances(lib, lib[i].sub, |lib[i].sub|) && ValidProperties(lib, lib[i].sub, properties, |lib[i].sub|)
  }

  /** Checks a netlist with its subcircuit types and expands it if there are no errors: none
      exactly when all instances are valid and the other checks, of definitions, equations and
      actions, count none, and then the list is flat. */
  method NetlistChecker(expander: Expander, root: seq<Definition>, properties: (nat, Definition) -> nat, others: nat)
    returns (errors: nat, list: seq<Copy>)
    requires expander.xlate == map[] && expander.instances == []
    modifies expander
    ensures expander.xlate == map[] && expander.instances == []
    ensures errors == 0 <==> others == 0 && ValidNetlist(expander.lib, root, properties, |expander.lib|)
    ensures errors == 0 ==> ValidRoot(expander.lib, root) && IsFlatList(expander.lib, root, list)
    ensures errors != 0 ==> list == []
  {
    hide ValidInstances, ValidProperties, IsFlatList, ValidRoot;
    list := [];
    var lib := expander.lib;
    errors := ValidateSubcircuits(lib, root, properties);
    for i := 0 to |lib|
      invariant expander.xlate == map[] && expander.instances == []
      invariant errors == 0 <==> ValidNetlist(lib, root, properties, i)
    {
      var more := ValidateSubcircuits(lib, lib[i].sub, properties);
      errors := errors + more;
    }
    errors := errors + others;
    if errors == 0 {
      ValidatedRoot(lib, root);
      list := expander.ExpandSubcircuits(root);
    }
  }

  lemma ValidatedRoot(lib: seq<Subcircuit>, root: seq<Definition>)
    requires ValidInstances(lib, root, |root|)
    requires forall i :: 0 <= i < |lib| ==> ValidInstances(lib, lib[i].sub, |lib[i].sub|)
    ensures ValidRoot(lib, root)
  {
    hide Sound, GetSubcircuit;
  }

  // ----- completeness -----

  /** An element reached from an instance through the elements of the types. */
  ghost predicate IsBelow(lib: seq<Subcircuit>, fr: Frame, leaf: Leaf) {
    && |leaf.path| > 0 && leaf.path[0] == fr && (forall a :: 0 <= a < |leaf.path| ==> leaf.path[a].sub < |lib|)
    && (forall a :: 0 < a < |leaf.path| ==> IsInstance(lib, leaf.path[a - 1].sub, leaf.path[a]))
    && leaf.element in lib[leaf.path[|leaf.path| - 1].sub].sub && !leaf.element.IsSub()
  }

  ghost predicate IsInstance(lib: seq<Subcircuit>, sub: nat, fr: Frame) {
    sub < |lib| && fr.inst in lib[sub].sub && fr.inst.IsSub() && GetSubcircuit(lib, fr.inst) == Some(fr.sub)
  }

  /** The elements that are expanded are those below the instance, and nothing else. */
  lemma {:induction false} LeavesBelow(lib: seq<Subcircuit>, visited: seq<string>, fr: Frame, k: nat, leaf: Leaf)
    requires Expandable(lib, visited, fr) && k <= |lib[fr.sub].sub|
    requires leaf in Leaves(lib, visited, fr, k)
    ensures IsBelow(lib, fr, leaf)
    decreases Rest(lib, visited), k
  {
    hide Expandable, AllUnder, Leaves, Rest, IsBelow, IsInstance, GetSubcircuit, ValidInstance;
    Unvisited(lib, visited, fr);
    if k > 0 {
      LeavesStep(lib, visited, fr, k - 1);
      var def := lib[fr.sub].sub[k - 1];
      if leaf in Leaves(lib, visited, fr, k - 1) {
        LeavesBelow(lib, visited, fr, k - 1, leaf);
      } else if def.IsSub() {
        ChildExpandable(lib, visited, fr, k - 1);
        var more := visited + [lib[fr.sub].instance];
        var child := ChildInstance(lib, fr.sub, k - 1);
        var below := Leaves(lib, more, child, |lib[child.sub].sub|);
        var i := UnderOne(fr, below, leaf);
        LeavesBelow(lib, more, child, |lib[child.sub].sub|, below[i]);
        BelowUnder(lib, fr, child, below[i]);
      } else {
        ElementBelow(lib, fr, def);
      }
    }
  }

  lemma ChildInstance(lib: seq<Subcircuit>, sub: nat, k: nat) returns (child: Frame)
    requires sub < |lib| && k < |lib[sub].sub| && lib[sub].sub[k].IsSub() && ValidInstance(lib, lib[sub].sub[k])
    ensures child == Child(lib, lib[sub].sub[k]) && child.sub < |lib| && IsInstance(lib, sub, child)
  {
    child := Child(lib, lib[sub].sub[k]);
  }

  lemma UnderOne(fr: Frame, leaves: seq<Leaf>, leaf: Leaf) returns (i: nat)
    requires leaf in AllUnder(fr, leaves)
    ensures i < |leaves| && leaf == Under(fr, leaves[i])
  {
    i :| i < |leaves| && AllUnder(fr, leaves)[i] == leaf;
  }

  lemma UnderMember(fr: Frame, leaves: seq<Leaf>, leaf: Leaf)
    requires leaf in leaves
    ensures Under(fr, leaf) in AllUnder(fr, leaves)
  {
    var i :| 0 <= i < |leaves| && leaves[i] == leaf;
    assert AllUnder(fr, leaves)[i] == Under(fr, leaf);
  }

  lemma ElementBelow(lib: seq<Subcircuit>, fr: Frame, def: Definition)
    requires fr.sub < |lib| && def in lib[fr.sub].sub && !def.IsSub()
    ensures IsBelow(lib, fr, Leaf([fr], def))
  {}

  lemma BelowUnder(lib: seq<Subcircuit>, fr: Frame, child: Frame, leaf: Leaf)
    requires IsInstance(lib, fr.sub, child) && IsBelow(lib, child, leaf)
    ensures IsBelow(lib, fr, Under(fr, leaf))
  {
    hide IsInstance, Definition.IsSub;
    assert fr.sub < |lib| by { Inside(lib, fr.sub, child); }
    var p := Under(fr, leaf).path;
    forall a | 0 < a < |p| ensures IsInstance(lib, p[a - 1].sub, p[a]) {
      if a > 1 { assert p[a - 1] == leaf.path[a - 2] && p[a] == leaf.path[a - 1]; }
    }
  }

  lemma Inside(lib: seq<Subcircuit>, sub: nat, fr: Frame)
    requires IsInstance(lib, sub, fr)
    ensures sub < |lib|
  {}

  lemma {:induction false} BelowLeaves(lib: seq<Subcircuit>, visited: seq<string>, fr: Frame, leaf: Leaf)
    requires Expandable(lib, visited, fr) && IsBelow(lib, fr, leaf)
    ensures leaf in Leaves(lib, visited, fr, |lib[fr.sub].sub|)
    decreases |leaf.path|
  {
    hide Expandable, AllUnder, Leaves, Rest, IsBelow, GetSubcircuit, ValidInstance, Under;
    Unvisited(lib, visited, fr);
    var elements := lib[fr.sub].sub;
    var k := FirstStep(lib, fr, leaf);
    LeavesStep(lib, visited, fr, k);
    if |leaf.path| > 1 {
      var child, tail := leaf.path[1], Leaf(leaf.path[1..], leaf.element);
      ChildExpandable(lib, visited, fr, k);
      var more := visited + [lib[fr.sub].instance];
      BelowLeaves(lib, more, child, tail);
      UnderMember(fr, Leaves(lib, more, child, |lib[child.sub].sub|), tail);
    }
    LeavesGrow(lib, visited, fr, k + 1, |elements|, leaf);
  }

  /** The element of the outermost type that leads to the leaf. */
  lemma FirstStep(lib: seq<Subcircuit>, fr: Frame, leaf: Leaf) returns (k: nat)
    requires IsBelow(lib, fr, leaf)
    ensures fr.sub < |lib| && k < |lib[fr.sub].sub|
    ensures |leaf.path| == 1 ==>
      lib[fr.sub].sub[k] == leaf.element && !leaf.element.IsSub() && leaf == Leaf([fr], leaf.element)
    ensures |leaf.path| != 1 ==>
      var tail := Leaf(leaf.path[1..], leaf.element);
      && |leaf.path| > 1 && lib[fr.sub].sub[k].IsSub() && GetSubcircuit(lib, lib[fr.sub].sub[k]).Some?
      && leaf.path[1] == Child(lib, lib[fr.sub].sub[k]) && IsBelow(lib, leaf.path[1], tail) && Under(fr, tail) == leaf
  {
    var elements := lib[fr.sub].sub;
    if |leaf.path| == 1 {
      k :| 0 <= k < |elements| && elements[k] == leaf.element;
    } else {
      assert IsInstance(lib, leaf.path[1 - 1].sub, leaf.path[1]);
      k :| 0 <= k < |elements| && elements[k] == leaf.path[1].inst;
      BelowTail(lib, fr, leaf);
      assert [fr] + leaf.path[1..] == leaf.path;
    }
  }

  /** The expanded elements are exactly those below the instance. */
  lemma LeavesExactly(lib: seq<Subcircuit>, visited: seq<string>, fr: Frame, leaf: Leaf)
    requires Expandable(lib, visited, fr)
    ensures leaf in Leaves(lib, visited, fr, |lib[fr.sub].sub|) <==> IsBelow(lib, fr, leaf)
  {
    hide Expandable, Leaves, IsBelow;
    Unvisited(lib, visited, fr);
    if leaf in Leaves(lib, visited, fr, |lib[fr.sub].sub|) { LeavesBelow(lib, visited, fr, |lib[fr.sub].sub|, leaf); }
    if IsBelow(lib, fr, leaf) { BelowLeaves(lib, visited, fr, leaf); }
  }

  /** Elements with the same flat name have the same name inside of the same instances. */
  lemma FlatInstances(lib: seq<Subcircuit>, a: Leaf, b: Leaf, c: Copy, d: Copy)
    requires ValidLeaf(lib, a) && ValidLeaf(lib, b) && IsFlat(lib, a, c) && IsFlat(lib, b, d)
    requires DotFreePath(lib, a.path) && DotFreePath(lib, b.path) && DotFree(a.element.instance)
    requires DotFree(b.element.instance)
    ensures c.instance == d.instance <==>
      && c.subcircuit == d.subcircuit && InstanceNames(a.path) == InstanceNames(b.path)
      && a.element.instance == b.element.instance
  {
    hide NetName, NetOf, Join;
    if c.instance == d.instance {
      var p := [c.subcircuit.value] + InstanceNames(a.path) + [a.element.instance];
      var q := [d.subcircuit.value] + InstanceNames(b.path) + [b.element.instance];
      PartsDotFree(lib, a);
      PartsDotFree(lib, b);
      JoinInjective(p, q);
      assert InstanceNames(a.path) == p[1..|p| - 1] && InstanceNames(b.path) == q[1..|q| - 1];
      assert p[0] == c.subcircuit.value && q[0] == d.subcircuit.value;
      assert p[|p| - 1] == a.element.instance && q[|q| - 1] == b.element.instance;
    }
  }

  lemma PartsDotFree(lib: seq<Subcircuit>, leaf: Leaf)
    requires ValidLeaf(lib, leaf) && DotFreePath(lib, leaf.path) && DotFree(leaf.element.instance)
    ensures var kind := lib[leaf.path[|leaf.path| - 1].sub].instance;
      AllDotFree([kind] + InstanceNames(leaf.path) + [leaf.element.instance])
  {
    assert forall i :: 0 <= i < |leaf.path| ==> DotFreeFrame(lib, leaf.path[i]);
  }

  lemma BelowTail(lib: seq<Subcircuit>, fr: Frame, leaf: Leaf)
    requires IsBelow(lib, fr, leaf) && |leaf.path| > 1
    ensures IsBelow(lib, leaf.path[1], Leaf(leaf.path[1..], leaf.element))
  {
    hide IsInstance, Definition.IsSub;
    var p := leaf.path[1..];
    forall a | 0 < a < |p| ensures IsInstance(lib, p[a - 1].sub, p[a]) {
      assert IsInstance(lib, leaf.path[a + 1 - 1].sub, leaf.path[a + 1]);
    }
  }

  lemma {:induction false} LeavesGrow(lib: seq<Subcircuit>, visited: seq<string>, fr: Frame, k: nat, m: nat, leaf: Leaf)
    requires Expandable(lib, visited, fr) && k <= m <= |lib[fr.sub].sub| && leaf in Leaves(lib, visited, fr, k)
    ensures leaf in Leaves(lib, visited, fr, m)
    decreases m
  {
    hide Expandable, AllUnder, Leaves;
    if k < m {
      Unvisited(lib, visited, fr);
      LeavesGrow(lib, visited, fr, k, m - 1, leaf);
      LeavesStep(lib, visited, fr, m - 1);
    }
  }

  lemma Unvisited(lib: seq<Subcircuit>, visited: seq<string>, fr: Frame)
    requires Expandable(lib, visited, fr)
    ensures ValidFrame(lib, fr) && lib[fr.sub].instance !in visited
    ensures Leaves(lib, visited, fr, 0) == [] && forall outer :: Copies(lib, outer, []) == []
  {
    ClearUnfold(lib, fr.sub, visited, 0);
  }

  lemma LeavesStep(lib: seq<Subcircuit>, visited: seq<string>, fr: Frame, k: nat)
    requires Expandable(lib, visited, fr) && k < |lib[fr.sub].sub|
    ensures var def, more := lib[fr.sub].sub[k], visited + [lib[fr.sub].instance];
      if def.IsSub() then
        ValidInstance(lib, def) && Expandable(lib, more, Child(lib, def))
        && LeavesOf(lib, Child(lib, def), Leaves(lib, more, Child(lib, def), |lib[Child(lib, def).sub].sub|))
        && Leaves(lib, visited, fr, k + 1)
           == AllUnder(fr, Leaves(lib, more, Child(lib, def), |lib[Child(lib, def).sub].sub|))
              + Leaves(lib, visited, fr, k)
      else Leaves(lib, visited, fr, k + 1) == [Leaf([fr], def)] + Leaves(lib, visited, fr, k)
  {
    hide Expandable, AllUnder;
    Unvisited(lib, visited, fr);
    if lib[fr.sub].sub[k].IsSub() { ChildExpandable(lib, visited, fr, k); }
  }

  lemma CopiesAppend(lib: seq<Subcircuit>, outer: seq<string>, a: seq<Leaf>, b: seq<Leaf>)
    requires forall i :: 0 <= i < |a| ==> ValidLeaf(lib, a[i])
    requires forall i :: 0 <= i < |b| ==> ValidLeaf(lib, b[i])
    ensures forall i :: 0 <= i < |a + b| ==> ValidLeaf(lib, (a + b)[i])
    ensures Copies(lib, outer, a + b) == Copies(lib, outer, a) + Copies(lib, outer, b)
  {
    hide CopyOf, ValidLeaf;
  }

  lemma LeafCopy(lib: seq<Subcircuit>, outer: seq<string>, fr: Frame, def: Definition, copy: Copy)
    requires ValidFrame(lib, fr) && |copy.nodes| == |def.nodes|
    requires forall i :: 0 <= i < |def.nodes| ==> copy.nodes[i] == Placed(lib, outer, fr, def.nodes[i])
    requires copy.kind == def.kind && copy.subcircuit == Some(lib[fr.sub].instance)
    requires copy.instance == InternalName(lib[fr.sub].instance, InstanceList(outer), fr.inst.instance, def.instance)
    ensures Copies(lib, outer, [Leaf([fr], def)]) == [copy]
  {
    hide InternalName, InstanceList, Local;
    var path := [fr];
    assert outer + InstanceNames(path[..|path| - 1]) == outer;
    var c := CopyOf(lib, outer, Leaf(path, def));
    forall i | 0 <= i < |def.nodes| ensures c.nodes[i] == copy.nodes[i] {
      assert copy.nodes[i] == Placed(lib, outer, fr, def.nodes[i]);
    }
    assert c.nodes == copy.nodes;
  }

  /** Elements below the given instance. */
  ghost predicate LeavesOf(lib: seq<Subcircuit>, fr: Frame, leaves: seq<Leaf>) {
    forall i :: 0 <= i < |leaves| ==> ValidLeaf(lib, leaves[i]) && leaves[i].path[0] == fr
  }

  lemma LeavesValid(lib: seq<Subcircuit>, fr: Frame, leaves: seq<Leaf>)
    requires LeavesOf(lib, fr, leaves)
    ensures forall i :: 0 <= i < |leaves| ==> ValidLeaf(lib, leaves[i]) && leaves[i].path[0] == fr
  {}

  lemma AllUnderLeaves(lib: seq<Subcircuit>, fr: Frame, child: Frame, leaves: seq<Leaf>)
    requires ValidFrame(lib, fr) && LeavesOf(lib, child, leaves)
    ensures LeavesOf(lib, fr, AllUnder(fr, leaves))
  {}

  /** Nodes are left blank with the number of the port that they lead to. */
  lemma CopyBlanks(lib: seq<Subcircuit>, outer: seq<string>, fr: Frame, def: Definition, leaf: Leaf)
    requires ValidInstance(lib, def) && ValidLeaf(lib, leaf) && leaf.path[0] == Child(lib, def)
    ensures var nodes := CopyOf(lib, outer + [fr.inst.instance], leaf).nodes;
      forall i :: 0 <= i < |nodes| && nodes[i].node.None? ==> 0 < nodes[i].xlatenr <= |def.nodes|
  {
    hide Climb, InternalName, InstanceList;
  }

  lemma LiftedCopy(lib: seq<Subcircuit>, outer: seq<string>, fr: Frame, def: Definition, leaf: Leaf, c: Copy, c': Copy)
    requires ValidFrame(lib, fr) && ValidInstance(lib, def) && ValidLeaf(lib, leaf) && leaf.path[0] == Child(lib, def)
    requires c == CopyOf(lib, outer + [fr.inst.instance], leaf)
    requires forall i :: 0 <= i < |c.nodes| && c.nodes[i].node.None? ==> 0 < c.nodes[i].xlatenr <= |def.nodes|
    requires c' == c.(nodes := c'.nodes) && |c'.nodes| == |c.nodes|
    requires forall i :: 0 <= i < |c.nodes| ==> c'.nodes[i] == Lifted(lib, outer, fr, def, c.nodes[i])
    ensures ValidLeaf(lib, Under(fr, leaf)) && c' == CopyOf(lib, outer, Under(fr, leaf))
  {
    hide InternalName, InstanceList, Local;
    var deeper, up := outer + [fr.inst.instance], Under(fr, leaf);
    var p, q := leaf.path, up.path;
    assert q[1..] == p;
    assert deeper + InstanceNames(p[..|p| - 1]) == outer + InstanceNames(q[..|q| - 1]);
    forall i | 0 <= i < |c.nodes|
      ensures c'.nodes[i] == SlotFor(outer, q[0], Climb(lib, outer, q, leaf.element.nodes[i]))
    {
      var t := Climb(lib, deeper, p, leaf.element.nodes[i]);
    }
  }

  method ReverseNodes(nodes: seq<Slot>) returns (root: seq<Slot>)
    ensures |root| == |nodes| && forall i :: 0 <= i < |nodes| ==> root[i] == nodes[|nodes| - 1 - i]
  {
    root := [];
    for n := 0 to |nodes|
      invariant |root| == n && forall i :: 0 <= i < n ==> root[i] == nodes[n - 1 - i]
    {
      root := [nodes[n]] + root;
    }
  }
}
