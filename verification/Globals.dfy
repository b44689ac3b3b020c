/** When the global nodes of subcircuits keep their names. */
module GlobalNodes {
  import opened Options
  import opened Netlist
  import opened Flattening

  // ----- one instance -----

  /** The instance ties every port with a global name to the node of that name.  Of several
      ports with one name the last one counts. */
  ghost predicate Ties(lib: seq<Subcircuit>, fr: Frame)
    requires ValidFrame(lib, fr)
  {
    forall p :: 0 <= p < |fr.inst.nodes| && IsGlobalPort(lib, fr, p) ==> fr.inst.nodes[p] == lib[fr.sub].ports[p]
  }

  /** Port p has a global name, and counts for that name. */
  ghost predicate IsGlobalPort(lib: seq<Subcircuit>, fr: Frame, p: nat)
    requires ValidFrame(lib, fr) && p < |fr.inst.nodes|
  {
    var ports := lib[fr.sub].ports;
    IsGlobal(ports[p]) && PortNr(ports, ports[p]) == p + 1
  }

  /** A global node inside of the innermost instance: unless it is a port, it keeps its name. */
  lemma GlobalNet(lib: seq<Subcircuit>, path: seq<Frame>, node: string)
    requires ValidPath(lib, path) && |path| > 0 && IsGlobal(node)
    ensures var inner := path[|path| - 1];
      var nr := PortNr(lib[inner.sub].ports, node);
      && (nr == 0 ==> NetOf(lib, path, node) == Top(node))
      && (nr > 0 ==>
            && IsGlobalPort(lib, inner, nr - 1) && lib[inner.sub].ports[nr - 1] == node
            && NetOf(lib, path, node) == NetOf(lib, path[..|path| - 1], inner.inst.nodes[nr - 1]))
  {
    hide IsGlobal, PortNr;
    assert ValidFrame(lib, path[|path| - 1]);
  }

  // ----- nodes that are no ports, by their names -----

  /** The nodes named with a trailing exclamation mark and the ground are shared by all
      instances. */
  lemma SharedNet(lib: seq<Subcircuit>, path: seq<Frame>, s: string)
    requires ValidPath(lib, path) && |path| > 0
    ensures s + "!" !in lib[path[|path| - 1].sub].ports ==> NetOf(lib, path, s + "!") == Top(s + "!")
    ensures "gnd" !in lib[path[|path| - 1].sub].ports ==> NetOf(lib, path, "gnd") == Top("gnd")
  {
    var ports := lib[path[|path| - 1].sub].ports;
    assert (s + "!")[|s|] == '!';
    NoPort(ports, s + "!");
    NoPort(ports, "gnd");
  }

  lemma NoPort(ports: seq<string>, node: string)
    ensures PortNr(ports, node) == 0 <==> node !in ports
  {
    var nr := PortNr(ports, node);
  }

  /** All other nodes that are no ports belong to their instance. */
  lemma OwnNet(lib: seq<Subcircuit>, path: seq<Frame>, node: string)
    requires ValidPath(lib, path) && |path| > 0 && node !in lib[path[|path| - 1].sub].ports
    requires node != "gnd" && (node == "" || node[|node| - 1] != '!')
    ensures NetOf(lib, path, node) == Internal(lib[path[|path| - 1].sub].instance, InstanceNames(path), node)
  {
    NoPort(lib[path[|path| - 1].sub].ports, node);
  }

  // ----- chains of instances -----

  ghost predicate IsRootInstance(lib: seq<Subcircuit>, root: seq<Definition>, fr: Frame) {
    fr.inst in root && fr.inst.IsSub() && GetSubcircuit(lib, fr.inst) == Some(fr.sub)
  }

  /** A chain of instances from the netlist down, each inside of the type of the one before. */
  ghost predicate IsChain(lib: seq<Subcircuit>, root: seq<Definition>, path: seq<Frame>) {
    && |path| > 0 && IsRootInstance(lib, root, path[0])
    && forall a :: 0 < a < |path| ==> IsInstance(lib, path[a - 1].sub, path[a])
  }

  lemma ChainValid(lib: seq<Subcircuit>, root: seq<Definition>, path: seq<Frame>)
    requires ValidRoot(lib, root) && IsChain(lib, root, path)
    ensures ValidPath(lib, path)
  {
    hide Sound, Find;
    forall a | 0 <= a < |path| ensures ValidFrame(lib, path[a]) {
      if a > 0 { assert IsInstance(lib, path[a - 1].sub, path[a]); }
      assert ValidInstance(lib, path[a].inst);
    }
  }

  /** The node at port p of the innermost instance is, along the instances above, the node of
      the name of that port. */
  ghost predicate ResolvesToName(lib: seq<Subcircuit>, path: seq<Frame>, p: nat)
    requires ValidPath(lib, path) && |path| > 0 && p < |path[|path| - 1].inst.nodes|
  {
    var inner := path[|path| - 1];
    NetOf(lib, path[..|path| - 1], inner.inst.nodes[p]) == Top(lib[inner.sub].ports[p])
  }

  /** All ports with global names of the innermost instance do. */
  ghost predicate PortsResolve(lib: seq<Subcircuit>, path: seq<Frame>)
    requires ValidPath(lib, path) && |path| > 0
  {
    var inner := path[|path| - 1];
    forall p :: 0 <= p < |inner.inst.nodes| && IsGlobalPort(lib, inner, p) ==> ResolvesToName(lib, path, p)
  }

  /** Inside of the innermost instance all global nodes keep their names if and only if its
      ports with global names resolve to those names. */
  lemma PathKeeps(lib: seq<Subcircuit>, path: seq<Frame>)
    requires ValidPath(lib, path) && |path| > 0
    ensures PortsResolve(lib, path) <==> forall node :: IsGlobal(node) ==> NetOf(lib, path, node) == Top(node)
  {
    hide IsGlobal, PortNr, NetOf;
    var inner := path[|path| - 1];
    if PortsResolve(lib, path) {
      forall node | IsGlobal(node) ensures NetOf(lib, path, node) == Top(node) {
        GlobalNet(lib, path, node);
        var nr := PortNr(lib[inner.sub].ports, node);
        if nr > 0 { assert ResolvesToName(lib, path, nr - 1); }
      }
    }
    if forall node :: IsGlobal(node) ==> NetOf(lib, path, node) == Top(node) {
      forall p | 0 <= p < |inner.inst.nodes| && IsGlobalPort(lib, inner, p) ensures ResolvesToName(lib, path, p) {
        GlobalNet(lib, path, lib[inner.sub].ports[p]);
      }
    }
  }

  ghost predicate AllResolve(lib: seq<Subcircuit>, root: seq<Definition>)
    requires ValidRoot(lib, root)
  {
    forall path :: IsChain(lib, root, path) ==> ValidPath(lib, path) && PortsResolve(lib, path)
  }

  ghost predicate AllKeep(lib: seq<Subcircuit>, root: seq<Definition>)
    requires ValidRoot(lib, root)
  {
    forall path, node :: IsChain(lib, root, path) && IsGlobal(node) ==>
      ValidPath(lib, path) && NetOf(lib, path, node) == Top(node)
  }

  /** Every global node keeps its name along every chain of instances if and only if every
      port with a global name resolves, along the chain above its instance, to that name. */
  lemma GlobalsKept(lib: seq<Subcircuit>, root: seq<Definition>)
    requires ValidRoot(lib, root)
    ensures AllKeep(lib, root) <==> AllResolve(lib, root)
  {
    hide IsGlobal, IsChain, ValidFrame, ValidRoot, PortsResolve, NetOf;
    forall path | IsChain(lib, root, path)
      ensures ValidPath(lib, path) && |path| > 0
      ensures PortsResolve(lib, path) <==> forall node :: IsGlobal(node) ==> NetOf(lib, path, node) == Top(node)
    {
      ChainValid(lib, root, path);
      NonEmpty(lib, root, path);
      PathKeeps(lib, path);
    }
  }

  lemma NonEmpty(lib: seq<Subcircuit>, root: seq<Definition>, path: seq<Frame>)
    requires IsChain(lib, root, path)
    ensures |path| > 0
  {}

  // ----- a condition for every instance by itself -----

  /** A global node keeps its name along instances that tie the global nodes. */
  lemma {:induction false} KeptAlong(lib: seq<Subcircuit>, path: seq<Frame>, node: string)
    requires ValidPath(lib, path) && (forall a :: 0 <= a < |path| ==> Ties(lib, path[a])) && IsGlobal(node)
    ensures NetOf(lib, path, node) == Top(node)
    decreases |path|
  {
    hide IsGlobal, PortNr;
    if |path| > 0 {
      var inner := path[|path| - 1];
      GlobalNet(lib, path, node);
      assert Ties(lib, inner);
      var nr := PortNr(lib[inner.sub].ports, node);
      if nr > 0 {
        assert inner.inst.nodes[nr - 1] == node;
        KeptAlong(lib, path[..|path| - 1], node);
      }
    }
  }

  /** It suffices that every instance on a chain ties its ports with global names. */
  lemma TiedResolve(lib: seq<Subcircuit>, root: seq<Definition>)
    requires ValidRoot(lib, root)
    requires forall path, a :: IsChain(lib, root, path) && 0 <= a < |path| ==>
      ValidFrame(lib, path[a]) && Ties(lib, path[a])
    ensures AllResolve(lib, root)
  {
    hide IsGlobal, IsChain, ValidRoot, Ties, NetOf, PortsResolve, ValidFrame;
    forall path | IsChain(lib, root, path)
      ensures |path| > 0 && ValidPath(lib, path) && PortsResolve(lib, path)
    {
      ChainValid(lib, root, path);
      NonEmpty(lib, root, path);
      forall node | IsGlobal(node) ensures NetOf(lib, path, node) == Top(node) { KeptAlong(lib, path, node); }
      PathKeeps(lib, path);
    }
  }

  // ----- the flat list -----

  /** An element inside of the innermost instance of a chain. */
  ghost predicate IsElement(lib: seq<Subcircuit>, root: seq<Definition>, leaf: Leaf) {
    && IsChain(lib, root, leaf.path) && leaf.path[|leaf.path| - 1].sub < |lib|
    && leaf.element in lib[leaf.path[|leaf.path| - 1].sub].sub && !leaf.element.IsSub()
  }

  /** The elements at the end of all chains are those below the instances of the netlist. */
  lemma ElementBelowRoot(lib: seq<Subcircuit>, root: seq<Definition>, leaf: Leaf)
    requires ValidRoot(lib, root)
    ensures IsElement(lib, root, leaf) <==>
      |leaf.path| > 0 && IsRootInstance(lib, root, leaf.path[0]) && IsBelow(lib, leaf.path[0], leaf)
  {
    hide ValidFrame, GetSubcircuit, Definition.IsSub, ValidRoot;
    if IsElement(lib, root, leaf) {
      ChainValid(lib, root, leaf.path);
      forall a | 0 <= a < |leaf.path| ensures leaf.path[a].sub < |lib| { InLibrary(lib, leaf.path[a]); }
    }
  }

  lemma InLibrary(lib: seq<Subcircuit>, fr: Frame)
    requires ValidFrame(lib, fr)
    ensures fr.sub < |lib|
  {}

  /** The elements below the first k definitions. */
  lemma {:induction false} RootLeavesExactly(lib: seq<Subcircuit>, root: seq<Definition>, k: nat, leaf: Leaf)
    requires ValidRoot(lib, root) && k <= |root|
    ensures leaf in RootLeaves(lib, root, k) <==>
      |leaf.path| > 0 && IsRootInstance(lib, root[..k], leaf.path[0]) && IsBelow(lib, leaf.path[0], leaf)
  {
    hide ValidRoot, Expandable, Leaves, IsBelow, RootLeaves, GetSubcircuit, Definition.IsSub, ValidInstance;
    if k == 0 {
      NoRootLeaves(lib, root);
    } else {
      RootLeavesExactly(lib, root, k - 1, leaf);
      NextRoot(lib, root, k - 1);
      var def := root[k - 1];
      assert root[..k] == root[..k - 1] + [def];
      if def.IsSub() {
        ChildExactly(lib, root, k - 1, leaf);
        var child := Child(lib, def);
        assert leaf in RootLeaves(lib, root, k) <==>
          leaf in Leaves(lib, [], child, |lib[child.sub].sub|) || leaf in RootLeaves(lib, root, k - 1);
        assert |leaf.path| > 0 ==>
          (IsRootInstance(lib, root[..k], leaf.path[0]) <==>
             leaf.path[0] == child || IsRootInstance(lib, root[..k - 1], leaf.path[0]));
      }
    }
  }

  lemma NoRootLeaves(lib: seq<Subcircuit>, root: seq<Definition>)
    requires ValidRoot(lib, root)
    ensures RootLeaves(lib, root, 0) == []
  {}

  lemma ChildExactly(lib: seq<Subcircuit>, root: seq<Definition>, k: nat, leaf: Leaf)
    requires k < |root| && root[k].IsSub() && ValidInstance(lib, root[k])
    requires Expandable(lib, [], Child(lib, root[k]))
    ensures var child := Child(lib, root[k]);
      && child.sub < |lib|
      && (leaf in Leaves(lib, [], child, |lib[child.sub].sub|) <==>
            |leaf.path| > 0 && leaf.path[0] == child && IsBelow(lib, child, leaf))
    ensures forall fr: Frame :: fr.inst == root[k] && GetSubcircuit(lib, fr.inst) == Some(fr.sub) <==>
      fr == Child(lib, root[k])
  {
    hide Expandable, Leaves, GetSubcircuit, IsInstance;
    var child := Child(lib, root[k]);
    Unvisited(lib, [], child);
    LeavesExactly(lib, [], child, leaf);
  }

  /** The elements of the flat list are those at the end of all chains. */
  lemma ListedElements(lib: seq<Subcircuit>, root: seq<Definition>, leaf: Leaf)
    requires ValidRoot(lib, root)
    ensures leaf in RootLeaves(lib, root, |root|) <==> IsElement(lib, root, leaf)
  {
    hide ValidRoot, RootLeaves, IsElement, IsBelow, IsRootInstance;
    RootLeavesExactly(lib, root, |root|, leaf);
    assert root[..|root|] == root;
    ElementBelowRoot(lib, root, leaf);
  }

  /** Names of nodes inside of instances are no global names. */
  lemma InternalIsLocal(lib: seq<Subcircuit>, path: seq<Frame>, node: string, name: string)
    requires ValidPath(lib, path) && IsGlobal(name)
    ensures NetName(NetOf(lib, path, node)) == name <==> NetOf(lib, path, node) == Top(name)
  {
    hide PortNr, InstanceNames, Join, NetOf;
    var net := NetOf(lib, path, node);
    InternalNode(lib, path, node);
    if net.Internal? { JoinedIsLocal(net.kind, net.path, net.node); }
  }

  lemma {:induction false} InternalNode(lib: seq<Subcircuit>, path: seq<Frame>, node: string)
    requires ValidPath(lib, path)
    ensures NetOf(lib, path, node).Internal? ==> !IsGlobal(NetOf(lib, path, node).node)
    decreases |path|
  {
    hide PortNr, InstanceNames, IsGlobal;
    if |path| > 0 {
      var inner := path[|path| - 1];
      var nr := PortNr(lib[inner.sub].ports, node);
      assert ValidFrame(lib, inner);
      if nr > 0 { InternalNode(lib, path[..|path| - 1], inner.inst.nodes[nr - 1]); }
    }
  }

  lemma JoinedIsLocal(kind: string, path: seq<string>, node: string)
    requires !IsGlobal(node)
    ensures !IsGlobal(Join([kind] + path + [node]))
  {
    hide Join;
    var front := [kind] + path;
    JoinAppend(front, [node]);
    JoinOne(node);
    var name := Join(front) + "." + node;
    assert name[|Join(front)|] == '.';
    assert '.' !in "gnd";
    assert |node| > 0 ==> name[|name| - 1] == node[|node| - 1];
  }

  predicate IsNamed(c: Copy, pin: nat, name: string) {
    pin < |c.nodes| && c.nodes[pin].node == Some(name)
  }

  /** Every global terminal of the flat list is named as in its subcircuit. */
  ghost predicate ListKeeps(lib: seq<Subcircuit>, root: seq<Definition>, list: seq<Copy>)
    requires ValidRoot(lib, root) && IsFlatList(lib, root, list)
  {
    var leaves := RootLeaves(lib, root, |root|);
    forall i, pin :: 0 <= i < |leaves| && 0 <= pin < |leaves[i].element.nodes| ==>
      IsGlobal(leaves[i].element.nodes[pin]) ==> IsNamed(list[i], pin, leaves[i].element.nodes[pin])
  }

  /** The ports with global names that elements are connected to resolve to those names. */
  ghost predicate ElementsResolve(lib: seq<Subcircuit>, root: seq<Definition>)
    requires ValidRoot(lib, root)
  {
    forall leaf, pin :: IsElement(lib, root, leaf) && 0 <= pin < |leaf.element.nodes| ==>
      TerminalResolves(lib, leaf, pin)
  }

  ghost predicate TerminalResolves(lib: seq<Subcircuit>, leaf: Leaf, pin: nat)
    requires pin < |leaf.element.nodes|
  {
    |leaf.path| > 0 && ValidPath(lib, leaf.path) && PinResolves(lib, leaf.path, leaf.element.nodes[pin])
  }

  ghost predicate PinResolves(lib: seq<Subcircuit>, path: seq<Frame>, node: string)
    requires ValidPath(lib, path) && |path| > 0
  {
    var inner := path[|path| - 1];
    var nr := PortNr(lib[inner.sub].ports, node);
    assert ValidFrame(lib, inner);
    IsGlobal(node) && nr > 0 ==> ResolvesToName(lib, path, nr - 1)
  }

  lemma PinKeeps(lib: seq<Subcircuit>, path: seq<Frame>, node: string)
    requires ValidPath(lib, path) && |path| > 0
    ensures PinResolves(lib, path, node) <==> (IsGlobal(node) ==> NetOf(lib, path, node) == Top(node))
  {
    hide IsGlobal, PortNr, NetOf;
    if IsGlobal(node) { GlobalNet(lib, path, node); }
  }

  /** Every global terminal of the expanded list keeps its name if and only if the ports with
      global names that elements are connected to resolve to those names. */
  lemma FlatGlobals(lib: seq<Subcircuit>, root: seq<Definition>, list: seq<Copy>)
    requires ValidRoot(lib, root) && IsFlatList(lib, root, list)
    ensures ListKeeps(lib, root, list) <==> ElementsResolve(lib, root)
  {
    hide IsGlobal, ValidRoot, RootLeaves, IsElement, ValidLeaf, PinResolves, NetOf, IsFlat, IsNamed;
    var leaves := RootLeaves(lib, root, |root|);
    forall i, pin | 0 <= i < |leaves| && 0 <= pin < |leaves[i].element.nodes|
      ensures KeptPin(lib, list, leaves, i, pin)
    {
      TerminalKept(lib, root, list, i, pin);
    }
    if ListKeeps(lib, root, list) {
      forall leaf, pin | IsElement(lib, root, leaf) && 0 <= pin < |leaf.element.nodes|
        ensures TerminalResolves(lib, leaf, pin)
      {
        ListedElements(lib, root, leaf);
        var i :| 0 <= i < |leaves| && leaves[i] == leaf;
        assert KeptPin(lib, list, leaves, i, pin);
      }
    }
    if ElementsResolve(lib, root) {
      forall i, pin
        | 0 <= i < |leaves| && 0 <= pin < |leaves[i].element.nodes| && IsGlobal(leaves[i].element.nodes[pin])
        ensures IsNamed(list[i], pin, leaves[i].element.nodes[pin])
      {
        ListedElements(lib, root, leaves[i]);
        assert TerminalResolves(lib, leaves[i], pin);
        assert KeptPin(lib, list, leaves, i, pin);
      }
    }
  }

  /** A terminal of the list keeps a global name exactly if its port resolves to that name. */
  ghost predicate KeptPin(lib: seq<Subcircuit>, list: seq<Copy>, leaves: seq<Leaf>, i: nat, pin: nat)
    requires i < |leaves| && pin < |leaves[i].element.nodes|
  {
    var leaf, node := leaves[i], leaves[i].element.nodes[pin];
    && |leaf.path| > 0 && ValidPath(lib, leaf.path) && i < |list|
    && (PinResolves(lib, leaf.path, node) <==> (IsGlobal(node) ==> IsNamed(list[i], pin, node)))
  }

  lemma TerminalKept(lib: seq<Subcircuit>, root: seq<Definition>, list: seq<Copy>, i: nat, pin: nat)
    requires ValidRoot(lib, root) && IsFlatList(lib, root, list)
    requires i < |RootLeaves(lib, root, |root|)| && pin < |RootLeaves(lib, root, |root|)[i].element.nodes|
    ensures KeptPin(lib, list, RootLeaves(lib, root, |root|), i, pin)
  {
    hide IsGlobal, ValidRoot, RootLeaves, NetOf, PinResolves, Join, NetName;
    var leaf := RootLeaves(lib, root, |root|)[i];
    assert ValidLeaf(lib, leaf) && IsFlat(lib, leaf, list[i]);
    var node := leaf.element.nodes[pin];
    PinKeeps(lib, leaf.path, node);
    if IsGlobal(node) { InternalIsLocal(lib, leaf.path, node, node); }
  }

  /** A terminal of the flat list that is no port: s! and gnd keep their names, and all other
      names follow those of the type and of the instances from the outside in. */
  lemma FlatTerminal(lib: seq<Subcircuit>, root: seq<Definition>, list: seq<Copy>, i: nat, pin: nat)
    requires ValidRoot(lib, root) && IsFlatList(lib, root, list)
    requires i < |RootLeaves(lib, root, |root|)| && pin < |RootLeaves(lib, root, |root|)[i].element.nodes|
    ensures var leaf := RootLeaves(lib, root, |root|)[i];
      var node := leaf.element.nodes[pin];
      && |leaf.path| > 0 && ValidPath(lib, leaf.path) && i < |list|
      && var sub := lib[leaf.path[|leaf.path| - 1].sub];
         node !in sub.ports ==>
           IsNamed(list[i], pin,
                   if node == "gnd" || (node != "" && node[|node| - 1] == '!') then node
                   else Join([sub.instance] + InstanceNames(leaf.path) + [node]))
  {
    hide ValidRoot, RootLeaves, NetOf, Join;
    var leaf := RootLeaves(lib, root, |root|)[i];
    assert ValidLeaf(lib, leaf) && IsFlat(lib, leaf, list[i]);
    var node, sub := leaf.element.nodes[pin], lib[leaf.path[|leaf.path| - 1].sub];
    if node !in sub.ports {
      if node != "" && node[|node| - 1] == '!' {
        assert node == node[..|node| - 1] + "!";
        SharedNet(lib, leaf.path, node[..|node| - 1]);
      } else if node == "gnd" {
        SharedNet(lib, leaf.path, "");
      } else {
        OwnNet(lib, leaf.path, node);
      }
    }
  }

  // ----- inputs -----

  lemma NetAtTop(lib: seq<Subcircuit>, node: string)
    ensures NetOf(lib, [], node) == Top(node)
  {}

  /** An element of an amplifier inside of a stage: its supply is shared, its node n is
      Amp.S1.X1.n. */
  lemma SupplyInput(x: string, y: string, element: Definition)
    ensures var inner := Definition("Sub", y, ["q"], Some("Amp"));
      var lib := [Subcircuit("Stage", ["q"], [inner]), Subcircuit("Amp", ["p"], [element])];
      var path := [Frame(0, Definition("Sub", x, ["a"], Some("Stage"))), Frame(1, inner)];
      && ValidPath(lib, path)
      && NetName(NetOf(lib, path, "vdd!")) == "vdd!" && NetName(NetOf(lib, path, "p")) == "a"
      && NetName(NetOf(lib, path, "n")) == "Amp" + "." + x + "." + y + "." + "n"
  {
    hide NetOf, PortNr, Join;
    var inner := Definition("Sub", y, ["q"], Some("Amp"));
    var lib := [Subcircuit("Stage", ["q"], [inner]), Subcircuit("Amp", ["p"], [element])];
    var outer, fr := Frame(0, Definition("Sub", x, ["a"], Some("Stage"))), Frame(1, inner);
    var path := [outer, fr];
    assert "vdd" + "!" == "vdd!" && "vdd!"[3] == '!' && "n"[0] == 'n' && "p"[0] == 'p';
    SharedNet(lib, path, "vdd");
    OwnNet(lib, path, "n");
    NetAtPort(lib, [], outer, "q");
    NetAtPort(lib, [outer], fr, "p");
    NetAtTop(lib, "a");
    assert [] + [outer] == [outer] && [outer] + [fr] == path;
    assert InstanceNames(path) == [x, y];
    FourParts("Amp", x, y, "n");
    assert ["Amp"] + [x, y] + ["n"] == ["Amp", x, y, "n"];
  }

  lemma FourParts(a: string, b: string, c: string, d: string)
    ensures Join([a, b, c, d]) == a + "." + b + "." + c + "." + d
  {
    assert [a, b, c, d][1..] == [b, c, d] && [b, c, d][1..] == [c, d] && [c, d][1..] == [d];
    var cd := c + "." + d;
    var bcd := b + "." + cd;
    assert Join([c, d]) == cd && Join([b, c, d]) == bcd;
  }

  lemma NetAtPort(lib: seq<Subcircuit>, path: seq<Frame>, fr: Frame, node: string)
    requires ValidPath(lib, path) && ValidFrame(lib, fr) && lib[fr.sub].ports == [node]
    ensures ValidPath(lib, path + [fr]) && NetOf(lib, path + [fr], node) == NetOf(lib, path, fr.inst.nodes[0])
  {
    var longer := path + [fr];
    assert longer[..|path|] == path;
    assert PortNr([node], node) == 1;
  }

  /** A type with a port named gnd, tied to vcc: the ground inside becomes vcc. */
  lemma GroundPort(kind: string, name: string, element: Definition)
    ensures var lib := [Subcircuit(kind, ["gnd"], [element])];
      var fr := Frame(0, Definition("Sub", name, ["vcc"], Some(kind)));
      && ValidPath(lib, [fr]) && IsGlobal("gnd") && NetOf(lib, [fr], "gnd") == Top("vcc")
      && !ResolvesToName(lib, [fr], 0)
  {
    var lib := [Subcircuit(kind, ["gnd"], [element])];
    var fr := Frame(0, Definition("Sub", name, ["vcc"], Some(kind)));
    NetAtPort(lib, [], fr, "gnd");
    NetAtTop(lib, "vcc");
    assert [] + [fr] == [fr] && [fr][..0] == [];
    assert "vcc"[0] != "gnd"[0];
  }

  /** An instance that ties the port gnd to its own port p keeps the ground all the same where
      p is tied to gnd: tying port by port is not necessary. */
  lemma TiedAbove(x: string, y: string, element: Definition)
    ensures var inner := Definition("Sub", y, ["p"], Some("B"));
      var lib := [Subcircuit("A", ["p"], [inner]), Subcircuit("B", ["gnd"], [element])];
      var outer, fr := Frame(0, Definition("Sub", x, ["gnd"], Some("A"))), Frame(1, inner);
      && ValidPath(lib, [outer, fr]) && !Ties(lib, fr)
      && NetOf(lib, [outer, fr], "gnd") == Top("gnd")
  {
    var inner := Definition("Sub", y, ["p"], Some("B"));
    var lib := [Subcircuit("A", ["p"], [inner]), Subcircuit("B", ["gnd"], [element])];
    var outer, fr := Frame(0, Definition("Sub", x, ["gnd"], Some("A"))), Frame(1, inner);
    NetAtPort(lib, [], outer, "p");
    NetAtPort(lib, [outer], fr, "gnd");
    NetAtTop(lib, "gnd");
    assert [] + [outer] == [outer] && [outer] + [fr] == [outer, fr];
    assert PortNr(["gnd"], "gnd") == 1 && |"p"| != |"gnd"|;
    assert IsGlobalPort(lib, fr, 0);
  }
}
