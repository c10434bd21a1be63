/** From the library's parse tree to a module: build the tree, prepare a deep copy of it, generate from the copy. */
module Pipeline {
  import opened MibTree
  import opened IndexCollapse
  import opened WalkPlan
  import opened CompiledModule
  import opened Generator
  import opened BuildTree
  import opened Prepare
  import opened Nodes
  import opened PrepareNodes
  import opened GenerateModule

  /** Every label of the parse tree is one that SMI allows. */
  ghost predicate Labelled(c: CTree)
    decreases c
  {
    IsLabel(c.name) && forall i :: 0 <= i < |c.childList| ==> Labelled(c.childList[i])
  }

  lemma {:induction false} BuiltLabels(c: CTree, parent: string, n: Tree)
    requires Numbered(c) && Labelled(c) && n in Preorder(Build(c, parent))
    ensures IsLabel(n.name)
    decreases c, 0
  {
    var t := Build(c, parent);
    InSubtree(t, n);
    if n != t {
      var i :| 0 <= i < |t.children| && n in Preorder(t.children[i]);
      BuiltSubids(c.childList, t.oid);
      SortAscends(BuildAll(c.childList, t.oid));
      assert t.children[i] in BuildAll(c.childList, t.oid);
      BuiltChildLabels(c.childList, t.oid, t.children[i], n);
    }
  }

  lemma {:induction false} BuiltSubids(cs: seq<CTree>, parent: string)
    ensures var ts := BuildAll(cs, parent);
      |ts| == |cs| && forall i :: 0 <= i < |ts| ==> ts[i].subid == cs[|cs| - 1 - i].subid
  {
    if cs != [] { BuiltSubids(cs[1..], parent); }
  }

  lemma {:induction false} BuiltChildLabels(cs: seq<CTree>, parent: string, t: Tree, n: Tree)
    requires NumberedAll(cs) && (forall i :: 0 <= i < |cs| ==> Labelled(cs[i]))
    requires t in BuildAll(cs, parent) && n in Preorder(t)
    ensures IsLabel(n.name)
    decreases cs
  {
    if t == Build(cs[0], parent) {
      BuiltLabels(cs[0], parent, n);
    } else {
      BuiltChildLabels(cs[1..], parent, t, n);
    }
  }

  /** Trees that differ only in what the passes assign have the same nodes otherwise. */
  lemma {:induction false} BlankTwin(s: Tree, t: Tree, n: Tree) returns (m: Tree)
    requires Blank(s) == Blank(t) && n in Preorder(t)
    ensures m in Preorder(s) && Blank(m) == Blank(n)
    decreases t
  {
    InSubtree(t, n);
    if n == t {
      m := s;
    } else {
      var i :| 0 <= i < |t.children| && n in Preorder(t.children[i]);
      assert BlankAll(s.children) == Blank(s).children == Blank(t).children == BlankAll(t.children);
      assert Blank(s.children[i]) == BlankAll(s.children)[i] == Blank(t.children[i]);
      m := BlankTwin(s.children[i], t.children[i], n);
      InSubtree(s, m);
    }
  }

  lemma LabelsKept(s: Tree, t: Tree)
    requires Blank(s) == Blank(t) && LabelsAreNames(s)
    ensures LabelsAreNames(t)
  {
    forall n | n in Preorder(t)
      ensures IsLabel(n.name)
    {
      var m := BlankTwin(s, t, n);
      assert m.name == Blank(m).name && n.name == Blank(n).name;
    }
  }

  lemma LabelsOfNodes(root: Node)
    requires root.Valid() && LabelsAreNames(root.Value())
    ensures NamesAreLabels(root)
  {
    forall x | x in root.Repr
      ensures IsLabel(x.name)
    {
      NodeValid(root, x);
      assert x.Value().name == x.name;
    }
  }

  /** A node that has children is no metric, and no override makes it one. */
  ghost predicate StaysInner(t: Tree, overrides: map<string, Override>) {
    forall m :: m in Preorder(t) && m.children != [] && MetricAccess(m.access) ==>
      MetricType(m.typ).None? &&
      forall k :: Retypes(k, m.oid, NameOids(Preorder(t)), overrides) ==> MetricType(overrides[k].typ).None?
  }

  lemma InnerNodes(root: Node, names: map<string, Node>, overrides: map<string, Override>)
    requires root.Valid() && Mirrors(names, root.Repr, NameOids(Preorder(root.Value()))) &&
      StaysInner(root.Value(), overrides)
    ensures InnerNodesStayInner(root, names, overrides)
  {
    var t := root.Value();
    forall x | x in root.Repr && x.children != [] && MetricAccess(x.access)
      ensures MetricType(x.typ).None?
      ensures forall k :: Overrides(k, x, names, overrides) ==> MetricType(overrides[k].typ).None?
    {
      NodeValid(root, x);
      var m := x.Value();
      assert m.children != [] && m.access == x.access && m.typ == x.typ && m.oid == x.oid;
      forall k | Overrides(k, x, names, overrides)
        ensures MetricType(overrides[k].typ).None?
      {
        assert Retypes(k, m.oid, NameOids(Preorder(t)), overrides);
      }
    }
  }

  /** The tree of a parse tree meets what the preparation and the generator rely on, before and after preparing it. */
  lemma BuiltIsReady(c: CTree, entries: seq<string>)
    requires Numbered(c) && Labelled(c) && WalkEntriesAreOids(entries, Build(c, ""))
    ensures IsTree(Build(c, ""))
    ensures var t := PreparedTree(Build(c, "")); IsTree(t) && LabelsAreNames(t) && WalkEntriesAreOids(entries, t)
  {
    var s := Build(c, "");
    var t := PreparedTree(s);
    BuiltIsWellFormed(c, []);
    assert [] + [c.subid] == [c.subid];
    forall n | n in Preorder(s)
      ensures IsLabel(n.name)
    {
      BuiltLabels(c, "", n);
    }
    WithStateBlank(s, PreparedState(s));
    SameNumbering(s, t);
    LabelsKept(s, t);
    SameWalkEntries(s, t, entries);
  }

  /** One module from a parse tree. The tree itself is left as it was built, so that the next module starts from it
      again; the generated module is one for the prepared tree, with the overrides' types. */
  method CompileFrom(c: CTree, cfg: Config)
    returns (root: Node, o: Outcome, out: Generation, ghost toWalk: seq<string>, ghost nodes: seq<Tree>)
    requires Numbered(c) && Labelled(c) && WalkEntriesAreOids(cfg.walk, Build(c, ""))
    ensures root.Valid() && root.Value() == Build(c, "")
    ensures Untyped(out.tree) == Untyped(PreparedTree(Build(c, "")))
    ensures TypesAfter(PreparedTree(Build(c, "")), out.tree, cfg.overrides)
    ensures Generated(out.tree, cfg, o, out, toWalk, nodes)
    ensures o.Done? && StaysInner(PreparedTree(Build(c, "")), cfg.overrides) ==>
      DistinctMetrics(out.metrics) && AllFetched(out.tree, toWalk, out.metrics, out.get, out.walk)
  {
    BuiltIsReady(c, cfg.walk);
    root := BuildMibTree(c, "");
    var copy, names := PrepareCopy(root);
    LabelsOfNodes(copy);
    if StaysInner(copy.Value(), cfg.overrides) {
      InnerNodes(copy, names, cfg.overrides);
    }
    o, out, toWalk, nodes := GenerateConfigModule(copy, names, cfg);
  }
}
