/** generateConfigModule from the prepared nodes: type overrides are assigned in place, the rest only reads the tree. */
module GenerateModule {
  import opened ByteStrings
  import opened Oids
  import opened MibTree
  import opened IndexCollapse
  import opened WalkPlan
  import opened CompiledModule
  import opened Generator
  import opened Prepare
  import opened Nodes
  import opened PrepareNodes

  /** The override `k` sets the type of `x`. */
  predicate Overrides(k: string, x: Node, names: map<string, Node>, overrides: map<string, Override>) {
    k in overrides && overrides[k].typ != "" && k in names && names[k] == x
  }

  /** Every node has the type of one of its overrides, or the one in `types`. */
  ghost predicate Retyped(nodes: set<Node>, types: map<Node, string>, names: map<string, Node>,
          overrides: map<string, Override>)
    reads nodes
  {
    forall x :: x in nodes ==> x in types && RetypedNode(x, types[x], names, overrides)
  }

  ghost predicate RetypedNode(x: Node, before: string, names: map<string, Node>, overrides: map<string, Override>)
    reads x
  {
    if exists k :: Overrides(k, x, names, overrides)
    then exists k :: Overrides(k, x, names, overrides) && x.typ == overrides[k].typ
    else x.typ == before
  }

  /** A node takes the type of one of its overrides, whichever the map iteration visits last, or keeps its own. */
  method ApplyTypeOverrides(names: map<string, Node>, overrides: map<string, Override>, ghost nodes: set<Node>,
          ghost types: map<Node, string>)
    requires forall k :: k in names ==> names[k] in nodes
    requires forall x :: x in nodes ==> x in types && types[x] == x.typ
    modifies nodes`typ
    ensures Retyped(nodes, types, names, overrides)
  {
    var rest := overrides.Keys;
    while rest != {}
      invariant rest <= overrides.Keys
      invariant forall x :: x in nodes ==>
        if exists k :: k !in rest && Overrides(k, x, names, overrides)
        then exists k :: k !in rest && Overrides(k, x, names, overrides) && x.typ == overrides[k].typ
        else x.typ == types[x]
    {
      var k :| k in rest;
      rest := rest - {k};
      if overrides[k].typ == "" || k !in names {
        continue;
      }
      assert Overrides(k, names[k], names, overrides);
      names[k].typ := overrides[k].typ;
    }
  }

  /** A node that has children is no metric, and no override makes it one. */
  ghost predicate InnerNodesStayInner(root: Node, names: map<string, Node>, overrides: map<string, Override>)
    reads root.Repr
  {
    forall x :: x in root.Repr && x.children != [] && MetricAccess(x.access) ==>
      MetricType(x.typ).None? &&
      forall k :: Overrides(k, x, names, overrides) ==> MetricType(overrides[k].typ).None?
  }

  lemma {:induction false} NodeOfValue(n: Node, m: Tree) returns (x: Node)
    requires n.Valid() && m in Preorder(n.Value())
    ensures x in n.Repr && x.Valid() && m == x.Value()
    decreases n.Repr
  {
    if m == n.Value() {
      x := n;
    } else {
      var c := ChildAbove(n, m);
      x := NodeOfValue(c, m);
    }
  }

  lemma ChildAbove(n: Node, m: Tree) returns (c: Node)
    requires n.Valid() && m in Preorder(n.Value()) && m != n.Value()
    ensures c in n.children && c.Valid() && m in Preorder(c.Value()) && c.Repr < n.Repr
  {
    InSubtree(n.Value(), m);
    var i :| 0 <= i < |n.children| && m in Preorder(n.Value().children[i]);
    c := n.children[i];
    assert n !in c.Repr;
  }

  /** Changing types changes neither the numbering nor the names. */
  lemma SameNumbering(s: Tree, t: Tree)
    requires Blank(s) == Blank(t)
    ensures s.oid == t.oid && s.subid == t.subid && NameToNode(s).Keys == NameToNode(t).Keys
    ensures IsTree(s) ==> IsTree(t)
  {
    NameOidsBlank(s);
    NameOidsBlank(t);
    NameTablesAgree(Preorder(s));
    NameTablesAgree(Preorder(t));
    if IsTree(s) { WellFormedBlank(s, t, [s.subid]); }
  }

  lemma {:induction false} WellFormedBlank(s: Tree, t: Tree, arcs: Arcs)
    requires Blank(s) == Blank(t) && WellFormed(s, arcs)
    ensures WellFormed(t, arcs)
    decreases s
  {
    assert t.oid == Blank(t).oid && t.subid == Blank(t).subid && Blank(t).children == BlankAll(t.children);
    assert s.oid == Blank(s).oid && s.subid == Blank(s).subid && Blank(s).children == BlankAll(s.children);
    forall i | 0 <= i < |t.children|
      ensures WellFormed(t.children[i], arcs + [t.children[i].subid])
      ensures t.children[i].subid == s.children[i].subid
    {
      assert Blank(t.children[i]) == BlankAll(t.children)[i] == Blank(s.children[i]);
      assert t.children[i].subid == Blank(t.children[i]).subid && s.children[i].subid == Blank(s.children[i]).subid;
      WellFormedBlank(s.children[i], t.children[i], arcs + [s.children[i].subid]);
    }
  }

  lemma SameWalkEntries(s: Tree, t: Tree, entries: seq<string>)
    requires Blank(s) == Blank(t) && WalkEntriesAreOids(entries, s)
    ensures WalkEntriesAreOids(entries, t)
  {
    SameNumbering(s, t);
    forall w | w in entries
      ensures IsWalkEntry(w, t)
    {
      assert IsWalkEntry(w, s);
    }
  }

  ghost predicate NamesAreLabels(root: Node) {
    forall x :: x in root.Repr ==> IsLabel(x.name)
  }

  lemma GoodValue(root: Node)
    requires root.Valid() && IsTree(root.Value()) && NamesAreLabels(root)
    ensures GoodTree(root.Value())
  {
    forall m | m in Preorder(root.Value())
      ensures IsLabel(m.name)
    {
      var x := NodeOfValue(root, m);
      assert m.name == x.name;
    }
  }

  ghost predicate InnerNodesAreNoMetrics(root: Node)
    reads root.Repr
  {
    forall x :: x in root.Repr && x.children != [] && MetricAccess(x.access) ==> MetricType(x.typ).None?
  }

  ghost predicate InnerTypes(root: Node, types: map<Node, string>, names: map<string, Node>,
          overrides: map<string, Override>) {
    forall x :: x in root.Repr && x.children != [] && MetricAccess(x.access) ==>
      x in types && MetricType(types[x]).None? &&
      forall k :: Overrides(k, x, names, overrides) ==> MetricType(overrides[k].typ).None?
  }

  lemma InnerTypesNow(root: Node, types: map<Node, string>, names: map<string, Node>, overrides: map<string, Override>)
    requires InnerNodesStayInner(root, names, overrides) && forall x :: x in root.Repr ==>
      x in types && types[x] == x.typ
    ensures InnerTypes(root, types, names, overrides)
  {}

  lemma InnerAfter(root: Node, types: map<Node, string>, names: map<string, Node>, overrides: map<string, Override>)
    requires InnerTypes(root, types, names, overrides) && Retyped(root.Repr, types, names, overrides)
    ensures InnerNodesAreNoMetrics(root)
  {
    forall x | x in root.Repr && x.children != [] && MetricAccess(x.access)
      ensures MetricType(x.typ).None?
    {
      assert RetypedNode(x, types[x], names, overrides);
    }
  }

  lemma LeafValue(root: Node)
    requires root.Valid() && InnerNodesAreNoMetrics(root)
    ensures UsableNodesAreLeaves(root.Value())
  {
    forall m | m in Preorder(root.Value()) && Usable(m)
      ensures m.children == []
    {
      var x := NodeOfValue(root, m);
      assert m.typ == x.typ && m.access == x.access && |m.children| == |x.children|;
    }
  }

  /** The table of nodes, read as values, is the tree's own name table. */
  lemma TableOfValues(root: Node, names: map<string, Node>)
    requires root.Valid() && IsTree(root.Value()) && Mirrors(names, root.Repr, NameOids(Preorder(root.Value())))
    ensures names.Keys == NameToNode(root.Value()).Keys
    ensures forall k :: k in names ==>
      names[k].Valid() && names[k].Repr <= root.Repr && names[k].Value() == NameToNode(root.Value())[k]
  {
    var t := root.Value();
    NameTablesAgree(Preorder(t));
    forall k | k in names
      ensures names[k].Valid() && names[k].Repr <= root.Repr && names[k].Value() == NameToNode(t)[k]
    {
      var m := NameToNode(t)[k];
      NameTableOids(Preorder(t), k);
      NamedInTree(Preorder(t), k);
      NodeValid(root, names[k]);
      SameOidSameNode(t, [t.subid], names[k].Value(), m);
    }
  }

  lemma {:induction false} NamedInTree(ns: seq<Tree>, k: string)
    requires k in NameTable(ns)
    ensures NameTable(ns)[k] in ns
  {
    var n := ns[|ns| - 1];
    if k != n.oid && k != n.name { NamedInTree(ns[..|ns| - 1], k); }
  }

  /** The table holds the values of the nodes. */
  ghost predicate ReadsAs(root: Node, names: map<string, Node>, table: map<string, Tree>)
    reads root.Repr
  {
    names.Keys == table.Keys &&
    forall k :: k in names ==> names[k].Valid() && names[k].Repr <= root.Repr && names[k].Value() == table[k]
  }

  method ReadTable(root: Node, names: map<string, Node>) returns (table: map<string, Tree>)
    requires root.Valid() && IsTree(root.Value()) && Mirrors(names, root.Repr, NameOids(Preorder(root.Value())))
    ensures table == NameToNode(root.Value()) && ReadsAs(root, names, table)
  {
    TableOfValues(root, names);
    ghost var expected := NameToNode(root.Value());
    table := map k | k in names :: names[k].Value();
    assert table == expected;
  }

  // --- what the overrides leave ---

  /** The nodes have the indexes of the value `v`, place by place. */
  ghost predicate IndexedLike(n: Node, v: Tree)
    requires n.Valid()
    reads n.Repr`indexes, n.Repr`impliedIndex
    decreases n.Repr
  {
    n.indexes == v.indexes && n.impliedIndex == v.impliedIndex && |n.children| == |v.children| &&
    forall i :: 0 <= i < |n.children| ==> IndexedLike(n.children[i], v.children[i])
  }

  lemma {:induction false} IndexedLikeValue(n: Node)
    requires n.Valid()
    ensures IndexedLike(n, n.Value())
    decreases n.Repr
  {
    forall i | 0 <= i < |n.children|
      ensures IndexedLike(n.children[i], n.Value().children[i])
    {
      assert n.Value().children[i] == n.children[i].Value();
      IndexedLikeValue(n.children[i]);
    }
  }

  lemma {:induction false} UntypedValue(n: Node, v: Tree)
    requires n.Valid() && n.Shape() == Blank(v) && IndexedLike(n, v)
    ensures Untyped(n.Value()) == Untyped(v)
    decreases n.Repr
  {
    NodesOfAll(n.children);
    forall i | 0 <= i < |n.children|
      ensures Untyped(n.children[i].Value()) == Untyped(v.children[i])
    {
      assert n.children[i].Shape() == Shapes(n.children)[i] == BlankAll(v.children)[i];
      UntypedValue(n.children[i], v.children[i]);
    }
    assert UntypedAll(Values(n.children)) == UntypedAll(v.children);
    SameFields(n, v);
  }

  /** The override `k` is meant for the node with OID `oid`. */
  predicate Retypes(k: string, oid: string, names: map<string, string>, overrides: map<string, Override>) {
    k in overrides && overrides[k].typ != "" && k in names && names[k] == oid
  }

  /** The type `after` of the node at `oid`: that of one of its overrides if it has any, else as before. */
  ghost predicate TypeAfter(oid: string, before: string, after: string, names: map<string, string>,
          overrides: map<string, Override>) {
    if exists k :: Retypes(k, oid, names, overrides)
    then exists k :: Retypes(k, oid, names, overrides) && after == overrides[k].typ
    else after == before
  }

  ghost predicate TypesAfter(before: Tree, after: Tree, overrides: map<string, Override>) {
    forall p, q :: p in Preorder(before) && q in Preorder(after) && p.oid == q.oid ==>
      TypeAfter(q.oid, p.typ, q.typ, NameOids(Preorder(before)), overrides)
  }

  lemma TypesOfNodes(root: Node, types: map<Node, string>)
    requires root.Valid() && IsTree(root.Value()) && forall x :: x in root.Repr ==> x in types && types[x] == x.typ
    ensures forall x, p :: x in root.Repr && p in Preorder(root.Value()) && p.oid == x.oid ==> p.typ == types[x]
  {
    forall x, p | x in root.Repr && p in Preorder(root.Value()) && p.oid == x.oid
      ensures p.typ == types[x]
    {
      NodeValid(root, x);
      SameOidSameNode(root.Value(), [root.Value().subid], x.Value(), p);
    }
  }

  /** The tree after the overrides is as good as before. */
  lemma AfterOverrides(root: Node, before: Tree, names: map<string, Node>, entries: seq<string>)
    requires root.Valid() && IsTree(before) && NamesAreLabels(root) && Untyped(root.Value()) == Untyped(before)
    requires Mirrors(names, root.Repr, NameOids(Preorder(before))) && WalkEntriesAreOids(entries, before)
    ensures GoodTree(root.Value()) && WalkEntriesAreOids(entries, root.Value())
    ensures Mirrors(names, root.Repr, NameOids(Preorder(root.Value())))
  {
    UntypedBlank(before);
    UntypedBlank(root.Value());
    SameNumbering(before, root.Value());
    SameNameOids(before, root.Value());
    SameWalkEntries(before, root.Value(), entries);
    GoodValue(root);
  }

  /** What the overrides mean for a node means the same for its OID. */
  lemma TypeAfterNode(x: Node, before: string, nodes: set<Node>, names: map<string, Node>, oids: map<string, string>,
          overrides: map<string, Override>)
    requires x in nodes && DistinctNodes(nodes) && Mirrors(names, nodes, oids) &&
      RetypedNode(x, before, names, overrides)
    ensures TypeAfter(x.oid, before, x.typ, oids, overrides)
  {
    forall k
      ensures Retypes(k, x.oid, oids, overrides) <==> Overrides(k, x, names, overrides)
    {
      if Retypes(k, x.oid, oids, overrides) { assert names[k].oid == x.oid && names[k] in nodes; }
    }
  }

  lemma TypesAfterNodes(root: Node, before: Tree, types: map<Node, string>, names: map<string, Node>,
          overrides: map<string, Override>)
    requires root.Valid() && DistinctNodes(root.Repr) && Mirrors(names, root.Repr, NameOids(Preorder(before)))
    requires Retyped(root.Repr, types, names, overrides)
    requires forall x, p :: x in root.Repr && p in Preorder(before) && p.oid == x.oid ==> p.typ == types[x]
    ensures TypesAfter(before, root.Value(), overrides)
  {
    forall p, q | p in Preorder(before) && q in Preorder(root.Value()) && p.oid == q.oid
      ensures TypeAfter(q.oid, p.typ, q.typ, NameOids(Preorder(before)), overrides)
    {
      var x := NodeOfValue(root, q);
      TypeAfterNode(x, types[x], root.Repr, names, NameOids(Preorder(before)), overrides);
    }
  }

  lemma TypesOverridden(root: Node, before: Tree, types: map<Node, string>, names: map<string, Node>,
          overrides: map<string, Override>)
    requires root.Valid() && root.Shape() == Blank(before) && IndexedLike(root, before)
    requires DistinctNodes(root.Repr) && Mirrors(names, root.Repr, NameOids(Preorder(before)))
    requires Retyped(root.Repr, types, names, overrides)
    requires forall x, p :: x in root.Repr && p in Preorder(before) && p.oid == x.oid ==> p.typ == types[x]
    ensures Untyped(root.Value()) == Untyped(before) && TypesAfter(before, root.Value(), overrides)
  {
    UntypedValue(root, before);
    TypesAfterNodes(root, before, types, names, overrides);
  }

  /** The tree that the overrides leave: as before but for the types, and those are the overrides'. */
  method OverrideTypes(root: Node, names: map<string, Node>, cfg: Config)
    requires root.Valid() && IsTree(root.Value())
    requires Mirrors(names, root.Repr, NameOids(Preorder(root.Value())))
    modifies root.Repr`typ
    ensures Untyped(root.Value()) == Untyped(old(root.Value()))
    ensures TypesAfter(old(root.Value()), root.Value(), cfg.overrides)
    ensures old(InnerNodesStayInner(root, names, cfg.overrides)) ==> UsableNodesAreLeaves(root.Value())
  {
    ghost var before := root.Value();
    ghost var types := map x | x in root.Repr :: x.typ;
    ShapeIsBlank(root);
    IndexedLikeValue(root);
    TreeNodesDistinct(root);
    TypesOfNodes(root, types);
    ghost var inner := InnerNodesStayInner(root, names, cfg.overrides);
    if inner {
      InnerTypesNow(root, types, names, cfg.overrides);
    }
    ApplyTypeOverrides(names, cfg.overrides, root.Repr, types);
    TypesOverridden(root, before, types, names, cfg.overrides);
    if inner {
      InnerAfter(root, types, names, cfg.overrides);
      LeafValue(root);
    }
  }

  /** What a run over the tree `t` leaves. */
  ghost predicate Generated(t: Tree, cfg: Config, o: Outcome, out: Generation, toWalk: seq<string>, nodes: seq<Tree>)
    reads out
  {
    out.tree == t && out.cfg == cfg && out.names == NameToNode(t) &&
    (o.LeadingDot? <==> exists w :: w in cfg.walk && HasPrefix(w, ".")) &&
    (o.CannotFind? ==> o.entry in toWalk && Classify(o.entry, t).OidNotFound?) &&
    (o.Panicked? ==> out.CrashesIn(nodes)) &&
    (o.UnknownLookup? || o.UnknownLookupType? ==> exists b :: b in BaseMetrics(t, cfg, nodes) && out.LookupFails(b, o)) &&
    (o.Done? ==> !out.CrashesIn(nodes) && Compiled(t, cfg, toWalk, nodes, out.metrics, out.get, out.walk))
  }

  method RunGeneration(t: Tree, names: map<string, Tree>, cfg: Config)
    returns (o: Outcome, out: Generation, ghost toWalk: seq<string>, ghost nodes: seq<Tree>)
    requires GoodTree(t) && names == NameToNode(t) && WalkEntriesAreOids(cfg.walk, t)
    ensures fresh(out) && Generated(t, cfg, o, out, toWalk, nodes)
    ensures o.Done? && UsableEmitAlone(t, cfg.overrides) ==>
      DistinctMetrics(out.metrics) && AllFetched(t, toWalk, out.metrics, out.get, out.walk)
  {
    if UsableEmitAlone(t, cfg.overrides) {
      UsableColumnsEmitAlone(t, cfg.overrides);
    }
    out := new Generation(t, names, cfg);
    o, toWalk, nodes := out.Generate();
  }

  /** The whole of generateConfigModule. What every finished module fetches and contains is said by the lemmas on
      compiled modules; the two claims repeated here hold where no usable node has a metric below it, as is so if the
      overrides keep inner nodes inner. */
  method GenerateConfigModule(root: Node, names: map<string, Node>, cfg: Config)
    returns (o: Outcome, out: Generation, ghost toWalk: seq<string>, ghost nodes: seq<Tree>)
    requires root.Valid() && IsTree(root.Value()) && NamesAreLabels(root)
    requires Mirrors(names, root.Repr, NameOids(Preorder(root.Value()))) && WalkEntriesAreOids(cfg.walk, root.Value())
    modifies root.Repr`typ
    ensures Untyped(root.Value()) == Untyped(old(root.Value()))
    ensures TypesAfter(old(root.Value()), root.Value(), cfg.overrides)
    ensures fresh(out) && ReadsAs(root, names, out.names) && Generated(root.Value(), cfg, o, out, toWalk, nodes)
    ensures old(InnerNodesStayInner(root, names, cfg.overrides)) ==> UsableEmitAlone(root.Value(), cfg.overrides)
    ensures o.Done? && UsableEmitAlone(root.Value(), cfg.overrides) ==>
      DistinctMetrics(out.metrics) && AllFetched(root.Value(), toWalk, out.metrics, out.get, out.walk)
  {
    ghost var before := root.Value();
    OverrideTypes(root, names, cfg);
    AfterOverrides(root, before, names, cfg.walk);
    LeavesEmitAlone(root.Value(), cfg.overrides);
    var table := ReadTable(root, names);
    o, out, toWalk, nodes := RunGeneration(root.Value(), table, cfg);
  }

  lemma SameNameOids(s: Tree, t: Tree)
    requires Blank(s) == Blank(t)
    ensures NameOids(Preorder(s)) == NameOids(Preorder(t))
  {
    NameOidsBlank(s);
    NameOidsBlank(t);
  }
}
