/** prepareTree on the nodes themselves: each pass assigns fields in place while it walks the tree. */
module PrepareNodes {
  import opened Oids
  import opened MibTree
  import opened Prepare
  import opened Nodes

  /** The nodes' index fields are those of the state. */
  ghost predicate Agrees(nodes: set<Node>, st: IxState)
    reads nodes
  {
    forall x :: x in nodes ==> x.oid in st && st[x.oid] == Ix(x.indexes, x.impliedIndex)
  }

  ghost predicate DistinctNodes(nodes: set<Node>) {
    forall x, y :: x in nodes && y in nodes && x.oid == y.oid ==> x == y
  }

  // --- buildNameToNodeMap ---

  /** The table's nodes lie in `nodes` and have the OIDs of `oids`. */
  ghost predicate Mirrors(names: map<string, Node>, nodes: set<Node>, oids: map<string, string>) {
    names.Keys == oids.Keys && forall k :: k in names ==> names[k] in nodes && names[k].oid == oids[k]
  }

  method BuildNameToNodeMap(n: Node, before: map<string, Node>, ghost nodes: set<Node>, ghost oids: map<string, string>)
    returns (names: map<string, Node>)
    requires n.Valid() && n.Repr <= nodes && Mirrors(before, nodes, oids)
    ensures Mirrors(names, nodes, oids + NameOids(Preorder(n.Shape())))
    decreases n.Repr, 0
  {
    ChildrenSmaller(n);
    PreorderNames(n.Shape(), oids);
    names := before[n.oid := n][n.name := n];
    names := AddNames(n.children, names, nodes, oids[n.oid := n.oid][n.name := n.oid]);
  }

  lemma ChildrenSmaller(n: Node)
    requires n.Valid()
    ensures Kids(n.children) && NodesOf(n.children) < n.Repr
  {
    NodesOfAll(n.children);
    assert n !in NodesOf(n.children);
  }

  lemma PreorderNames(t: Tree, oids: map<string, string>)
    ensures oids[t.oid := t.oid][t.name := t.oid] + NameOids(PreorderAll(t.children)) == oids + NameOids(Preorder(t))
  {
    NameOidsConcat([t], PreorderAll(t.children));
    assert [t][..0] == [];
    TwoEntries(oids, t.oid, t.name, t.oid, NameOids(PreorderAll(t.children)));
  }

  lemma TwoEntries(m: map<string, string>, j: string, k: string, v: string, rest: map<string, string>)
    ensures m[j := v][k := v] + rest == m + (map[][j := v][k := v] + rest)
  {}

  method AddNames(ns: seq<Node>, before: map<string, Node>, ghost nodes: set<Node>, ghost oids: map<string, string>)
    returns (names: map<string, Node>)
    requires Kids(ns) && NodesOf(ns) <= nodes && Mirrors(before, nodes, oids)
    ensures Mirrors(names, nodes, oids + NameOids(PreorderAll(Shapes(ns))))
    decreases NodesOf(ns), 1
  {
    names := before;
    NodesOfAll(ns);
    ghost var shapes := Shapes(ns);
    ghost var table := oids;
    for i := 0 to |ns|
      invariant Mirrors(names, nodes, table)
      invariant table == oids + NameOids(PreorderAll(shapes[..i]))
    {
      SiblingNames(shapes, i, oids);
      names := BuildNameToNodeMap(ns[i], names, nodes, table);
      table := table + NameOids(Preorder(shapes[i]));
    }
    assert shapes[..|ns|] == shapes;
  }

  lemma SiblingNames(ts: seq<Tree>, k: nat, oids: map<string, string>)
    requires k < |ts|
    ensures oids + NameOids(PreorderAll(ts[..k + 1])) == oids + NameOids(PreorderAll(ts[..k])) + NameOids(Preorder(ts[k]))
  {
    PreorderAllAppend(ts, k);
    NameOidsConcat(PreorderAll(ts[..k]), Preorder(ts[k]));
  }

  // --- processIndexes ---

  method ProcessIndexes(n: Node)
    requires n.Valid()
    modifies n.Repr`indexes
    ensures forall x :: x in n.Repr ==> x.indexes == FixIndexes(x.name, old(x.indexes))
    decreases n.Repr, 0
  {
    var indexes: seq<string> := [];
    for i := 0 to |n.indexes|
      invariant indexes == FixIndexes(n.name, n.indexes)[..i]
    {
      indexes := indexes + [if n.indexes[i] == "INTEGER" then n.name else n.indexes[i]];
    }
    NodesOfAll(n.children);
    n.indexes := indexes;
    ProcessIndexesAll(n.children);
  }

  /** A loop over siblings has processed `done`, the subtrees of the first `k` of them. */
  ghost predicate Progress(ns: seq<Node>, k: int, done: set<Node>) {
    0 <= k <= |ns| && done <= NodesOf(ns) &&
    (forall i :: 0 <= i < k ==> ns[i].Repr <= done) && forall i :: k <= i < |ns| ==> ns[i].Repr !! done
  }

  lemma OneMoreDone(ns: seq<Node>, k: int, done: set<Node>)
    requires Kids(ns) && Progress(ns, k, done) && k < |ns|
    ensures Progress(ns, k + 1, done + ns[k].Repr)
  {
    NodesOfAll(ns);
  }

  method ProcessIndexesAll(ns: seq<Node>)
    requires Kids(ns)
    modifies NodesOf(ns)`indexes
    ensures forall j, x :: 0 <= j < |ns| && x in ns[j].Repr ==> x.indexes == FixIndexes(x.name, old(x.indexes))
    decreases NodesOf(ns), 1
  {
    NodesOfAll(ns);
    ghost var done: set<Node> := {};
    for i := 0 to |ns|
      invariant Progress(ns, i, done)
      invariant forall x :: x in done ==> x.indexes == FixIndexes(x.name, old(x.indexes))
      invariant forall x :: x in NodesOf(ns) && x !in done ==> x.indexes == old(x.indexes)
    {
      OneMoreDone(ns, i, done);
      ProcessIndexes(ns[i]);
      done := done + ns[i].Repr;
    }
  }

  // --- processNodeTypes ---

  method ProcessNodeTypes(n: Node)
    requires n.Valid()
    modifies n.Repr`typ
    ensures forall x :: x in n.Repr ==> x.typ == PreparedType(old(x.typ), x.hint, x.textualConvention)
    decreases n.Repr, 0
  {
    ProcessNodeType(n);
    NodesOfAll(n.children);
    ProcessNodeTypesAll(n.children);
  }

  method ProcessNodeTypesAll(ns: seq<Node>)
    requires Kids(ns)
    modifies NodesOf(ns)`typ
    ensures forall j, x :: 0 <= j < |ns| && x in ns[j].Repr ==>
      x.typ == PreparedType(old(x.typ), x.hint, x.textualConvention)
    decreases NodesOf(ns), 1
  {
    NodesOfAll(ns);
    ghost var done: set<Node> := {};
    for i := 0 to |ns|
      invariant Progress(ns, i, done)
      invariant forall x :: x in done ==> x.typ == PreparedType(old(x.typ), x.hint, x.textualConvention)
      invariant forall x :: x in NodesOf(ns) && x !in done ==> x.typ == old(x.typ)
    {
      OneMoreDone(ns, i, done);
      ProcessNodeTypes(ns[i]);
      done := done + ns[i].Repr;
    }
  }

  /** processMacAddress, processDisplayString and processTextualConventions, in this order. */
  method ProcessNodeType(n: Node)
    modifies n`typ
    ensures n.typ == PreparedType(old(n.typ), n.hint, n.textualConvention)
  {
    if n.hint == "1x:" {
      n.typ := "PhysAddress48";
    }
    if IsDisplayHint(n.hint) || n.textualConvention == "DisplayString" {
      n.typ := "DisplayString";
    }
    if n.textualConvention == "PhysAddress" {
      n.typ := "PhysAddress48";
    } else if n.textualConvention in ["Float", "Double", "DateAndTime", "ParseDateAndTime", "NTPTimeStamp",
                                      "InetAddressIPv4", "InetAddressIPv6", "InetAddress", "LldpPortId"] {
      n.typ := n.textualConvention;
    }
  }

  // --- processAugments ---

  /** Assigns the indexes of `from` to some nodes, which may include `from` itself. */
  method AssignIndexes(ns: seq<Node>, from: Node, ghost nodes: set<Node>, ghost st: IxState)
          returns (ghost st': IxState)
    requires Kids(ns) && NodesOf(ns) <= nodes && from in nodes && DistinctNodes(nodes) && Agrees(nodes, st)
    modifies ns`indexes, ns`impliedIndex
    ensures st' == SetAll(st, Shapes(ns), Lookup(st, from.oid)) && Agrees(nodes, st')
    ensures Lookup(st', from.oid) == Lookup(st, from.oid)
  {
    NodesOfAll(ns);
    ghost var v, shapes := Lookup(st, from.oid), Shapes(ns);
    st' := st;
    for i := 0 to |ns|
      invariant Agrees(nodes, st') && Lookup(st', from.oid) == v
      invariant SetAll(st', shapes[i..], v) == SetAll(st, shapes, v)
    {
      assert shapes[i..][0] == ns[i].Shape() && shapes[i..][1..] == shapes[i + 1..];
      assert ns[i] in ns && ns[i] in nodes;
      ns[i].indexes := from.indexes;
      ns[i].impliedIndex := from.impliedIndex;
      st' := st'[ns[i].oid := v];
    }
  }

  method ProcessAugments(n: Node, names: map<string, Node>, ghost nodes: set<Node>, ghost oids: map<string, string>,
          ghost st: IxState)
    returns (ghost st': IxState)
    requires n.Valid() && n.Repr <= nodes && Mirrors(names, nodes, oids) && DistinctNodes(nodes) && Agrees(nodes, st)
    modifies n.Repr`indexes, n.Repr`impliedIndex
    ensures st' == Augment(n.Shape(), oids, st) && Agrees(nodes, st')
    decreases n.Repr, 0
  {
    NodesOfAll(n.children);
    st' := TakeIndexes(n, names, nodes, oids, st);
    st' := ProcessAugmentsAll(n.children, names, nodes, oids, st');
  }

  method AssignOwnIndexes(n: Node, from: Node, ghost nodes: set<Node>, ghost st: IxState) returns (ghost st': IxState)
    requires n in nodes && from in nodes && DistinctNodes(nodes) && Agrees(nodes, st)
    modifies n`indexes, n`impliedIndex
    ensures st' == st[n.oid := Lookup(st, from.oid)] && Agrees(nodes, st')
  {
    n.indexes := from.indexes;
    n.impliedIndex := from.impliedIndex;
    st' := st[n.oid := Lookup(st, from.oid)];
  }

  /** A row that augments another takes its indexes, for itself and for its columns. */
  method TakeIndexes(n: Node, names: map<string, Node>, ghost nodes: set<Node>, ghost oids: map<string, string>,
          ghost st: IxState)
    returns (ghost st': IxState)
    requires n.Valid() && n.Repr <= nodes && Mirrors(names, nodes, oids) && DistinctNodes(nodes) && Agrees(nodes, st)
    modifies n`indexes, n`impliedIndex, n.children`indexes, n.children`impliedIndex
    ensures st' == AugmentStep(st, n.Shape(), oids) && Agrees(nodes, st')
  {
    NodesOfAll(n.children);
    st' := st;
    if n.augments != "" && n.augments in names {
      var augmented := names[n.augments];
      st' := AssignIndexes(n.children, augmented, nodes, st');
      st' := AssignOwnIndexes(n, augmented, nodes, st');
    }
  }

  method ProcessAugmentsAll(ns: seq<Node>, names: map<string, Node>, ghost nodes: set<Node>, ghost oids: map<string,
          string>, ghost st: IxState)
    returns (ghost st': IxState)
    requires Kids(ns) && NodesOf(ns) <= nodes && Mirrors(names, nodes, oids) && DistinctNodes(nodes) &&
      Agrees(nodes, st)
    modifies NodesOf(ns)`indexes, NodesOf(ns)`impliedIndex
    ensures st' == AugmentAll(Shapes(ns), oids, st) && Agrees(nodes, st')
    decreases NodesOf(ns), 1
  {
    NodesOfAll(ns);
    st' := st;
    ghost var shapes := Shapes(ns);
    for i := 0 to |ns|
      invariant Agrees(nodes, st')
      invariant AugmentAll(shapes[i..], oids, st') == AugmentAll(shapes, oids, st)
    {
      assert shapes[i..][0] == ns[i].Shape() && shapes[i..][1..] == shapes[i + 1..];
      st' := ProcessAugments(ns[i], names, nodes, oids, st');
    }
  }

  // --- copyIndexesToChildren ---

  method CopyIndexesToChildren(n: Node, ghost nodes: set<Node>, ghost st: IxState) returns (ghost st': IxState)
    requires n.Valid() && n.Repr <= nodes && DistinctNodes(nodes) && Agrees(nodes, st)
    modifies n.Repr`indexes, n.Repr`impliedIndex
    ensures st' == CopyDown(n.Shape(), st) && Agrees(nodes, st')
    decreases n.Repr, 0
  {
    NodesOfAll(n.children);
    st' := PassIndexes(n, nodes, st);
    st' := CopyIndexesAll(n.children, nodes, st');
  }

  /** A node that has indexes gives them to its children. */
  method PassIndexes(n: Node, ghost nodes: set<Node>, ghost st: IxState) returns (ghost st': IxState)
    requires n.Valid() && n.Repr <= nodes && DistinctNodes(nodes) && Agrees(nodes, st)
    modifies n.children`indexes, n.children`impliedIndex
    ensures st' == CopyStep(st, n.Shape()) && Agrees(nodes, st')
  {
    NodesOfAll(n.children);
    st' := st;
    if |n.indexes| > 0 {
      st' := AssignIndexes(n.children, n, nodes, st');
    }
  }

  method CopyIndexesAll(ns: seq<Node>, ghost nodes: set<Node>, ghost st: IxState) returns (ghost st': IxState)
    requires Kids(ns) && NodesOf(ns) <= nodes && DistinctNodes(nodes) && Agrees(nodes, st)
    modifies NodesOf(ns)`indexes, NodesOf(ns)`impliedIndex
    ensures st' == CopyDownAll(Shapes(ns), st) && Agrees(nodes, st')
    decreases NodesOf(ns), 1
  {
    NodesOfAll(ns);
    st' := st;
    ghost var shapes := Shapes(ns);
    for i := 0 to |ns|
      invariant Agrees(nodes, st')
      invariant CopyDownAll(shapes[i..], st') == CopyDownAll(shapes, st)
    {
      assert shapes[i..][0] == ns[i].Shape() && shapes[i..][1..] == shapes[i + 1..];
      st' := CopyIndexesToChildren(ns[i], nodes, st');
    }
  }

  // --- from the nodes to their value and back ---

  lemma {:induction false} ShapeIsBlank(n: Node)
    requires n.Valid()
    ensures n.Shape() == Blank(n.Value())
    decreases n.Repr, 0
  {
    NodesOfAll(n.children);
    ShapesAreBlank(n.children);
  }

  lemma {:induction false} ShapesAreBlank(ns: seq<Node>)
    requires Kids(ns)
    ensures Shapes(ns) == BlankAll(Values(ns))
    decreases NodesOf(ns), 1, |ns|
  {
    if ns != [] {
      KidsCons(ns);
      NodesOfAll(ns);
      ShapeIsBlank(ns[0]);
      ShapesAreBlank(ns[1..]);
    }
  }

  /** Every node of a tree is itself the root of a tree, whose value appears in the whole. */
  lemma {:induction false} NodeValid(n: Node, x: Node)
    requires n.Valid() && x in n.Repr
    ensures x.Valid() && x.Repr <= n.Repr && x.Value() in Preorder(n.Value())
    decreases n.Repr
  {
    if x != n {
      var i :| 0 <= i < |n.children| && x in n.children[i].Repr;
      NodeValid(n.children[i], x);
      assert n.Value().children[i] == n.children[i].Value();
      InSubtree(n.Value(), x.Value());
    }
  }

  lemma ValueOfNode(n: Node, x: Node) returns (m: Tree)
    requires n.Valid() && x in n.Repr
    ensures m in Preorder(n.Value()) && m.oid == x.oid && m.name == x.name && m.indexes == x.indexes &&
      m.impliedIndex == x.impliedIndex
  {
    NodeValid(n, x);
    m := x.Value();
  }

  lemma TopDiffers(n: Node, arcs: Arcs, x: Node)
    requires n.Valid() && WellFormed(n.Value(), arcs) && x in n.Repr && x != n
    ensures x.oid != n.oid
  {
    NodesOfAll(n.children);
    var i :| 0 <= i < |n.children| && x in n.children[i].Repr;
    var m := ValueOfNode(n.children[i], x);
    assert n.Value().children[i] == n.children[i].Value();
    ParentDiffers(n.Value(), arcs, i, m);
  }

  lemma SiblingNodesDiffer(n: Node, arcs: Arcs, i: nat, j: nat, x: Node, y: Node)
    requires n.Valid() && WellFormed(n.Value(), arcs) && i < j < |n.children|
    requires x in n.children[i].Repr && y in n.children[j].Repr
    ensures x.oid != y.oid
  {
    NodesOfAll(n.children);
    var p := ValueOfNode(n.children[i], x);
    var q := ValueOfNode(n.children[j], y);
    assert n.Value().children[i] == n.children[i].Value() && n.Value().children[j] == n.children[j].Value();
    SiblingPathsDiffer(n.Value(), arcs, i, j, p, q);
  }

  /** In a well-numbered tree nodes are told apart by their OIDs. */
  lemma {:induction false} NodesDistinct(n: Node, arcs: Arcs, x: Node, y: Node)
    requires n.Valid() && WellFormed(n.Value(), arcs) && x in n.Repr && y in n.Repr && x.oid == y.oid
    ensures x == y
    decreases n.Repr
  {
    if x == n {
      if y != n { TopDiffers(n, arcs, y); }
    } else if y == n {
      TopDiffers(n, arcs, x);
    } else {
      var i := SameChild(n, arcs, x, y);
      assert n.Value().children[i] == n.children[i].Value();
      NodesDistinct(n.children[i], arcs + [n.children[i].subid], x, y);
    }
  }

  lemma SameChild(n: Node, arcs: Arcs, x: Node, y: Node) returns (i: nat)
    requires n.Valid() && WellFormed(n.Value(), arcs) && x in n.Repr && y in n.Repr && x != n && y != n &&
      x.oid == y.oid
    ensures i < |n.children| && x in n.children[i].Repr && y in n.children[i].Repr
  {
    NodesOfAll(n.children);
    i :| 0 <= i < |n.children| && x in n.children[i].Repr;
    var j :| 0 <= j < |n.children| && y in n.children[j].Repr;
    if i < j {
      SiblingNodesDiffer(n, arcs, i, j, x, y);
    } else if j < i {
      SiblingNodesDiffer(n, arcs, j, i, y, x);
    }
  }

  lemma TreeNodesDistinct(root: Node)
    requires root.Valid() && IsTree(root.Value())
    ensures DistinctNodes(root.Repr)
  {
    forall x, y | x in root.Repr && y in root.Repr && x.oid == y.oid
      ensures x == y
    {
      NodesDistinct(root, [root.subid], x, y);
    }
  }

  lemma FixedStateOfNodes(root: Node)
    requires root.Valid() && IsTree(root.Value())
    ensures var st := FixedState(Preorder(root.Value()));
      forall x :: x in root.Repr ==> x.oid in st && st[x.oid] == Ix(FixIndexes(x.name, x.indexes), x.impliedIndex)
  {
    var t := root.Value();
    forall x | x in root.Repr
      ensures x.oid in FixedState(Preorder(t)) &&
        FixedState(Preorder(t))[x.oid] == Ix(FixIndexes(x.name, x.indexes), x.impliedIndex)
    {
      var m := ValueOfNode(root, x);
      forall n | n in Preorder(t) && n.oid == m.oid
        ensures n == m
      {
        SameOidSameNode(t, [t.subid], n, m);
      }
      FixedStateAt(Preorder(t), m);
    }
  }

  // --- prepareTree ---

  function TypeOf(m: Tree): string {
    PreparedType(m.typ, m.hint, m.textualConvention)
  }

  /** `types` holds the prepared type of every node of the tree, whose value is `v`. */
  ghost predicate Fits(n: Node, v: Tree, types: map<Node, string>)
    requires n.Valid()
    decreases n.Repr
  {
    n in types && types[n] == TypeOf(v) && |n.children| == |v.children| &&
    forall i :: 0 <= i < |n.children| ==> Fits(n.children[i], v.children[i], types)
  }

  lemma {:induction false} PreparedTypesFit(n: Node, types: map<Node, string>)
    requires n.Valid()
    requires forall x :: x in n.Repr ==> x in types && types[x] == PreparedType(x.typ, x.hint, x.textualConvention)
    ensures Fits(n, n.Value(), types)
    decreases n.Repr
  {
    forall i | 0 <= i < |n.children|
      ensures Fits(n.children[i], n.Value().children[i], types)
    {
      assert n.Value().children[i] == n.children[i].Value();
      PreparedTypesFit(n.children[i], types);
    }
  }

  lemma {:induction false} NodesPrepared(n: Node, v: Tree, st: IxState, types: map<Node, string>)
    requires n.Valid() && n.Shape() == Blank(v) && Agrees(n.Repr, st) && Fits(n, v, types)
    requires forall x :: x in n.Repr ==> x in types && x.typ == types[x]
    ensures n.Value() == WithState(v, st)
    decreases n.Repr
  {
    NodesOfAll(n.children);
    forall i | 0 <= i < |n.children|
      ensures n.children[i].Value() == WithState(v.children[i], st)
    {
      assert n.children[i].Shape() == Shapes(n.children)[i] == BlankAll(v.children)[i];
      NodesPrepared(n.children[i], v.children[i], st, types);
    }
    assert Values(n.children) == WithStateAll(v.children, st);
    SameFields(n, v);
  }

  lemma SameFields(n: Node, v: Tree)
    requires n.Valid() && n.Shape() == Blank(v)
    ensures n.Value().(typ := "", indexes := [], impliedIndex := false, children := []) ==
            v.(typ := "", indexes := [], impliedIndex := false, children := [])
    ensures n.oid == v.oid
  {
    assert n.Shape().(children := []) == Blank(v).(children := []);
  }

  /** The tree becomes the prepared tree; the result finds the nodes by name. */
  method PrepareTree(root: Node) returns (names: map<string, Node>)
    requires root.Valid() && IsTree(root.Value())
    modifies root.Repr
    ensures root.Value() == PreparedTree(old(root.Value()))
    ensures Mirrors(names, root.Repr, NameOids(Preorder(root.Value())))
  {
    ghost var t := root.Value();
    ghost var types := map x | x in root.Repr :: PreparedType(x.typ, x.hint, x.textualConvention);
    ShapeIsBlank(root);
    PreparedTypesFit(root, types);
    names := PreparePasses(root);
    NodesPrepared(root, t, PreparedState(t), types);
    WithStateBlank(t, PreparedState(t));
    NameOidsBlank(t);
    NameOidsBlank(root.Value());
  }

  /** buildNameToNodeMap and processNodes: every node ends with the indexes of PreparedState and its prepared type. */
  method PreparePasses(root: Node) returns (names: map<string, Node>)
    requires root.Valid() && IsTree(root.Value())
    modifies root.Repr
    ensures Mirrors(names, root.Repr, NameOids(Preorder(old(root.Value()))))
    ensures Agrees(root.Repr, PreparedState(old(root.Value())))
    ensures forall x :: x in root.Repr ==> x.typ == PreparedType(old(x.typ), x.hint, x.textualConvention)
  {
    names := ResolveIndexes(root);
    ProcessNodeTypes(root);
  }

  method ResolveIndexes(root: Node) returns (names: map<string, Node>)
    requires root.Valid() && IsTree(root.Value())
    modifies root.Repr`indexes, root.Repr`impliedIndex
    ensures Mirrors(names, root.Repr, NameOids(Preorder(old(root.Value()))))
    ensures Agrees(root.Repr, PreparedState(old(root.Value())))
  {
    ghost var t, oids := root.Value(), NameOids(Preorder(root.Value()));
    ShapeIsBlank(root);
    NameOidsBlank(t);
    TreeNodesDistinct(root);
    FixedStateOfNodes(root);
    assert map[] + oids == oids;
    names := BuildNameToNodeMap(root, map[], root.Repr, map[]);
    ProcessIndexes(root);
    assert Agrees(root.Repr, FixedState(Preorder(t)));
    PropagateIndexes(root, names, t, oids);
  }

  /** The augmentations, then the indexes that nodes give to their children. */
  method PropagateIndexes(root: Node, names: map<string, Node>, ghost t: Tree, ghost oids: map<string, string>)
    requires root.Valid() && root.Shape() == Blank(t) && oids == NameOids(Preorder(t))
    requires Mirrors(names, root.Repr, oids) && DistinctNodes(root.Repr) && Agrees(root.Repr, FixedState(Preorder(t)))
    modifies root.Repr`indexes, root.Repr`impliedIndex
    ensures Agrees(root.Repr, PreparedState(t))
  {
    ghost var st := FixedState(Preorder(t));
    AugmentBlank(t, oids, st);
    st := ProcessAugments(root, names, root.Repr, oids, st);
    CopyDownBlank(t, st);
    st := CopyIndexesToChildren(root, root.Repr, st);
  }

  /** Preparing a deep copy leaves the original as it was. */
  method PrepareCopy(root: Node) returns (copy: Node, names: map<string, Node>)
    requires root.Valid() && IsTree(root.Value())
    ensures root.Value() == old(root.Value())
    ensures copy.Valid() && fresh(copy.Repr) && copy.Value() == PreparedTree(root.Value())
    ensures Mirrors(names, copy.Repr, NameOids(Preorder(copy.Value())))
  {
    copy := root.Copy();
    names := PrepareTree(copy);
  }
}
