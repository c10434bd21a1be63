/** A table whose column has a type and two addresses as indexes: a run of the generator over it panics. */
module PanickingTable {
  import opened ByteStrings
  import opened Minimize
  import opened MibTree
  import opened IndexCollapse
  import opened WalkPlan
  import opened CompiledModule
  import opened Generator
  import opened ScalarModule
  import opened SmallTables

  /** A table of an address type, two addresses, and a column that has all three as indexes. */
  ghost predicate IsAddressTable(kind: Tree, near: Tree, far: Tree, column: Tree) {
    var rows := [kind, near, far, column];
    NamedRows(rows) &&
    MetricType(kind.typ) == Some("gauge") && kind.textualConvention == "InetAddressType" &&
    near.typ == far.typ == near.textualConvention == "InetAddress" &&
    Usable(column) && column.indexes == [kind.name, near.name, far.name]
  }

  function AddressTable(kind: Tree, near: Tree, far: Tree, column: Tree): Tree {
    Table([kind, near, far, column])
  }

  lemma AddressTableIsTree(kind: Tree, near: Tree, far: Tree, column: Tree)
    requires IsAddressTable(kind, near, far, column)
    ensures var t := AddressTable(kind, near, far, column);
      GoodTree(t) && Preorder(t) == [t, kind, near, far, column]
  {
    var rows := [kind, near, far, column];
    var t := Table(rows);
    assert forall i :: 0 <= i < |rows| ==> IsRow(rows[i]) && IsName(rows[i].name);
    TableIsTree(rows);
    assert [t] + rows == [t, kind, near, far, column];
  }

  /** The index list of a node with a type and two addresses: the second slice bound is negative. */
  lemma SharedTypeCrashes(n: Tree, names: map<string, Tree>)
    requires |n.indexes| == 3 && forall k :: 0 <= k < 3 ==> n.indexes[k] in names
    requires MetricType(names[n.indexes[0]].typ) == Some("gauge") &&
      names[n.indexes[0]].textualConvention == "InetAddressType"
    requires names[n.indexes[1]].typ == names[n.indexes[2]].typ == "InetAddress"
    requires names[n.indexes[1]].textualConvention == "InetAddress"
    ensures Run(ResolveAll(n, names)) == OutOfRange && Unsliceable(n, names)
  {
    var slots := ResolveAll(n, names);
    var t, a, b := Resolve(n, 0, names).value, Resolve(n, 1, names).value, Resolve(n, 2, names).value;
    assert slots == Resolved([t, a, b]);
    SharedTypeOutOfRange(t, a, b);
    UnsliceableExactly(n, names);
  }

  lemma ColumnCrashes(kind: Tree, near: Tree, far: Tree, column: Tree)
    requires IsAddressTable(kind, near, far, column)
    ensures Crashes(column, NameToNode(AddressTable(kind, near, far, column)), map[])
  {
    var rows := [kind, near, far, column];
    RowFound(rows, kind);
    RowFound(rows, near);
    RowFound(rows, far);
    SharedTypeCrashes(column, NameToNode(AddressTable(kind, near, far, column)));
  }

  /** The only plan of a walk over a whole tree is the tree. */
  lemma WholePlan(t: Tree, toWalk: seq<string>)
    requires GoodTree(t) && !(Usable(t) && t.indexes == []) && Minimizes(ResolveWalk([t.oid], NameToNode(t)), toWalk)
    ensures toWalk == [t.oid] && Classify(t.oid, t) == OidSubtree(t)
  {
    assert t in Preorder(t);
    NameToNodeByOid(t, t);
    assert ResolveWalk([t.oid], NameToNode(t)) == [t.oid] && Elements([t.oid]) == {t.oid};
    SingleKeyMinimal(t.oid);
    StrictlySortedUnique(Self, toWalk, [t.oid]);
  }

  lemma WholeIsWalkEntry(t: Tree)
    requires GoodTree(t)
    ensures WalkEntriesAreOids([t.oid], t)
  {
    assert t in Preorder(t);
    NameToNodeByOid(t, t);
    assert IsWalkEntry(t.oid, t);
  }

  lemma TreeCrashes(t: Tree, column: Tree, nodes: seq<Tree>)
    requires SortedMetricNodes(nodes, [t.oid], t) && Classify(t.oid, t) == OidSubtree(t)
    requires column in Preorder(t) && Crashes(column, NameToNode(t), map[])
    ensures exists n :: n in PreorderAll(nodes) && Crashes(n, NameToNode(t), map[])
  {
    assert t.oid in [t.oid] && t in MetricNodes([t.oid], t);
    var i :| 0 <= i < |nodes| && nodes[i] == t;
    InSubtrees(nodes, column);
  }

  lemma NothingToLookUp(run: Generation, o: Outcome)
    requires run.cfg.lookups == []
    ensures forall m :: !run.LookupFails(m, o)
  {}

  /** Every run of the generator that walks such a table panics. */
  method PanickingRun(kind: Tree, near: Tree, far: Tree, column: Tree) returns (o: Outcome)
    requires IsAddressTable(kind, near, far, column)
    ensures o == Panicked
  {
    var tree := AddressTable(kind, near, far, column);
    AddressTableIsTree(kind, near, far, column);
    WholeIsWalkEntry(tree);
    ColumnCrashes(kind, near, far, column);
    assert column == Preorder(tree)[4];
    o := WalkWhole(tree, column);
  }

  /** A run that walks a whole tree in which a node crashes. */
  method WalkWhole(tree: Tree, column: Tree) returns (o: Outcome)
    requires GoodTree(tree) && WalkEntriesAreOids([tree.oid], tree) && !(Usable(tree) && tree.indexes == [])
    requires column in Preorder(tree) && Crashes(column, NameToNode(tree), map[])
    ensures o == Panicked
  {
    var run := new Generation(tree, NameToNode(tree), Config([tree.oid], [], map[]));
    ghost var toWalk, nodes;
    o, toWalk, nodes := run.Generate();
    NothingToLookUp(run, o);
    NoLeadingDot(tree);
    WholePlan(tree, toWalk);
    if o.Done? {
      TreeCrashes(tree, column, nodes);
    }
  }

  lemma NoLeadingDot(t: Tree)
    requires IsTree(t)
    ensures forall w :: w in [t.oid] ==> !HasPrefix(w, ".")
  {}

  /** Such tables exist. */
  lemma AddressTablesExist()
    ensures IsAddressTable(
      Leaf(1, "kind", "", "INTEGER", "InetAddressType", "ACCESS_NOACCESS", []),
      Leaf(2, "near", "", "InetAddress", "InetAddress", "ACCESS_NOACCESS", []),
      Leaf(3, "far", "", "InetAddress", "InetAddress", "ACCESS_NOACCESS", []),
      Leaf(4, "column", "", "COUNTER", "", "ACCESS_READONLY", ["kind", "near", "far"]))
  {}
}
