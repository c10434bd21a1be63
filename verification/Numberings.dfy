/** One table with two numberings of its rows, which the preparation gives different indexes. */
module Numberings {
  import opened MibTree
  import opened SmallTables
  import opened Prepare
  import opened Augments

  function A(subid: nat): Tree {
    Leaf(subid, "a", "b", "OTHER", "", "unknown", [])
  }

  function B(subid: nat): Tree {
    Leaf(subid, "b", "c", "OTHER", "", "unknown", [])
  }

  function C(subid: nat): Tree {
    Leaf(subid, "c", "", "OTHER", "", "unknown", ["i"])
  }

  /** The row `a` augments `b`, and `b` augments `c`; here `a` is visited first. */
  function AFirst(): Tree {
    Table([A(1), B(2), C(3)])
  }

  /** The same rows with `a` and `b` numbered the other way round. */
  function BFirst(): Tree {
    Table([B(1), A(2), C(3)])
  }

  /** Three rows of a table, in order and under different names. */
  ghost predicate Rows(x: Tree, y: Tree, z: Tree) {
    NamedRows([x, y, z])
  }

  lemma RowsAreTree(x: Tree, y: Tree, z: Tree)
    requires Rows(x, y, z)
    ensures IsTree(Table([x, y, z])) && Preorder(Table([x, y, z])) == [Table([x, y, z]), x, y, z]
    ensures x.oid != y.oid && y.oid != z.oid && x.oid != z.oid && "1" !in {x.oid, y.oid, z.oid}
    ensures x.children == y.children == z.children == []
  {
    var t := Table([x, y, z]);
    var rows := [x, y, z];
    assert IsRow(rows[0]) && IsRow(rows[1]) && IsRow(rows[2]);
    TableIsTree(rows);
    assert [t] + [x, y, z] == [t, x, y, z];
    OidsDistinct(t, [1]);
    assert Preorder(t)[0] == t && Preorder(t)[1] == x && Preorder(t)[2] == y && Preorder(t)[3] == z;
  }

  lemma RowTarget(x: Tree, y: Tree, z: Tree, r: Tree, to: Tree)
    requires Rows(x, y, z) && r in {x, y, z} && to in {x, y, z} && r.augments == to.name
    ensures Target(r, NameOids(Preorder(Table([x, y, z])))) == Some(to.oid)
  {
    var t := Table([x, y, z]);
    RowsAreTree(x, y, z);
    assert to in [x, y, z] && exists i :: 0 <= i < 3 && [x, y, z][i] == to && IsName([x, y, z][i].name);
    RowFound([x, y, z], to);
    NameTableOids(Preorder(t), to.name);
  }

  lemma InitialIndexes(t: Tree, n: Tree)
    requires IsTree(t) && n in Preorder(t)
    ensures Lookup(FixedState(Preorder(t)), n.oid) == Ix(FixIndexes(n.name, n.indexes), n.impliedIndex)
  {
    forall m | m in Preorder(t) && m.oid == n.oid
      ensures m == n
    {
      SameOidSameNode(t, [t.subid], m, n);
    }
    FixedStateAt(Preorder(t), n);
  }

  /** Below a table without indexes a row keeps what processAugments gave it. */
  lemma RowKeeps(t: Tree, r: Tree)
    requires IsTree(t) && r in t.children && Lookup(AugmentedState(t), t.oid).indexes == []
    ensures Lookup(PreparedState(t), r.oid) == Lookup(AugmentedState(t), r.oid)
  {
    var path := [t, r];
    CopyDownClosedForm(t, [t.subid], AugmentedState(t), path);
    assert Along(path, AugmentedState(t))[1..] == [Lookup(AugmentedState(t), r.oid)];
  }

  /** Where the indexes of a row come from, as a source after the whole pass. */
  lemma FromSource(t: Tree, oid: string)
    ensures Lookup(AugmentedState(t), oid) ==
      Lookup(FixedState(Preorder(t)), Source(Preorder(t), NameOids(Preorder(t)), oid))
  {
    AugmentIsSteps(t, NameOids(Preorder(t)), FixedState(Preorder(t)));
    SourceHolds(Preorder(t), NameOids(Preorder(t)), FixedState(Preorder(t)), oid);
  }

  /** Four nodes of which the first and the last augment nothing: the two rows between them decide. */
  lemma SourceOfRows(t: Tree, x: Tree, y: Tree, z: Tree, names: map<string, string>, oid: string)
    requires Target(t, names).None? && Target(z, names).None?
    requires x.children == y.children == [] && Target(x, names).Some? && Target(y, names).Some?
    ensures Source([t, x, y, z], names, oid) ==
      var between := if oid == y.oid then Target(y, names).value else oid;
      if between == x.oid then Target(x, names).value else between
  {
    var ns := [t, x, y, z];
    assert ns[..3] == [t, x, y] && [t, x, y][..2] == [t, x] && [t, x][..1] == [t] && [t][..0] == [];
    var between := if oid == y.oid then Target(y, names).value else oid;
    var first := if between == x.oid then Target(x, names).value else between;
    assert Source(ns, names, oid) == Source([t, x, y], names, oid);
    assert Source([t, x, y], names, oid) == Source([t, x], names, between);
    assert Source([t, x], names, between) == Source([t], names, first);
    assert Source([t], names, first) == first;
  }

  /** Visited first, a row takes what the row it augments has at the start. */
  lemma TakesFromNext(a: Tree, b: Tree, c: Tree)
    requires Rows(a, b, c) && a.augments == b.name && b.augments == c.name && c.augments == ""
    ensures Lookup(PreparedState(Table([a, b, c])), a.oid) == Ix(FixIndexes(b.name, b.indexes), b.impliedIndex)
  {
    var t := Table([a, b, c]);
    var names := NameOids(Preorder(t));
    RowsAreTree(a, b, c);
    RowTarget(a, b, c, a, b);
    RowTarget(a, b, c, b, c);
    SourceOfRows(t, a, b, c, names, t.oid);
    SourceOfRows(t, a, b, c, names, a.oid);
    RowEnds(t, a, b);
  }

  /** Visited second, it takes what that row has got from the end of the chain. */
  lemma TakesFromEnd(a: Tree, b: Tree, c: Tree)
    requires Rows(b, a, c) && a.augments == b.name && b.augments == c.name && c.augments == ""
    ensures Lookup(PreparedState(Table([b, a, c])), a.oid) == Ix(FixIndexes(c.name, c.indexes), c.impliedIndex)
  {
    var t := Table([b, a, c]);
    var names := NameOids(Preorder(t));
    RowsAreTree(b, a, c);
    RowTarget(b, a, c, a, b);
    RowTarget(b, a, c, b, c);
    SourceOfRows(t, b, a, c, names, t.oid);
    SourceOfRows(t, b, a, c, names, a.oid);
    RowEnds(t, a, c);
  }

  /** A row whose indexes stem from `from`, below a table that keeps its own empty list. */
  lemma RowEnds(t: Tree, r: Tree, from: Tree)
    requires IsTree(t) && t.indexes == [] && r in t.children && from in Preorder(t)
    requires Source(Preorder(t), NameOids(Preorder(t)), t.oid) == t.oid
    requires Source(Preorder(t), NameOids(Preorder(t)), r.oid) == from.oid
    ensures Lookup(PreparedState(t), r.oid) == Ix(FixIndexes(from.name, from.indexes), from.impliedIndex)
  {
    FromSource(t, t.oid);
    FromSource(t, r.oid);
    assert t in Preorder(t);
    InitialIndexes(t, t);
    InitialIndexes(t, from);
    RowKeeps(t, r);
  }

  lemma ExampleRows()
    ensures Rows(A(1), B(2), C(3)) && Rows(B(1), A(2), C(3))
  {
    assert A(1).name == "a" && B(1).name == "b" && C(3).name == "c";
  }

  /** A row `a` that augments `b`, which augments `c`, in both orders of `a` and `b`. */
  lemma BothOrders(a: Tree, b: Tree, c: Tree, b': Tree, a': Tree)
    requires Rows(a, b, c) && a.augments == b.name && b.augments == c.name && c.augments == "" && b.indexes == []
    requires Rows(b', a', c) && a'.augments == b'.name && b'.augments == c.name && c.indexes == ["i"]
    ensures IsTree(Table([a, b, c])) && IsTree(Table([b', a', c]))
    ensures Lookup(PreparedState(Table([a, b, c])), a.oid) == Ix([], b.impliedIndex)
    ensures Lookup(PreparedState(Table([b', a', c])), a'.oid) == Ix(["i"], c.impliedIndex)
  {
    RowsAreTree(a, b, c);
    RowsAreTree(b', a', c);
    TakesFromNext(a, b, c);
    TakesFromEnd(a', b', c);
    assert FixIndexes(b.name, []) == [] && FixIndexes(c.name, ["i"]) == ["i"];
  }

  /** Numbered one way the row ends without indexes, numbered the other way with those of the row at the end of the
      chain. */
  lemma NumberingMatters()
    ensures IsTree(AFirst()) && IsTree(BFirst())
    ensures Lookup(PreparedState(AFirst()), A(1).oid) == Ix([], false)
    ensures Lookup(PreparedState(BFirst()), A(2).oid) == Ix(["i"], false)
  {
    ExampleRows();
    BothOrders(A(1), B(2), C(3), B(1), A(2));
  }
}
