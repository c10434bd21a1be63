/** Small trees for examples: one table with a few leaves as rows. */
module SmallTables {
  import opened Oids
  import opened MibTree

  function Leaf(subid: nat, name: string, augments: string, typ: string, convention: string, access: string,
          indexes: seq<string>): Tree {
    Tree("1." + Decimal(subid), subid, name, augments, typ, "", convention, 0, access, map[], indexes, false, [])
  }

  function Table(rows: seq<Tree>): Tree {
    Tree("1", 1, "table", "", "OTHER", "", "", 0, "unknown", map[], [], false, rows)
  }

  ghost predicate IsRow(r: Tree) {
    r.children == [] && r.oid == "1." + Decimal(r.subid) && r.subid <= MAX_INT
  }

  predicate IsName(s: string) {
    s != "" && IsLetter(s[0]) && s != "table"
  }

  lemma {:induction false} LeavesInOrder(rows: seq<Tree>)
    requires forall i :: 0 <= i < |rows| ==> IsRow(rows[i])
    ensures PreorderAll(rows) == rows
  {
    if rows != [] {
      LeavesInOrder(rows[1..]);
      assert Preorder(rows[0]) == [rows[0]] && rows == [rows[0]] + rows[1..];
    }
  }

  lemma Digits()
    ensures Decimal(1) == "1" && Decimal(2) == "2" && Decimal(3) == "3" && Decimal(4) == "4"
  {}

  lemma TableIsTree(rows: seq<Tree>)
    requires forall i :: 0 <= i < |rows| ==> IsRow(rows[i])
    requires forall i, j :: 0 <= i < j < |rows| ==> rows[i].subid < rows[j].subid
    ensures IsTree(Table(rows)) && Preorder(Table(rows)) == [Table(rows)] + rows
  {
    LeavesInOrder(rows);
    Digits();
    forall i | 0 <= i < |rows|
      ensures WellFormed(rows[i], [1] + [rows[i].subid])
    {
      var arcs := [1, rows[i].subid];
      assert [1] + [rows[i].subid] == arcs && arcs[..1] == [1];
      assert Render(arcs) == Render([1]) + "." + Decimal(rows[i].subid);
    }
  }

  /** A label finds its node if no other node has it. */
  lemma {:induction false} FoundByName(ns: seq<Tree>, n: Tree)
    requires n in ns && forall m :: m in ns ==> m.oid != n.name && (m.name == n.name ==> m == n)
    ensures n.name in NameTable(ns) && NameTable(ns)[n.name] == n
  {
    var last := ns[|ns| - 1];
    if last != n {
      assert n in ns[..|ns| - 1];
      FoundByName(ns[..|ns| - 1], n);
    }
  }

  ghost predicate NamedRows(rows: seq<Tree>) {
    (forall i :: 0 <= i < |rows| ==> IsRow(rows[i]) && IsName(rows[i].name)) &&
    (forall i, j :: 0 <= i < j < |rows| ==> rows[i].subid < rows[j].subid && rows[i].name != rows[j].name)
  }

  /** Every row is found under its name. */
  lemma RowFound(rows: seq<Tree>, r: Tree)
    requires NamedRows(rows) && r in rows
    ensures r.name in NameToNode(Table(rows)) && NameToNode(Table(rows))[r.name] == r
  {
    var ns := [Table(rows)] + rows;
    TableIsTree(rows);
    forall m | m in ns
      ensures m.oid != r.name && (m.name == r.name ==> m == r)
    {
      if m in rows { OtherRow(rows, m, r); }
    }
    FoundByName(ns, r);
  }

  lemma OtherRow(rows: seq<Tree>, m: Tree, r: Tree)
    requires NamedRows(rows) && m in rows && r in rows
    ensures m.oid != r.name && (m.name == r.name ==> m == r)
  {
    var i :| 0 <= i < |rows| && rows[i] == m;
    var j :| 0 <= j < |rows| && rows[j] == r;
    assert IsRow(rows[i]) && IsName(rows[j].name) && m.oid[0] == '1';
  }
}
