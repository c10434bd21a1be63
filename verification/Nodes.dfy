/** The generator's nodes as objects: building, deep copy and the in-place preparation passes. */
module Nodes {
  import opened MibTree
  import opened BuildTree

  /** A node of the tree. Only `typ`, `indexes` and `impliedIndex` are assigned after a node is built. */
  class Node {
    const oid: string
    const subid: nat
    const name: string
    const augments: string
    const hint: string
    const textualConvention: string
    const fixedSize: int
    const access: string
    const enumValues: map<int, string>
    const children: seq<Node>
    var typ: string
    var indexes: seq<string>
    var impliedIndex: bool
    ghost const Repr: set<Node>

    /** A tree: the subtrees of the children are disjoint and make up the rest of the nodes. */
    ghost predicate Valid()
      decreases Repr
    {
      this in Repr &&
      (forall c :: c in children ==> c.Repr <= Repr - {this} && c.Valid()) &&
      (forall i, j :: 0 <= i < j < |children| ==> children[i].Repr !! children[j].Repr) &&
      (forall x :: x in Repr && x != this ==> exists i :: 0 <= i < |children| && x in children[i].Repr)
    }

    function Value(): Tree
      requires Valid()
      reads Repr
      decreases Repr, 0
    {
      NodesOfAll(children);
      Tree(oid, subid, name, augments, typ, hint, textualConvention, fixedSize, access, enumValues, indexes, impliedIndex,
           Values(children))
    }

    /** A node with the fields of `fields` above the given children. */
    constructor (fields: Tree, kids: seq<Node>)
      requires Kids(kids)
      ensures Valid() && Repr == {this} + NodesOf(kids) && children == kids
      ensures HasFields(fields)
    {
      oid, subid, name, augments := fields.oid, fields.subid, fields.name, fields.augments;
      hint, textualConvention, fixedSize := fields.hint, fields.textualConvention, fields.fixedSize;
      access, enumValues := fields.access, fields.enumValues;
      typ, indexes, impliedIndex := fields.typ, fields.indexes, fields.impliedIndex;
      children := kids;
      Repr := {this} + NodesOf(kids);
      new;
      NodesOfAll(kids);
    }

    predicate HasFields(t: Tree)
      reads this
    {
      oid == t.oid && subid == t.subid && name == t.name && augments == t.augments && hint == t.hint &&
      textualConvention == t.textualConvention && fixedSize == t.fixedSize && access == t.access &&
      enumValues == t.enumValues && typ == t.typ && indexes == t.indexes && impliedIndex == t.impliedIndex
    }

    /** The parts of the value that never change. */
    ghost function Shape(): Tree
      requires Valid()
      decreases Repr, 0
    {
      NodesOfAll(children);
      Tree(oid, subid, name, augments, "", hint, textualConvention, fixedSize, access, enumValues, [], false, Shapes(children))
    }

    /** A deep copy: equal in value, new in every node. */
    method Copy() returns (copy: Node)
      requires Valid()
      ensures copy.Valid() && fresh(copy.Repr)
      ensures copy.Value() == old(Value())
      decreases Repr, 0
    {
      NodesOfAll(children);
      var kids := CopyAll(children);
      copy := NewNode(Tree(oid, subid, name, augments, typ, hint, textualConvention, fixedSize, access, enumValues,
                           indexes, impliedIndex, []), kids);
    }
  }

  lemma ValueOfFields(n: Node, fields: Tree, values: seq<Tree>)
    requires n.Valid() && n.HasFields(fields) && (Kids(n.children) ==> Values(n.children) == values)
    ensures n.Value() == fields.(children := values)
  {
    FieldsAndKids(n, fields);
  }

  lemma FieldsAndKids(n: Node, fields: Tree)
    requires n.Valid() && n.HasFields(fields)
    ensures Kids(n.children) && n.Value() == fields.(children := Values(n.children))
  {}

  /** The loop over the children in Copy. */
  method CopyAll(ns: seq<Node>) returns (kids: seq<Node>)
    requires Kids(ns)
    ensures Kids(kids) && fresh(NodesOf(kids)) && Values(kids) == old(Values(ns))
    decreases NodesOf(ns), 1
  {
    kids := [];
    NodesOfAll(ns);
    ghost var made: set<Node> := {};
    ghost var values := Values(ns);
    for i := 0 to |ns|
      invariant Kids(kids) && made == NodesOf(kids) && fresh(made)
      invariant Values(kids) == values[..i]
    {
      var kid := ns[i].Copy();
      assert kid.Value() == values[i];
      KidsGrow(kids, kid, values, i);
      kids := kids + [kid];
      made := made + kid.Repr;
    }
  }

  /** Disjoint valid subtrees. */
  ghost predicate Kids(ns: seq<Node>) {
    (forall c :: c in ns ==> c.Valid()) &&
    (forall i, j :: 0 <= i < j < |ns| ==> ns[i].Repr !! ns[j].Repr)
  }

  function Values(ns: seq<Node>): (ts: seq<Tree>)
    requires Kids(ns)
    reads NodesOf(ns)
    ensures |ts| == |ns|
    decreases NodesOf(ns), 1
  {
    NodesOfAll(ns);
    seq(|ns|, i requires 0 <= i < |ns| reads NodesOf(ns) => ns[i].Value())
  }

  ghost function Shapes(ns: seq<Node>): (ts: seq<Tree>)
    requires Kids(ns)
    ensures |ts| == |ns|
    decreases NodesOf(ns), 1
  {
    NodesOfAll(ns);
    seq(|ns|, i requires 0 <= i < |ns| => ns[i].Shape())
  }

  /** Taking the first of several subtrees. */
  lemma KidsCons(ns: seq<Node>)
    requires Kids(ns) && ns != []
    ensures ns[0].Valid() && Kids(ns[1..]) && ns[0].Repr !! NodesOf(ns[1..]) &&
      NodesOf(ns) == ns[0].Repr + NodesOf(ns[1..])
    ensures Values(ns) == [ns[0].Value()] + Values(ns[1..])
    ensures Shapes(ns) == [ns[0].Shape()] + Shapes(ns[1..])
  {
    FirstApart(ns);
    ValuesCons(ns);
  }

  lemma FirstApart(ns: seq<Node>)
    requires Kids(ns) && ns != []
    ensures Kids(ns[1..]) && ns[0].Repr !! NodesOf(ns[1..])
  {
    NodesOfAll(ns[1..]);
  }

  lemma ValuesCons(ns: seq<Node>)
    requires Kids(ns) && ns != [] && Kids(ns[1..])
    ensures Values(ns) == [ns[0].Value()] + Values(ns[1..])
    ensures Shapes(ns) == [ns[0].Shape()] + Shapes(ns[1..])
  {}

  /** One more sibling, and one more of the values. */
  lemma KidsGrow(ns: seq<Node>, n: Node, values: seq<Tree>, k: nat)
    requires Kids(ns) && n.Valid() && NodesOf(ns) !! n.Repr
    requires k < |values| && Values(ns) == values[..k] && n.Value() == values[k]
    ensures Kids(ns + [n]) && NodesOf(ns + [n]) == NodesOf(ns) + n.Repr
    ensures Values(ns + [n]) == values[..k + 1]
  {
    KidsAppend(ns, n);
    assert values[..k + 1] == values[..k] + [values[k]];
  }

  lemma KidsAppend(ns: seq<Node>, n: Node)
    requires Kids(ns) && n.Valid() && NodesOf(ns) !! n.Repr
    ensures Kids(ns + [n]) && NodesOf(ns + [n]) == NodesOf(ns) + n.Repr
    ensures Values(ns + [n]) == Values(ns) + [n.Value()]
  {
    NodesOfAll(ns);
    NodesOfAll(ns + [n]);
    NodesOfAppend(ns, n);
  }

  lemma {:induction false} NodesOfAppend(ns: seq<Node>, n: Node)
    ensures NodesOf(ns + [n]) == NodesOf(ns) + n.Repr
  {
    if ns == [] {
      assert [n][1..] == [] && [] + [n] == [n];
    } else {
      assert (ns + [n])[1..] == ns[1..] + [n];
      NodesOfAppend(ns[1..], n);
    }
  }

  ghost function NodesOf(ns: seq<Node>): set<Node> {
    if ns == [] then {} else ns[0].Repr + NodesOf(ns[1..])
  }

  lemma {:induction false} NodesOfMember(ns: seq<Node>, x: Node)
    ensures x in NodesOf(ns) <==> exists i :: 0 <= i < |ns| && x in ns[i].Repr
  {
    if ns != [] {
      NodesOfMember(ns[1..], x);
      if x in NodesOf(ns[1..]) {
        var i :| 0 <= i < |ns[1..]| && x in ns[1..][i].Repr;
        assert x in ns[i + 1].Repr;
      }
      if i :| 0 <= i < |ns| && x in ns[i].Repr {
        if i > 0 { assert x in ns[1..][i - 1].Repr; }
      }
    }
  }

  lemma NodesOfAll(ns: seq<Node>)
    ensures forall i :: 0 <= i < |ns| ==> ns[i].Repr <= NodesOf(ns)
    ensures forall x :: x in NodesOf(ns) ==> exists i :: 0 <= i < |ns| && x in ns[i].Repr
  {
    forall x
      ensures x in NodesOf(ns) <==> exists i :: 0 <= i < |ns| && x in ns[i].Repr
    {
      NodesOfMember(ns, x);
    }
  }

  // --- building ---

  method SetNodeEnumValues(enums: seq<(int, string)>) returns (table: map<int, string>)
    ensures table == EnumTable(enums)
  {
    table := map[];
    for i := 0 to |enums|
      invariant table == EnumTable(enums[..i])
    {
      assert enums[..i + 1][..i] == enums[..i];
      table := table[enums[i].0 := enums[i].1];
    }
    assert enums[..|enums|] == enums;
  }

  method SetNodeIndexes(list: seq<(string, bool)>) returns (indexes: seq<string>, implied: bool)
    ensures indexes == IndexNames(list) && implied == AnyImplied(list)
  {
    indexes, implied := [], false;
    for i := 0 to |list|
      invariant indexes == IndexNames(list)[..i] && implied == AnyImplied(list[..i])
    {
      assert list[..i + 1][..i] == list[..i];
      indexes := indexes + [list[i].0];
      if list[i].1 {
        implied := true;
      }
    }
    assert list[..|list|] == list;
  }

  /** buildMIBTree, with the parse tree of the library as input. */
  method BuildMibTree(c: CTree, parent: string) returns (n: Node)
    ensures n.Valid() && fresh(n.Repr) && n.Value() == Build(c, parent)
    decreases c, 0
  {
    var oid := NodeOid(c.subid, parent);
    var table := SetNodeEnumValues(c.enums);
    var kids := ProcessChildNodes(c.childList, oid);
    var indexes, implied := SetNodeIndexes(c.indexes);
    var fields := Tree(oid, c.subid, c.name, c.augments, NameFor(c.typ, SMI_TYPES), c.hint, c.convention, c.fixedSize,
                       NameFor(c.access, SMI_ACCESS), table, indexes, implied, []);
    n := NewNode(fields, kids);
  }

  method NewNode(fields: Tree, kids: seq<Node>) returns (n: Node)
    requires Kids(kids)
    ensures n.Valid() && fresh(n) && n.Repr == {n} + NodesOf(kids)
    ensures n.Value() == fields.(children := old(Values(kids)))
  {
    ghost var values := Values(kids);
    n := new Node(fields, kids);
    ValueOfFields(n, fields, values);
  }

  method ProcessChildNodes(list: seq<CTree>, oid: string) returns (kids: seq<Node>)
    ensures Kids(kids) && fresh(NodesOf(kids)) && Values(kids) == SortBySubid(BuildAll(list, oid))
    decreases list
  {
    kids := [];
    ghost var made: set<Node> := {};
    for i := 0 to |list|
      invariant Kids(kids) && made == NodesOf(kids) && fresh(made)
      invariant Values(kids) == BuildAll(list[..i], oid)
    {
      var child := BuildMibTree(list[i], oid);
      KidsPrepend(child, kids);
      BuildAllAppend(list, i, oid);
      kids := [child] + kids;
      made := child.Repr + made;
    }
    assert list[..|list|] == list;
    SortNodesValues(kids);
    kids := SortNodes(kids);
  }

  lemma KidsPrepend(n: Node, ns: seq<Node>)
    requires Kids(ns) && n.Valid() && NodesOf(ns) !! n.Repr
    ensures Kids([n] + ns) && NodesOf([n] + ns) == n.Repr + NodesOf(ns) && Values([n] + ns) == [n.Value()] + Values(ns)
  {
    var all := [n] + ns;
    PrependApart(n, ns);
    assert all[0] == n && all[1..] == ns;
    ValuesCons(all);
  }

  lemma PrependApart(n: Node, ns: seq<Node>)
    requires Kids(ns) && n.Valid() && NodesOf(ns) !! n.Repr
    ensures Kids([n] + ns)
  {
    var all := [n] + ns;
    NodesOfAll(ns);
    forall i, j | 0 <= i < j < |all|
      ensures all[i].Repr !! all[j].Repr
    {
      assert all[j] == ns[j - 1] && (i > 0 ==> all[i] == ns[i - 1]);
    }
  }

  lemma {:induction false} BuildAllAppend(list: seq<CTree>, i: nat, oid: string)
    requires i < |list|
    ensures BuildAll(list[..i + 1], oid) == [Build(list[i], oid)] + BuildAll(list[..i], oid)
  {
    if i == 0 {
      assert list[..1][1..] == [] && list[..0] == [];
    } else {
      assert list[..i + 1][1..] == list[1..][..i] && list[..i][1..] == list[1..][..i - 1];
      BuildAllAppend(list[1..], i - 1, oid);
    }
  }

  function InsertNode(n: Node, ns: seq<Node>): seq<Node> {
    if ns == [] || n.subid <= ns[0].subid then [n] + ns else [ns[0]] + InsertNode(n, ns[1..])
  }

  /** sort.Slice on the sub-identifier. */
  function SortNodes(ns: seq<Node>): seq<Node> {
    if ns == [] then [] else InsertNode(ns[0], SortNodes(ns[1..]))
  }

  lemma {:induction false} InsertNodeValues(n: Node, ns: seq<Node>)
    requires Kids([n] + ns)
    ensures Kids(InsertNode(n, ns)) && NodesOf(InsertNode(n, ns)) == n.Repr + NodesOf(ns)
    ensures n.Valid() && Kids(ns) && Values(InsertNode(n, ns)) == InsertBySubid(n.Value(), Values(ns))
    decreases |ns|
  {
    KidsCons([n] + ns);
    assert ([n] + ns)[1..] == ns;
    if ns == [] || n.subid <= ns[0].subid {
      KidsPrepend(n, ns);
    } else {
      KidsCons(ns);
      KidsPrepend(n, ns[1..]);
      InsertNodeValues(n, ns[1..]);
      KidsPrepend(ns[0], InsertNode(n, ns[1..]));
    }
  }

  lemma {:induction false} SortNodesValues(ns: seq<Node>)
    requires Kids(ns)
    ensures Kids(SortNodes(ns)) && NodesOf(SortNodes(ns)) == NodesOf(ns)
    ensures Values(SortNodes(ns)) == SortBySubid(Values(ns))
  {
    if ns != [] {
      KidsCons(ns);
      SortNodesValues(ns[1..]);
      KidsPrepend(ns[0], SortNodes(ns[1..]));
      InsertNodeValues(ns[0], SortNodes(ns[1..]));
    }
  }
}
