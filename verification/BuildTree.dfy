/** Building the tree from the library's parse tree, whose sibling lists come in reverse order. */
module BuildTree {
  import opened Oids
  import opened MibTree

  /** The library's struct tree, with its lists as sequences. */
  datatype CTree = CTree(
    subid: nat, name: string, typ: int, access: int, augments: string, hint: string,
    convention: string, fixedSize: int, enums: seq<(int, string)>, indexes: seq<(string, bool)>,
    childList: seq<CTree>)

  const SMI_TYPES: map<int, string> := map[
    0 := "OTHER", 1 := "OBJID", 2 := "OCTETSTR", 3 := "INTEGER", 4 := "NETADDR", 5 := "IPADDR",
    6 := "COUNTER", 7 := "GAUGE", 8 := "TIMETICKS", 9 := "OPAQUE", 10 := "NULL", 11 := "COUNTER64",
    12 := "BITSTRING", 13 := "NSAPADDRESS", 14 := "UINTEGER", 15 := "UNSIGNED32", 16 := "INTEGER32",
    20 := "TRAPTYPE", 21 := "NOTIFTYPE", 22 := "OBJGROUP", 23 := "NOTIFGROUP", 24 := "MODID",
    25 := "AGENTCAP", 26 := "MODCOMP", 27 := "OBJIDENTITY"]

  const SMI_ACCESS: map<int, string> := map[
    18 := "ACCESS_READONLY", 19 := "ACCESS_READWRITE", 20 := "ACCESS_WRITEONLY",
    21 := "ACCESS_NOACCESS", 67 := "ACCESS_NOTIFY", 48 := "ACCESS_CREATE"]

  function NameFor(code: int, table: map<int, string>): string {
    if code in table then table[code] else "unknown"
  }

  function NodeOid(subid: nat, parent: string): string {
    if parent != "" then parent + "." + Decimal(subid) else Decimal(subid)
  }

  /** Later entries of the list replace earlier ones with the same value. */
  function EnumTable(enums: seq<(int, string)>): map<int, string> {
    if enums == [] then map[] else
      var e := enums[|enums| - 1];
      EnumTable(enums[..|enums| - 1])[e.0 := e.1]
  }

  function IndexNames(indexes: seq<(string, bool)>): (names: seq<string>)
    ensures |names| == |indexes|
  {
    seq(|indexes|, i requires 0 <= i < |indexes| => indexes[i].0)
  }

  function AnyImplied(indexes: seq<(string, bool)>): bool {
    indexes != [] && (AnyImplied(indexes[..|indexes| - 1]) || indexes[|indexes| - 1].1)
  }

  function InsertBySubid(t: Tree, ts: seq<Tree>): seq<Tree> {
    if ts == [] || t.subid <= ts[0].subid then [t] + ts else [ts[0]] + InsertBySubid(t, ts[1..])
  }

  function SortBySubid(ts: seq<Tree>): seq<Tree> {
    if ts == [] then [] else InsertBySubid(ts[0], SortBySubid(ts[1..]))
  }

  /** The node of `c` below the node whose OID is `parent`. */
  function Build(c: CTree, parent: string): Tree
    decreases c, 0
  {
    Tree(NodeOid(c.subid, parent), c.subid, c.name, c.augments,
         NameFor(c.typ, SMI_TYPES), c.hint, c.convention, c.fixedSize, NameFor(c.access, SMI_ACCESS),
         EnumTable(c.enums), IndexNames(c.indexes), AnyImplied(c.indexes),
         SortBySubid(BuildAll(c.childList, NodeOid(c.subid, parent))))
  }

  /** The children in the order in which they are prepended: the reverse of the list. */
  function BuildAll(cs: seq<CTree>, parent: string): (ts: seq<Tree>)
    decreases cs
  {
    if cs == [] then [] else BuildAll(cs[1..], parent) + [Build(cs[0], parent)]
  }

  /** Sub-identifiers fit an int64, and no two siblings share one. */
  ghost predicate Numbered(c: CTree)
    decreases c
  {
    c.subid <= MAX_INT &&
    (forall i :: 0 <= i < |c.childList| ==> Numbered(c.childList[i])) &&
    (forall i, j :: 0 <= i < j < |c.childList| ==> c.childList[i].subid != c.childList[j].subid)
  }

  ghost predicate NumberedAll(cs: seq<CTree>) {
    (forall i :: 0 <= i < |cs| ==> Numbered(cs[i])) && (forall i, j :: 0 <= i < j < |cs| ==> cs[i].subid != cs[j].subid)
  }

  ghost predicate Ascending(ts: seq<Tree>) {
    forall i, j :: 0 <= i < j < |ts| ==> ts[i].subid < ts[j].subid
  }

  ghost predicate AllBelow(ts: seq<Tree>, arcs: Arcs) {
    forall t :: t in ts ==> WellFormed(t, arcs + [t.subid])
  }

  lemma {:induction false} InsertElements(t: Tree, ts: seq<Tree>)
    ensures forall u :: u in InsertBySubid(t, ts) <==> u == t || u in ts
  {
    if !(ts == [] || t.subid <= ts[0].subid) {
      InsertElements(t, ts[1..]);
      assert ts == [ts[0]] + ts[1..];
    }
  }

  lemma {:induction false} InsertAscends(t: Tree, ts: seq<Tree>)
    requires Ascending(ts) && forall u :: u in ts ==> u.subid != t.subid
    ensures Ascending(InsertBySubid(t, ts))
  {
    if !(ts == [] || t.subid <= ts[0].subid) {
      InsertAscends(t, ts[1..]);
      InsertElements(t, ts[1..]);
      ConsAscends(ts[0], InsertBySubid(t, ts[1..]));
    }
  }

  lemma ConsAscends(t: Tree, ts: seq<Tree>)
    requires Ascending(ts) && forall u :: u in ts ==> t.subid < u.subid
    ensures Ascending([t] + ts)
  {}

  lemma {:induction false} SortAscends(ts: seq<Tree>)
    requires forall i, j :: 0 <= i < j < |ts| ==> ts[i].subid != ts[j].subid
    ensures Ascending(SortBySubid(ts))
    ensures forall u :: u in SortBySubid(ts) <==> u in ts
  {
    if ts != [] {
      SortAscends(ts[1..]);
      assert forall i :: 0 <= i < |ts[1..]| ==> ts[1..][i] == ts[i + 1];
      InsertAscends(ts[0], SortBySubid(ts[1..]));
      InsertElements(ts[0], SortBySubid(ts[1..]));
      assert ts == [ts[0]] + ts[1..];
    }
  }

  /** The OIDs, the order and the distinctness that the generator relies on hold for every tree built from a
      properly numbered parse tree. */
  lemma {:induction false} BuiltIsWellFormed(c: CTree, arcs: Arcs)
    requires Numbered(c)
    ensures WellFormed(Build(c, if arcs == [] then "" else Render(arcs)), arcs + [c.subid])
    decreases c, 0
  {
    var here := arcs + [c.subid];
    assert here[..|here| - 1] == arcs;
    var oid := NodeOid(c.subid, if arcs == [] then "" else Render(arcs));
    assert oid == Render(here);
    BuiltAll(c.childList, here);
    SortAscends(BuildAll(c.childList, oid));
  }

  /** The numbers of the siblings, in the order opposite to the library's. */
  ghost predicate Backwards(ts: seq<Tree>, cs: seq<CTree>) {
    |ts| == |cs| && forall i :: 0 <= i < |ts| ==> ts[i].subid == cs[|cs| - 1 - i].subid
  }

  lemma {:induction false} BuiltAll(cs: seq<CTree>, arcs: Arcs)
    requires NumberedAll(cs) && arcs != []
    ensures AllBelow(BuildAll(cs, Render(arcs)), arcs) && Backwards(BuildAll(cs, Render(arcs)), cs)
    decreases cs
  {
    if cs != [] {
      var first, rest := Build(cs[0], Render(arcs)), BuildAll(cs[1..], Render(arcs));
      BuiltIsWellFormed(cs[0], arcs);
      BuiltAll(cs[1..], arcs);
      BackwardsCons(rest, first, cs);
      assert BuildAll(cs, Render(arcs)) == rest + [first];
    }
  }

  lemma BackwardsCons(rest: seq<Tree>, first: Tree, cs: seq<CTree>)
    requires cs != [] && Backwards(rest, cs[1..]) && first.subid == cs[0].subid
    ensures Backwards(rest + [first], cs)
  {}
}
