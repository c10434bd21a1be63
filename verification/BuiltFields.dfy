/** Every field of a built node, over the fields of the library's node. */
module BuiltFields {
  import opened MibTree
  import opened BuildTree

  /** The names of parse.h, by code: from 0 and from 20 on. */
  const LOW_TYPES := [
    "OTHER", "OBJID", "OCTETSTR", "INTEGER", "NETADDR", "IPADDR", "COUNTER", "GAUGE", "TIMETICKS", "OPAQUE", "NULL",
    "COUNTER64", "BITSTRING", "NSAPADDRESS", "UINTEGER", "UNSIGNED32", "INTEGER32"]
  const HIGH_TYPES := ["TRAPTYPE", "NOTIFTYPE", "OBJGROUP", "NOTIFGROUP", "MODID", "AGENTCAP", "MODCOMP", "OBJIDENTITY"]

  function TypeName(code: int): string {
    if 0 <= code <= 16 then LOW_TYPES[code] else if 20 <= code <= 27 then HIGH_TYPES[code - 20] else "unknown"
  }

  function AccessName(code: int): string {
    if code == 18 then "ACCESS_READONLY"
    else if code == 19 then "ACCESS_READWRITE"
    else if code == 20 then "ACCESS_WRITEONLY"
    else if code == 21 then "ACCESS_NOACCESS"
    else if code == 48 then "ACCESS_CREATE"
    else if code == 67 then "ACCESS_NOTIFY"
    else "unknown"
  }

  lemma LowTypesExactly(code: int)
    requires code < 20
    ensures NameFor(code, SMI_TYPES) == TypeName(code)
  {}

  lemma HighTypesExactly(code: int)
    requires code >= 20
    ensures NameFor(code, SMI_TYPES) == TypeName(code)
  {}

  lemma TypeNamesExactly(code: int)
    ensures NameFor(code, SMI_TYPES) == TypeName(code)
  {
    if code < 20 { LowTypesExactly(code); } else { HighTypesExactly(code); }
  }

  lemma AccessNamesExactly(code: int)
    ensures NameFor(code, SMI_ACCESS) == AccessName(code)
  {}

  /** The last entry of the list for a value gives its label. */
  ghost predicate EnumsBuilt(enums: seq<(int, string)>, table: map<int, string>) {
    (forall v :: v in table ==> exists i :: LastEntry(enums, v, i) && table[v] == enums[i].1) &&
    forall i :: 0 <= i < |enums| ==> enums[i].0 in table
  }

  ghost predicate LastEntry(enums: seq<(int, string)>, v: int, i: int) {
    0 <= i < |enums| && enums[i].0 == v && forall j :: i < j < |enums| ==> enums[j].0 != v
  }

  lemma {:induction false} EnumsExactly(enums: seq<(int, string)>)
    ensures EnumsBuilt(enums, EnumTable(enums))
  {
    if enums != [] {
      var front, k := enums[..|enums| - 1], |enums| - 1;
      EnumsExactly(front);
      forall v | v in EnumTable(enums)
        ensures exists i :: LastEntry(enums, v, i) && EnumTable(enums)[v] == enums[i].1
      {
        if v == enums[k].0 {
          assert LastEntry(enums, v, k);
        } else {
          var i :| LastEntry(front, v, i) && EnumTable(front)[v] == front[i].1;
          assert LastEntry(enums, v, i);
        }
      }
      assert forall i :: 0 <= i < k ==> enums[i] == front[i];
    }
  }

  lemma {:induction false} ImpliedExactly(indexes: seq<(string, bool)>)
    ensures AnyImplied(indexes) <==> exists i :: 0 <= i < |indexes| && indexes[i].1
  {
    if indexes != [] {
      var front, k := indexes[..|indexes| - 1], |indexes| - 1;
      ImpliedExactly(front);
      if i :| 0 <= i < |front| && front[i].1 { assert indexes[i].1; }
      if i :| 0 <= i < |indexes| && indexes[i].1 { assert i < k ==> front[i].1; }
    }
  }

  ghost predicate NodeBuilt(c: CTree, n: Tree) {
    n.subid == c.subid && n.name == c.name && n.augments == c.augments && n.hint == c.hint &&
    n.textualConvention == c.convention && n.fixedSize == c.fixedSize &&
    n.typ == TypeName(c.typ) && n.access == AccessName(c.access) && EnumsBuilt(c.enums, n.enumValues) &&
    |n.indexes| == |c.indexes| && (forall i :: 0 <= i < |n.indexes| ==> n.indexes[i] == c.indexes[i].0) &&
    (n.impliedIndex <==> exists i :: 0 <= i < |c.indexes| && c.indexes[i].1)
  }

  lemma FieldsBuilt(c: CTree, parent: string)
    ensures NodeBuilt(c, Build(c, parent))
  {
    TypeNamesExactly(c.typ);
    AccessNamesExactly(c.access);
    EnumsExactly(c.enums);
    ImpliedExactly(c.indexes);
  }

  /** The whole tree: every node with its fields, and under it one node for each in the list, in ascending order. */
  ghost predicate TreeBuilt(c: CTree, n: Tree)
    decreases c
  {
    NodeBuilt(c, n) && |n.children| == |c.childList| && Ascending(n.children) &&
    forall i :: 0 <= i < |c.childList| ==> exists m :: m in n.children && TreeBuilt(c.childList[i], m)
  }

  lemma {:induction false} InsertLength(t: Tree, ts: seq<Tree>)
    ensures |InsertBySubid(t, ts)| == |ts| + 1
  {
    if !(ts == [] || t.subid <= ts[0].subid) { InsertLength(t, ts[1..]); }
  }

  lemma {:induction false} SortLength(ts: seq<Tree>)
    ensures |SortBySubid(ts)| == |ts|
  {
    if ts != [] {
      SortLength(ts[1..]);
      InsertLength(ts[0], SortBySubid(ts[1..]));
    }
  }

  lemma {:induction false} BuiltFromList(cs: seq<CTree>, parent: string)
    ensures |BuildAll(cs, parent)| == |cs|
    ensures forall i :: 0 <= i < |cs| ==> BuildAll(cs, parent)[i] == Build(cs[|cs| - 1 - i], parent)
  {
    if cs != [] { BuiltFromList(cs[1..], parent); }
  }

  lemma {:induction false} BuiltAs(c: CTree, parent: string)
    requires Numbered(c)
    ensures TreeBuilt(c, Build(c, parent))
    decreases c
  {
    var oid, cs := NodeOid(c.subid, parent), c.childList;
    var kids := BuildAll(cs, oid);
    FieldsBuilt(c, parent);
    BuiltFromList(cs, oid);
    SortLength(kids);
    SortAscends(kids);
    forall i | 0 <= i < |cs|
      ensures exists m :: m in SortBySubid(kids) && TreeBuilt(cs[i], m)
    {
      BuiltAs(cs[i], oid);
      assert kids[|cs| - 1 - i] == Build(cs[i], oid);
    }
  }
}
