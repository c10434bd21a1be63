/** The MIB tree as a value: numbering, preorder, the name table and the longest-match search. */
module MibTree {
  import opened ByteStrings
  import opened Minimize
  import opened Oids

  datatype Option<+T> = None | Some(value: T)

  datatype Tree = Tree(
    oid: string, subid: nat, name: string, augments: string,
    typ: string, hint: string, textualConvention: string, fixedSize: int, access: string,
    enumValues: map<int, string>, indexes: seq<string>, impliedIndex: bool,
    children: seq<Tree>)

  /** The nodes in the order of walkNode: a node, then its children's subtrees. */
  function Preorder(t: Tree): (ns: seq<Tree>)
    ensures ns != [] && ns[0] == t
    decreases t, 0
  {
    [t] + PreorderAll(t.children)
  }

  function PreorderAll(ts: seq<Tree>): seq<Tree>
    decreases ts
  {
    if ts == [] then [] else Preorder(ts[0]) + PreorderAll(ts[1..])
  }

  /** The node at `arcs`: OIDs extend the parent's by the sub-identifier, siblings ascend. */
  ghost predicate WellFormed(t: Tree, arcs: Arcs)
    decreases t
  {
    arcs != [] && arcs[|arcs| - 1] == t.subid <= MAX_INT && t.oid == Render(arcs) &&
    (forall i :: 0 <= i < |t.children| ==> WellFormed(t.children[i], arcs + [t.children[i].subid])) &&
    (forall i, j :: 0 <= i < j < |t.children| ==> t.children[i].subid < t.children[j].subid)
  }

  ghost predicate IsTree(t: Tree) {
    WellFormed(t, [t.subid])
  }

  ghost function PathOf(n: Tree): Arcs {
    if IsOid(n.oid) then ArcsOf(n.oid) else []
  }

  lemma WellFormedPath(t: Tree, arcs: Arcs)
    requires WellFormed(t, arcs)
    ensures PathOf(t) == arcs
  {
    RenderInjective(ArcsOf(t.oid), arcs);
  }

  lemma {:induction false} InSubtree(t: Tree, n: Tree)
    ensures n in Preorder(t) <==> n == t || exists i :: 0 <= i < |t.children| && n in Preorder(t.children[i])
  {
    InSubtrees(t.children, n);
  }

  lemma {:induction false} InSubtrees(ts: seq<Tree>, n: Tree)
    ensures n in PreorderAll(ts) <==> exists i :: 0 <= i < |ts| && n in Preorder(ts[i])
  {
    if ts != [] {
      InSubtrees(ts[1..], n);
      if n in PreorderAll(ts[1..]) {
        var i :| 0 <= i < |ts[1..]| && n in Preorder(ts[1..][i]);
        assert n in Preorder(ts[i + 1]);
      }
      if i :| 0 <= i < |ts| && n in Preorder(ts[i]) {
        if i > 0 { assert ts[1..][i - 1] == ts[i]; }
      }
    }
  }

  lemma {:induction false} PreorderAllConcat(a: seq<Tree>, b: seq<Tree>)
    ensures PreorderAll(a + b) == PreorderAll(a) + PreorderAll(b)
  {
    if a == [] {
      assert a + b == b;
    } else {
      assert (a + b)[1..] == a[1..] + b;
      PreorderAllConcat(a[1..], b);
    }
  }

  lemma PreorderAllAppend(ts: seq<Tree>, k: nat)
    requires k < |ts|
    ensures PreorderAll(ts[..k + 1]) == PreorderAll(ts[..k]) + Preorder(ts[k])
  {
    assert ts[..k + 1] == ts[..k] + [ts[k]] && [ts[k]][1..] == [];
    PreorderAllConcat(ts[..k], [ts[k]]);
  }

  /** Every node below a well-formed node is itself well-formed, at an extension of its arcs. */
  lemma {:induction false} Below(t: Tree, arcs: Arcs, n: Tree)
    requires WellFormed(t, arcs) && n in Preorder(t)
    ensures arcs <= PathOf(n) && WellFormed(n, PathOf(n))
    ensures n != t ==>
      exists i :: 0 <= i < |t.children| && n in Preorder(t.children[i]) && arcs + [t.children[i].subid] <= PathOf(n)
    ensures Covers(t.oid, n.oid)
    decreases t
  {
    WellFormedPath(t, arcs);
    InSubtree(t, n);
    if n != t {
      var i :| 0 <= i < |t.children| && n in Preorder(t.children[i]);
      Below(t.children[i], arcs + [t.children[i].subid], n);
    }
    CoversIsArcPrefix(arcs, PathOf(n));
  }

  lemma {:induction false} SubtreeWithin(t: Tree, n: Tree, x: Tree)
    requires n in Preorder(t) && x in Preorder(n)
    ensures x in Preorder(t)
    decreases t
  {
    InSubtree(t, n);
    InSubtree(t, x);
    if n != t {
      var i :| 0 <= i < |t.children| && n in Preorder(t.children[i]);
      SubtreeWithin(t.children[i], n, x);
    }
  }

  // --- order of the walk ---

  predicate ArcLess(a: Arcs, b: Arcs) {
    if b == [] then false
    else if a == [] then true
    else if a[0] != b[0] then a[0] < b[0]
    else ArcLess(a[1..], b[1..])
  }

  lemma {:induction false} ArcLessAfter(p: Arcs, a: Arcs, b: Arcs)
    ensures ArcLess(p + a, p + b) == ArcLess(a, b)
  {
    if p == [] {
      assert p + a == a && p + b == b;
    } else {
      assert (p + a)[1..] == p[1..] + a && (p + b)[1..] == p[1..] + b;
      ArcLessAfter(p[1..], a, b);
    }
  }

  lemma {:induction false} ArcLessIrreflexive(a: Arcs)
    ensures !ArcLess(a, a)
  {
    if a != [] { ArcLessIrreflexive(a[1..]); }
  }

  lemma AncestorFirst(a: Arcs, b: Arcs)
    requires a < b
    ensures ArcLess(a, b)
  {
    var y := b[|a|..];
    assert b == a + y && a == a + [];
    ArcLessAfter(a, [], y);
  }

  /** Two paths that part below `arcs` are ordered by the arcs at which they part, and neither leads to the other. */
  lemma Fork(arcs: Arcs, x: nat, y: nat, a: Arcs, b: Arcs)
    requires arcs + [x] <= a && arcs + [y] <= b && x < y
    ensures ArcLess(a, b) && !(a <= b) && !(b <= a)
  {
    var c, d := a[|arcs|..], b[|arcs|..];
    assert a[|arcs|] == (arcs + [x])[|arcs|] && b[|arcs|] == (arcs + [y])[|arcs|];
    assert a == arcs + c && b == arcs + d;
    ArcLessAfter(arcs, c, d);
  }

  ghost predicate ArcSorted(ns: seq<Tree>) {
    forall i, j :: 0 <= i < j < |ns| ==> ArcLess(PathOf(ns[i]), PathOf(ns[j]))
  }

  /** The preorder walk meets the nodes in strictly increasing order of their arcs. */
  lemma {:induction false} PreorderAscends(t: Tree, arcs: Arcs)
    requires WellFormed(t, arcs)
    ensures ArcSorted(Preorder(t))
    decreases t, 0
  {
    WellFormedPath(t, arcs);
    SiblingsAscend(t.children, arcs);
    var rest := PreorderAll(t.children);
    forall n | n in rest
      ensures ArcLess(arcs, PathOf(n))
    {
      InSubtrees(t.children, n);
      var i :| 0 <= i < |t.children| && n in Preorder(t.children[i]);
      Below(t.children[i], arcs + [t.children[i].subid], n);
      AncestorFirst(arcs, PathOf(n));
    }
    SortedCons(t, rest);
  }

  lemma SortedCons(n: Tree, ns: seq<Tree>)
    requires ArcSorted(ns) && forall m :: m in ns ==> ArcLess(PathOf(n), PathOf(m))
    ensures ArcSorted([n] + ns)
  {}

  ghost predicate Siblings(ts: seq<Tree>, arcs: Arcs) {
    (forall i :: 0 <= i < |ts| ==> WellFormed(ts[i], arcs + [ts[i].subid])) &&
    (forall i, j :: 0 <= i < j < |ts| ==> ts[i].subid < ts[j].subid)
  }

  lemma {:induction false} SiblingsAscend(ts: seq<Tree>, arcs: Arcs)
    requires Siblings(ts, arcs)
    ensures ArcSorted(PreorderAll(ts))
    decreases ts
  {
    if ts != [] {
      PreorderAscends(ts[0], arcs + [ts[0].subid]);
      SiblingsAscend(ts[1..], arcs);
      forall m, n | m in Preorder(ts[0]) && n in PreorderAll(ts[1..])
        ensures ArcLess(PathOf(m), PathOf(n))
      {
        SiblingOrder(ts, arcs, m, n);
      }
    }
  }

  lemma SiblingOrder(ts: seq<Tree>, arcs: Arcs, m: Tree, n: Tree)
    requires ts != [] && Siblings(ts, arcs)
    requires m in Preorder(ts[0]) && n in PreorderAll(ts[1..])
    ensures ArcLess(PathOf(m), PathOf(n))
  {
    InSubtrees(ts[1..], n);
    var i :| 0 <= i < |ts[1..]| && n in Preorder(ts[1..][i]);
    var u := ts[i + 1];
    Below(ts[0], arcs + [ts[0].subid], m);
    Below(u, arcs + [u.subid], n);
    Fork(arcs, ts[0].subid, u.subid, PathOf(m), PathOf(n));
  }

  /** No two nodes share an OID. */
  lemma OidsDistinct(t: Tree, arcs: Arcs)
    requires WellFormed(t, arcs)
    ensures forall i, j :: 0 <= i < j < |Preorder(t)| ==> Preorder(t)[i].oid != Preorder(t)[j].oid
  {
    PreorderAscends(t, arcs);
    var ns := Preorder(t);
    forall i, j | 0 <= i < j < |ns|
      ensures ns[i].oid != ns[j].oid
    {
      ArcLessIrreflexive(PathOf(ns[i]));
    }
  }

  lemma SameOidSameNode(t: Tree, arcs: Arcs, m: Tree, n: Tree)
    requires WellFormed(t, arcs) && m in Preorder(t) && n in Preorder(t) && m.oid == n.oid
    ensures m == n
  {
    OidsDistinct(t, arcs);
  }

  // --- searchNodeTree ---

  function SearchNodeTree(oid: string, t: Tree): Option<Tree>
    decreases t, 0
  {
    if !HasPrefix(oid + ".", t.oid + ".") then None else
      match SearchChildren(oid, t.children)
      case Some(found) => Some(found)
      case None => Some(t)
  }

  function SearchChildren(oid: string, ts: seq<Tree>): Option<Tree>
    decreases ts
  {
    if ts == [] then None else
      match SearchNodeTree(oid, ts[0])
      case Some(found) => Some(found)
      case None => SearchChildren(oid, ts[1..])
  }

  /** `n` is the longest of the nodes in `ns` that cover `oid`, and all the others cover it too. */
  ghost predicate LongestMatch(oid: string, ns: seq<Tree>, n: Tree) {
    n in ns && Covers(n.oid, oid) &&
    forall m :: m in ns && Covers(m.oid, oid) ==> Covers(m.oid, n.oid) && (m != n ==> |m.oid| < |n.oid|)
  }

  /** The recursive search finds what a scan of the whole tree for the longest match would. */
  lemma {:induction false} SearchIsLongestMatch(oid: string, t: Tree, arcs: Arcs)
    requires WellFormed(t, arcs)
    ensures SearchNodeTree(oid, t).None? <==> !Covers(t.oid, oid)
    ensures SearchNodeTree(oid, t).None? ==> forall m :: m in Preorder(t) ==> !Covers(m.oid, oid)
    ensures SearchNodeTree(oid, t).Some? ==> LongestMatch(oid, Preorder(t), SearchNodeTree(oid, t).value)
    decreases t, 0
  {
    SearchInSiblings(oid, t.children, arcs);
    forall m | m in Preorder(t)
      ensures Covers(t.oid, m.oid)
    {
      Below(t, arcs, m);
    }
    if Covers(t.oid, oid) {
      var n := SearchNodeTree(oid, t).value;
      forall m | m in Preorder(t) && Covers(m.oid, oid) && m != n
        ensures |m.oid| < |n.oid|
      {
        if m == t {
          CoversPrefix(t.oid, n.oid);
          if t.oid == n.oid { SameOidSameNode(t, arcs, t, n); }
        } else {
          assert m in PreorderAll(t.children);
        }
      }
    } else {
      forall m | m in Preorder(t)
        ensures !Covers(m.oid, oid)
      {
        if Covers(m.oid, oid) { CoversTransitive(t.oid, m.oid, oid); }
      }
    }
  }

  lemma {:induction false} SearchInSiblings(oid: string, ts: seq<Tree>, arcs: Arcs)
    requires Siblings(ts, arcs)
    ensures SearchChildren(oid, ts).None? ==> forall m :: m in PreorderAll(ts) ==> !Covers(m.oid, oid)
    ensures SearchChildren(oid, ts).Some? ==> LongestMatch(oid, PreorderAll(ts), SearchChildren(oid, ts).value)
    decreases ts
  {
    if ts != [] {
      SearchIsLongestMatch(oid, ts[0], arcs + [ts[0].subid]);
      SearchInSiblings(oid, ts[1..], arcs);
      if SearchNodeTree(oid, ts[0]).Some? {
        forall m | m in PreorderAll(ts[1..])
          ensures !Covers(m.oid, oid)
        {
          SiblingExcludes(oid, ts, arcs, m);
        }
      }
    }
  }

  /** Two siblings never cover the same OID. */
  lemma SiblingExcludes(oid: string, ts: seq<Tree>, arcs: Arcs, m: Tree)
    requires ts != [] && Siblings(ts, arcs) && m in PreorderAll(ts[1..]) && Covers(ts[0].oid, oid)
    ensures !Covers(m.oid, oid)
  {
    InSubtrees(ts[1..], m);
    var i :| 0 <= i < |ts[1..]| && m in Preorder(ts[1..][i]);
    var u := ts[i + 1];
    var a, b := arcs + [ts[0].subid], arcs + [u.subid];
    Below(u, b, m);
    if Covers(m.oid, oid) {
      CoversTransitive(u.oid, m.oid, oid);
      CoversComparable(ts[0].oid, u.oid, oid);
      CoversIsArcPrefix(a, b);
      CoversIsArcPrefix(b, a);
      Fork(arcs, ts[0].subid, u.subid, a, b);
      assert false;
    }
  }

  // --- the name table ---

  predicate IsLetter(c: char) {
    'a' <= c <= 'z' || 'A' <= c <= 'Z'
  }

  /** SMI names begin with a letter, so none looks like an OID. */
  predicate IsLabel(s: string) {
    s == "" || IsLetter(s[0])
  }

  ghost predicate LabelsAreNames(t: Tree) {
    forall n :: n in Preorder(t) ==> IsLabel(n.name)
  }

  /** buildNameToNodeMap: each node is entered under its OID, then under its label; later ones win. */
  function NameTable(ns: seq<Tree>): map<string, Tree> {
    if ns == [] then map[] else
      var n := ns[|ns| - 1];
      NameTable(ns[..|ns| - 1])[n.oid := n][n.name := n]
  }

  function NameToNode(t: Tree): map<string, Tree> {
    NameTable(Preorder(t))
  }

  lemma {:induction false} NameTableSound(ns: seq<Tree>, k: string)
    requires k in NameTable(ns)
    ensures NameTable(ns)[k] in ns && (k == NameTable(ns)[k].oid || k == NameTable(ns)[k].name)
  {
    var n := ns[|ns| - 1];
    if k != n.oid && k != n.name { NameTableSound(ns[..|ns| - 1], k); }
  }

  lemma {:induction false} NameTableOid(ns: seq<Tree>, n: Tree)
    requires n in ns
    requires forall m :: m in ns ==> m.name != n.oid && (m.oid == n.oid ==> m == n)
    ensures n.oid in NameTable(ns) && NameTable(ns)[n.oid] == n
  {
    var last := ns[|ns| - 1];
    if last != n {
      assert n in ns[..|ns| - 1];
      NameTableOid(ns[..|ns| - 1], n);
    }
  }

  /** The table finds every node by its OID, and OID-shaped names find nothing else. */
  lemma NameToNodeByOid(t: Tree, n: Tree)
    requires IsTree(t) && LabelsAreNames(t) && n in Preorder(t)
    ensures n.oid in NameToNode(t) && NameToNode(t)[n.oid] == n
  {
    Below(t, [t.subid], n);
    forall m | m in Preorder(t)
      ensures m.name != n.oid && (m.oid == n.oid ==> m == n)
    {
      if m.oid == n.oid { SameOidSameNode(t, [t.subid], m, n); }
    }
    NameTableOid(Preorder(t), n);
  }

  lemma NameToNodeSound(t: Tree, k: string)
    requires IsTree(t) && LabelsAreNames(t) && k in NameToNode(t)
    ensures NameToNode(t)[k] in Preorder(t)
    ensures k == NameToNode(t)[k].oid || k == NameToNode(t)[k].name
    ensures k != "" && !IsLetter(k[0]) ==> NameToNode(t)[k].oid == k
  {
    NameTableSound(Preorder(t), k);
  }
}
