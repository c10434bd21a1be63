/** What the preparation passes do to the indexes and types of a tree, as functions of its value. */
module Prepare {
  import opened Oids
  import opened MibTree

  /** The two fields that the index passes assign. */
  datatype Ix = Ix(indexes: seq<string>, implied: bool)

  /** The indexes of all nodes, by OID. */
  type IxState = map<string, Ix>

  // --- processNodeTypes ---

  /** The expression ^\d+[at]$. */
  predicate IsDisplayHint(hint: string) {
    |hint| >= 2 && AllDigits(hint[..|hint| - 1]) && hint[|hint| - 1] in {'a', 't'}
  }

  function PreparedType(typ: string, hint: string, convention: string): string {
    var t := if hint == "1x:" then "PhysAddress48" else typ;
    var u := if IsDisplayHint(hint) || convention == "DisplayString" then "DisplayString" else t;
    if convention == "PhysAddress" then "PhysAddress48"
    else if convention in ["Float", "Double", "DateAndTime", "ParseDateAndTime", "NTPTimeStamp",
                           "InetAddressIPv4", "InetAddressIPv6", "InetAddress", "LldpPortId"] then convention
    else u
  }

  // --- processIndexes ---

  /** An index named after its SMI type stands for the table entry itself. */
  function FixIndexes(name: string, indexes: seq<string>): (r: seq<string>)
    ensures |r| == |indexes|
  {
    seq(|indexes|, i requires 0 <= i < |indexes| => if indexes[i] == "INTEGER" then name else indexes[i])
  }

  function FixedState(ns: seq<Tree>): IxState {
    if ns == [] then map[] else
      var n := ns[|ns| - 1];
      FixedState(ns[..|ns| - 1])[n.oid := Ix(FixIndexes(n.name, n.indexes), n.impliedIndex)]
  }

  // --- processAugments ---

  /** The OID of the row that `n` augments, None if it augments nothing that is known. */
  function Target(n: Tree, names: map<string, string>): Option<string> {
    if n.augments == "" || n.augments !in names then None else Some(names[n.augments])
  }

  function SetAll(st: IxState, ns: seq<Tree>, v: Ix): IxState
    decreases ns
  {
    if ns == [] then st else SetAll(st[ns[0].oid := v], ns[1..], v)
  }

  function Lookup(st: IxState, oid: string): Ix {
    if oid in st then st[oid] else Ix([], false)
  }

  /** One node of the pass: its children and the node itself take the augmented row's current indexes. */
  function AugmentStep(st: IxState, n: Tree, names: map<string, string>): IxState {
    match Target(n, names)
    case None => st
    case Some(oid) => SetAll(st, n.children, Lookup(st, oid))[n.oid := Lookup(st, oid)]
  }

  function Augment(t: Tree, names: map<string, string>, st: IxState): IxState
    decreases t, 0
  {
    AugmentAll(t.children, names, AugmentStep(st, t, names))
  }

  function AugmentAll(ts: seq<Tree>, names: map<string, string>, st: IxState): IxState
    decreases ts
  {
    if ts == [] then st else AugmentAll(ts[1..], names, Augment(ts[0], names, st))
  }

  // --- copyIndexesToChildren ---

  function CopyStep(st: IxState, n: Tree): IxState {
    if Lookup(st, n.oid).indexes == [] then st else SetAll(st, n.children, Lookup(st, n.oid))
  }

  function CopyDown(t: Tree, st: IxState): IxState
    decreases t, 0
  {
    CopyDownAll(t.children, CopyStep(st, t))
  }

  function CopyDownAll(ts: seq<Tree>, st: IxState): IxState
    decreases ts
  {
    if ts == [] then st else CopyDownAll(ts[1..], CopyDown(ts[0], st))
  }

  // --- the whole preparation ---

  /** OIDs under the names of buildNameToNodeMap. */
  function NameOids(ns: seq<Tree>): map<string, string> {
    if ns == [] then map[] else
      var n := ns[|ns| - 1];
      NameOids(ns[..|ns| - 1])[n.oid := n.oid][n.name := n.oid]
  }

  function AugmentedState(t: Tree): IxState {
    Augment(t, NameOids(Preorder(t)), FixedState(Preorder(t)))
  }

  function PreparedState(t: Tree): IxState {
    CopyDown(t, AugmentedState(t))
  }

  /** The tree with the indexes of a state and with prepared types. */
  function WithState(t: Tree, st: IxState): Tree
    decreases t, 0
  {
    t.(typ := PreparedType(t.typ, t.hint, t.textualConvention), indexes := Lookup(st, t.oid).indexes,
       impliedIndex := Lookup(st, t.oid).implied, children := WithStateAll(t.children, st))
  }

  function WithStateAll(ts: seq<Tree>, st: IxState): (r: seq<Tree>)
    ensures |r| == |ts|
    ensures forall i :: 0 <= i < |ts| ==> r[i] == WithState(ts[i], st)
    decreases ts
  {
    if ts == [] then [] else [WithState(ts[0], st)] + WithStateAll(ts[1..], st)
  }

  /** prepareTree on values. */
  function PreparedTree(t: Tree): Tree {
    WithState(t, PreparedState(t))
  }

  lemma {:induction false} NameTableOids(ns: seq<Tree>, k: string)
    requires k in NameTable(ns)
    ensures k in NameOids(ns) && NameTable(ns)[k].oid == NameOids(ns)[k]
  {
    var n := ns[|ns| - 1];
    if k != n.oid && k != n.name { NameTableOids(ns[..|ns| - 1], k); }
  }

  lemma {:induction false} NameTablesAgree(ns: seq<Tree>)
    ensures NameTable(ns).Keys == NameOids(ns).Keys
  {
    if ns != [] { NameTablesAgree(ns[..|ns| - 1]); }
  }

  // --- frames: a pass over a subtree leaves the rest alone ---

  ghost predicate InTree(t: Tree, oid: string) {
    exists n :: n in Preorder(t) && n.oid == oid
  }

  ghost predicate InTrees(ts: seq<Tree>, oid: string) {
    exists n :: n in PreorderAll(ts) && n.oid == oid
  }

  lemma {:induction false} SetAllValue(st: IxState, ns: seq<Tree>, v: Ix, oid: string)
    ensures Lookup(SetAll(st, ns, v), oid) == if exists n :: n in ns && n.oid == oid then v else Lookup(st, oid)
    decreases ns
  {
    if ns != [] {
      SetAllValue(st[ns[0].oid := v], ns[1..], v, oid);
      assert ns == [ns[0]] + ns[1..];
    }
  }

  lemma ChildInTree(t: Tree, c: Tree)
    requires c in t.children
    ensures InTree(t, c.oid)
  {
    var i :| 0 <= i < |t.children| && t.children[i] == c;
    assert c in Preorder(c);
    InSubtree(t, c);
  }

  lemma InTreesCons(ts: seq<Tree>, oid: string)
    requires ts != []
    ensures InTrees(ts, oid) <==> InTree(ts[0], oid) || InTrees(ts[1..], oid)
  {
    if InTree(ts[0], oid) {
      var n :| n in Preorder(ts[0]) && n.oid == oid;
      assert n in PreorderAll(ts);
    }
    if InTrees(ts[1..], oid) {
      var n :| n in PreorderAll(ts[1..]) && n.oid == oid;
      assert n in PreorderAll(ts);
    }
  }

  lemma InTreeSplit(t: Tree, oid: string)
    ensures InTree(t, oid) <==> oid == t.oid || InTrees(t.children, oid)
  {
    if InTrees(t.children, oid) {
      var n :| n in PreorderAll(t.children) && n.oid == oid;
      assert n in Preorder(t);
    }
    assert t in Preorder(t);
  }

  lemma {:induction false} CopyDownFrame(t: Tree, st: IxState, oid: string)
    requires !InTree(t, oid)
    ensures Lookup(CopyDown(t, st), oid) == Lookup(st, oid)
    decreases t, 0
  {
    InTreeSplit(t, oid);
    forall c | c in t.children
      ensures c.oid != oid
    {
      ChildInTree(t, c);
    }
    SetAllValue(st, t.children, Lookup(st, t.oid), oid);
    CopyDownAllFrame(t.children, CopyStep(st, t), oid);
  }

  lemma {:induction false} CopyDownAllFrame(ts: seq<Tree>, st: IxState, oid: string)
    requires !InTrees(ts, oid)
    ensures Lookup(CopyDownAll(ts, st), oid) == Lookup(st, oid)
    decreases ts
  {
    if ts != [] {
      InTreesCons(ts, oid);
      CopyDownFrame(ts[0], st, oid);
      CopyDownAllFrame(ts[1..], CopyDown(ts[0], st), oid);
    }
  }

  // --- disjoint siblings ---

  /** In a well-formed tree no sibling subtree contains the parent's or another sibling's OIDs. */
  lemma SiblingsDisjoint(t: Tree, arcs: Arcs, i: nat, oid: string)
    requires WellFormed(t, arcs) && i < |t.children| && InTree(t.children[i], oid)
    ensures oid != t.oid && !InTrees(t.children[..i], oid) && !InTrees(t.children[i + 1..], oid)
  {
    var n :| n in Preorder(t.children[i]) && n.oid == oid;
    ParentDiffers(t, arcs, i, n);
    EarlierSiblings(t, arcs, i, n);
    LaterSiblings(t, arcs, i, n);
  }

  lemma EarlierSiblings(t: Tree, arcs: Arcs, i: nat, n: Tree)
    requires WellFormed(t, arcs) && i < |t.children| && n in Preorder(t.children[i])
    ensures !InTrees(t.children[..i], n.oid)
  {
    if InTrees(t.children[..i], n.oid) {
      var m :| m in PreorderAll(t.children[..i]) && m.oid == n.oid;
      InSubtrees(t.children[..i], m);
      var j :| 0 <= j < i && m in Preorder(t.children[..i][j]);
      SiblingPathsDiffer(t, arcs, j, i, m, n);
    }
  }

  lemma LaterSiblings(t: Tree, arcs: Arcs, i: nat, n: Tree)
    requires WellFormed(t, arcs) && i < |t.children| && n in Preorder(t.children[i])
    ensures !InTrees(t.children[i + 1..], n.oid)
  {
    if InTrees(t.children[i + 1..], n.oid) {
      var m :| m in PreorderAll(t.children[i + 1..]) && m.oid == n.oid;
      var j := LaterSubtree(t.children, i, m);
      SiblingPathsDiffer(t, arcs, i, j, n, m);
    }
  }

  lemma LaterSubtree(ts: seq<Tree>, i: nat, m: Tree) returns (j: nat)
    requires i < |ts| && m in PreorderAll(ts[i + 1..])
    ensures i < j < |ts| && m in Preorder(ts[j])
  {
    var later := ts[i + 1..];
    InSubtrees(later, m);
    var k :| 0 <= k < |later| && m in Preorder(later[k]);
    j := i + 1 + k;
    assert later[k] == ts[j];
  }

  lemma ParentDiffers(t: Tree, arcs: Arcs, i: nat, n: Tree)
    requires WellFormed(t, arcs) && i < |t.children| && n in Preorder(t.children[i])
    ensures n.oid != t.oid
  {
    Below(t.children[i], arcs + [t.children[i].subid], n);
    WellFormedPath(t, arcs);
    assert |PathOf(n)| > |PathOf(t)|;
  }

  lemma SiblingPathsDiffer(t: Tree, arcs: Arcs, i: nat, j: nat, m: Tree, n: Tree)
    requires WellFormed(t, arcs) && i < j < |t.children|
    requires m in Preorder(t.children[i]) && n in Preorder(t.children[j])
    ensures m.oid != n.oid
  {
    Below(t.children[i], arcs + [t.children[i].subid], m);
    Below(t.children[j], arcs + [t.children[j].subid], n);
    Fork(arcs, t.children[i].subid, t.children[j].subid, PathOf(m), PathOf(n));
  }

  // --- closed form of copyIndexesToChildren ---

  /** A way down the tree: each node is a child of the one before it. */
  ghost predicate IsPath(path: seq<Tree>) {
    path != [] && forall i :: 0 <= i < |path| - 1 ==> path[i + 1] in path[i].children
  }

  /** The first nonempty index list on the way, the last node's own if all are empty. */
  function Shallowest(ixs: seq<Ix>): Ix
    requires ixs != []
  {
    if |ixs| == 1 || ixs[0].indexes != [] then ixs[0] else Shallowest(ixs[1..])
  }

  function Along(path: seq<Tree>, st: IxState): (ixs: seq<Ix>)
    ensures |ixs| == |path|
  {
    seq(|path|, i requires 0 <= i < |path| => Lookup(st, path[i].oid))
  }

  lemma SubPath(path: seq<Tree>, i: nat, j: nat)
    requires IsPath(path) && i < j <= |path|
    ensures IsPath(path[i..j])
  {
    var part := path[i..j];
    forall k | 0 <= k < |part| - 1
      ensures part[k + 1] in part[k].children
    {
      assert path[i + k + 1] in path[i + k].children;
    }
  }

  lemma {:induction false} PathInTree(path: seq<Tree>)
    requires IsPath(path)
    ensures InTree(path[0], path[|path| - 1].oid)
    decreases |path|
  {
    if |path| == 1 {
      assert path[0] in Preorder(path[0]);
    } else {
      SubPath(path, 1, |path|);
      PathInTree(path[1..]);
      var n :| n in Preorder(path[1]) && n.oid == path[|path| - 1].oid;
      assert path[0 + 1] in path[0].children;
      InSubtree(path[0], n);
    }
  }

  lemma PathBelow(t: Tree, arcs: Arcs, path: seq<Tree>) returns (k: nat)
    requires WellFormed(t, arcs) && IsPath(path) && path[0] == t && |path| > 1
    ensures k < |t.children| && path[1] == t.children[k] && IsPath(path[1..])
    ensures forall i :: 1 <= i < |path| ==> InTree(t.children[k], path[i].oid)
  {
    assert path[0 + 1] in path[0].children;
    k :| 0 <= k < |t.children| && t.children[k] == path[1];
    SubPath(path, 1, |path|);
    forall i | 1 <= i < |path|
      ensures InTree(t.children[k], path[i].oid)
    {
      SubPath(path, 1, i + 1);
      PathInTree(path[1..i + 1]);
    }
  }

  /** After the pass over a subtree, a node below has the first nonempty indexes on the way from the top. */
  lemma {:induction false} CopyDownClosedForm(t: Tree, arcs: Arcs, st: IxState, path: seq<Tree>)
    requires WellFormed(t, arcs) && IsPath(path) && path[0] == t
    ensures Lookup(CopyDown(t, st), path[|path| - 1].oid) == Shallowest(Along(path, st))
    decreases t, 0
  {
    var last := path[|path| - 1].oid;
    if |path| == 1 {
      TopKept(t, arcs, st);
    } else {
      var k := PathBelow(t, arcs, path);
      var c, rest := t.children[k], path[1..];
      var st1 := CopyStep(st, t);
      var st2 := CopyDownAll(t.children[..k], st1);
      SplitCopy(t.children, k, st1);
      forall i | 0 <= i < |rest|
        ensures Lookup(st2, rest[i].oid) == Lookup(st1, rest[i].oid)
      {
        SiblingsDisjoint(t, arcs, k, rest[i].oid);
        CopyDownAllFrame(t.children[..k], st1, rest[i].oid);
      }
      CopyDownClosedForm(c, arcs + [c.subid], st2, rest);
      SiblingsDisjoint(t, arcs, k, last);
      CopyDownAllFrame(t.children[k + 1..], CopyDown(c, st2), last);
      assert Along(rest, st2) == Along(rest, st1);
      StepAlong(t, arcs, st, path, k);
    }
  }

  /** The top of a subtree keeps its indexes. */
  lemma TopKept(t: Tree, arcs: Arcs, st: IxState)
    requires WellFormed(t, arcs)
    ensures Lookup(CopyDown(t, st), t.oid) == Lookup(st, t.oid)
  {
    NotBelowItself(t, arcs);
    SetAllValue(st, t.children, Lookup(st, t.oid), t.oid);
    CopyDownAllFrame(t.children, CopyStep(st, t), t.oid);
  }

  lemma NotBelowItself(t: Tree, arcs: Arcs)
    requires WellFormed(t, arcs)
    ensures !InTrees(t.children, t.oid)
  {
    if InTrees(t.children, t.oid) {
      var n :| n in PreorderAll(t.children) && n.oid == t.oid;
      InSubtrees(t.children, n);
      var i :| 0 <= i < |t.children| && n in Preorder(t.children[i]);
      SiblingsDisjoint(t, arcs, i, n.oid);
    }
  }

  lemma {:induction false} SplitCopy(ts: seq<Tree>, k: nat, st: IxState)
    requires k < |ts|
    ensures CopyDownAll(ts, st) == CopyDownAll(ts[k + 1..], CopyDown(ts[k], CopyDownAll(ts[..k], st)))
    decreases ts
  {
    if k > 0 {
      assert ts[1..][..k - 1] == ts[..k][1..] && ts[1..][k..] == ts[k + 1..];
      SplitCopy(ts[1..], k - 1, CopyDown(ts[0], st));
    }
  }

  /** What the first step means for the way down. */
  lemma StepAlong(t: Tree, arcs: Arcs, st: IxState, path: seq<Tree>, k: nat)
    requires WellFormed(t, arcs) && IsPath(path) && path[0] == t && |path| > 1 && k < |t.children| &&
      path[1] == t.children[k]
    requires forall i :: 1 <= i < |path| ==> InTree(t.children[k], path[i].oid)
    ensures Shallowest(Along(path[1..], CopyStep(st, t))) == Shallowest(Along(path, st))
  {
    var own, st1, rest := Lookup(st, t.oid), CopyStep(st, t), path[1..];
    SetAllValue(st, t.children, own, path[1].oid);
    assert Along(path, st)[0] == own;
    if own.indexes == [] {
      assert Along(path, st)[1..] == Along(rest, st1);
    } else {
      assert Along(rest, st1)[0] == own;
    }
  }

  // --- what the index passes read ---

  /** The tree without the fields that the passes assign. */
  function Blank(t: Tree): Tree
    decreases t, 0
  {
    t.(typ := "", indexes := [], impliedIndex := false, children := BlankAll(t.children))
  }

  function BlankAll(ts: seq<Tree>): (r: seq<Tree>)
    ensures |r| == |ts|
    ensures forall i :: 0 <= i < |ts| ==> r[i] == Blank(ts[i])
    decreases ts
  {
    if ts == [] then [] else [Blank(ts[0])] + BlankAll(ts[1..])
  }

  /** The tree without its types. */
  function Untyped(t: Tree): Tree
    decreases t, 0
  {
    t.(typ := "", children := UntypedAll(t.children))
  }

  function UntypedAll(ts: seq<Tree>): (r: seq<Tree>)
    ensures |r| == |ts|
    ensures forall i :: 0 <= i < |ts| ==> r[i] == Untyped(ts[i])
    decreases ts
  {
    if ts == [] then [] else [Untyped(ts[0])] + UntypedAll(ts[1..])
  }

  lemma {:induction false} UntypedBlank(t: Tree)
    ensures Blank(Untyped(t)) == Blank(t)
    decreases t
  {
    forall i | 0 <= i < |t.children|
      ensures Blank(Untyped(t.children[i])) == Blank(t.children[i])
    {
      UntypedBlank(t.children[i]);
    }
    assert BlankAll(UntypedAll(t.children)) == BlankAll(t.children);
  }

  /** Preparing a tree changes only what the passes assign. */
  lemma {:induction false} WithStateBlank(t: Tree, st: IxState)
    ensures Blank(WithState(t, st)) == Blank(t)
    decreases t
  {
    forall i | 0 <= i < |t.children|
      ensures Blank(WithState(t.children[i], st)) == Blank(t.children[i])
    {
      WithStateBlank(t.children[i], st);
    }
    assert BlankAll(WithStateAll(t.children, st)) == BlankAll(t.children);
  }

  lemma {:induction false} SetAllBlank(st: IxState, ts: seq<Tree>, v: Ix)
    ensures SetAll(st, BlankAll(ts), v) == SetAll(st, ts, v)
    decreases ts
  {
    if ts != [] { SetAllBlank(st[ts[0].oid := v], ts[1..], v); }
  }

  lemma {:induction false} AugmentBlank(t: Tree, names: map<string, string>, st: IxState)
    ensures Augment(Blank(t), names, st) == Augment(t, names, st)
    decreases t, 0
  {
    if Target(t, names).Some? {
      SetAllBlank(st, t.children, Lookup(st, Target(t, names).value));
    }
    AugmentAllBlank(t.children, names, AugmentStep(st, t, names));
  }

  lemma {:induction false} AugmentAllBlank(ts: seq<Tree>, names: map<string, string>, st: IxState)
    ensures AugmentAll(BlankAll(ts), names, st) == AugmentAll(ts, names, st)
    decreases ts
  {
    if ts != [] {
      AugmentBlank(ts[0], names, st);
      AugmentAllBlank(ts[1..], names, Augment(ts[0], names, st));
    }
  }

  lemma {:induction false} CopyDownBlank(t: Tree, st: IxState)
    ensures CopyDown(Blank(t), st) == CopyDown(t, st)
    decreases t, 0
  {
    SetAllBlank(st, t.children, Lookup(st, t.oid));
    CopyDownAllBlank(t.children, CopyStep(st, t));
  }

  lemma {:induction false} CopyDownAllBlank(ts: seq<Tree>, st: IxState)
    ensures CopyDownAll(BlankAll(ts), st) == CopyDownAll(ts, st)
    decreases ts
  {
    if ts != [] {
      CopyDownBlank(ts[0], st);
      CopyDownAllBlank(ts[1..], CopyDown(ts[0], st));
    }
  }

  lemma {:induction false} NameOidsConcat(a: seq<Tree>, b: seq<Tree>)
    ensures NameOids(a + b) == NameOids(a) + NameOids(b)
  {
    if b == [] {
      assert a + b == a;
    } else {
      assert (a + b)[..|a + b| - 1] == a + b[..|b| - 1];
      NameOidsConcat(a, b[..|b| - 1]);
    }
  }

  lemma {:induction false} NameOidsBlank(t: Tree)
    ensures NameOids(Preorder(Blank(t))) == NameOids(Preorder(t))
    decreases t, 0
  {
    NameOidsBlankAll(t.children);
    NameOidsConcat([t], PreorderAll(t.children));
    NameOidsConcat([Blank(t)], PreorderAll(BlankAll(t.children)));
    assert [t][..0] == [] && [Blank(t)][..0] == [];
  }

  lemma {:induction false} NameOidsBlankAll(ts: seq<Tree>)
    ensures NameOids(PreorderAll(BlankAll(ts))) == NameOids(PreorderAll(ts))
    decreases ts
  {
    if ts != [] {
      NameOidsBlank(ts[0]);
      NameOidsBlankAll(ts[1..]);
      NameOidsConcat(Preorder(ts[0]), PreorderAll(ts[1..]));
      NameOidsConcat(Preorder(Blank(ts[0])), PreorderAll(BlankAll(ts[1..])));
    }
  }

  lemma {:induction false} FixedStateAt(ns: seq<Tree>, n: Tree)
    requires n in ns && forall m :: m in ns && m.oid == n.oid ==> m == n
    ensures n.oid in FixedState(ns) && FixedState(ns)[n.oid] == Ix(FixIndexes(n.name, n.indexes), n.impliedIndex)
  {
    var last := ns[|ns| - 1];
    if last != n {
      assert n in ns[..|ns| - 1];
      FixedStateAt(ns[..|ns| - 1], n);
    }
  }
}
