/** The closed form of the AUGMENTS pass and of all index passes. */
module IndexPasses {
  import opened Oids
  import opened MibTree
  import opened Prepare
  import opened Augments

  // --- closed form of processAugments ---

  /** The indexes of a node after AUGMENTS resolution: those of the row it augments, else of the row its parent augments. */
  function Resolved(path: seq<Tree>, i: nat, names: map<string, string>, st: IxState): Ix
    requires i < |path|
  {
    if Target(path[i], names).Some? then Lookup(st, Target(path[i], names).value)
    else if i > 0 && Target(path[i - 1], names).Some? then Lookup(st, Target(path[i - 1], names).value)
    else Lookup(st, path[i].oid)
  }

  lemma ChildPath(t: Tree, p: Tree, c: Tree)
    requires IsTree(t) && p in Preorder(t) && c in p.children
    ensures c in Preorder(t) && PathOf(c) == PathOf(p) + [c.subid]
  {
    ChildInside(t, p, c);
    Below(t, [t.subid], p);
    var i :| 0 <= i < |p.children| && p.children[i] == c;
    WellFormedPath(c, PathOf(p) + [c.subid]);
  }

  lemma {:induction false} PathNodes(path: seq<Tree>, i: nat)
    requires IsPath(path) && i < |path|
    ensures path[i] in Preorder(path[0])
    decreases i
  {
    if i > 0 {
      PathNodes(path, i - 1);
      assert path[i - 1 + 1] in path[i - 1].children;
      ChildInside(path[0], path[i - 1], path[i]);
    }
  }

  /** Only a node's own step and its parent's assign its indexes. */
  lemma WrittenByParent(t: Tree, names: map<string, string>, path: seq<Tree>, m: Tree)
    requires IsTree(t) && IsPath(path) && path[0] == t && m in Preorder(t) && Writes(m, names, path[|path| - 1].oid)
    ensures m == path[|path| - 1] || (|path| > 1 && m == path[|path| - 2])
  {
    var x, root := path[|path| - 1], [t.subid];
    PathNodes(path, |path| - 1);
    if m.oid == x.oid {
      SameOidSameNode(t, root, m, x);
    } else {
      var c :| c in m.children && c.oid == x.oid;
      ChildPath(t, m, c);
      SameOidSameNode(t, root, c, x);
      Below(t, root, m);
      if |path| == 1 {
        WellFormedPath(t, root);
      } else {
        var p := path[|path| - 2];
        PathNodes(path, |path| - 2);
        assert path[|path| - 2 + 1] in p.children;
        ChildPath(t, p, x);
        SamePathSameNode(t, m, p, x.subid);
      }
    }
  }

  lemma SamePathSameNode(t: Tree, m: Tree, p: Tree, last: nat)
    requires IsTree(t) && m in Preorder(t) && p in Preorder(t) && PathOf(m) + [last] == PathOf(p) + [last]
    ensures m == p
  {
    assert PathOf(m) == (PathOf(m) + [last])[..|PathOf(m)|] == (PathOf(p) + [last])[..|PathOf(p)|] == PathOf(p);
    Below(t, [t.subid], m);
    Below(t, [t.subid], p);
    SameOidSameNode(t, [t.subid], m, p);
  }

  /** A parent is visited before its children. */
  lemma ParentFirst(t: Tree, p: Tree, c: Tree, i: nat, j: nat)
    requires IsTree(t) && i < |Preorder(t)| && j < |Preorder(t)| && i != j
    requires Preorder(t)[i] == c && Preorder(t)[j] == p && c in p.children
    ensures j < i
  {
    ChildPath(t, p, c);
    NotBefore(PathOf(p), [c.subid]);
    NotAfter(t, i, j);
  }

  lemma NotAfter(t: Tree, i: nat, j: nat)
    requires IsTree(t) && i < |Preorder(t)| && j < |Preorder(t)| && i != j
    requires !ArcLess(PathOf(Preorder(t)[i]), PathOf(Preorder(t)[j]))
    ensures j < i
  {
    PreorderAscends(t, [t.subid]);
  }

  lemma NotBefore(a: Arcs, y: Arcs)
    ensures !ArcLess(a + y, a)
  {
    assert a == a + [];
    ArcLessAfter(a, y, []);
  }

  lemma VisitedOnce(t: Tree, i: nat, j: nat)
    requires IsTree(t) && i < |Preorder(t)| && j < |Preorder(t)| && Preorder(t)[i] == Preorder(t)[j]
    ensures i == j
  {
    OidsDistinct(t, [t.subid]);
  }

  /** Until its own step or its parent's, a node keeps its initial indexes; afterwards it keeps what that step assigned. */
  lemma SourceAfter(t: Tree, names: map<string, string>, path: seq<Tree>, k: nat)
    requires IsTree(t) && IsPath(path) && path[0] == t && k < |Preorder(t)|
    requires Preorder(t)[k] == path[|path| - 1] ||
      (|path| > 1 && Preorder(t)[k] == path[|path| - 2] && Target(path[|path| - 1], names).None?)
    ensures var x := path[|path| - 1];
      Source(Preorder(t), names, x.oid) == Source(Preorder(t)[..k + 1], names, x.oid)
  {
    var ns, x := Preorder(t), path[|path| - 1];
    PathNodes(path, |path| - 1);
    forall i | k + 1 <= i < |ns|
      ensures !Writes(ns[i], names, x.oid)
    {
      NotWrittenLater(t, names, path, k, i);
    }
    SourceSkips(ns, k + 1, names, x.oid);
  }

  lemma NotWrittenLater(t: Tree, names: map<string, string>, path: seq<Tree>, k: nat, i: nat)
    requires IsTree(t) && IsPath(path) && path[0] == t && k < i < |Preorder(t)|
    requires Preorder(t)[k] == path[|path| - 1] ||
      (|path| > 1 && Preorder(t)[k] == path[|path| - 2] && Target(path[|path| - 1], names).None?)
    ensures !Writes(Preorder(t)[i], names, path[|path| - 1].oid)
  {
    var ns, n := Preorder(t), |path|;
    if Writes(ns[i], names, path[n - 1].oid) {
      WrittenByParent(t, names, path, ns[i]);
      if ns[i] == ns[k] {
        VisitedOnce(t, i, k);
      } else {
        assert path[n - 2 + 1] in path[n - 2].children;
        ParentFirst(t, path[n - 2], path[n - 1], k, i);
      }
    }
  }

  lemma PlaceOf(t: Tree, x: Tree) returns (i: nat)
    requires x in Preorder(t)
    ensures i < |Preorder(t)| && Preorder(t)[i] == x
  {
    i :| 0 <= i < |Preorder(t)| && Preorder(t)[i] == x;
  }

  /** The closed form of the pass at the end of a path. */
  ghost predicate ClosedForm(t: Tree, names: map<string, string>, st: IxState, path: seq<Tree>)
    requires path != []
  {
    Lookup(Augment(t, names, st), path[|path| - 1].oid) == Resolved(path, |path| - 1, names, st)
  }

  /** With every row taking initial indexes, the pass has its closed form everywhere, in whatever order the rows stand. */
  lemma AugmentClosedForm(t: Tree, names: map<string, string>, st: IxState, path: seq<Tree>)
    requires IsTree(t) && IsPath(path) && path[0] == t && TakesInitial(Preorder(t), names)
    ensures ClosedForm(t, names, st, path)
  {
    var n := |path|;
    AugmentIsSteps(t, names, st);
    SourceHolds(Preorder(t), names, st, path[n - 1].oid);
    if Target(path[n - 1], names).Some? {
      RowSource(t, names, path);
    } else if n > 1 && Target(path[n - 2], names).Some? {
      ChildSource(t, names, path);
    } else {
      Unwritten(t, names, path);
    }
  }

  /** What a row ends with comes from the node it augments. */
  lemma RowSource(t: Tree, names: map<string, string>, path: seq<Tree>)
    requires IsTree(t) && IsPath(path) && path[0] == t && TakesInitial(Preorder(t), names)
    requires Target(path[|path| - 1], names).Some?
    ensures var x := path[|path| - 1];
      Source(Preorder(t), names, x.oid) == Target(x, names).value
  {
    var ns, x := Preorder(t), path[|path| - 1];
    PathNodes(path, |path| - 1);
    var i := PlaceOf(t, x);
    assert TakesInitialAt(ns, names, i);
    SourceAfter(t, names, path, i);
    assert ns[..i + 1][..i] == ns[..i];
  }

  /** What the child of a row ends with, unless it is a row itself, comes from the node that row augments. */
  lemma ChildSource(t: Tree, names: map<string, string>, path: seq<Tree>)
    requires IsTree(t) && IsPath(path) && path[0] == t && TakesInitial(Preorder(t), names) && |path| > 1
    requires Target(path[|path| - 1], names).None? && Target(path[|path| - 2], names).Some?
    ensures Source(Preorder(t), names, path[|path| - 1].oid) == Target(path[|path| - 2], names).value
  {
    var ns, k := Preorder(t), |path| - 2;
    PathNodes(path, k);
    var i := PlaceOf(t, path[k]);
    assert TakesInitialAt(ns, names, i);
    SourceAfter(t, names, path, i);
    assert path[k + 1] in path[k].children;
    assert ns[..i + 1][..i] == ns[..i];
  }

  lemma Unwritten(t: Tree, names: map<string, string>, path: seq<Tree>)
    requires IsTree(t) && IsPath(path) && path[0] == t && Target(path[|path| - 1], names).None?
    requires |path| > 1 ==> Target(path[|path| - 2], names).None?
    ensures Source(Preorder(t), names, path[|path| - 1].oid) == path[|path| - 1].oid
  {
    var ns, x := Preorder(t), path[|path| - 1];
    forall i | 0 <= i < |ns|
      ensures !Writes(ns[i], names, x.oid)
    {
      if Writes(ns[i], names, x.oid) { WrittenByParent(t, names, path, ns[i]); }
    }
    SourceSkips(ns, 0, names, x.oid);
    assert ns[..0] == [];
  }

  lemma {:induction false} PathTo(t: Tree, x: Tree) returns (path: seq<Tree>)
    requires x in Preorder(t)
    ensures IsPath(path) && path[0] == t && path[|path| - 1] == x
    decreases t
  {
    InSubtree(t, x);
    if x == t {
      path := [t];
    } else {
      var i :| 0 <= i < |t.children| && x in Preorder(t.children[i]);
      var rest := PathTo(t.children[i], x);
      path := [t] + rest;
      forall k | 0 <= k < |path| - 1
        ensures path[k + 1] in path[k].children
      {
        if k > 0 { assert rest[k - 1 + 1] in rest[k - 1].children; }
      }
    }
  }

  /** The pass has its closed form for all initial indexes exactly if every row takes initial indexes. */
  lemma AugmentExactly(t: Tree, names: map<string, string>)
    requires IsTree(t)
    ensures TakesInitial(Preorder(t), names) <==>
      forall st: IxState, path :: IsPath(path) && path[0] == t ==> ClosedForm(t, names, st, path)
  {
    if TakesInitial(Preorder(t), names) {
      forall st: IxState, path | IsPath(path) && path[0] == t
        ensures ClosedForm(t, names, st, path)
      {
        AugmentClosedForm(t, names, st, path);
      }
    } else {
      var i :| 0 <= i < |Preorder(t)| && Target(Preorder(t)[i], names).Some? && !TakesInitialAt(Preorder(t), names, i);
      var st, path := ClosedFormBreaks(t, names, i);
    }
  }

  /** A row that takes indexes which are not initial: for some initial indexes it does not end with those of the row it
      augments. */
  lemma ClosedFormBreaks(t: Tree, names: map<string, string>, i: nat) returns (st: IxState, path: seq<Tree>)
    requires IsTree(t) && i < |Preorder(t)| && Target(Preorder(t)[i], names).Some? &&
      !TakesInitialAt(Preorder(t), names, i)
    ensures IsPath(path) && path[0] == t && path[|path| - 1] == Preorder(t)[i] && !ClosedForm(t, names, st, path)
  {
    var ns, x := Preorder(t), Preorder(t)[i];
    var from := Source(ns[..i], names, Target(x, names).value);
    path := PathTo(t, x);
    st := map[from := Ix([""], false)];
    AugmentIsSteps(t, names, st);
    SourceHolds(ns, names, st, x.oid);
    SourceAfter(t, names, path, i);
    assert ns[..i + 1][..i] == ns[..i];
  }

  // --- closed form of all index passes ---

  function ResolvedAlong(t: Tree, path: seq<Tree>): (ixs: seq<Ix>)
    ensures |ixs| == |path|
  {
    seq(|path|, i requires 0 <= i < |path| => Resolved(path, i, NameOids(Preorder(t)), FixedState(Preorder(t))))
  }

  /** Index propagation in closed form: every node ends with the resolved indexes of its shallowest ancestor-or-self
      that has any. */
  lemma IndexPropagation(t: Tree, path: seq<Tree>)
    requires IsTree(t) && TakesInitial(Preorder(t), NameOids(Preorder(t)))
    requires IsPath(path) && path[0] == t
    ensures Lookup(PreparedState(t), path[|path| - 1].oid) == Shallowest(ResolvedAlong(t, path))
  {
    var names, st := NameOids(Preorder(t)), FixedState(Preorder(t));
    CopyDownClosedForm(t, [t.subid], AugmentedState(t), path);
    forall i | 0 <= i < |path|
      ensures Along(path, AugmentedState(t))[i] == ResolvedAlong(t, path)[i]
    {
      var part := path[..i + 1];
      SubPath(path, 0, i + 1);
      assert path[0..i + 1] == part;
      AugmentClosedForm(t, names, st, part);
    }
    assert Along(path, AugmentedState(t)) == ResolvedAlong(t, path);
  }
}
