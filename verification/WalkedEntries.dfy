/** What the configured walk entries become: the entries that are walked, and the metric nodes. */
module WalkedEntries {
  import opened ByteStrings
  import opened Minimize
  import opened MibTree
  import opened IndexCollapse
  import opened WalkPlan
  import opened CompiledModule
  import opened MetricFields
  import opened WantedInstances

  /** `n` is the last node of the list with that label. */
  ghost predicate LastNamed(ns: seq<Tree>, name: string, n: Tree) {
    exists i :: 0 <= i < |ns| && ns[i] == n && n.name == name && forall j :: i < j < |ns| ==> ns[j].name != name
  }

  /** A label stands for the last node of the walk that has it. */
  lemma {:induction false} LabelFindsLast(ns: seq<Tree>, name: string)
    requires forall n :: n in ns ==> n.oid != name
    ensures name in NameTable(ns) <==> exists n :: n in ns && n.name == name
    ensures name in NameTable(ns) ==> LastNamed(ns, name, NameTable(ns)[name])
  {
    if ns != [] {
      var front, k := ns[..|ns| - 1], |ns| - 1;
      assert ns == front + [ns[k]];
      LabelFindsLast(front, name);
      if ns[k].name == name {
        assert LastNamed(ns, name, ns[k]);
      } else if name in NameTable(front) {
        var n := NameTable(front)[name];
        var i :| 0 <= i < |front| && front[i] == n && n.name == name && forall j :: i < j < |front| ==> front[j].name != name;
        assert ns[i] == n && forall j :: i < j < |ns| ==> ns[j].name != name;
      }
    }
  }

  /** The OID that a configured entry stands for: itself, unless it is the label of a node. */
  ghost predicate EntryFor(t: Tree, e: string, w: string) {
    if (exists n :: NodeAt(t, e, n)) || !exists n :: n in Preorder(t) && n.name == e then w == e
    else exists n :: LastNamed(Preorder(t), e, n) && w == n.oid
  }

  lemma EntryResolves(t: Tree, e: string)
    requires GoodTree(t)
    ensures EntryFor(t, e, if e in NameToNode(t) then NameToNode(t)[e].oid else e)
  {
    if n :| NodeAt(t, e, n) {
      NameToNodeByOid(t, n);
    } else {
      forall n | n in Preorder(t)
        ensures n.oid != e
      {
        assert !NodeAt(t, e, n);
      }
      LabelFindsLast(Preorder(t), e);
    }
  }

  lemma OneLastNamed(ns: seq<Tree>, name: string, m: Tree, n: Tree)
    requires LastNamed(ns, name, m) && LastNamed(ns, name, n)
    ensures m == n
  {}

  lemma OneEntryFor(t: Tree, e: string, v: string, w: string)
    requires EntryFor(t, e, v) && EntryFor(t, e, w)
    ensures v == w
  {
    if !(exists n :: NodeAt(t, e, n)) && exists n :: n in Preorder(t) && n.name == e {
      var m :| LastNamed(Preorder(t), e, m) && v == m.oid;
      var n :| LastNamed(Preorder(t), e, n) && w == n.oid;
      OneLastNamed(Preorder(t), e, m, n);
    }
  }

  /** Some configured entry stands for `w`. */
  ghost predicate Configured(t: Tree, entries: seq<string>, w: string) {
    exists e :: e in entries && EntryFor(t, e, w)
  }

  lemma ResolvedExactly(t: Tree, entries: seq<string>, w: string)
    requires GoodTree(t)
    ensures w in Elements(ResolveWalk(entries, NameToNode(t))) <==> Configured(t, entries, w)
  {
    var all := ResolveWalk(entries, NameToNode(t));
    if w in Elements(all) {
      var i :| 0 <= i < |all| && all[i] == w;
      EntryResolves(t, entries[i]);
      assert entries[i] in entries && EntryFor(t, entries[i], w);
    }
    if e :| e in entries && EntryFor(t, e, w) {
      var i :| 0 <= i < |entries| && entries[i] == e;
      EntryResolves(t, e);
      OneEntryFor(t, e, w, all[i]);
      assert all[i] in all;
    }
  }

  /** The walked entries are the configured ones that no other configured one covers. */
  lemma WalkedExactly(t: Tree, entries: seq<string>, toWalk: seq<string>, w: string)
    requires Plan(t, entries, toWalk)
    ensures w in toWalk <==>
      Configured(t, entries, w) && forall v :: Configured(t, entries, v) && Covers(v, w) ==> v == w
  {
    var all := Elements(ResolveWalk(entries, NameToNode(t)));
    forall v
      ensures v in all <==> Configured(t, entries, v)
    {
      ResolvedExactly(t, entries, v);
    }
    forall u | u in ResolveWalk(entries, NameToNode(t))
      ensures NoLowChars(u)
    {
      ResolvedNoLowChars(t, entries, toWalk, u);
    }
    NoLowCharsNotSeparated(all);
    assert w in toWalk <==> w in Elements(toWalk);
    assert w in Minimal(all) <==> Uncovered(w, all);
  }

  predicate IsColumn(n: Tree) {
    Supported(n.typ) && n.access in READABLE && n.indexes != []
  }

  /** The node of a walked entry: its own, or the deepest one above it, which must be a column. */
  ghost predicate MetricNodeOf(t: Tree, w: string, n: Tree) {
    if exists m :: NodeAt(t, w, m) then NodeAt(t, w, n)
    else LongestMatch(w, Preorder(t), n) && IsColumn(n)
  }

  /** An OID is found exactly if there is such a node. */
  lemma FoundExactly(t: Tree, w: string)
    requires GoodTree(t) && (w in NameToNode(t) ==> exists m :: NodeAt(t, w, m))
    ensures Classify(w, t).OidNotFound? <==> !exists n :: MetricNodeOf(t, w, n)
    ensures !Classify(w, t).OidNotFound? ==> MetricNodeOf(t, w, Classify(w, t).node)
  {
    if m :| NodeAt(t, w, m) {
      NodeClassified(t, w, m);
      assert MetricNodeOf(t, w, m);
    } else {
      SearchIsLongestMatch(w, t, [t.subid]);
      UnknownFound(t, w);
    }
  }

  lemma UnknownClass(t: Tree, w: string)
    requires w !in NameToNode(t)
    ensures Classify(w, t) ==
      match SearchNodeTree(w, t)
      case None => OidNotFound
      case Some(n) => if IsColumn(n) then OidInstance(n) else OidNotFound
  {
    if SearchNodeTree(w, t).Some? { UsableExactly(SearchNodeTree(w, t).value); }
  }

  lemma UnknownFound(t: Tree, w: string)
    requires w !in NameToNode(t) && (forall m :: !NodeAt(t, w, m))
    requires SearchNodeTree(w, t).None? ==> forall m :: m in Preorder(t) ==> !Covers(m.oid, w)
    requires SearchNodeTree(w, t).Some? ==> LongestMatch(w, Preorder(t), SearchNodeTree(w, t).value)
    ensures Classify(w, t).OidNotFound? <==> !exists n :: MetricNodeOf(t, w, n)
    ensures !Classify(w, t).OidNotFound? ==> MetricNodeOf(t, w, Classify(w, t).node)
  {
    UnknownClass(t, w);
    forall m | LongestMatch(w, Preorder(t), m)
      ensures SearchNodeTree(w, t) == Some(m)
    {
      LongestUnique(t, w, m, SearchNodeTree(w, t).value);
    }
    if !Classify(w, t).OidNotFound? { assert MetricNodeOf(t, w, Classify(w, t).node); }
  }

  lemma OneMetricNode(t: Tree, w: string, m: Tree, n: Tree)
    requires IsTree(t) && MetricNodeOf(t, w, m) && MetricNodeOf(t, w, n)
    ensures m == n
  {
    if exists y :: NodeAt(t, w, y) {
      OneNodeAt(t, w, m, n);
    } else {
      LongestUnique(t, w, m, n);
    }
  }

  /** The metric nodes of a run. */
  lemma MetricNodesExactly(t: Tree, entries: seq<string>, toWalk: seq<string>, nodes: seq<Tree>, n: Tree)
    requires Plan(t, entries, toWalk) && SortedMetricNodes(nodes, toWalk, t)
    ensures n in nodes <==> exists w :: w in toWalk && MetricNodeOf(t, w, n)
  {
    forall w | w in toWalk
      ensures MetricNodeOf(t, w, n) <==> Classify(w, t).node == n
    {
      EntryMetricNode(t, entries, toWalk, w);
      if MetricNodeOf(t, w, n) { OneMetricNode(t, w, n, Classify(w, t).node); }
    }
    assert n in nodes <==> n in Elements(nodes);
    assert n in MetricNodes(toWalk, t) <==> exists w :: w in toWalk && Classify(w, t).node == n;
  }

  lemma EntryMetricNode(t: Tree, entries: seq<string>, toWalk: seq<string>, w: string)
    requires Plan(t, entries, toWalk) && w in toWalk
    ensures MetricNodeOf(t, w, Classify(w, t).node)
  {
    var n := EntryPlanned(t, entries, toWalk, w);
    EntryNode(t, w, n);
    if w in NameToNode(t) { NameToNodeSound(t, w); }
    FoundExactly(t, w);
  }
}
