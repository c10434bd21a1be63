/** When a metric is generated twice: exactly if a column of the tree has a metric below it. */
module NestedColumns {
  import opened ByteStrings
  import opened Minimize
  import opened Oids
  import opened FetchSet
  import opened MibTree
  import opened Lookups
  import opened WalkPlan
  import opened CompiledModule

  /** A sub-identifier that no child has. */
  function FreeSubid(n: Tree): nat {
    if n.children == [] then 0 else n.children[|n.children| - 1].subid + 1
  }

  /** An instance of `n` that is no node. */
  ghost function FreeInstance(n: Tree): string {
    Render(PathOf(n) + [FreeSubid(n)])
  }

  lemma SubidIsLarger(n: Tree, arcs: Arcs, i: nat)
    requires WellFormed(n, arcs) && i < |n.children|
    ensures n.children[i].subid < FreeSubid(n)
  {
    var last := |n.children| - 1;
    assert i < last ==> n.children[i].subid < n.children[last].subid;
  }

  lemma SubidIsFree(t: Tree, n: Tree, x: Tree)
    requires IsTree(t) && n in Preorder(t) && x in Preorder(n) && x != n
    ensures |PathOf(x)| > |PathOf(n)| && PathOf(x)[|PathOf(n)|] < FreeSubid(n)
  {
    Below(t, [t.subid], n);
    var i := ChildAbove(n, PathOf(n), x);
    SubidIsLarger(n, PathOf(n), i);
  }

  /** Neither is the instance below a node under `n`, nor the other way round. */
  lemma InstanceApart(t: Tree, n: Tree, x: Tree)
    requires IsTree(t) && n in Preorder(t) && x in Preorder(n) && x != n
    ensures !Covers(x.oid, FreeInstance(n)) && !Covers(FreeInstance(n), x.oid)
  {
    SubidIsFree(t, n, x);
    SubtreeWithin(t, n, x);
    Below(t, [t.subid], x);
    var a, b := PathOf(n) + [FreeSubid(n)], PathOf(x);
    CoversIsArcPrefix(a, b);
    CoversIsArcPrefix(b, a);
    assert a[|PathOf(n)|] != b[|PathOf(n)|];
  }

  lemma LongerDiffers(a: Arcs, x: nat)
    requires a != []
    ensures Render(a) != Render(a + [x])
  {
    if Render(a) == Render(a + [x]) {
      RenderInjective(a, a + [x]);
      assert false;
    }
  }

  lemma InstanceBelow(t: Tree, n: Tree)
    requires IsTree(t) && n in Preorder(t)
    ensures Covers(n.oid, FreeInstance(n)) && IsOid(FreeInstance(n))
    ensures forall m :: m in Preorder(t) ==> m.oid != FreeInstance(n)
  {
    Below(t, [t.subid], n);
    CoversIsArcPrefix(PathOf(n), PathOf(n) + [FreeSubid(n)]);
    forall m | m in Preorder(t)
      ensures m.oid != FreeInstance(n)
    {
      if m.oid == FreeInstance(n) {
        CoveredInSubtree(t, [t.subid], n, m);
        if m != n {
          InstanceApart(t, n, m);
        } else {
          LongerDiffers(PathOf(n), FreeSubid(n));
        }
      }
    }
  }

  /** The free instance of a column is classified as an instance of that column. */
  lemma InstanceClassified(t: Tree, n: Tree)
    requires GoodTree(t) && n in Preorder(t) && Usable(n) && n.indexes != []
    ensures FreeInstance(n) !in NameToNode(t) && Classify(FreeInstance(n), t) == OidInstance(n)
  {
    var v := FreeInstance(n);
    InstanceBelow(t, n);
    if v in NameToNode(t) { NameToNodeSound(t, v); }
    SearchIsLongestMatch(v, t, [t.subid]);
    var r := SearchNodeTree(v, t).value;
    if r != n {
      CoveredInSubtree(t, [t.subid], n, r);
      InstanceApart(t, n, r);
    }
  }

  function InOrder(a: string, b: string): (s: seq<string>)
    ensures a in s && b in s && forall o :: o in s ==> o == a || o == b
  {
    if Less(a, b) then [a, b] else [b, a]
  }

  /** Two entries of which neither covers the other are both kept. */
  lemma BothMinimal(a: string, b: string)
    requires !Covers(a, b) && !Covers(b, a)
    ensures Minimizes([a, b], InOrder(a, b))
  {
    var toWalk := InOrder(a, b);
    LessTotal(a, b);
    PairMinimal(a, b);
    assert Covers(a, a) && Covers(b, b);
    assert Elements([a, b]) == {a, b} && Elements(toWalk) == {a, b};
    assert HasCover(toWalk, a) && HasCover(toWalk, b);
  }

  lemma PairMinimal(a: string, b: string)
    requires !Covers(a, b) && !Covers(b, a)
    ensures Minimal({a, b}) == {a, b} && !HasSeparated({a, b})
  {
    LessTotal(a, b);
    assert Uncovered(a, {a, b}) && Uncovered(b, {a, b});
  }

  lemma NestedEntries(t: Tree, n: Tree, x: Tree)
    requires GoodTree(t) && n in Preorder(t) && x in Preorder(n) && UnderColumn(n, x)
    ensures var entries := [x.oid, FreeInstance(n)];
      ResolveWalk(entries, NameToNode(t)) == entries && WalkEntriesAreOids(entries, t)
    ensures Classify(FreeInstance(n), t) == OidInstance(n)
    ensures !Classify(x.oid, t).OidNotFound? && Classify(x.oid, t).node == x
  {
    SubtreeWithin(t, n, x);
    NameToNodeByOid(t, x);
    InstanceClassified(t, n);
    InstanceBelow(t, n);
    assert IsWalkEntry(x.oid, t) && IsWalkEntry(FreeInstance(n), t);
  }

  /** Walking a column's instance and a node below the column makes both of them metric nodes. */
  lemma NestedPlan(t: Tree, n: Tree, x: Tree) returns (entries: seq<string>, toWalk: seq<string>)
    requires GoodTree(t) && n in Preorder(t) && x in Preorder(n) && UnderColumn(n, x)
    ensures Plan(t, entries, toWalk) && SortedMetricNodes([n, x], toWalk, t)
  {
    var v := FreeInstance(n);
    entries, toWalk := [x.oid, v], InOrder(x.oid, v);
    NestedEntries(t, n, x);
    InstanceApart(t, n, x);
    BothMinimal(x.oid, v);
    NestedNodes(t, n, x, toWalk);
  }

  lemma NestedNodes(t: Tree, n: Tree, x: Tree, toWalk: seq<string>)
    requires IsTree(t) && n in Preorder(t) && x in Preorder(n) && x != n
    requires x.oid in toWalk && FreeInstance(n) in toWalk && forall w :: w in toWalk ==>
      w == x.oid || w == FreeInstance(n)
    requires Classify(FreeInstance(n), t) == OidInstance(n)
    requires !Classify(x.oid, t).OidNotFound? && Classify(x.oid, t).node == x
    ensures SortedMetricNodes([n, x], toWalk, t)
  {
    assert Elements([n, x]) == {n, x};
    assert MetricNodes(toWalk, t) == {n, x};
    ColumnSortsFirst(t, n, x);
  }

  lemma ColumnSortsFirst(t: Tree, n: Tree, x: Tree)
    requires IsTree(t) && n in Preorder(t) && x in Preorder(n) && x != n
    ensures SortedBy((m: Tree) => m.oid, [n, x]) && NoDuplicates([n, x])
  {
    Below(t, [t.subid], n);
    Below(n, PathOf(n), x);
    CoversPrefix(n.oid, x.oid);
  }

  /** A run over such a tree that generates a metric twice; it does not panic unless the column's subtree does. */
  lemma MetricTwice(t: Tree, overrides: map<string, Override>, n: Tree, x: Tree)
    returns (cfg: Config, toWalk: seq<string>, nodes: seq<Tree>)
    requires GoodTree(t) && n in Preorder(t) && x in Preorder(n) && UnderColumn(n, x)
    requires Emit(x, NameToNode(t), overrides).Emitted?
    ensures cfg.overrides == overrides && Plan(t, cfg.walk, toWalk) && SortedMetricNodes(nodes, toWalk, t)
    ensures !DistinctMetrics(BaseMetrics(t, cfg, nodes))
    ensures NoPanic(Preorder(n), NameToNode(t), overrides) ==> NoPanic(PreorderAll(nodes), NameToNode(t), overrides)
  {
    var entries;
    entries, toWalk := NestedPlan(t, n, x);
    cfg, nodes := Config(entries, [], overrides), [n, x];
    NestedMetrics(n, x, NameToNode(t), overrides);
  }

  lemma NestedMetrics(n: Tree, x: Tree, names: map<string, Tree>, overrides: map<string, Override>)
    requires x in Preorder(n) && Emit(x, names, overrides).Emitted?
    ensures !DistinctMetrics(MetricsOf(PreorderAll([n, x]), names, overrides))
    ensures NoPanic(Preorder(n), names, overrides) ==> NoPanic(PreorderAll([n, x]), names, overrides)
  {
    var first, rest := Preorder(n), Preorder(x);
    TwoSubtrees(n, x);
    MetricsOfConcat(first, rest, names, overrides);
    MetricEmitted(first, names, overrides, x);
    MetricEmitted(rest, names, overrides, x);
    RepeatedIn(MetricsOf(first, names, overrides), MetricsOf(rest, names, overrides), Emit(x, names, overrides).metric);
    if NoPanic(first, names, overrides) { SubtreeDoesNotPanic(n, x, names, overrides); }
  }

  lemma TwoSubtrees(n: Tree, x: Tree)
    ensures PreorderAll([n, x]) == Preorder(n) + Preorder(x)
  {
    PreorderAllAppend([n, x], 0);
    PreorderAllAppend([n, x], 1);
    assert [n, x][..2] == [n, x] && PreorderAll([n, x][..0]) == [];
  }

  lemma RepeatedIn(a: seq<Metric>, b: seq<Metric>, m: Metric)
    requires m in a && m in b
    ensures !DistinctMetrics(a + b)
  {
    var i :| 0 <= i < |a| && a[i] == m;
    var j :| 0 <= j < |b| && b[j] == m;
    assert (a + b)[i].oid == (a + b)[|a| + j].oid;
  }

  lemma SubtreeDoesNotPanic(n: Tree, x: Tree, names: map<string, Tree>, overrides: map<string, Override>)
    requires x in Preorder(n) && NoPanic(Preorder(n), names, overrides)
    ensures NoPanic(Preorder(x), names, overrides)
  {
    PanicsExactly(Preorder(n), names, overrides);
    PanicsExactly(Preorder(x), names, overrides);
    forall y | y in Preorder(x)
      ensures y in Preorder(n)
    {
      SubtreeWithin(n, x, y);
    }
  }

  /** For given overrides every run generates each metric once exactly if no column has a metric below it. */
  lemma NoMetricTwiceExactly(t: Tree, overrides: map<string, Override>)
    requires GoodTree(t)
    ensures ColumnsEmitAlone(t, overrides) <==>
      forall cfg: Config, toWalk, nodes ::
        cfg.overrides == overrides && Plan(t, cfg.walk, toWalk) && SortedMetricNodes(nodes, toWalk, t) ==>
        DistinctMetrics(BaseMetrics(t, cfg, nodes))
  {
    if ColumnsEmitAlone(t, overrides) {
      forall cfg: Config, toWalk, nodes | cfg.overrides == overrides && Plan(t, cfg.walk, toWalk) && SortedMetricNodes(nodes, toWalk, t)
        ensures DistinctMetrics(BaseMetrics(t, cfg, nodes))
      {
        BaseMetricsDistinct(t, cfg, toWalk, nodes);
      }
    } else {
      var m, n :| m in Preorder(t) && n in Preorder(m) && UnderColumn(m, n) && Emit(n, NameToNode(t), overrides).Emitted?;
      var cfg, toWalk, nodes := MetricTwice(t, overrides, m, n);
    }
  }
}
