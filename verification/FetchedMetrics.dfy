/** When every run fetches every metric it generates: exactly if no metric lies below a usable node. */
module FetchedMetrics {
  import opened ByteStrings
  import opened Minimize
  import opened Oids
  import opened FetchSet
  import opened MibTree
  import opened Lookups
  import opened WalkPlan
  import opened CompiledModule
  import opened ScalarModule
  import opened NestedColumns

  // --- a run over one usable node ---

  /** The entry that walks a usable node: a scalar by its OID, a column by an instance that is no node. */
  ghost function EntryFor(n: Tree): string {
    if n.indexes == [] then n.oid else FreeInstance(n)
  }

  lemma EntryClass(t: Tree, n: Tree)
    requires GoodTree(t) && n in Preorder(t) && Usable(n)
    ensures Classify(EntryFor(n), t) == if n.indexes == [] then OidScalar(n) else OidInstance(n)
    ensures ResolveWalk([EntryFor(n)], NameToNode(t)) == [EntryFor(n)] && IsWalkEntry(EntryFor(n), t)
  {
    NameToNodeByOid(t, n);
    if n.indexes != [] {
      InstanceClassified(t, n);
      InstanceBelow(t, n);
    }
  }

  lemma EntryPlan(t: Tree, n: Tree)
    requires GoodTree(t) && n in Preorder(t) && Usable(n)
    ensures Plan(t, [EntryFor(n)], [EntryFor(n)]) && SortedMetricNodes([n], [EntryFor(n)], t)
  {
    var v := EntryFor(n);
    EntryClass(t, n);
    SingleMinimizes(v);
    assert forall w :: w in [v] ==> w == v;
    assert Elements([n]) == {n};
    assert MetricNodes([v], t) == {n} by { assert v in [v]; }
  }

  /** The metrics as a run without lookups finishes them. */
  function FinishedMetrics(base: seq<Metric>, names: map<string, Tree>): (ms: seq<Metric>)
    ensures |ms| == |base|
  {
    seq(|base|, i requires 0 <= i < |base| => CheckType(SanitizeMetric(FinishLookups(base[i], [], [])), names))
  }

  lemma MetricsFinished(t: Tree, cfg: Config, nodes: seq<Tree>)
    requires cfg.lookups == []
    ensures MetricsFrom(t, cfg, nodes, FinishedMetrics(BaseMetrics(t, cfg, nodes), NameToNode(t)))
  {
    var base := BaseMetrics(t, cfg, nodes);
    forall i | 0 <= i < |base|
      ensures Finished(base[i], cfg, t, FinishedMetrics(base, NameToNode(t))[i])
    {
      assert ValidChoices(base[i], cfg, t, []);
      assert FinishedWith(base[i], cfg, t, [], FinishedMetrics(base, NameToNode(t))[i]);
    }
  }

  lemma {:induction false} Listing(keys: set<string>) returns (oids: seq<string>)
    ensures Elements(oids) == keys
    decreases |keys|
  {
    if keys == {} {
      oids := [];
    } else {
      var k :| k in keys;
      var rest := Listing(keys - {k});
      oids := rest + [k];
      ElementsAppend(rest, k);
    }
  }

  /** Every plan and its metrics have their request lists. */
  lemma PlanLists(t: Tree, cfg: Config, toWalk: seq<string>, nodes: seq<Tree>, metrics: seq<Metric>)
    returns (get: seq<string>, walk: seq<string>)
    requires Plan(t, cfg.walk, toWalk) && SortedMetricNodes(nodes, toWalk, t) && MetricsFrom(t, cfg, nodes, metrics)
    ensures SplitsMinimal(FetchKeys(metrics, toWalk, t), get, walk)
  {
    var keys := FetchKeys(metrics, toWalk, t);
    forall k | k in keys
      ensures GoodKey(t, k)
    {
      FetchKeyGood(t, cfg, toWalk, nodes, metrics, k);
    }
    KeysWellFormed(t, keys);
    var oids := Listing(keys);
    var minimized := Scan(SortBy(Self, oids), "");
    ScanMinimizes(oids);
    SplitMinimized(oids, minimized);
    get, walk := Gets(minimized), Walks(minimized);
  }

  /** The run that walks `n` alone. */
  lemma NodeRun(t: Tree, overrides: map<string, Override>, n: Tree)
    returns (cfg: Config, metrics: seq<Metric>, get: seq<string>, walk: seq<string>)
    requires GoodTree(t) && n in Preorder(t) && Usable(n)
    ensures cfg == Config([EntryFor(n)], [], overrides)
    ensures Compiled(t, cfg, [EntryFor(n)], [n], metrics, get, walk)
  {
    cfg := Config([EntryFor(n)], [], overrides);
    EntryPlan(t, n);
    metrics := FinishedMetrics(BaseMetrics(t, cfg, [n]), NameToNode(t));
    MetricsFinished(t, cfg, [n]);
    get, walk := PlanLists(t, cfg, [EntryFor(n)], [n], metrics);
  }

  // --- what that run fetches ---

  /** An instance directly below a node as deep as `n`. */
  ghost predicate ShallowInstance(n: Tree, k: string) {
    exists q: Arcs, f: nat :: ShallowAt(n, q, f, k)
  }

  ghost predicate ShallowAt(n: Tree, q: Arcs, f: nat, k: string) {
    |q| == |PathOf(n)| > 0 && k == Render(q + [f]) + "."
  }

  /** A node whose next sibling is a metric of the subtree of `n`. */
  ghost predicate BeforeMetric(t: Tree, n: Tree, overrides: map<string, Override>, k: string) {
    exists p, y :: p in Preorder(t) && k == p.oid && MetricBelow(t, n, overrides, y) && Precedes(PathOf(p), PathOf(y))
  }

  ghost predicate MetricBelow(t: Tree, n: Tree, overrides: map<string, Override>, y: Tree) {
    y in Preorder(n) && Emit(y, NameToNode(t), overrides).Emitted?
  }

  /** The run's own entry asks for one instance. */
  lemma EntryKey(t: Tree, n: Tree, k: string)
    requires GoodTree(t) && n in Preorder(t) && Usable(n) && k in BaseKeys([EntryFor(n)], t)
    ensures ShallowInstance(n, k)
  {
    var v := EntryFor(n);
    EntryClass(t, n);
    NodePath(t, n);
    assert k == WalkKey(v, Classify(v, t)) by { assert forall w :: w in [v] ==> w == v; }
    if n.indexes == [] {
      RenderZero(PathOf(n));
      assert n.oid + ".0." == n.oid + ".0" + ".";
      assert ShallowAt(n, PathOf(n), 0, k);
    } else {
      assert ShallowAt(n, PathOf(n), FreeSubid(n), k);
    }
  }

  lemma OneSubtree(n: Tree)
    ensures PreorderAll([n]) == Preorder(n)
  {
    assert [n][1..] == [];
  }

  /** The node behind a metric of the run. */
  lemma RunMetric(t: Tree, cfg: Config, n: Tree, metrics: seq<Metric>, m: Metric) returns (y: Tree)
    requires MetricsFrom(t, cfg, [n], metrics) && m in metrics && cfg.lookups == []
    ensures MetricBelow(t, n, cfg.overrides, y) && y.oid == m.oid && m.lookups == []
  {
    var i :| 0 <= i < |metrics| && metrics[i] == m;
    OneSubtree(n);
    y := FinishedMetricSource(t, cfg, Preorder(n), BaseMetrics(t, cfg, [n])[i], m);
  }

  lemma FinishedMetricSource(t: Tree, cfg: Config, ns: seq<Tree>, base: Metric, m: Metric) returns (y: Tree)
    requires base in MetricsOf(ns, NameToNode(t), cfg.overrides) && Finished(base, cfg, t, m) && cfg.lookups == []
    ensures y in ns && Emit(y, NameToNode(t), cfg.overrides).Emitted? && y.oid == m.oid && m.lookups == []
  {
    var chosen := FinishedKeepsOid(base, cfg, t, m);
    y := MetricSource(ns, NameToNode(t), cfg.overrides, base);
  }

  lemma RemovePrefix(a: string, b: string)
    ensures RemoveFirst(a + b, a) == b
  {
    assert a <= a + b && (a + b)[|a|..] == b;
  }

  /** The instances saved for the run's column. */
  lemma RunInstances(t: Tree, n: Tree, oid: string)
    requires GoodTree(t) && n in Preorder(t) && Usable(n)
    ensures InstancesAt([EntryFor(n)], t, oid) ==
      if n.indexes != [] && n.oid == oid then [Suffix([FreeSubid(n)])] else []
  {
    var v := EntryFor(n);
    EntryClass(t, n);
    NodePath(t, n);
    RenderChild(PathOf(n), FreeSubid(n));
    RemovePrefix(n.oid, Suffix([FreeSubid(n)]));
    assert [v][..|[v]| - 1] == [] && InstancesAt([], t, oid) == [];
  }

  lemma TypeKeyOfRun(t: Tree, cfg: Config, n: Tree, metrics: seq<Metric>, m: Metric, k: string)
    requires GoodTree(t) && n in Preorder(t) && Usable(n) && cfg.lookups == []
    requires MetricsFrom(t, cfg, [n], metrics) && m in metrics
    requires k in TypeKeys(m, NameToNode(t), InstancesAt([EntryFor(n)], t, m.oid))
    ensures ShallowInstance(n, k) || BeforeMetric(t, n, cfg.overrides, k)
  {
    var instances := InstancesAt([EntryFor(n)], t, m.oid);
    var y := RunMetric(t, cfg, n, metrics, m);
    SubtreeWithin(t, n, y);
    var p := TypeSibling(t, y, m, instances, k);
    RunInstances(t, n, m.oid);
    if instances != [] {
      SameOidSameNode(t, [t.subid], n, y);
      SiblingInstance(t, n, p, k);
    }
  }

  lemma TypeSibling(t: Tree, y: Tree, m: Metric, instances: seq<string>, k: string) returns (p: Tree)
    requires GoodTree(t) && y in Preorder(t) && y.oid == m.oid && k in TypeKeys(m, NameToNode(t), instances)
    ensures p in Preorder(t) && Precedes(PathOf(p), PathOf(y)) && k in ColumnKeys(p.oid, instances)
  {
    p := PrecedingSibling(t, y, PrevOid(m.oid));
  }

  lemma SiblingInstance(t: Tree, n: Tree, p: Tree, k: string)
    requires IsTree(t) && p in Preorder(t) && Precedes(PathOf(p), PathOf(n)) &&
      k in ColumnKeys(p.oid, [Suffix([FreeSubid(n)])])
    ensures ShallowInstance(n, k)
  {
    NodePath(t, p);
    RenderChild(PathOf(p), FreeSubid(n));
    assert ShallowAt(n, PathOf(p), FreeSubid(n), k);
  }

  lemma RunKeys(t: Tree, cfg: Config, n: Tree, metrics: seq<Metric>, k: string)
    requires GoodTree(t) && n in Preorder(t) && Usable(n) && cfg.lookups == []
    requires MetricsFrom(t, cfg, [n], metrics) && k in FetchKeys(metrics, [EntryFor(n)], t)
    ensures ShallowInstance(n, k) || BeforeMetric(t, n, cfg.overrides, k)
  {
    var toWalk := [EntryFor(n)];
    if k in BaseKeys(toWalk, t) {
      EntryKey(t, n, k);
    } else if k in AllTypeKeys(metrics, toWalk, t) {
      AllTypeKeysMember(metrics, toWalk, t, k);
      var m :| m in metrics && k in TypeKeys(m, NameToNode(t), InstancesAt(toWalk, t, m.oid));
      TypeKeyOfRun(t, cfg, n, metrics, m, k);
    } else {
      AllLookupKeysMember(metrics, toWalk, t, k);
      var m :| m in metrics && k in LookupKeys(m.lookups, InstancesAt(toWalk, t, m.oid));
      var y := RunMetric(t, cfg, n, metrics, m);
      assert false;
    }
  }

  // --- what it misses ---

  lemma {:induction false} ArcLessAsymmetric(a: Arcs, b: Arcs)
    requires ArcLess(a, b)
    ensures !ArcLess(b, a)
  {
    if a != [] && a[0] == b[0] { ArcLessAsymmetric(a[1..], b[1..]); }
  }

  /** `x` is the last node in the subtree of `n` that emits a metric. */
  ghost predicate LastMetric(t: Tree, n: Tree, overrides: map<string, Override>, x: Tree) {
    MetricBelow(t, n, overrides, x) && x != n &&
    forall y :: MetricBelow(t, n, overrides, y) ==> !ArcLess(PathOf(x), PathOf(y))
  }

  lemma LastPlace(ns: seq<Tree>, names: map<string, Tree>, overrides: map<string, Override>, i: nat) returns (j: nat)
    requires i < |ns| && Emit(ns[i], names, overrides).Emitted?
    ensures i <= j < |ns| && Emit(ns[j], names, overrides).Emitted?
    ensures forall k :: j < k < |ns| ==> !Emit(ns[k], names, overrides).Emitted?
    decreases |ns| - i
  {
    if k :| i < k < |ns| && Emit(ns[k], names, overrides).Emitted? {
      j := LastPlace(ns, names, overrides, k);
    } else {
      j := i;
    }
  }

  lemma NotBefore(ns: seq<Tree>, k: nat, j: nat)
    requires ArcSorted(ns) && k <= j < |ns|
    ensures !ArcLess(PathOf(ns[j]), PathOf(ns[k])) && (k < j ==> ns[j] != ns[k])
  {
    ArcLessIrreflexive(PathOf(ns[j]));
    if k < j { ArcLessAsymmetric(PathOf(ns[k]), PathOf(ns[j])); }
  }

  lemma FindLastMetric(t: Tree, n: Tree, overrides: map<string, Override>, x0: Tree) returns (x: Tree)
    requires IsTree(t) && n in Preorder(t) && MetricBelow(t, n, overrides, x0) && x0 != n
    ensures LastMetric(t, n, overrides, x)
  {
    var ns := Preorder(n);
    Below(t, [t.subid], n);
    PreorderAscends(n, PathOf(n));
    x := LastOf(ns, NameToNode(t), overrides, x0);
  }

  lemma LastOf(ns: seq<Tree>, names: map<string, Tree>, overrides: map<string, Override>, x0: Tree) returns (x: Tree)
    requires ArcSorted(ns) && x0 in ns && x0 != ns[0] && Emit(x0, names, overrides).Emitted?
    ensures x in ns && x != ns[0] && Emit(x, names, overrides).Emitted?
    ensures forall y :: y in ns && Emit(y, names, overrides).Emitted? ==> !ArcLess(PathOf(x), PathOf(y))
  {
    var i :| 0 <= i < |ns| && ns[i] == x0;
    var j := LastPlace(ns, names, overrides, i);
    x := ns[j];
    NotBefore(ns, 0, j);
    forall y | y in ns && Emit(y, names, overrides).Emitted?
      ensures !ArcLess(PathOf(x), PathOf(y))
    {
      var k :| 0 <= k < |ns| && ns[k] == y;
      NotBefore(ns, k, j);
    }
  }

  /** The sibling after a node above `c`, or above its instance .0, comes after `c`. */
  lemma NextComesLater(a: Arcs, b: Arcs, c: Arcs)
    requires Precedes(a, b) && c != [] && a <= c + [0]
    ensures ArcLess(c, b)
  {
    var front, last := a[..|a| - 1], a[|a| - 1];
    assert a == front + [last] && b == front + [last + 1];
    if |a| <= |c| {
      assert a <= c;
      Fork(front, last, last + 1, c, b);
    } else {
      assert front == c;
      AncestorFirst(c, b);
    }
  }

  /** No key of the run covers the last metric or its instance .0. */
  lemma KeyMisses(t: Tree, n: Tree, overrides: map<string, Override>, x: Tree, k: string)
    requires IsTree(t) && n in Preorder(t) && LastMetric(t, n, overrides, x)
    requires ShallowInstance(n, k) || BeforeMetric(t, n, overrides, k)
    ensures IsInstanceKey(k) || (!Covers(k, x.oid) && !Covers(k, x.oid + ".0"))
    ensures k != x.oid + ".0" + "."
  {
    SubtreeWithin(t, n, x);
    NodePath(t, x);
    RenderZero(PathOf(x));
    InstanceKey(PathOf(x) + [0]);
    if ShallowInstance(n, k) {
      ShallowMisses(t, n, x, k);
    } else {
      var p, y :| p in Preorder(t) && k == p.oid && MetricBelow(t, n, overrides, y) && Precedes(PathOf(p), PathOf(y));
      SiblingMisses(t, p, PathOf(x), PathOf(y));
      NodeKeyGood(t, p);
    }
  }

  lemma ShallowMisses(t: Tree, n: Tree, x: Tree, k: string)
    requires IsTree(t) && n in Preorder(t) && x in Preorder(n) && x != n && ShallowInstance(n, k)
    ensures IsInstanceKey(k) && k != Render(PathOf(x) + [0]) + "."
  {
    var q: Arcs, f: nat :| ShallowAt(n, q, f, k);
    InstanceKey(q + [f]);
    SubidIsFree(t, n, x);
    DeeperDiffers(q + [f], PathOf(x) + [0]);
  }

  lemma DeeperDiffers(a: Arcs, b: Arcs)
    requires a != [] && |a| != |b|
    ensures b != [] ==> Render(a) + "." != Render(b) + "."
  {
    InstanceKey(a);
    assert b != [] ==> (Denotes(Render(a) + ".", b) <==> Render(a) + "." == Render(b) + ".");
  }

  lemma SiblingMisses(t: Tree, p: Tree, c: Arcs, b: Arcs)
    requires IsTree(t) && p in Preorder(t) && Precedes(PathOf(p), b) && c != [] && !ArcLess(c, b)
    ensures !Covers(p.oid, Render(c)) && !Covers(p.oid, Render(c + [0]))
  {
    NodePath(t, p);
    CoversIsArcPrefix(PathOf(p), c);
    CoversIsArcPrefix(PathOf(p), c + [0]);
    assert PathOf(p) <= c ==> PathOf(p) <= c + [0];
    if PathOf(p) <= c + [0] { NextComesLater(PathOf(p), b, c); }
  }

  /** A run that generates a metric and does not fetch it: it walks `n` alone, so it does not panic unless the subtree
      of `n` does. */
  lemma MetricMissed(t: Tree, overrides: map<string, Override>, n: Tree, x: Tree)
    returns (cfg: Config, metrics: seq<Metric>, get: seq<string>, walk: seq<string>)
    requires GoodTree(t) && n in Preorder(t) && Usable(n) && LastMetric(t, n, overrides, x)
    ensures cfg.overrides == overrides && Compiled(t, cfg, [EntryFor(n)], [n], metrics, get, walk)
    ensures !AllFetched(t, [EntryFor(n)], metrics, get, walk)
  {
    cfg, metrics, get, walk := NodeRun(t, overrides, n);
    var m := EmittedInRun(t, cfg, n, metrics, x);
    RunInstances(t, n, x.oid);
    if n.oid == x.oid {
      SubtreeWithin(t, n, x);
      SameOidSameNode(t, [t.subid], n, x);
    }
    forall k | k in FetchKeys(metrics, [EntryFor(n)], t)
      ensures IsInstanceKey(k) || (!Covers(k, x.oid) && !Covers(k, x.oid + ".0"))
      ensures k != x.oid + ".0" + "."
    {
      RunKeys(t, cfg, n, metrics, k);
      KeyMisses(t, n, overrides, x, k);
    }
    NotFetched(FetchKeys(metrics, [EntryFor(n)], t), get, walk, x.oid);
    assert !MetricFetched(t, get, walk, m.oid, InstancesAt([EntryFor(n)], t, m.oid));
  }

  lemma EmittedInRun(t: Tree, cfg: Config, n: Tree, metrics: seq<Metric>, x: Tree) returns (m: Metric)
    requires MetricsFrom(t, cfg, [n], metrics) && MetricBelow(t, n, cfg.overrides, x)
    ensures m in metrics && m.oid == x.oid
  {
    var names, base := NameToNode(t), BaseMetrics(t, cfg, [n]);
    OneSubtree(n);
    MetricEmitted(PreorderAll([n]), names, cfg.overrides, x);
    var i :| 0 <= i < |base| && base[i] == Emit(x, names, cfg.overrides).metric;
    m := metrics[i];
    var chosen := FinishedKeepsOid(base[i], cfg, t, m);
  }

  lemma NotFetched(keys: set<string>, get: seq<string>, walk: seq<string>, oid: string)
    requires SplitsMinimal(keys, get, walk)
    requires forall k :: k in keys ==> IsInstanceKey(k) || (!Covers(k, oid) && !Covers(k, oid + ".0"))
    requires oid + ".0" + "." !in keys
    ensures !ColumnFetched(get, walk, oid, []) && !InstanceFetched(get, walk, oid + ".0")
  {
    assert oid + ".0" !in get;
    assert forall w :: w in walk ==> w in keys && !IsInstanceKey(w);
  }

  /** If a metric lies below a usable node, some run does not fetch all it generates. */
  lemma SomeMetricMissed(t: Tree, overrides: map<string, Override>)
    returns (cfg: Config, n: Tree, metrics: seq<Metric>, get: seq<string>, walk: seq<string>)
    requires GoodTree(t) && !UsableEmitAlone(t, overrides)
    ensures cfg.overrides == overrides && Compiled(t, cfg, [EntryFor(n)], [n], metrics, get, walk)
    ensures !AllFetched(t, [EntryFor(n)], metrics, get, walk)
  {
    var y;
    n, y :| n in Preorder(t) && Usable(n) && y in Preorder(n) && y != n && Emit(y, NameToNode(t), overrides).Emitted?;
    var x := FindLastMetric(t, n, overrides, y);
    cfg, metrics, get, walk := MetricMissed(t, overrides, n, x);
  }

  /** Every run with these overrides fetches every metric it generates. */
  ghost predicate AlwaysFetched(t: Tree, overrides: map<string, Override>) {
    forall cfg: Config, toWalk, nodes, metrics, get, walk ::
      cfg.overrides == overrides && Compiled(t, cfg, toWalk, nodes, metrics, get, walk) ==>
      AllFetched(t, toWalk, metrics, get, walk)
  }

  /** This is so exactly if no metric lies below a usable node. */
  lemma EveryMetricFetchedExactly(t: Tree, overrides: map<string, Override>)
    requires GoodTree(t)
    ensures AlwaysFetched(t, overrides) <==> UsableEmitAlone(t, overrides)
  {
    if UsableEmitAlone(t, overrides) {
      forall cfg: Config, toWalk, nodes, metrics, get, walk |
        cfg.overrides == overrides && Compiled(t, cfg, toWalk, nodes, metrics, get, walk)
        ensures AllFetched(t, toWalk, metrics, get, walk)
      {
        EveryMetricFetched(t, cfg, toWalk, nodes, metrics, get, walk);
      }
    } else {
      var cfg, n, metrics, get, walk := SomeMetricMissed(t, overrides);
    }
  }
}
