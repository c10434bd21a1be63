/** The smallest module in full: a walk entry that names a scalar compiles to one metric and one Get of its instance. */
module ScalarModule {
  import opened ByteStrings
  import opened Minimize
  import opened FetchSet
  import opened MibTree
  import opened IndexCollapse
  import opened Lookups
  import opened WalkPlan
  import opened CompiledModule

  predicate IsScalar(t: Tree) {
    t.children == [] && Usable(t) && t.indexes == [] && CombinedSubtype(MetricType(t.typ).value).None?
  }

  function ScalarMetric(t: Tree): Metric
    requires IsScalar(t)
  {
    Metric(SanitizeLabelName(t.name), t.oid, MetricType(t.typ).value, [], [], t.enumValues)
  }

  function WalkOf(t: Tree): Config {
    Config([t.oid], [], map[])
  }

  lemma ScalarClass(t: Tree)
    requires IsTree(t) && IsLabel(t.name) && IsScalar(t)
    ensures GoodTree(t) && Preorder(t) == [t] && t.oid in NameToNode(t) && Classify(t.oid, t) == OidScalar(t)
    ensures ResolveWalk([t.oid], NameToNode(t)) == [t.oid]
  {
    assert Preorder(t) == [t];
    NameToNodeByOid(t, t);
  }

  lemma SingleKeyMinimal(key: string)
    ensures Minimal({key}) == {key} && !HasSeparated({key})
  {
    assert Uncovered(key, {key});
  }

  lemma SingleMinimizes(oid: string)
    ensures Minimizes([oid], [oid])
  {
    SingleKeyMinimal(oid);
    assert Elements([oid]) == {oid};
    assert HasCover([oid], oid) by { assert Covers(oid, oid); }
  }

  lemma ScalarPlan(t: Tree)
    requires IsTree(t) && IsLabel(t.name) && IsScalar(t)
    ensures Plan(t, [t.oid], [t.oid])
  {
    ScalarClass(t);
    SingleMinimizes(t.oid);
  }

  lemma ScalarNodes(t: Tree)
    requires IsTree(t) && IsLabel(t.name) && IsScalar(t)
    ensures SortedMetricNodes([t], [t.oid], t)
  {
    ScalarClass(t);
    assert Elements([t]) == {t};
    assert MetricNodes([t.oid], t) == {t} by { assert t.oid in [t.oid]; }
  }

  lemma ScalarMetrics(t: Tree)
    requires IsTree(t) && IsLabel(t.name) && IsScalar(t)
    ensures MetricsFrom(t, WalkOf(t), [t], [ScalarMetric(t)])
  {
    ScalarClass(t);
    var names, cfg, m := NameToNode(t), WalkOf(t), ScalarMetric(t);
    assert PreorderAll([t]) == [t] by { assert [t][1..] == []; }
    SingleNode(t, names, map[]);
    assert BaseMetrics(t, cfg, [t]) == [m];
    assert FinishLookups(m, [], []) == m;
    assert FinishedWith(m, cfg, t, [], m);
    assert ValidChoices(m, cfg, t, []);
  }

  lemma ScalarKeys(t: Tree)
    requires IsTree(t) && IsLabel(t.name) && IsScalar(t)
    ensures FetchKeys([ScalarMetric(t)], [t.oid], t) == {t.oid + ".0."}
  {
    ScalarClass(t);
    var ms, key := [ScalarMetric(t)], t.oid + ".0.";
    assert BaseKeys([t.oid], t) == {key} by { assert t.oid in [t.oid]; }
    forall k
      ensures k !in AllLookupKeys(ms, [t.oid], t) && k !in AllTypeKeys(ms, [t.oid], t)
    {
      AllLookupKeysMember(ms, [t.oid], t, k);
      AllTypeKeysMember(ms, [t.oid], t, k);
    }
  }

  lemma SingleGet(oid: string)
    ensures SplitsMinimal({oid + "."}, [oid], [])
  {
    SingleKeyMinimal(oid + ".");
    DotInjective(oid + ".");
    assert TrimSuffix(oid + ".", ".") == oid;
  }

  lemma ScalarGet(oid: string)
    ensures SplitsMinimal({oid + ".0."}, [oid + ".0"], [])
  {
    SingleGet(oid + ".0");
    assert oid + ".0" + "." == oid + ".0.";
  }

  /** Compiled modules exist, and this is the one for a scalar. */
  lemma ScalarCompiles(t: Tree)
    requires IsTree(t) && IsLabel(t.name) && IsScalar(t)
    ensures Compiled(t, WalkOf(t), [t.oid], [t], [ScalarMetric(t)], [t.oid + ".0"], [])
  {
    ScalarPlan(t);
    ScalarNodes(t);
    ScalarMetrics(t);
    ScalarKeys(t);
    ScalarGet(t.oid);
  }
}
