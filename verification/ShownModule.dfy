/** What a finished module shows of the tree: which nodes have a metric, and every field of these metrics. */
module ShownModule {
  import opened MibTree
  import opened IndexCollapse
  import opened Lookups
  import opened WalkPlan
  import opened CompiledModule
  import opened MetricFields
  import opened AddressTypes
  import opened ShownLookups
  import opened Generator

  /** A finished metric and its node. */
  ghost predicate FinishedShown(t: Tree, cfg: Config, n: Tree, m: Metric) {
    SanitizedAs(n.name, m.name) && m.oid == n.oid && m.enumValues == n.enumValues &&
    (exists typ :: ExportedAs(n.typ, typ) && TypeChecked(t, n, typ, m.typ)) &&
    exists ixs, places, chosen, applied ::
      IndexesShown(n, NameToNode(t), ixs, places) && LookupsFinished(t, cfg, ixs, m, chosen, applied)
  }

  lemma FinishedShows(t: Tree, cfg: Config, n: Tree, base: Metric, m: Metric)
    requires GoodTree(t) && n in Preorder(t) && MetricShown(n, NameToNode(t), base) && Finished(base, cfg, t, m)
    ensures FinishedShown(t, cfg, n, m)
  {
    var names := NameToNode(t);
    FinishedType(t, cfg, n, base, m);
    var picked := FinishedKeepsOid(base, cfg, t, m);
    RunKeeps(base, cfg.lookups, picked, GetRequiredIndexes(cfg.lookups));
    var places :| IndexesShown(n, names, base.indexes, places);
    var chosen, applied := FinishedLookups(t, cfg, base, m);
  }

  /** The metrics of a module are those of the nodes below the metric nodes that have one, in the order of the walk. */
  lemma ModuleShows(t: Tree, cfg: Config, toWalk: seq<string>, nodes: seq<Tree>, metrics: seq<Metric>,
          get: seq<string>, walk: seq<string>)
    returns (places: seq<nat>)
    requires Compiled(t, cfg, toWalk, nodes, metrics, get, walk)
    ensures MetricPlaces(PreorderAll(nodes), NameToNode(t), cfg.overrides, places) && |metrics| == |places|
    ensures forall i :: 0 <= i < |metrics| ==>
      places[i] < |PreorderAll(nodes)| && FinishedShown(t, cfg, PreorderAll(nodes)[places[i]], metrics[i])
  {
    var ns := PreorderAll(nodes);
    places := MetricsListed(ns, NameToNode(t), cfg.overrides);
    forall i | 0 <= i < |metrics|
      ensures places[i] < |ns| && FinishedShown(t, cfg, ns[places[i]], metrics[i])
    {
      MetricNodeInTree(t, cfg, toWalk, nodes, ns[places[i]]);
      FinishedShows(t, cfg, ns[places[i]], BaseMetrics(t, cfg, nodes)[i], metrics[i]);
    }
  }

  /** A label of letters, digits and underscores is the name of its metric. */
  lemma LabelIsName(t: Tree, cfg: Config, n: Tree, m: Metric)
    requires FinishedShown(t, cfg, n, m) && forall c :: c in n.name ==> LabelChar(c)
    ensures m.name == n.name
  {
    forall i | 0 <= i < |n.name|
      ensures m.name[i] == n.name[i]
    {
      assert n.name[i] in n.name;
    }
  }

  // --- failures ---

  /** A lookup that applies to the metric at that moment, and whose name is unknown or may stand for a node of an
      unsupported type. */
  ghost predicate FailureShown(t: Tree, m: Metric, lookup: LookupConfig, o: Outcome) {
    Matches(Labels(m.indexes), lookup.sourceIndexes) &&
    if lookup.lookup !in NameToNode(t) then o == UnknownLookup(lookup.lookup)
    else o == UnknownLookupType(lookup.lookup) &&
         exists node :: IsIndexNode(lookup.lookup, NameToNode(t), m.oid, node) && !Supported(node.typ)
  }

  /** A run that fails at a lookup fails at one of its metrics, after the lookups before that one. */
  lemma FailureShows(run: Generation, base: Metric, o: Outcome)
    returns (k: nat, chosen: seq<Tree>, m: Metric, places: seq<nat>)
    requires run.names == NameToNode(run.tree) && run.LookupFails(base, o) && base.lookups == []
    ensures k < |run.cfg.lookups| && |chosen| == |run.cfg.lookups|
    ensures LookedUpAs(base, run.cfg.lookups, chosen, m, places, k) && m.oid == base.oid
    ensures FailureShown(run.tree, m, run.cfg.lookups[k], o)
  {
    var i, picked, metric, toDelete :| 0 <= i < |run.cfg.lookups| &&
      LookedUpTo(base, run.cfg, run.tree, i, picked, metric, toDelete) && FailsOn(o, metric, run.cfg.lookups[i], run.names);
    var lookups := run.cfg.lookups;
    k, m := i, metric;
    chosen := picked + seq(|lookups| - k, _ => run.tree);
    assert chosen[..k] == picked;
    PickedTypes(base, run.cfg, run.tree, k, picked, metric, toDelete, chosen);
    places := LookupsRun(base, lookups, chosen, k);
    FailureAt(run.tree, m, lookups[k], o);
  }

  lemma PickedTypes(base: Metric, cfg: Config, t: Tree, k: nat, picked: seq<Tree>, metric: Metric,
          toDelete: seq<string>,
          chosen: seq<Tree>)
    requires LookedUpTo(base, cfg, t, k, picked, metric, toDelete) && |chosen| == |cfg.lookups| && chosen[..k] == picked
    ensures forall j :: 0 <= j < k && Applied(base, cfg.lookups, chosen, GetRequiredIndexes(cfg.lookups), j) ==>
      MetricType(chosen[j].typ).Some?
  {
    var lookups, required := cfg.lookups, GetRequiredIndexes(cfg.lookups);
    forall j | 0 <= j < k && Applied(base, lookups, chosen, required, j)
      ensures MetricType(chosen[j].typ).Some?
    {
      assert lookups[..k][..j] == lookups[..j] && picked[..j] == chosen[..j];
      assert Applied(base, lookups[..k], picked, required, j);
      assert ChosenFor(lookups[j].lookup, t, base.oid, picked[j]);
    }
  }

  lemma FailureAt(t: Tree, m: Metric, lookup: LookupConfig, o: Outcome)
    requires FailsOn(o, m, lookup, NameToNode(t))
    ensures FailureShown(t, m, lookup, o)
  {
    AppliesExactly(m, lookup);
    if lookup.lookup in NameToNode(t) {
      var node :| IsIndexNode(lookup.lookup, NameToNode(t), m.oid, node) && MetricType(node.typ).None?;
      ExportedExactly(node.typ);
    }
  }
}
