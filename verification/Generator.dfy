/** generateConfigModule: the steps that fill the module, the shared fetch set and the saved table instances. */
module Generator {
  import opened ByteStrings
  import opened Minimize
  import opened Oids
  import opened FetchSet
  import opened MibTree
  import opened IndexCollapse
  import opened Lookups
  import opened WalkPlan
  import opened CompiledModule

  /** How a run ends: with a module, with one of the generator's errors, or with a slice bound out of range. */
  datatype Outcome =
    | Done
    | LeadingDot(entry: string)
    | CannotFind(entry: string)
    | UnknownLookup(lookup: string)
    | UnknownLookupType(lookup: string)
    | Panicked

  method SortMetricNodes(metricNodes: set<Tree>) returns (nodes: seq<Tree>)
    ensures Elements(nodes) == metricNodes && NoDuplicates(nodes)
    ensures SortedBy((n: Tree) => n.oid, nodes)
  {
    var rest := metricNodes;
    var metrics: seq<Tree> := [];
    while rest != {}
      invariant rest <= metricNodes && Elements(metrics) == metricNodes - rest
      invariant NoDuplicates(metrics)
    {
      var n :| n in rest;
      assert n !in Elements(metrics);
      ElementsAppend(metrics, n);
      metrics := metrics + [n];
      rest := rest - {n};
    }
    nodes := SortBy((n: Tree) => n.oid, metrics);
    SortElements((n: Tree) => n.oid, metrics);
    PermutationNoDuplicates(metrics, nodes);
  }

  lemma PermutationNoDuplicates<T>(a: seq<T>, b: seq<T>)
    requires NoDuplicates(a) && multiset(a) == multiset(b)
    ensures NoDuplicates(b)
  {
    forall x
      ensures multiset(b)[x] <= 1
    {
      OccursOnce(a, x);
    }
    forall i, j | 0 <= i < j < |b|
      ensures b[i] != b[j]
    {
      assert b == b[..i] + [b[i]] + b[i + 1..j] + [b[j]] + b[j + 1..];
      assert multiset(b)[b[i]] <= 1;
    }
  }

  lemma {:induction false} OccursOnce<T>(a: seq<T>, x: T)
    requires NoDuplicates(a)
    ensures multiset(a)[x] <= 1
  {
    if a != [] {
      OccursOnce(a[1..], x);
      assert a == [a[0]] + a[1..];
      if x == a[0] { assert x !in a[1..]; }
    }
  }

  class Generation {
    const tree: Tree
    const names: map<string, Tree>
    const cfg: Config
    var metrics: seq<Metric>
    var needToWalk: set<string>
    var tableInstances: map<string, seq<string>>
    var get: seq<string>
    var walk: seq<string>

    constructor (tree: Tree, names: map<string, Tree>, cfg: Config)
      ensures this.tree == tree && this.cfg == cfg && this.names == names
      ensures metrics == [] && needToWalk == {} && tableInstances == map[] && get == [] && walk == []
    {
      this.tree, this.cfg, this.names := tree, cfg, names;
      metrics, needToWalk, tableInstances, get, walk := [], {}, map[], [], [];
    }

    method ProcessWalkOids() returns (o: Outcome, toWalk: seq<string>)
      ensures o.Done? || o.LeadingDot?
      ensures o.Done? <==> forall w :: w in cfg.walk ==> !HasPrefix(w, ".")
      ensures o.LeadingDot? ==> o.entry in cfg.walk && HasPrefix(o.entry, ".")
      ensures o.Done? ==> Minimizes(ResolveWalk(cfg.walk, names), toWalk)
    {
      toWalk := [];
      for i := 0 to |cfg.walk|
        invariant |toWalk| == i
        invariant forall j :: 0 <= j < i ==>
          !HasPrefix(cfg.walk[j], ".") && toWalk[j] == ResolveWalk(cfg.walk, names)[j]
      {
        var oid := cfg.walk[i];
        if HasPrefix(oid, ".") {
          return LeadingDot(oid), [];
        }
        toWalk := toWalk + [if oid in names then names[oid].oid else oid];
      }
      assert toWalk == ResolveWalk(cfg.walk, names);
      toWalk := MinimizeOids(toWalk);
      o := Done;
    }

    method FindAndProcessMetricNodes(toWalk: seq<string>) returns (o: Outcome, metricNodes: set<Tree>)
      requires names == NameToNode(tree) && tableInstances == map[]
      modifies this`needToWalk, this`tableInstances
      ensures o.Done? || o.CannotFind?
      ensures o.Done? <==> forall w :: w in toWalk ==> !Classify(w, tree).OidNotFound?
      ensures o.CannotFind? ==> o.entry in toWalk && Classify(o.entry, tree).OidNotFound?
      ensures o.Done? ==> metricNodes == MetricNodes(toWalk, tree)
      ensures o.Done? ==> needToWalk == old(needToWalk) + BaseKeys(toWalk, tree)
      ensures o.Done? ==> SavesInstances(tableInstances, toWalk, tree)
    {
      metricNodes := {};
      for i := 0 to |toWalk|
        invariant forall w :: w in toWalk[..i] ==> !Classify(w, tree).OidNotFound?
        invariant metricNodes == MetricNodes(toWalk[..i], tree)
        invariant needToWalk == old(needToWalk) + BaseKeys(toWalk[..i], tree)
        invariant SavesInstances(tableInstances, toWalk[..i], tree)
      {
        var oid := toWalk[i];
        var c := GetMetricNode(oid, tree, names);
        assert oid in toWalk;
        if c.OidNotFound? {
          return CannotFind(oid), {};
        }
        NodesAppend(toWalk, i, tree);
        InstanceSaved(tableInstances, toWalk, i, tree);
        needToWalk := needToWalk + {WalkKey(oid, c)};
        if c.OidInstance? {
          var index := RemoveFirst(oid, c.node.oid);
          tableInstances := tableInstances[c.node.oid := Saved(tableInstances, c.node.oid) + [index]];
        }
        metricNodes := metricNodes + {c.node};
      }
      assert toWalk[..|toWalk|] == toWalk;
      o := Done;
    }

    method EmitNode(n: Tree) returns (o: Outcome)
      modifies this`metrics
      ensures o == if Emit(n, names, cfg.overrides).Panics? then Panicked else Done
      ensures o.Done? ==> metrics == old(metrics) + MetricsOf([n], names, cfg.overrides)
    {
      SingleNode(n, names, cfg.overrides);
      o := Done;
      var typ := MetricType(n.typ);
      if typ.None? {
        return;
      }
      if !MetricAccess(n.access) {
        return;
      }
      var name := SanitizeLabelName(n.name);
      if name in cfg.overrides && cfg.overrides[name].ignore {
        return;
      }
      var c := CollapseIndexes(n, names);
      match c {
        case Skipped =>
        case OutOfRange =>
          o := Panicked;
        case Collapsed(kept) =>
          metrics := metrics + [Metric(name, n.oid, typ.value, IndexesOf(kept), [], n.enumValues)];
      }
    }

    /** walkNode with the metric-emitting closure. */
    method ProcessSingleMetric(n: Tree) returns (o: Outcome)
      modifies this`metrics
      ensures o == if NoPanic(Preorder(n), names, cfg.overrides) then Done else Panicked
      ensures o.Done? ==> metrics == old(metrics) + MetricsOf(Preorder(n), names, cfg.overrides)
      decreases n, 0
    {
      MetricsOfConcat([n], PreorderAll(n.children), names, cfg.overrides);
      SingleNode(n, names, cfg.overrides);
      o := EmitNode(n);
      if o.Done? {
        ghost var first, below := MetricsOf([n], names, cfg.overrides), MetricsOf(PreorderAll(n.children), names, cfg.overrides);
        o := ProcessAllMetrics(n.children);
        Associative(old(metrics), first, below);
      }
    }

    /** The walk over several subtrees: over a node's children, or over all metric nodes. */
    method ProcessAllMetrics(nodes: seq<Tree>) returns (o: Outcome)
      modifies this`metrics
      ensures o == if NoPanic(PreorderAll(nodes), names, cfg.overrides) then Done else Panicked
      ensures o.Done? ==> metrics == old(metrics) + MetricsOf(PreorderAll(nodes), names, cfg.overrides)
      decreases nodes
    {
      ghost var emitted: seq<Metric> := [];
      for i := 0 to |nodes|
        invariant NoPanic(PreorderAll(nodes[..i]), names, cfg.overrides)
        invariant emitted == MetricsOf(PreorderAll(nodes[..i]), names, cfg.overrides)
        invariant metrics == old(metrics) + emitted
      {
        SubtreesAppend(nodes, i, names, cfg.overrides);
        o := ProcessSingleMetric(nodes[i]);
        if o.Panicked? {
          return;
        }
        ghost var next := MetricsOf(Preorder(nodes[i]), names, cfg.overrides);
        Associative(old(metrics), emitted, next);
        emitted := emitted + next;
      }
      assert nodes[..|nodes|] == nodes;
      o := Done;
    }

    method AddColumn(oid: string, instances: seq<string>)
      modifies this`needToWalk
      ensures needToWalk == old(needToWalk) + ColumnKeys(oid, instances)
    {
      if |instances| > 0 {
        for i := 0 to |instances|
          invariant needToWalk == old(needToWalk) + set s | s in instances[..i] :: oid + s + "."
        {
          assert instances[..i + 1] == instances[..i] + [instances[i]];
          needToWalk := needToWalk + {oid + instances[i] + "."};
        }
        assert instances[..|instances|] == instances;
      } else {
        needToWalk := needToWalk + {oid};
      }
    }

    /** One configured lookup on one metric. */
    method ProcessLookup(metric: Metric, lookup: LookupConfig, required: seq<string>)
            returns (o: Outcome, m: Metric, node: Tree)
      requires names == NameToNode(tree) && IsTree(tree) && LabelsAreNames(tree)
      modifies this`needToWalk
      ensures !o.Done? ==> FailsOn(o, metric, lookup, names)
      ensures o.Done? && !HasAllRequiredIndexes(metric, lookup) ==> m == metric && needToWalk == old(needToWalk)
      ensures o.Done? && HasAllRequiredIndexes(metric, lookup) ==>
        ChosenFor(lookup.lookup, tree, metric.oid, node) && node.oid != "" && m == ApplyLookup(metric, lookup, node, required) &&
        needToWalk == old(needToWalk) + ColumnKeys(node.oid, Saved(tableInstances, metric.oid))
    {
      o, m, node := Done, metric, tree;
      if !HasAllRequiredIndexes(metric, lookup) {
        return;
      }
      if lookup.lookup !in names {
        return UnknownLookup(lookup.lookup), metric, tree;
      }
      node := GetIndexNode(lookup.lookup, names, metric.oid);
      if MetricType(node.typ).None? {
        return UnknownLookupType(lookup.lookup), metric, tree;
      }
      IndexNodeLabel(lookup.lookup, tree, metric.oid, node);
      NodePath(tree, node);
      m := ApplyLookup(metric, lookup, node, required);
      AddColumn(node.oid, Saved(tableInstances, metric.oid));
    }

    /** All configured lookups on one metric; without static filters the filter map is empty. */
    method ProcessLookups(base: Metric) returns (o: Outcome, metric: Metric, ghost chosen: seq<Tree>)
      requires names == NameToNode(tree) && IsTree(tree) && LabelsAreNames(tree) && base.lookups == []
      modifies this`needToWalk
      ensures !o.Done? ==> LookupFails(base, o)
      ensures o.Done? ==> ValidChoices(base, cfg, tree, chosen) && metric == FinishLookups(base, cfg.lookups, chosen)
      ensures o.Done? ==> needToWalk == old(needToWalk) + LookupKeys(metric.lookups, Saved(tableInstances, base.oid))
    {
      o := Done;
      ghost var keys := needToWalk;
      var toDelete: seq<string> := [];
      var required := GetRequiredIndexes(cfg.lookups);
      metric, chosen := base, [];
      for k := 0 to |cfg.lookups|
        invariant o.Done? && LookingUp(base, k, chosen, metric, toDelete, keys)
      {
        ghost var before, picked, dropped := metric, chosen, toDelete;
        o, metric, toDelete, chosen := NextLookup(base, k, chosen, metric, toDelete, required, keys);
        if !o.Done? {
          assert LookedUpTo(base, cfg, tree, k, picked, before, dropped);
          return;
        }
      }
      LookedUpAll(base, cfg, tree, chosen, metric, toDelete, Saved(tableInstances, base.oid));
      metric := metric.(lookups := metric.lookups + DropLookups(toDelete));
    }

    /** The error `o` is the one of some applicable lookup of the metric, after all lookups before it. */
    ghost predicate LookupFails(base: Metric, o: Outcome) {
      exists k, chosen, m, toDelete :: 0 <= k < |cfg.lookups| &&
        LookedUpTo(base, cfg, tree, k, chosen, m, toDelete) && FailsOn(o, m, cfg.lookups[k], names)
    }

    /** The state of the lookup loop after the first `k` configured lookups. */
    ghost predicate LookingUp(base: Metric, k: nat, chosen: seq<Tree>, metric: Metric, toDelete: seq<string>,
            keys: set<string>)
      reads this
    {
      LookedUpTo(base, cfg, tree, k, chosen, metric, toDelete) &&
      needToWalk == keys + LookupKeys(metric.lookups, Saved(tableInstances, base.oid))
    }

    method NextLookup(ghost base: Metric, k: nat, ghost chosen: seq<Tree>, metric: Metric, toDelete: seq<string>,
            required: seq<string>, ghost keys: set<string>)
      returns (o: Outcome, metric': Metric, toDelete': seq<string>, ghost chosen': seq<Tree>)
      requires names == NameToNode(tree) && IsTree(tree) && LabelsAreNames(tree)
      requires k < |cfg.lookups| && required == GetRequiredIndexes(cfg.lookups)
      requires LookingUp(base, k, chosen, metric, toDelete, keys)
      modifies this`needToWalk
      ensures !o.Done? ==> FailsOn(o, metric, cfg.lookups[k], names)
      ensures o.Done? ==> LookingUp(base, k + 1, chosen', metric', toDelete', keys)
    {
      var lookup := cfg.lookups[k];
      toDelete' := toDelete;
      var node;
      o, metric', node := ProcessLookup(metric, lookup, required);
      chosen' := chosen + [node];
      if o.Done? {
        if HasAllRequiredIndexes(metric, lookup) && lookup.dropSourceIndexes {
          toDelete' := toDelete + lookup.sourceIndexes;
        }
        LookedUpStep(base, cfg, tree, k, chosen, metric, toDelete, node, Saved(tableInstances, base.oid));
      }
    }

    /** The metrics after the lookup step. */
    ghost predicate LookedUp(base: Metric, m: Metric) {
      exists chosen: seq<Tree> :: ValidChoices(base, cfg, tree, chosen) && m == FinishLookups(base, cfg.lookups, chosen)
    }

    method ProcessLookupsAndFilters() returns (o: Outcome)
      requires names == NameToNode(tree) && IsTree(tree) && LabelsAreNames(tree)
      requires forall m :: m in metrics ==> m.lookups == []
      modifies this`metrics, this`needToWalk
      ensures !o.Done? ==> exists b :: b in old(metrics) && LookupFails(b, o)
      ensures o.Done? ==> |metrics| == |old(metrics)| && forall i :: 0 <= i < |metrics| ==> SanitizedFrom(old(metrics)[i], metrics[i])
      ensures o.Done? ==> needToWalk == old(needToWalk) + LookupKeysFor(metrics, tableInstances)
    {
      o := Done;
      ghost var base, keys := metrics, needToWalk;
      for i := 0 to |metrics|
        invariant o.Done? && |metrics| == |base| && LookedUpFirst(base, i, keys)
      {
        assert base[i] in base;
        o := LookUpMetric(base, i, keys);
        if !o.Done? {
          return;
        }
      }
      assert metrics[..|metrics|] == metrics;
      ghost var lookedUp := metrics;
      SanitizeIndexLabels();
      SameKeys(lookedUp, metrics, tableInstances);
      forall i | 0 <= i < |metrics|
        ensures SanitizedFrom(base[i], metrics[i])
      {
        assert LookedUp(base[i], lookedUp[i]);
      }
    }

    /** The state after the lookups of the first `i` metrics. */
    ghost predicate LookedUpFirst(base: seq<Metric>, i: nat, keys: set<string>)
      reads this
    {
      i <= |base| == |metrics| &&
      (forall j :: 0 <= j < i ==> LookedUp(base[j], metrics[j])) &&
      (forall j :: i <= j < |metrics| ==> metrics[j] == base[j]) &&
      needToWalk == keys + LookupKeysFor(metrics[..i], tableInstances)
    }

    method LookUpMetric(ghost base: seq<Metric>, i: nat, ghost keys: set<string>) returns (o: Outcome)
      requires names == NameToNode(tree) && IsTree(tree) && LabelsAreNames(tree)
      requires i < |base| && base[i].lookups == [] && LookedUpFirst(base, i, keys)
      modifies this`metrics, this`needToWalk
      ensures !o.Done? ==> LookupFails(base[i], o)
      ensures o.Done? ==> LookedUpFirst(base, i + 1, keys)
    {
      ghost var before := metrics;
      var metric; ghost var chosen;
      o, metric, chosen := ProcessLookups(metrics[i]);
      if !o.Done? {
        return;
      }
      RunKeeps(base[i], cfg.lookups, chosen, GetRequiredIndexes(cfg.lookups));
      assert LookedUp(base[i], metric);
      metrics := metrics[i := metric];
      assert metrics[..i] == before[..i];
      LookupKeysAppend(metrics, i, tableInstances);
    }

    method SanitizeIndexLabels()
      modifies this`metrics
      ensures |metrics| == |old(metrics)| && forall i :: 0 <= i < |metrics| ==>
        metrics[i] == SanitizeMetric(old(metrics)[i])
    {
      for i := 0 to |metrics|
        invariant |metrics| == |old(metrics)|
        invariant forall j :: 0 <= j < i ==> metrics[j] == SanitizeMetric(old(metrics)[j])
        invariant forall j :: i <= j < |metrics| ==> metrics[j] == old(metrics)[j]
      {
        metrics := metrics[i := SanitizeMetric(metrics[i])];
      }
    }

    ghost predicate SanitizedFrom(base: Metric, m: Metric) {
      exists chosen: seq<Tree> :: ValidChoices(base, cfg, tree, chosen) &&
        m == SanitizeMetric(FinishLookups(base, cfg.lookups, chosen))
    }

    method CheckSpecialType(base: Metric) returns (metric: Metric)
      modifies this`needToWalk
      ensures metric == CheckType(base, names)
      ensures needToWalk == old(needToWalk) + TypeKeys(metric, names, Saved(tableInstances, base.oid))
    {
      metric := base;
      if metric.typ == "InetAddress" || metric.typ == "InetAddressMissingSize" {
        var prevOid := PrevOid(metric.oid);
        if prevOid !in names || names[prevOid].textualConvention != "InetAddressType" {
          metric := metric.(typ := "OctetString");
          assert !IsTypedAddress(metric);
        } else {
          AddColumn(prevOid, Saved(tableInstances, metric.oid));
        }
      }
    }

    /** The state after the first `i` metrics have been checked. */
    ghost predicate CheckedUpTo(base: seq<Metric>, i: nat, keys: set<string>)
      reads this
    {
      i <= |base| && metrics == CheckTypes(base[..i], names) + base[i..] &&
      needToWalk == keys + TypeKeysFor(CheckTypes(base[..i], names), names, tableInstances)
    }

    method CheckMetric(ghost base: seq<Metric>, i: nat, ghost keys: set<string>)
      requires i < |base| && CheckedUpTo(base, i, keys)
      modifies this`metrics, this`needToWalk
      ensures CheckedUpTo(base, i + 1, keys)
    {
      ghost var done := CheckTypes(base[..i], names);
      assert metrics[i] == base[i] && |metrics| == |base|;
      CheckTypesAppend(base, i, names, tableInstances);
      var metric := CheckSpecialType(metrics[i]);
      assert metric.oid == base[i].oid;
      metrics := metrics[i := metric];
      assert metrics == (done + [metric]) + base[i + 1..];
    }

    method CheckSpecialTypes()
      requires names == NameToNode(tree)
      modifies this`metrics, this`needToWalk
      ensures metrics == CheckTypes(old(metrics), names)
      ensures needToWalk == old(needToWalk) + TypeKeysFor(metrics, names, tableInstances)
    {
      ghost var base, keys := metrics, needToWalk;
      assert base[0..] == base;
      for i := 0 to |metrics|
        invariant |metrics| == |base| && CheckedUpTo(base, i, keys)
      {
        CheckMetric(base, i, keys);
      }
      assert base[..|base|] == base;
    }

    /** Some node below the metric nodes has an index list that cannot be sliced. */
    ghost predicate CrashesIn(nodes: seq<Tree>) {
      exists n :: n in PreorderAll(nodes) && Crashes(n, names, cfg.overrides)
    }

    /** The steps up to the metrics: walk entries, metric nodes, base metrics. */
    method CollectMetrics() returns (o: Outcome, toWalk: seq<string>, nodes: seq<Tree>)
      requires names == NameToNode(tree) && metrics == [] && needToWalk == {} && tableInstances == map[]
      modifies this`metrics, this`needToWalk, this`tableInstances
      ensures o.LeadingDot? || o.CannotFind? || o.Panicked? || o.Done?
      ensures o.LeadingDot? <==> exists w :: w in cfg.walk && HasPrefix(w, ".")
      ensures o.LeadingDot? ==> o.entry in cfg.walk && HasPrefix(o.entry, ".")
      ensures !o.LeadingDot? ==> Minimizes(ResolveWalk(cfg.walk, names), toWalk)
      ensures o.CannotFind? ==> o.entry in toWalk && Classify(o.entry, tree).OidNotFound?
      ensures o.Panicked? || o.Done? ==> SortedMetricNodes(nodes, toWalk, tree)
      ensures o.Panicked? ==> CrashesIn(nodes)
      ensures o.Done? ==> !CrashesIn(nodes)
      ensures o.Done? ==> metrics == BaseMetrics(tree, cfg, nodes) && needToWalk == BaseKeys(toWalk, tree)
      ensures o.Done? ==> SavesInstances(tableInstances, toWalk, tree)
    {
      nodes := [];
      o, toWalk := ProcessWalkOids();
      if !o.Done? {
        return;
      }
      var metricNodes;
      o, metricNodes := FindAndProcessMetricNodes(toWalk);
      if !o.Done? {
        return;
      }
      nodes := SortMetricNodes(metricNodes);
      PanicsExactly(PreorderAll(nodes), names, cfg.overrides);
      o := ProcessAllMetrics(nodes);
    }

    /** The steps after the base metrics: lookups and address types. */
    method FinishMetrics(ghost toWalk: seq<string>, ghost nodes: seq<Tree>) returns (o: Outcome)
      requires names == NameToNode(tree) && IsTree(tree) && LabelsAreNames(tree)
      requires metrics == BaseMetrics(tree, cfg, nodes) && needToWalk == BaseKeys(toWalk, tree)
      requires SavesInstances(tableInstances, toWalk, tree)
      modifies this`metrics, this`needToWalk
      ensures !o.Done? ==> exists b :: b in BaseMetrics(tree, cfg, nodes) && LookupFails(b, o)
      ensures o.Done? ==> MetricsFrom(tree, cfg, nodes, metrics) && needToWalk == FetchKeys(metrics, toWalk, tree)
    {
      ghost var base := metrics;
      NoLookupsYet(nodes);
      o := ProcessLookupsAndFilters();
      if !o.Done? {
        return;
      }
      ghost var lookedUp := metrics;
      CheckSpecialTypes();
      AllFinished(base, lookedUp);
      CheckTypesKeys(lookedUp, names, tableInstances);
      KeysForSaved(metrics, tableInstances, toWalk, tree);
    }

    method Generate() returns (o: Outcome, ghost toWalk: seq<string>, ghost nodes: seq<Tree>)
      requires names == NameToNode(tree) && GoodTree(tree) && WalkEntriesAreOids(cfg.walk, tree)
      requires metrics == [] && needToWalk == {} && tableInstances == map[]
      modifies this
      // what each error means
      ensures o.LeadingDot? <==> exists w :: w in cfg.walk && HasPrefix(w, ".")
      ensures o.LeadingDot? ==> o.entry in cfg.walk && HasPrefix(o.entry, ".")
      ensures !o.LeadingDot? ==> Minimizes(ResolveWalk(cfg.walk, names), toWalk)
      ensures o.CannotFind? ==> o.entry in toWalk && Classify(o.entry, tree).OidNotFound?
      ensures o.Panicked? ==> SortedMetricNodes(nodes, toWalk, tree) && CrashesIn(nodes)
      ensures o.UnknownLookup? || o.UnknownLookupType? ==>
        exists b :: b in BaseMetrics(tree, cfg, nodes) && LookupFails(b, o)
      ensures o.Done? ==> !CrashesIn(nodes) && Compiled(tree, cfg, toWalk, nodes, metrics, get, walk)
      // every metric once, and fetched
      ensures o.Done? && ColumnsEmitAlone(tree, cfg.overrides) ==> DistinctMetrics(metrics)
      ensures o.Done? && UsableEmitAlone(tree, cfg.overrides) ==> AllFetched(tree, toWalk, metrics, get, walk)
      ensures o.Done? ==> forall m :: m in metrics && InstancesAt(toWalk, tree, m.oid) != [] ==>
        ColumnFetched(get, walk, m.oid, InstancesAt(toWalk, tree, m.oid))
      // so are the columns its lookups read and the type of its address
      ensures o.Done? ==> forall m, l :: m in metrics && l in m.lookups && l.oid != "" ==>
        ColumnFetched(get, walk, l.oid, InstancesAt(toWalk, tree, m.oid))
      ensures o.Done? ==> forall m :: m in metrics && IsTypedAddress(m) ==>
        Decodable(tree, get, walk, m, InstancesAt(toWalk, tree, m.oid))
      // and nothing else, and nothing twice
      ensures o.Done? ==> forall x: Arcs :: Fetched(get, walk, x) <==>
        exists k :: k in FetchKeys(metrics, toWalk, tree) && Denotes(k, x)
      ensures o.Done? ==> forall g, w :: g in get && w in walk ==> !Covers(w, g)
      ensures o.Done? ==> forall v, w :: v in walk && w in walk && Covers(v, w) ==> v == w
      ensures o.Done? ==> NoDuplicates(get) && NoDuplicates(walk)
    {
      o, toWalk, nodes := CollectMetrics();
      if !o.Done? {
        return;
      }
      o := FinishMetrics(toWalk, nodes);
      if !o.Done? {
        return;
      }
      AllKeysGood(toWalk, nodes, metrics);
      get, walk := ProcessFinalOids(needToWalk);
      CompiledFacts(toWalk, nodes, metrics, get, walk);
    }

    lemma NoLookupsYet(nodes: seq<Tree>)
      requires names == NameToNode(tree)
      ensures forall m :: m in BaseMetrics(tree, cfg, nodes) ==> m.lookups == []
    {
      forall m | m in BaseMetrics(tree, cfg, nodes)
        ensures m.lookups == []
      {
        var n := MetricSource(PreorderAll(nodes), names, cfg.overrides, m);
      }
    }

    lemma AllFinished(base: seq<Metric>, lookedUp: seq<Metric>)
      requires names == NameToNode(tree) && |base| == |lookedUp|
      requires forall i :: 0 <= i < |base| ==> SanitizedFrom(base[i], lookedUp[i])
      ensures forall i :: 0 <= i < |base| ==> Finished(base[i], cfg, tree, CheckTypes(lookedUp, names)[i])
    {
      forall i | 0 <= i < |base|
        ensures Finished(base[i], cfg, tree, CheckTypes(lookedUp, names)[i])
      {
        CheckTypesAt(lookedUp, i, names);
        OneFinished(base[i], lookedUp[i]);
      }
    }

    lemma OneFinished(base: Metric, m: Metric)
      requires names == NameToNode(tree) && SanitizedFrom(base, m)
      ensures Finished(base, cfg, tree, CheckType(m, names))
    {
      var chosen :| ValidChoices(base, cfg, tree, chosen) && m == SanitizeMetric(FinishLookups(base, cfg.lookups, chosen));
      assert FinishedWith(base, cfg, tree, chosen, CheckType(m, names));
    }

    lemma AllKeysGood(toWalk: seq<string>, nodes: seq<Tree>, ms: seq<Metric>)
      requires Plan(tree, cfg.walk, toWalk) && SortedMetricNodes(nodes, toWalk, tree) &&
        MetricsFrom(tree, cfg, nodes, ms)
      ensures !HasSeparated(FetchKeys(ms, toWalk, tree))
    {
      forall k | k in FetchKeys(ms, toWalk, tree)
        ensures GoodKey(tree, k)
      {
        FetchKeyGood(tree, cfg, toWalk, nodes, ms, k);
      }
      KeysWellFormed(tree, FetchKeys(ms, toWalk, tree));
    }

    lemma CompiledFacts(toWalk: seq<string>, nodes: seq<Tree>, ms: seq<Metric>, get: seq<string>, walk: seq<string>)
      requires Compiled(tree, cfg, toWalk, nodes, ms, get, walk)
      ensures ColumnsEmitAlone(tree, cfg.overrides) ==> DistinctMetrics(ms)
      ensures UsableEmitAlone(tree, cfg.overrides) ==> AllFetched(tree, toWalk, ms, get, walk)
      ensures forall m :: m in ms && InstancesAt(toWalk, tree, m.oid) != [] ==>
        ColumnFetched(get, walk, m.oid, InstancesAt(toWalk, tree, m.oid))
      ensures forall m, l :: m in ms && l in m.lookups && l.oid != "" ==>
        ColumnFetched(get, walk, l.oid, InstancesAt(toWalk, tree, m.oid))
      ensures forall m :: m in ms && IsTypedAddress(m) ==>
        Decodable(tree, get, walk, m, InstancesAt(toWalk, tree, m.oid))
      ensures forall x: Arcs :: Fetched(get, walk, x) <==> exists k :: k in FetchKeys(ms, toWalk, tree) && Denotes(k, x)
      ensures forall g, w :: g in get && w in walk ==> !Covers(w, g)
      ensures forall v, w :: v in walk && w in walk && Covers(v, w) ==> v == w
      ensures NoDuplicates(get) && NoDuplicates(walk)
    {
      if ColumnsEmitAlone(tree, cfg.overrides) { NoMetricTwice(tree, cfg, toWalk, nodes, ms, get, walk); }
      if UsableEmitAlone(tree, cfg.overrides) { EveryMetricFetched(tree, cfg, toWalk, nodes, ms, get, walk); }
      EveryInstanceFetched(tree, cfg, toWalk, nodes, ms, get, walk);
      EveryLookupFetched(tree, cfg, toWalk, nodes, ms, get, walk);
      TypedAddressesDecodable(tree, cfg, toWalk, nodes, ms, get, walk);
      FetchesExactly(tree, cfg, toWalk, nodes, ms, get, walk);
    }
  }

  lemma Associative<T>(a: seq<T>, b: seq<T>, c: seq<T>)
    ensures (a + b) + c == a + (b + c)
  {}

  /** Adding the `k`-th subtree to a walk: its metrics follow, and it may be what panics. */
  lemma SubtreesAppend(ts: seq<Tree>, k: nat, names: map<string, Tree>, overrides: map<string, Override>)
    requires k < |ts|
    ensures var done, next := PreorderAll(ts[..k]), Preorder(ts[k]);
      MetricsOf(PreorderAll(ts[..k + 1]), names, overrides) == MetricsOf(done, names, overrides) + MetricsOf(next, names, overrides) &&
      (NoPanic(PreorderAll(ts[..k + 1]), names, overrides) <==> NoPanic(done, names, overrides) && NoPanic(next, names, overrides))
    ensures !NoPanic(Preorder(ts[k]), names, overrides) ==> !NoPanic(PreorderAll(ts), names, overrides)
  {
    PreorderAllAppend(ts, k);
    MetricsOfConcat(PreorderAll(ts[..k]), Preorder(ts[k]), names, overrides);
    SubtreePanics(ts, k, names, overrides);
  }

  lemma SubtreePanics(ts: seq<Tree>, k: nat, names: map<string, Tree>, overrides: map<string, Override>)
    requires k < |ts|
    ensures !NoPanic(Preorder(ts[k]), names, overrides) ==> !NoPanic(PreorderAll(ts), names, overrides)
  {
    PanicsExactly(Preorder(ts[k]), names, overrides);
    PanicsExactly(PreorderAll(ts), names, overrides);
    if n :| n in Preorder(ts[k]) && Crashes(n, names, overrides) {
      InSubtrees(ts, n);
    }
  }

  lemma NodesAppend(toWalk: seq<string>, i: nat, t: Tree)
    requires i < |toWalk| && !Classify(toWalk[i], t).OidNotFound?
    requires forall w :: w in toWalk[..i] ==> !Classify(w, t).OidNotFound?
    ensures forall w :: w in toWalk[..i + 1] ==> !Classify(w, t).OidNotFound?
    ensures MetricNodes(toWalk[..i + 1], t) == MetricNodes(toWalk[..i], t) + {Classify(toWalk[i], t).node}
    ensures BaseKeys(toWalk[..i + 1], t) == BaseKeys(toWalk[..i], t) + {WalkKey(toWalk[i], Classify(toWalk[i], t))}
  {
    assert toWalk[..i + 1] == toWalk[..i] + [toWalk[i]];
  }

  /** The instance suffixes saved for a column. */
  function Saved(tableInstances: map<string, seq<string>>, oid: string): seq<string> {
    if oid in tableInstances then tableInstances[oid] else []
  }

  ghost predicate SavesInstances(tableInstances: map<string, seq<string>>, toWalk: seq<string>, t: Tree) {
    forall oid :: Saved(tableInstances, oid) == InstancesAt(toWalk, t, oid)
  }

  function WithInstance(tableInstances: map<string, seq<string>>, w: string, c: NodeClass): map<string, seq<string>> {
    if !c.OidInstance? then tableInstances
    else tableInstances[c.node.oid := Saved(tableInstances, c.node.oid) + [RemoveFirst(w, c.node.oid)]]
  }

  lemma InstanceSaved(tableInstances: map<string, seq<string>>, toWalk: seq<string>, i: nat, t: Tree)
    requires i < |toWalk| && SavesInstances(tableInstances, toWalk[..i], t)
    ensures SavesInstances(WithInstance(tableInstances, toWalk[i], Classify(toWalk[i], t)), toWalk[..i + 1], t)
  {
    var after := WithInstance(tableInstances, toWalk[i], Classify(toWalk[i], t));
    forall oid
      ensures Saved(after, oid) == InstancesAt(toWalk[..i + 1], t, oid)
    {
      assert toWalk[..i + 1][..i] == toWalk[..i];
      assert Saved(tableInstances, oid) == InstancesAt(toWalk[..i], t, oid);
    }
  }

  function LookupKeysFor(ms: seq<Metric>, tableInstances: map<string, seq<string>>): set<string> {
    UnionOf((m: Metric) => LookupKeys(m.lookups, Saved(tableInstances, m.oid)), ms)
  }

  function TypeKeysFor(ms: seq<Metric>, names: map<string, Tree>,
          tableInstances: map<string, seq<string>>): set<string> {
    UnionOf((m: Metric) => TypeKeys(m, names, Saved(tableInstances, m.oid)), ms)
  }

  lemma {:induction false} UnionOfSame<A, B>(f: A -> set<B>, g: A -> set<B>, s: seq<A>)
    requires forall x :: x in s ==> f(x) == g(x)
    ensures UnionOf(f, s) == UnionOf(g, s)
  {
    if s != [] { UnionOfSame(f, g, s[..|s| - 1]); }
  }

  lemma KeysForSaved(ms: seq<Metric>, tableInstances: map<string, seq<string>>, toWalk: seq<string>, t: Tree)
    requires SavesInstances(tableInstances, toWalk, t)
    ensures LookupKeysFor(ms, tableInstances) == AllLookupKeys(ms, toWalk, t)
    ensures TypeKeysFor(ms, NameToNode(t), tableInstances) == AllTypeKeys(ms, toWalk, t)
  {
    UnionOfSame((m: Metric) => LookupKeys(m.lookups, Saved(tableInstances, m.oid)),
                (m: Metric) => LookupKeys(m.lookups, InstancesAt(toWalk, t, m.oid)), ms);
    UnionOfSame((m: Metric) => TypeKeys(m, NameToNode(t), Saved(tableInstances, m.oid)),
                (m: Metric) => TypeKeys(m, NameToNode(t), InstancesAt(toWalk, t, m.oid)), ms);
  }

  lemma LookupKeysAppend(ms: seq<Metric>, i: nat, tableInstances: map<string, seq<string>>)
    requires i < |ms|
    ensures LookupKeysFor(ms[..i + 1], tableInstances) ==
      LookupKeysFor(ms[..i], tableInstances) + LookupKeys(ms[i].lookups, Saved(tableInstances, ms[i].oid))
  {
    assert ms[..i + 1] == ms[..i] + [ms[i]];
    UnionOfAppend((m: Metric) => LookupKeys(m.lookups, Saved(tableInstances, m.oid)), ms[..i], ms[i]);
  }

  lemma {:induction false} SameKeys(a: seq<Metric>, b: seq<Metric>, tableInstances: map<string, seq<string>>)
    requires |a| == |b| && forall i :: 0 <= i < |a| ==> a[i].oid == b[i].oid && a[i].lookups == b[i].lookups
    ensures LookupKeysFor(a, tableInstances) == LookupKeysFor(b, tableInstances)
  {
    if a != [] { SameKeys(a[..|a| - 1], b[..|b| - 1], tableInstances); }
  }

  function CheckTypes(ms: seq<Metric>, names: map<string, Tree>): (r: seq<Metric>)
    ensures |r| == |ms|
  {
    if ms == [] then [] else CheckTypes(ms[..|ms| - 1], names) + [CheckType(ms[|ms| - 1], names)]
  }

  lemma CheckTypesAppend(ms: seq<Metric>, i: nat, names: map<string, Tree>, tableInstances: map<string, seq<string>>)
    requires i < |ms|
    ensures var m := CheckType(ms[i], names); var done := CheckTypes(ms[..i], names);
      CheckTypes(ms[..i + 1], names) == done + [m] &&
      TypeKeysFor(done + [m], names, tableInstances) ==
        TypeKeysFor(done, names, tableInstances) + TypeKeys(m, names, Saved(tableInstances, m.oid))
  {
    assert ms[..i + 1][..i] == ms[..i];
    UnionOfAppend((m: Metric) => TypeKeys(m, names, Saved(tableInstances, m.oid)), CheckTypes(ms[..i], names), CheckType(ms[i], names));
  }

  lemma {:induction false} CheckTypesAt(ms: seq<Metric>, i: nat, names: map<string, Tree>)
    requires i < |ms|
    ensures CheckTypes(ms, names)[i] == CheckType(ms[i], names)
  {
    if i < |ms| - 1 { CheckTypesAt(ms[..|ms| - 1], i, names); }
  }

  lemma {:induction false} CheckTypesKeys(ms: seq<Metric>, names: map<string, Tree>,
          tableInstances: map<string, seq<string>>)
    ensures LookupKeysFor(CheckTypes(ms, names), tableInstances) == LookupKeysFor(ms, tableInstances)
  {
    if ms != [] {
      CheckTypesKeys(ms[..|ms| - 1], names, tableInstances);
      assert CheckTypes(ms, names)[..|ms| - 1] == CheckTypes(ms[..|ms| - 1], names);
    }
  }

  /** The error of an applicable lookup: its name is unknown, or a node it may stand for has an unsupported type. */
  ghost predicate FailsOn(o: Outcome, metric: Metric, lookup: LookupConfig, names: map<string, Tree>) {
    HasAllRequiredIndexes(metric, lookup) &&
    if lookup.lookup !in names
    then o == UnknownLookup(lookup.lookup)
    else o == UnknownLookupType(lookup.lookup) && MayHaveBadType(lookup.lookup, names, metric.oid)
  }

  ghost predicate MayHaveBadType(lookup: string, names: map<string, Tree>, oid: string) {
    exists node :: IsIndexNode(lookup, names, oid, node) && MetricType(node.typ).None?
  }

  /** The state of the lookup loop after `k` configured lookups. */
  ghost predicate LookedUpTo(base: Metric, cfg: Config, t: Tree, k: nat, chosen: seq<Tree>, metric: Metric,
          toDelete: seq<string>) {
    var required := GetRequiredIndexes(cfg.lookups);
    k <= |cfg.lookups| && |chosen| == k && metric.oid == base.oid &&
    metric == RunLookups(base, cfg.lookups[..k], chosen, required) &&
    toDelete == ToDelete(base, cfg.lookups[..k], chosen, required) &&
    forall j :: 0 <= j < k && Applied(base, cfg.lookups[..k], chosen, required, j) ==>
      ChosenFor(cfg.lookups[j].lookup, t, base.oid, chosen[j])
  }

  /** One more configured lookup does not change which of the earlier ones apply. */
  lemma AppliedSame(base: Metric, cfg: Config, chosen: seq<Tree>, node: Tree, k: nat, j: nat)
    requires j < k < |cfg.lookups| && |chosen| == k
    ensures var required := GetRequiredIndexes(cfg.lookups);
      Applied(base, cfg.lookups[..k + 1], chosen + [node], required, j) == Applied(base, cfg.lookups[..k], chosen, required, j)
  {
    assert cfg.lookups[..k + 1][..j] == cfg.lookups[..k][..j] && (chosen + [node])[..j] == chosen[..j];
  }

  /** The keys that an applied lookup adds. */
  lemma LookupAddsKeys(metric: Metric, lookup: LookupConfig, node: Tree, required: seq<string>, instances: seq<string>)
    requires node.oid != ""
    ensures LookupKeys(ApplyLookup(metric, lookup, node, required).lookups, instances) ==
      LookupKeys(metric.lookups, instances) + ColumnKeys(node.oid, instances)
  {
    UnionOfAppend(l => LookupKey(l, instances), metric.lookups, MakeLookup(lookup, node));
  }

  /** The run over one more configured lookup. */
  lemma RunNext(base: Metric, cfg: Config, chosen: seq<Tree>, node: Tree, k: nat)
    requires k < |cfg.lookups| && |chosen| == k
    ensures var required := GetRequiredIndexes(cfg.lookups);
      var before := RunLookups(base, cfg.lookups[..k], chosen, required);
      var applies := HasAllRequiredIndexes(before, cfg.lookups[k]);
      RunLookups(base, cfg.lookups[..k + 1], chosen + [node], required) ==
        (if applies then ApplyLookup(before, cfg.lookups[k], node, required) else before) &&
      Applied(base, cfg.lookups[..k + 1], chosen + [node], required, k) == applies &&
      ToDelete(base, cfg.lookups[..k + 1], chosen + [node], required) ==
        ToDelete(base, cfg.lookups[..k], chosen, required) +
        if applies && cfg.lookups[k].dropSourceIndexes then cfg.lookups[k].sourceIndexes else []
  {
    assert cfg.lookups[..k + 1][..k] == cfg.lookups[..k] && (chosen + [node])[..k] == chosen;
  }

  lemma LookedUpStep(base: Metric, cfg: Config, t: Tree, k: nat, chosen: seq<Tree>, metric: Metric,
          toDelete: seq<string>,
          node: Tree, instances: seq<string>)
    requires LookedUpTo(base, cfg, t, k, chosen, metric, toDelete) && k < |cfg.lookups|
    requires HasAllRequiredIndexes(metric, cfg.lookups[k]) ==>
      ChosenFor(cfg.lookups[k].lookup, t, base.oid, node) && node.oid != ""
    ensures var applies := HasAllRequiredIndexes(metric, cfg.lookups[k]); var required := GetRequiredIndexes(cfg.lookups);
      var m := if applies then ApplyLookup(metric, cfg.lookups[k], node, required) else metric;
      LookedUpTo(base, cfg, t, k + 1, chosen + [node], m,
                 toDelete + if applies && cfg.lookups[k].dropSourceIndexes then cfg.lookups[k].sourceIndexes else []) &&
      LookupKeys(m.lookups, instances) == LookupKeys(metric.lookups, instances) + if applies then ColumnKeys(node.oid, instances) else {}
  {
    var required := GetRequiredIndexes(cfg.lookups);
    RunNext(base, cfg, chosen, node, k);
    forall j | 0 <= j < k
      ensures Applied(base, cfg.lookups[..k + 1], chosen + [node], required, j) == Applied(base, cfg.lookups[..k], chosen, required, j)
    {
      AppliedSame(base, cfg, chosen, node, k, j);
    }
    if HasAllRequiredIndexes(metric, cfg.lookups[k]) { LookupAddsKeys(metric, cfg.lookups[k], node, required, instances); }
  }

  lemma LookedUpAll(base: Metric, cfg: Config, t: Tree, chosen: seq<Tree>, metric: Metric, toDelete: seq<string>,
          instances: seq<string>)
    requires LookedUpTo(base, cfg, t, |cfg.lookups|, chosen, metric, toDelete)
    ensures var m := metric.(lookups := metric.lookups + DropLookups(toDelete));
      ValidChoices(base, cfg, t, chosen) && m == FinishLookups(base, cfg.lookups, chosen) &&
      LookupKeys(m.lookups, instances) == LookupKeys(metric.lookups, instances)
  {
    assert cfg.lookups[..|cfg.lookups|] == cfg.lookups;
    DropsAddNoKeys(metric.lookups, toDelete, |toDelete|, instances);
    assert DropLookups(toDelete)[..|toDelete|] == DropLookups(toDelete);
  }

  lemma {:induction false} DropsAddNoKeys(ls: seq<Lookup>, toDelete: seq<string>, k: nat, instances: seq<string>)
    requires k <= |toDelete|
    ensures LookupKeys(ls + DropLookups(toDelete)[..k], instances) == LookupKeys(ls, instances)
  {
    if k == 0 {
      assert ls + DropLookups(toDelete)[..0] == ls;
    } else {
      var all := ls + DropLookups(toDelete)[..k];
      assert all[..|all| - 1] == ls + DropLookups(toDelete)[..k - 1];
      DropsAddNoKeys(ls, toDelete, k - 1, instances);
    }
  }
}
