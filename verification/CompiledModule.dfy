/** What the compiled module contains, and the properties of every module that is built that way. */
module CompiledModule {
  import opened ByteStrings
  import opened Minimize
  import opened Oids
  import opened FetchSet
  import opened MibTree
  import opened IndexCollapse
  import opened Lookups
  import opened WalkPlan

  datatype Override = Override(ignore: bool, typ: string)

  datatype Config = Config(walk: seq<string>, lookups: seq<LookupConfig>, overrides: map<string, Override>)

  // --- sequences ---

  function FlatMap<A, B>(f: A -> seq<B>, s: seq<A>): seq<B> {
    if s == [] then [] else f(s[0]) + FlatMap(f, s[1..])
  }

  lemma {:induction false} FlatMapConcat<A, B>(f: A -> seq<B>, a: seq<A>, b: seq<A>)
    ensures FlatMap(f, a + b) == FlatMap(f, a) + FlatMap(f, b)
  {
    if a == [] {
      assert a + b == b;
    } else {
      assert (a + b)[1..] == a[1..] + b;
      FlatMapConcat(f, a[1..], b);
    }
  }

  lemma {:induction false} FlatMapMember<A, B>(f: A -> seq<B>, s: seq<A>, y: B) returns (x: A)
    requires y in FlatMap(f, s)
    ensures x in s && y in f(x)
  {
    if y in f(s[0]) {
      x := s[0];
    } else {
      x := FlatMapMember(f, s[1..], y);
    }
  }

  lemma {:induction false} FlatMapHas<A, B>(f: A -> seq<B>, s: seq<A>, x: A, y: B)
    requires x in s && y in f(x)
    ensures y in FlatMap(f, s)
  {
    if x != s[0] { FlatMapHas(f, s[1..], x, y); }
  }

  function UnionOf<A, B>(f: A -> set<B>, s: seq<A>): set<B> {
    if s == [] then {} else UnionOf(f, s[..|s| - 1]) + f(s[|s| - 1])
  }

  lemma UnionOfAppend<A, B>(f: A -> set<B>, s: seq<A>, x: A)
    ensures UnionOf(f, s + [x]) == UnionOf(f, s) + f(x)
  {
    assert (s + [x])[..|s|] == s;
  }

  lemma {:induction false} UnionOfMember<A, B>(f: A -> set<B>, s: seq<A>, y: B)
    ensures y in UnionOf(f, s) <==> exists x :: x in s && y in f(x)
  {
    if s != [] {
      UnionOfMember(f, s[..|s| - 1], y);
      assert s == s[..|s| - 1] + [s[|s| - 1]];
    }
  }

  // --- metrics ---

  /** What the walk does at a node: a metric, nothing, or an index list that cannot be sliced. */
  datatype Emission = Emitted(metric: Metric) | Omitted | Panics

  function IndexesOf(kept: seq<Item>): (indexes: seq<Index>)
    ensures |indexes| == |kept|
  {
    seq(|kept|, i requires 0 <= i < |kept| => kept[i].index)
  }

  function Ignored(name: string, overrides: map<string, Override>): bool {
    name in overrides && overrides[name].ignore
  }

  function Emit(n: Tree, names: map<string, Tree>, overrides: map<string, Override>): Emission {
    var name := SanitizeLabelName(n.name);
    if !Usable(n) || Ignored(name, overrides) then Omitted else
      match Run(ResolveAll(n, names))
      case Collapsed(kept) => Emitted(Metric(name, n.oid, MetricType(n.typ).value, IndexesOf(kept), [], n.enumValues))
      case Skipped => Omitted
      case OutOfRange => Panics
  }

  function EmittedBy(n: Tree, names: map<string, Tree>, overrides: map<string, Override>): seq<Metric> {
    var e := Emit(n, names, overrides);
    if e.Emitted? then [e.metric] else []
  }

  /** The metrics of the nodes `ns`, in order. */
  function MetricsOf(ns: seq<Tree>, names: map<string, Tree>, overrides: map<string, Override>): seq<Metric> {
    FlatMap(n => EmittedBy(n, names, overrides), ns)
  }

  /** The nodes of `ns` whose index lists cannot be sliced. */
  function Panicking(ns: seq<Tree>, names: map<string, Tree>, overrides: map<string, Override>): seq<Tree> {
    FlatMap((n: Tree) => if Emit(n, names, overrides).Panics? then [n] else [], ns)
  }

  predicate NoPanic(ns: seq<Tree>, names: map<string, Tree>, overrides: map<string, Override>) {
    Panicking(ns, names, overrides) == []
  }

  lemma MetricsOfConcat(a: seq<Tree>, b: seq<Tree>, names: map<string, Tree>, overrides: map<string, Override>)
    ensures MetricsOf(a + b, names, overrides) == MetricsOf(a, names, overrides) + MetricsOf(b, names, overrides)
    ensures NoPanic(a + b, names, overrides) <==> NoPanic(a, names, overrides) && NoPanic(b, names, overrides)
  {
    FlatMapConcat(n => EmittedBy(n, names, overrides), a, b);
    FlatMapConcat((n: Tree) => if Emit(n, names, overrides).Panics? then [n] else [], a, b);
  }

  lemma SingleNode(n: Tree, names: map<string, Tree>, overrides: map<string, Override>)
    ensures MetricsOf([n], names, overrides) == EmittedBy(n, names, overrides)
    ensures NoPanic([n], names, overrides) <==> !Emit(n, names, overrides).Panics?
  {
    assert [n][1..] == [];
    assert FlatMap(n => EmittedBy(n, names, overrides), [n][1..]) == [];
    assert FlatMap((n: Tree) => if Emit(n, names, overrides).Panics? then [n] else [], [n][1..]) == [];
  }

  /** A node at which the walk panics: it would be a metric, and its index list cannot be sliced. */
  ghost predicate Crashes(n: Tree, names: map<string, Tree>, overrides: map<string, Override>) {
    Usable(n) && !Ignored(SanitizeLabelName(n.name), overrides) && Unsliceable(n, names)
  }

  /** A walk panics exactly when it meets such a node. */
  lemma PanicsExactly(ns: seq<Tree>, names: map<string, Tree>, overrides: map<string, Override>)
    ensures !NoPanic(ns, names, overrides) <==> exists n :: n in ns && Crashes(n, names, overrides)
  {
    var panics := (n: Tree) => if Emit(n, names, overrides).Panics? then [n] else [];
    forall n
      ensures Emit(n, names, overrides).Panics? <==> Crashes(n, names, overrides)
    {
      UnsliceableExactly(n, names);
    }
    if !NoPanic(ns, names, overrides) {
      var n := FlatMapMember(panics, ns, Panicking(ns, names, overrides)[0]);
    }
    if n :| n in ns && Crashes(n, names, overrides) {
      FlatMapHas(panics, ns, n, n);
    }
  }

  /** A metric stands for a usable node and carries its OID. */
  lemma MetricSource(ns: seq<Tree>, names: map<string, Tree>, overrides: map<string, Override>, m: Metric)
          returns (n: Tree)
    requires m in MetricsOf(ns, names, overrides)
    ensures n in ns && Usable(n) && Emit(n, names, overrides) == Emitted(m) && m.oid == n.oid && m.lookups == []
  {
    n := FlatMapMember(n => EmittedBy(n, names, overrides), ns, m);
  }

  lemma MetricEmitted(ns: seq<Tree>, names: map<string, Tree>, overrides: map<string, Override>, n: Tree)
    requires n in ns && Emit(n, names, overrides).Emitted?
    ensures Emit(n, names, overrides).metric in MetricsOf(ns, names, overrides)
  {
    FlatMapHas(n => EmittedBy(n, names, overrides), ns, n, Emit(n, names, overrides).metric);
  }

  ghost predicate DistinctOids(ns: seq<Tree>) {
    forall i, j :: 0 <= i < j < |ns| ==> ns[i].oid != ns[j].oid
  }

  ghost predicate DistinctMetrics(ms: seq<Metric>) {
    forall i, j :: 0 <= i < j < |ms| ==> ms[i].oid != ms[j].oid
  }

  lemma {:induction false} DistinctNodesDistinctMetrics(ns: seq<Tree>, names: map<string, Tree>,
          overrides: map<string, Override>)
    requires DistinctOids(ns)
    ensures DistinctMetrics(MetricsOf(ns, names, overrides))
  {
    if ns != [] {
      var first, rest := EmittedBy(ns[0], names, overrides), MetricsOf(ns[1..], names, overrides);
      assert MetricsOf(ns, names, overrides) == first + rest;
      DistinctNodesDistinctMetrics(ns[1..], names, overrides);
      forall m | m in rest
        ensures m.oid != ns[0].oid
      {
        var n := MetricSource(ns[1..], names, overrides, m);
      }
    }
  }

  // --- the metric nodes ---

  ghost function MetricNodes(toWalk: seq<string>, t: Tree): set<Tree>
    requires forall w :: w in toWalk ==> !Classify(w, t).OidNotFound?
  {
    set w | w in toWalk :: Classify(w, t).node
  }

  /** The metric nodes in the order in which they are processed: by OID, as strings. */
  ghost predicate SortedMetricNodes(nodes: seq<Tree>, toWalk: seq<string>, t: Tree) {
    (forall w :: w in toWalk ==> !Classify(w, t).OidNotFound?) &&
    Elements(nodes) == MetricNodes(toWalk, t) && SortedBy((n: Tree) => n.oid, nodes) && NoDuplicates(nodes)
  }

  /** No column has a metric below it: a node of the tree that is walked by its instances is the only one in its
      subtree that emits a metric. */
  ghost predicate ColumnsEmitAlone(t: Tree, overrides: map<string, Override>) {
    forall m, n :: m in Preorder(t) && n in Preorder(m) && UnderColumn(m, n) ==>
      !Emit(n, NameToNode(t), overrides).Emitted?
  }

  /** No node that emits a metric lies below two of the nodes. */
  ghost predicate Apart(nodes: seq<Tree>, names: map<string, Tree>, overrides: map<string, Override>) {
    forall i, j :: 0 <= i < j < |nodes| ==> ApartFrom(nodes[i], nodes[j], names, overrides)
  }

  ghost predicate ApartFrom(a: Tree, b: Tree, names: map<string, Tree>, overrides: map<string, Override>) {
    forall m, n :: m in Preorder(a) && n in Preorder(b) && m.oid == n.oid ==> !Emit(n, names, overrides).Emitted?
  }

  lemma NodesInTree(t: Tree, entries: seq<string>, toWalk: seq<string>, nodes: seq<Tree>)
    requires Plan(t, entries, toWalk) && SortedMetricNodes(nodes, toWalk, t)
    ensures forall i :: 0 <= i < |nodes| ==> nodes[i] in Preorder(t)
  {
    forall i | 0 <= i < |nodes|
      ensures nodes[i] in Preorder(t)
    {
      var w := EntryOf(t, toWalk, nodes, i);
      var n := EntryPlanned(t, entries, toWalk, w);
    }
  }

  lemma NodesApart(t: Tree, cfg: Config, toWalk: seq<string>, nodes: seq<Tree>)
    requires Plan(t, cfg.walk, toWalk) && SortedMetricNodes(nodes, toWalk, t) && ColumnsEmitAlone(t, cfg.overrides)
    ensures Apart(nodes, NameToNode(t), cfg.overrides)
  {
    NodesInTree(t, cfg.walk, toWalk, nodes);
    forall i, j | 0 <= i < j < |nodes|
      ensures ApartFrom(nodes[i], nodes[j], NameToNode(t), cfg.overrides)
    {
      forall m, n | m in Preorder(nodes[i]) && n in Preorder(nodes[j]) && m.oid == n.oid
        ensures !Emit(n, NameToNode(t), cfg.overrides).Emitted?
      {
        SharedNode(t, cfg, toWalk, nodes, i, j, m, n);
      }
    }
  }

  lemma SharedNode(t: Tree, cfg: Config, toWalk: seq<string>, nodes: seq<Tree>, i: nat, j: nat, m: Tree, n: Tree)
    requires Plan(t, cfg.walk, toWalk) && SortedMetricNodes(nodes, toWalk, t) && i < j < |nodes|
    requires nodes[i] in Preorder(t) && nodes[j] in Preorder(t) && ColumnsEmitAlone(t, cfg.overrides)
    requires m in Preorder(nodes[i]) && n in Preorder(nodes[j]) && m.oid == n.oid
    ensures !Emit(n, NameToNode(t), cfg.overrides).Emitted?
  {
    var v := EntryOf(t, toWalk, nodes, i);
    var w := EntryOf(t, toWalk, nodes, j);
    SubtreeWithin(t, nodes[i], m);
    SubtreeWithin(t, nodes[j], n);
    SameOidSameNode(t, [t.subid], m, n);
    MetricNodesApart(t, cfg.walk, toWalk, v, w, n);
    if UnderColumn(nodes[i], nodes[j]) {
      BelowUnder(t, nodes[i], nodes[j], n);
    } else {
      BelowUnder(t, nodes[j], nodes[i], n);
    }
  }

  lemma BelowUnder(t: Tree, m: Tree, k: Tree, n: Tree)
    requires IsTree(t) && m in Preorder(t) && UnderColumn(m, k) && n in Preorder(k)
    ensures UnderColumn(m, n)
  {
    SubtreeWithin(m, k, n);
    if n == m {
      Below(t, [t.subid], m);
      Below(m, PathOf(m), k);
      Below(k, PathOf(k), m);
      CoversAntisymmetric(m.oid, k.oid);
      SubtreeWithin(t, m, k);
      SameOidSameNode(t, [t.subid], m, k);
    }
  }

  lemma EntryOf(t: Tree, toWalk: seq<string>, nodes: seq<Tree>, i: nat) returns (w: string)
    requires SortedMetricNodes(nodes, toWalk, t) && i < |nodes|
    ensures w in toWalk && Classify(w, t).node == nodes[i]
  {
    assert nodes[i] in MetricNodes(toWalk, t);
    w :| w in toWalk && Classify(w, t).node == nodes[i];
  }

  lemma {:induction false} ApartSubtreesDistinct(t: Tree, nodes: seq<Tree>, names: map<string, Tree>,
          overrides: map<string, Override>)
    requires IsTree(t) && Apart(nodes, names, overrides) && forall i :: 0 <= i < |nodes| ==> nodes[i] in Preorder(t)
    ensures DistinctMetrics(MetricsOf(PreorderAll(nodes), names, overrides))
  {
    if nodes != [] {
      var first, rest := Preorder(nodes[0]), PreorderAll(nodes[1..]);
      Below(t, [t.subid], nodes[0]);
      OidsDistinct(nodes[0], PathOf(nodes[0]));
      DistinctNodesDistinctMetrics(first, names, overrides);
      ApartSubtreesDistinct(t, nodes[1..], names, overrides);
      MetricsOfConcat(first, rest, names, overrides);
      forall a, b | a in MetricsOf(first, names, overrides) && b in MetricsOf(rest, names, overrides)
        ensures a.oid != b.oid
      {
        FirstApart(nodes, names, overrides, a, b);
      }
      DistinctConcat(MetricsOf(first, names, overrides), MetricsOf(rest, names, overrides));
    }
  }

  lemma FirstApart(nodes: seq<Tree>, names: map<string, Tree>, overrides: map<string, Override>, a: Metric, b: Metric)
    requires nodes != [] && Apart(nodes, names, overrides)
    requires a in MetricsOf(Preorder(nodes[0]), names, overrides) &&
      b in MetricsOf(PreorderAll(nodes[1..]), names, overrides)
    ensures a.oid != b.oid
  {
    var m := MetricSource(Preorder(nodes[0]), names, overrides, a);
    var n := MetricSource(PreorderAll(nodes[1..]), names, overrides, b);
    InSubtrees(nodes[1..], n);
    var i :| 0 <= i < |nodes[1..]| && n in Preorder(nodes[1..][i]);
    assert ApartFrom(nodes[0], nodes[i + 1], names, overrides);
  }

  lemma DistinctConcat(a: seq<Metric>, b: seq<Metric>)
    requires DistinctMetrics(a) && DistinctMetrics(b) && forall m, n :: m in a && n in b ==> m.oid != n.oid
    ensures DistinctMetrics(a + b)
  {}

  // --- lookups and types ---

  /** The choices made for the applied lookups of a metric are ones getIndexNode can make, of a supported type. */
  ghost predicate ValidChoices(metric: Metric, cfg: Config, t: Tree, chosen: seq<Tree>) {
    |chosen| == |cfg.lookups| &&
    forall k :: 0 <= k < |chosen| && Applied(metric, cfg.lookups, chosen, GetRequiredIndexes(cfg.lookups), k) ==>
      ChosenFor(cfg.lookups[k].lookup, t, metric.oid, chosen[k])
  }

  ghost predicate ChosenFor(lookup: string, t: Tree, oid: string, node: Tree) {
    lookup in NameToNode(t) && IsIndexNode(lookup, NameToNode(t), oid, node) && MetricType(node.typ).Some?
  }

  function SanitizeMetric(m: Metric): Metric {
    m.(indexes := SanitizeIndexes(m.indexes))
  }

  predicate IsTypedAddress(m: Metric) {
    m.typ == "InetAddress" || m.typ == "InetAddressMissingSize"
  }

  /** strconv.Atoi with its error dropped. */
  function AtoiOrZero(s: string): nat {
    if AllDigits(s) then Atoi(s) else 0
  }

  function LastPart(oid: string): string {
    var parts := Split(oid);
    parts[|parts| - 1]
  }

  function OneLess(part: string): string {
    Itoa(AtoiOrZero(part) - 1)
  }

  /** The OID whose last arc is one less. */
  function PrevOid(oid: string): string {
    WithLast(oid, OneLess(LastPart(oid)))
  }

  predicate HasTypeSibling(m: Metric, names: map<string, Tree>) {
    PrevOid(m.oid) in names && names[PrevOid(m.oid)].textualConvention == "InetAddressType"
  }

  function CheckType(m: Metric, names: map<string, Tree>): Metric {
    if IsTypedAddress(m) && !HasTypeSibling(m, names) then m.(typ := "OctetString") else m
  }

  /** The finished form of a metric that the walk emitted. */
  ghost predicate Finished(base: Metric, cfg: Config, t: Tree, m: Metric) {
    exists chosen: seq<Tree> :: ValidChoices(base, cfg, t, chosen) && FinishedWith(base, cfg, t, chosen, m)
  }

  predicate FinishedWith(base: Metric, cfg: Config, t: Tree, chosen: seq<Tree>, m: Metric) {
    |chosen| == |cfg.lookups| && m == CheckType(SanitizeMetric(FinishLookups(base, cfg.lookups, chosen)), NameToNode(t))
  }

  // --- fetch keys ---

  /** A column for all its instances, or for the saved ones. */
  function ColumnKeys(oid: string, instances: seq<string>): set<string> {
    if |instances| > 0 then set s | s in instances :: oid + s + "." else {oid}
  }

  function LookupKey(l: Lookup, instances: seq<string>): set<string> {
    if l.oid == "" then {} else ColumnKeys(l.oid, instances)
  }

  function LookupKeys(lookups: seq<Lookup>, instances: seq<string>): set<string> {
    UnionOf(l => LookupKey(l, instances), lookups)
  }

  function TypeKeys(m: Metric, names: map<string, Tree>, instances: seq<string>): set<string> {
    if IsTypedAddress(m) && HasTypeSibling(m, names) then ColumnKeys(PrevOid(m.oid), instances) else {}
  }

  ghost function BaseKeys(toWalk: seq<string>, t: Tree): set<string> {
    set w | w in toWalk :: WalkKey(w, Classify(w, t))
  }

  ghost function AllLookupKeys(ms: seq<Metric>, toWalk: seq<string>, t: Tree): set<string> {
    UnionOf((m: Metric) => LookupKeys(m.lookups, InstancesAt(toWalk, t, m.oid)), ms)
  }

  ghost function AllTypeKeys(ms: seq<Metric>, toWalk: seq<string>, t: Tree): set<string> {
    UnionOf((m: Metric) => TypeKeys(m, NameToNode(t), InstancesAt(toWalk, t, m.oid)), ms)
  }

  /** Everything the module needs: the walk entries, the lookup columns and the address-type columns. */
  ghost function FetchKeys(ms: seq<Metric>, toWalk: seq<string>, t: Tree): set<string> {
    BaseKeys(toWalk, t) + AllLookupKeys(ms, toWalk, t) + AllTypeKeys(ms, toWalk, t)
  }

  lemma AllLookupKeysMember(ms: seq<Metric>, toWalk: seq<string>, t: Tree, key: string)
    ensures key in AllLookupKeys(ms, toWalk, t) <==>
      exists m :: m in ms && key in LookupKeys(m.lookups, InstancesAt(toWalk, t, m.oid))
  {
    UnionOfMember((m: Metric) => LookupKeys(m.lookups, InstancesAt(toWalk, t, m.oid)), ms, key);
  }

  lemma AllTypeKeysMember(ms: seq<Metric>, toWalk: seq<string>, t: Tree, key: string)
    ensures key in AllTypeKeys(ms, toWalk, t) <==>
      exists m :: m in ms && key in TypeKeys(m, NameToNode(t), InstancesAt(toWalk, t, m.oid))
  {
    UnionOfMember((m: Metric) => TypeKeys(m, NameToNode(t), InstancesAt(toWalk, t, m.oid)), ms, key);
  }

  lemma LookupKeysMember(lookups: seq<Lookup>, instances: seq<string>, key: string)
    ensures key in LookupKeys(lookups, instances) <==>
      exists l :: l in lookups && l.oid != "" && key in ColumnKeys(l.oid, instances)
  {
    UnionOfMember(l => LookupKey(l, instances), lookups, key);
  }

  // --- the compiled module ---

  /** The metrics of a plan before lookups. */
  ghost function BaseMetrics(t: Tree, cfg: Config, nodes: seq<Tree>): seq<Metric> {
    MetricsOf(PreorderAll(nodes), NameToNode(t), cfg.overrides)
  }

  /** The metrics are the base metrics, each in its finished form. */
  ghost predicate MetricsFrom(t: Tree, cfg: Config, nodes: seq<Tree>, metrics: seq<Metric>) {
    |metrics| == |BaseMetrics(t, cfg, nodes)| &&
    forall i :: 0 <= i < |metrics| ==> Finished(BaseMetrics(t, cfg, nodes)[i], cfg, t, metrics[i])
  }

  /** A module as generateConfigModule leaves it. */
  ghost predicate Compiled(t: Tree, cfg: Config, toWalk: seq<string>, nodes: seq<Tree>, metrics: seq<Metric>,
          get: seq<string>, walk: seq<string>) {
    Plan(t, cfg.walk, toWalk) && SortedMetricNodes(nodes, toWalk, t) &&
    MetricsFrom(t, cfg, nodes, metrics) &&
    SplitsMinimal(FetchKeys(metrics, toWalk, t), get, walk)
  }

  lemma BaseMetricsDistinct(t: Tree, cfg: Config, toWalk: seq<string>, nodes: seq<Tree>)
    requires Plan(t, cfg.walk, toWalk) && SortedMetricNodes(nodes, toWalk, t) && ColumnsEmitAlone(t, cfg.overrides)
    ensures DistinctMetrics(BaseMetrics(t, cfg, nodes))
  {
    NodesInTree(t, cfg.walk, toWalk, nodes);
    NodesApart(t, cfg, toWalk, nodes);
    ApartSubtreesDistinct(t, nodes, NameToNode(t), cfg.overrides);
  }

  /** No metric is generated twice. */
  lemma NoMetricTwice(t: Tree, cfg: Config, toWalk: seq<string>, nodes: seq<Tree>, metrics: seq<Metric>,
          get: seq<string>, walk: seq<string>)
    requires Compiled(t, cfg, toWalk, nodes, metrics, get, walk) && ColumnsEmitAlone(t, cfg.overrides)
    ensures DistinctMetrics(metrics)
  {
    BaseMetricsDistinct(t, cfg, toWalk, nodes);
    forall i | 0 <= i < |metrics|
      ensures metrics[i].oid == BaseMetrics(t, cfg, nodes)[i].oid
    {
      var chosen := FinishedKeepsOid(BaseMetrics(t, cfg, nodes)[i], cfg, t, metrics[i]);
    }
  }

  lemma {:induction false} RunKeeps(metric: Metric, lookups: seq<LookupConfig>, chosen: seq<Tree>,
          required: seq<string>)
    requires |chosen| == |lookups|
    ensures var m := RunLookups(metric, lookups, chosen, required);
      m.oid == metric.oid && m.typ == metric.typ && m.name == metric.name && m.enumValues == metric.enumValues
  {
    if lookups != [] {
      RunKeeps(metric, lookups[..|lookups| - 1], chosen[..|lookups| - 1], required);
    }
  }

  lemma FinishedKeepsOid(base: Metric, cfg: Config, t: Tree, m: Metric) returns (chosen: seq<Tree>)
    requires Finished(base, cfg, t, m)
    ensures ValidChoices(base, cfg, t, chosen) && FinishedWith(base, cfg, t, chosen, m)
    ensures m.oid == base.oid && m.lookups == FinishLookups(base, cfg.lookups, chosen).lookups
  {
    chosen :| ValidChoices(base, cfg, t, chosen) && FinishedWith(base, cfg, t, chosen, m);
    RunKeeps(base, cfg.lookups, chosen, GetRequiredIndexes(cfg.lookups));
  }

  /** The node, the entry and the base metric behind a finished metric. */
  lemma MetricOrigin(t: Tree, cfg: Config, toWalk: seq<string>, nodes: seq<Tree>, metrics: seq<Metric>,
          get: seq<string>, walk: seq<string>, m: Metric)
    returns (w: string, n: Tree, base: Metric)
    requires Compiled(t, cfg, toWalk, nodes, metrics, get, walk) && m in metrics
    ensures w in toWalk && n in Preorder(Classify(w, t).node) && n in Preorder(t) && Usable(n) && m.oid == n.oid
    ensures Emit(n, NameToNode(t), cfg.overrides).Emitted?
    ensures base in BaseMetrics(t, cfg, nodes) && Finished(base, cfg, t, m) && base.lookups == []
  {
    var i :| 0 <= i < |metrics| && metrics[i] == m;
    base := BaseMetrics(t, cfg, nodes)[i];
    var chosen := FinishedKeepsOid(base, cfg, t, m);
    n := MetricSource(PreorderAll(nodes), NameToNode(t), cfg.overrides, base);
    InSubtrees(nodes, n);
    var k :| 0 <= k < |nodes| && n in Preorder(nodes[k]);
    w := EntryOf(t, toWalk, nodes, k);
    NodesInTree(t, cfg.walk, toWalk, nodes);
    SubtreeWithin(t, nodes[k], n);
  }

  /** The lookups that read the tree name nodes of the tree. */
  lemma {:induction false} LookupNodes(base: Metric, cfg: Config, t: Tree, chosen: seq<Tree>, k: nat, l: Lookup)
    requires GoodTree(t) && ValidChoices(base, cfg, t, chosen) && k <= |chosen| && base.lookups == []
    requires l in RunLookups(base, cfg.lookups[..k], chosen[..k], GetRequiredIndexes(cfg.lookups)).lookups
    ensures exists n :: n in Preorder(t) && l.oid == n.oid
  {
    if k > 0 {
      var required := GetRequiredIndexes(cfg.lookups);
      if l in RunLookups(base, cfg.lookups[..k - 1], chosen[..k - 1], required).lookups {
        LookupNodes(base, cfg, t, chosen, k - 1, l);
      } else {
        LastLookup(base, cfg.lookups, chosen, required, k - 1, l);
        IndexNodeLabel(cfg.lookups[k - 1].lookup, t, base.oid, chosen[k - 1]);
      }
    }
  }

  lemma LastLookup(base: Metric, lookups: seq<LookupConfig>, chosen: seq<Tree>, required: seq<string>, k: nat,
          l: Lookup)
    requires |chosen| == |lookups| && k < |lookups|
    requires l in RunLookups(base, lookups[..k + 1], chosen[..k + 1], required).lookups
    requires l !in RunLookups(base, lookups[..k], chosen[..k], required).lookups
    ensures Applied(base, lookups, chosen, required, k) && l.oid == chosen[k].oid
  {
    assert lookups[..k + 1][..k] == lookups[..k] && chosen[..k + 1][..k] == chosen[..k];
  }

  lemma FinishedLookupNode(base: Metric, cfg: Config, t: Tree, m: Metric, l: Lookup) returns (n: Tree)
    requires GoodTree(t) && Finished(base, cfg, t, m) && base.lookups == [] && l in m.lookups && l.oid != ""
    ensures n in Preorder(t) && l.oid == n.oid
  {
    var chosen := FinishedKeepsOid(base, cfg, t, m);
    assert cfg.lookups[..|chosen|] == cfg.lookups && chosen[..|chosen|] == chosen;
    LookupNodes(base, cfg, t, chosen, |chosen|, l);
    n :| n in Preorder(t) && l.oid == n.oid;
  }

  /** The node at the previous OID is the preceding sibling. */
  lemma PrecedingSibling(t: Tree, n: Tree, key: string) returns (p: Tree)
    requires GoodTree(t) && n in Preorder(t) && key == PrevOid(n.oid) && key in NameToNode(t)
    ensures p == NameToNode(t)[key] && p in Preorder(t) && p.oid == key && Precedes(PathOf(p), PathOf(n))
  {
    NodePath(t, n);
    PrevOidRender(PathOf(n));
    RenderPrevIsNoName(PathOf(n));
    p := NamedByOid(t, key);
    PrevOidUnique(PathOf(n), PathOf(p));
  }

  predicate Precedes(p: Arcs, n: Arcs) {
    |p| == |n| > 0 && p[..|p| - 1] == n[..|n| - 1] && p[|p| - 1] + 1 == n[|n| - 1]
  }

  lemma NamedByOid(t: Tree, key: string) returns (p: Tree)
    requires GoodTree(t) && key in NameToNode(t) && key != "" && !IsLetter(key[0])
    ensures p == NameToNode(t)[key] && p in Preorder(t) && p.oid == key && PathOf(p) != [] && Render(PathOf(p)) == key
  {
    p := NameToNode(t)[key];
    NameToNodeSound(t, key);
    NodePath(t, p);
  }

  lemma NodePath(t: Tree, n: Tree)
    requires IsTree(t) && n in Preorder(t)
    ensures PathOf(n) != [] && n.oid == Render(PathOf(n)) && PathOf(n)[|PathOf(n)| - 1] <= MAX_INT
  {
    Below(t, [t.subid], n);
  }

  /** The previous OID of the node at `a`; its last component is "-1" when the last arc is 0. */
  function RenderPrev(a: Arcs): string
    requires a != []
  {
    var last: int := a[|a| - 1];
    (if |a| == 1 then "" else Render(a[..|a| - 1]) + ".") + Itoa(last - 1)
  }

  lemma PrevOidRender(a: Arcs)
    requires a != [] && a[|a| - 1] <= MAX_INT
    ensures PrevOid(Render(a)) == RenderPrev(a)
  {
    var last := a[|a| - 1];
    LastPartRender(a);
    OneLessDecimal(last);
    WithLastRender(a, OneLess(Decimal(last)));
  }

  lemma LastPartRender(a: Arcs)
    requires a != []
    ensures LastPart(Render(a)) == Decimal(a[|a| - 1])
  {
    SplitRender(a);
  }

  lemma OneLessDecimal(n: nat)
    requires n <= MAX_INT
    ensures OneLess(Decimal(n)) == Itoa(n as int - 1)
  {
    DecimalValue(n);
  }

  lemma RenderPrevIsNoName(a: Arcs)
    requires a != []
    ensures RenderPrev(a) != "" && !IsLetter(RenderPrev(a)[0])
  {
    var last: int := a[|a| - 1];
    if |a| == 1 {
      assert RenderPrev(a) == Itoa(last - 1);
      if last > 0 { assert IsDigit(Decimal(last - 1)[0]); }
    } else {
      assert RenderPrev(a)[0] == Render(a[..|a| - 1])[0];
    }
  }

  lemma PrevOidUnique(a: Arcs, b: Arcs)
    requires a != [] && b != [] && Render(b) == RenderPrev(a)
    ensures Precedes(b, a)
  {
    var front := if |a| == 1 then "" else Render(a[..|a| - 1]) + ".";
    if a[|a| - 1] == 0 {
      MinusNotRendered(b, front, Itoa(-1));
    } else {
      LowerRendered(a);
      RenderInjective(a[|a| - 1 := a[|a| - 1] - 1], b);
    }
  }

  lemma LowerRendered(a: Arcs)
    requires a != [] && a[|a| - 1] > 0
    ensures Render(a[|a| - 1 := a[|a| - 1] - 1]) == RenderPrev(a)
  {
    var c := a[|a| - 1 := a[|a| - 1] - 1];
    assert c[..|c| - 1] == a[..|a| - 1];
  }

  lemma MinusNotRendered(a: Arcs, front: string, key: string)
    requires a != [] && key != "" && key[0] == '-'
    ensures Render(a) != front + key
  {
    var s := front + key;
    assert s[|front|] == '-';
  }

  lemma ColumnKeysGood(t: Tree, n: Tree, instances: seq<string>)
    requires IsTree(t) && n in Preorder(t) && forall s :: s in instances ==> IsSuffix(s)
    ensures forall k :: k in ColumnKeys(n.oid, instances) ==> GoodKey(t, k)
  {
    NodeKeyGood(t, n);
    forall s | s in instances
      ensures GoodKey(t, n.oid + s + ".")
    {
      NodeInstanceKeyGood(t, n, s);
    }
  }

  lemma SavedInstances(t: Tree, entries: seq<string>, toWalk: seq<string>, oid: string)
    requires Plan(t, entries, toWalk)
    ensures forall s :: s in InstancesAt(toWalk, t, oid) ==> IsSuffix(s)
  {
    assert toWalk[..|toWalk|] == toWalk;
    InstancesAreSuffixes(t, entries, toWalk, |toWalk|, oid);
  }

  /** Every key of a compiled module has the form the request lists rely on. */
  lemma CompiledRequests(t: Tree, cfg: Config, toWalk: seq<string>, nodes: seq<Tree>, metrics: seq<Metric>,
          get: seq<string>, walk: seq<string>)
    requires Compiled(t, cfg, toWalk, nodes, metrics, get, walk)
    ensures Requests(t, FetchKeys(metrics, toWalk, t), get, walk)
  {
    forall k | k in FetchKeys(metrics, toWalk, t)
      ensures GoodKey(t, k)
    {
      FetchKeyGood(t, cfg, toWalk, nodes, metrics, k);
    }
  }

  lemma FetchKeyGood(t: Tree, cfg: Config, toWalk: seq<string>, nodes: seq<Tree>, metrics: seq<Metric>, key: string)
    requires Plan(t, cfg.walk, toWalk) && SortedMetricNodes(nodes, toWalk, t) && MetricsFrom(t, cfg, nodes, metrics)
    requires key in FetchKeys(metrics, toWalk, t)
    ensures GoodKey(t, key)
  {
    AllLookupKeysMember(metrics, toWalk, t, key);
    AllTypeKeysMember(metrics, toWalk, t, key);
    if key in BaseKeys(toWalk, t) {
      var w :| w in toWalk && key == WalkKey(w, Classify(w, t));
      var n := EntryPlanned(t, cfg.walk, toWalk, w);
      WalkKeyForm(t, w, n);
    } else {
      var m :| m in metrics && (key in LookupKeys(m.lookups, InstancesAt(toWalk, t, m.oid)) ||
                                key in TypeKeys(m, NameToNode(t), InstancesAt(toWalk, t, m.oid)));
      MetricKeyGood(t, cfg, toWalk, nodes, metrics, m, key);
    }
  }

  lemma MetricKeyGood(t: Tree, cfg: Config, toWalk: seq<string>, nodes: seq<Tree>, metrics: seq<Metric>, m: Metric,
          key: string)
    requires Plan(t, cfg.walk, toWalk) && SortedMetricNodes(nodes, toWalk, t) &&
      MetricsFrom(t, cfg, nodes, metrics) && m in metrics
    requires key in LookupKeys(m.lookups, InstancesAt(toWalk, t, m.oid)) || key in TypeKeys(m, NameToNode(t), InstancesAt(toWalk, t, m.oid))
    ensures GoodKey(t, key)
  {
    var instances := InstancesAt(toWalk, t, m.oid);
    SavedInstances(t, cfg.walk, toWalk, m.oid);
    var i :| 0 <= i < |metrics| && metrics[i] == m;
    var base := BaseMetrics(t, cfg, nodes)[i];
    var x := MetricSource(PreorderAll(nodes), NameToNode(t), cfg.overrides, base);
    if key in LookupKeys(m.lookups, instances) {
      LookupKeysMember(m.lookups, instances, key);
      var l :| l in m.lookups && l.oid != "" && key in ColumnKeys(l.oid, instances);
      var n := FinishedLookupNode(base, cfg, t, m, l);
      ColumnKeysGood(t, n, instances);
    } else {
      var chosen := FinishedKeepsOid(base, cfg, t, m);
      MetricNodeInTree(t, cfg, toWalk, nodes, x);
      var p := PrecedingSibling(t, x, PrevOid(m.oid));
      ColumnKeysGood(t, p, instances);
    }
  }

  lemma MetricNodeInTree(t: Tree, cfg: Config, toWalk: seq<string>, nodes: seq<Tree>, x: Tree)
    requires Plan(t, cfg.walk, toWalk) && SortedMetricNodes(nodes, toWalk, t) && x in PreorderAll(nodes)
    ensures x in Preorder(t)
  {
    InSubtrees(nodes, x);
    var k :| 0 <= k < |nodes| && x in Preorder(nodes[k]);
    NodesInTree(t, cfg.walk, toWalk, nodes);
    SubtreeWithin(t, nodes[k], x);
  }

  /** No metric lies below a usable node: a node that is walked by its instances, as a column or as a scalar, is the
      only one in its subtree that emits a metric. */
  ghost predicate UsableEmitAlone(t: Tree, overrides: map<string, Override>) {
    forall m, n :: m in Preorder(t) && Usable(m) && n in Preorder(m) && n != m ==>
      !Emit(n, NameToNode(t), overrides).Emitted?
  }

  lemma LeavesEmitAlone(t: Tree, overrides: map<string, Override>)
    ensures UsableNodesAreLeaves(t) ==> UsableEmitAlone(t, overrides)
  {
    if UsableNodesAreLeaves(t) {
      forall m, n | m in Preorder(t) && Usable(m) && n in Preorder(m)
        ensures n == m
      {
        UsableLeaf(t, m);
      }
    }
  }

  lemma UsableColumnsEmitAlone(t: Tree, overrides: map<string, Override>)
    requires UsableEmitAlone(t, overrides)
    ensures ColumnsEmitAlone(t, overrides)
  {}

  /** Completeness of the request lists of a module. */
  ghost predicate AllFetched(t: Tree, toWalk: seq<string>, metrics: seq<Metric>, get: seq<string>, walk: seq<string>) {
    forall m :: m in metrics ==> MetricFetched(t, get, walk, m.oid, InstancesAt(toWalk, t, m.oid))
  }

  /** Then an entry that is no subtree has its own node for its only metric. */
  lemma EmitsAtEntry(t: Tree, cfg: Config, toWalk: seq<string>, w: string, n: Tree)
    requires Plan(t, cfg.walk, toWalk) && w in toWalk && UsableEmitAlone(t, cfg.overrides)
    requires n in Preorder(Classify(w, t).node) && Emit(n, NameToNode(t), cfg.overrides).Emitted?
    ensures Classify(w, t).OidSubtree? || Classify(w, t).node == n
  {
    var m := EntryPlanned(t, cfg.walk, toWalk, w);
  }

  /** Completeness: every metric of the module is fetched. */
  lemma EveryMetricFetched(t: Tree, cfg: Config, toWalk: seq<string>, nodes: seq<Tree>, metrics: seq<Metric>,
          get: seq<string>, walk: seq<string>)
    requires Compiled(t, cfg, toWalk, nodes, metrics, get, walk) && UsableEmitAlone(t, cfg.overrides)
    ensures AllFetched(t, toWalk, metrics, get, walk)
  {
    CompiledRequests(t, cfg, toWalk, nodes, metrics, get, walk);
    forall m | m in metrics
      ensures MetricFetched(t, get, walk, m.oid, InstancesAt(toWalk, t, m.oid))
    {
      var w, n, base := MetricOrigin(t, cfg, toWalk, nodes, metrics, get, walk, m);
      EmitsAtEntry(t, cfg, toWalk, w, n);
      MetricIsFetched(t, cfg.walk, toWalk, FetchKeys(metrics, toWalk, t), get, walk, w, n);
    }
  }

  /** A metric that is walked by its instances is fetched at every one of them. */
  lemma EveryInstanceFetched(t: Tree, cfg: Config, toWalk: seq<string>, nodes: seq<Tree>, metrics: seq<Metric>,
          get: seq<string>, walk: seq<string>)
    requires Compiled(t, cfg, toWalk, nodes, metrics, get, walk)
    ensures forall m :: m in metrics && InstancesAt(toWalk, t, m.oid) != [] ==>
      ColumnFetched(get, walk, m.oid, InstancesAt(toWalk, t, m.oid))
  {
    CompiledRequests(t, cfg, toWalk, nodes, metrics, get, walk);
    forall m, s | m in metrics && s in InstancesAt(toWalk, t, m.oid)
      ensures InstanceFetched(get, walk, m.oid + s)
    {
      SavedInstanceFetched(t, cfg.walk, toWalk, FetchKeys(metrics, toWalk, t), get, walk, m.oid, s);
    }
  }

  lemma ColumnKeysFetched(t: Tree, keys: set<string>, get: seq<string>, walk: seq<string>, n: Tree,
          instances: seq<string>)
    requires Requests(t, keys, get, walk) && n in Preorder(t) && ColumnKeys(n.oid, instances) <= keys
    requires forall s :: s in instances ==> IsSuffix(s)
    ensures ColumnFetched(get, walk, n.oid, instances)
  {
    if instances == [] {
      NodeKeyGood(t, n);
      SubtreeKeyFetched(t, keys, get, walk, n.oid);
    } else {
      forall s | s in instances
        ensures InstanceFetched(get, walk, n.oid + s)
      {
        NodeInstanceKeyGood(t, n, s);
        assert n.oid + s + "." in ColumnKeys(n.oid, instances);
        InstanceKeyFetched(t, keys, get, walk, n.oid + s);
      }
    }
  }

  /** Every column a lookup reads is fetched, for the instances the metric is fetched for. */
  lemma EveryLookupFetched(t: Tree, cfg: Config, toWalk: seq<string>, nodes: seq<Tree>, metrics: seq<Metric>,
          get: seq<string>, walk: seq<string>)
    requires Compiled(t, cfg, toWalk, nodes, metrics, get, walk)
    ensures forall m, l :: m in metrics && l in m.lookups && l.oid != "" ==>
      ColumnFetched(get, walk, l.oid, InstancesAt(toWalk, t, m.oid))
  {
    CompiledRequests(t, cfg, toWalk, nodes, metrics, get, walk);
    var keys := FetchKeys(metrics, toWalk, t);
    forall m, l | m in metrics && l in m.lookups && l.oid != ""
      ensures ColumnFetched(get, walk, l.oid, InstancesAt(toWalk, t, m.oid))
    {
      var w, x, base := MetricOrigin(t, cfg, toWalk, nodes, metrics, get, walk, m);
      var n := FinishedLookupNode(base, cfg, t, m, l);
      SavedInstances(t, cfg.walk, toWalk, m.oid);
      forall k | k in ColumnKeys(l.oid, InstancesAt(toWalk, t, m.oid))
        ensures k in keys
      {
        LookupKeysMember(m.lookups, InstancesAt(toWalk, t, m.oid), k);
        AllLookupKeysMember(metrics, toWalk, t, k);
      }
      ColumnKeysFetched(t, keys, get, walk, n, InstancesAt(toWalk, t, m.oid));
    }
  }

  /** The preceding sibling says what kind of address this is, and it is fetched with it. */
  ghost predicate Decodable(t: Tree, get: seq<string>, walk: seq<string>, m: Metric, instances: seq<string>) {
    exists n, p :: n in Preorder(t) && p in Preorder(t) && n.oid == m.oid && p.textualConvention == "InetAddressType" &&
      Precedes(PathOf(p), PathOf(n)) && ColumnFetched(get, walk, p.oid, instances)
  }

  /** Every metric still typed as an address can be decoded. */
  lemma TypedAddressesDecodable(t: Tree, cfg: Config, toWalk: seq<string>, nodes: seq<Tree>, metrics: seq<Metric>,
          get: seq<string>, walk: seq<string>)
    requires Compiled(t, cfg, toWalk, nodes, metrics, get, walk)
    ensures forall m :: m in metrics && IsTypedAddress(m) ==> Decodable(t, get, walk, m, InstancesAt(toWalk, t, m.oid))
  {
    CompiledRequests(t, cfg, toWalk, nodes, metrics, get, walk);
    var keys := FetchKeys(metrics, toWalk, t);
    forall m | m in metrics && IsTypedAddress(m)
      ensures Decodable(t, get, walk, m, InstancesAt(toWalk, t, m.oid))
    {
      var w, n, base := MetricOrigin(t, cfg, toWalk, nodes, metrics, get, walk, m);
      var chosen := FinishedKeepsOid(base, cfg, t, m);
      assert HasTypeSibling(m, NameToNode(t));
      var p := PrecedingSibling(t, n, PrevOid(m.oid));
      SavedInstances(t, cfg.walk, toWalk, m.oid);
      forall k | k in ColumnKeys(p.oid, InstancesAt(toWalk, t, m.oid))
        ensures k in keys
      {
        AllTypeKeysMember(metrics, toWalk, t, k);
      }
      ColumnKeysFetched(t, keys, get, walk, p, InstancesAt(toWalk, t, m.oid));
    }
  }

  /** The module fetches exactly what its keys ask for, and nothing twice. */
  lemma FetchesExactly(t: Tree, cfg: Config, toWalk: seq<string>, nodes: seq<Tree>, metrics: seq<Metric>,
          get: seq<string>, walk: seq<string>)
    requires Compiled(t, cfg, toWalk, nodes, metrics, get, walk)
    ensures forall x: Arcs :: Fetched(get, walk, x) <==> exists k :: k in FetchKeys(metrics, toWalk, t) && Denotes(k, x)
    ensures forall g, w :: g in get && w in walk ==> !Covers(w, g)
    ensures forall v, w :: v in walk && w in walk && Covers(v, w) ==> v == w
    ensures NoDuplicates(get) && NoDuplicates(walk)
  {
    CompiledRequests(t, cfg, toWalk, nodes, metrics, get, walk);
    var keys := FetchKeys(metrics, toWalk, t);
    KeysWellFormed(t, keys);
    forall x: Arcs
      ensures Fetched(get, walk, x) <==> exists k :: k in keys && Denotes(k, x)
    {
      FetchedIsDenoted(keys, get, walk, x);
    }
    RequestsDisjoint(keys, get, walk, [0]);
  }

  /** The labels that the configured lookups bring differ from each other and from the metric's index names. */
  ghost predicate DistinctLookupLabels(base: Metric, cfg: Config, t: Tree) {
    var names := NameToNode(t);
    DistinctLabels(base.indexes) &&
    (forall i, j :: 0 <= i < j < |cfg.lookups| && cfg.lookups[i].lookup in names && cfg.lookups[j].lookup in names ==>
      LookupLabel(cfg, names, i) != LookupLabel(cfg, names, j)) &&
    (forall i :: 0 <= i < |cfg.lookups| && cfg.lookups[i].lookup in names ==> !HasLabel(base.indexes, LookupLabel(cfg, names, i)))
  }

  function LookupLabel(cfg: Config, names: map<string, Tree>, i: int): string
    requires 0 <= i < |cfg.lookups| && cfg.lookups[i].lookup in names
  {
    SanitizeLabelName(names[cfg.lookups[i].lookup].name)
  }

  /** Chained lookups of the finished module are well founded. */
  lemma LookupsGrounded(t: Tree, cfg: Config, toWalk: seq<string>, nodes: seq<Tree>, metrics: seq<Metric>,
          get: seq<string>, walk: seq<string>, i: nat)
    requires Compiled(t, cfg, toWalk, nodes, metrics, get, walk) && i < |metrics|
    requires DistinctLookupLabels(BaseMetrics(t, cfg, nodes)[i], cfg, t)
    ensures AllGrounded(BaseMetrics(t, cfg, nodes)[i], metrics[i].lookups)
  {
    var base := BaseMetrics(t, cfg, nodes)[i];
    var n := MetricSource(PreorderAll(nodes), NameToNode(t), cfg.overrides, base);
    var chosen := FinishedKeepsOid(base, cfg, t, metrics[i]);
    var required := GetRequiredIndexes(cfg.lookups);
    forall k | 0 <= k < |cfg.lookups| && Applied(base, cfg.lookups, chosen, required, k)
      ensures cfg.lookups[k].lookup in NameToNode(t) &&
        SanitizeLabelName(chosen[k].name) == LookupLabel(cfg, NameToNode(t), k)
    {
      IndexNodeLabel(cfg.lookups[k].lookup, t, base.oid, chosen[k]);
    }
    LookupsWellFounded(base, cfg.lookups, chosen);
  }
}
