/** What a generated metric says of its node: every field, and which nodes have a metric, over the fields of the nodes. */
module MetricFields {
  import opened MibTree
  import opened IndexCollapse
  import opened Lookups
  import opened WalkPlan
  import opened CompiledModule

  /** The kinds of access with which a node can be read. */
  const READABLE := {"ACCESS_READONLY", "ACCESS_READWRITE", "ACCESS_CREATE", "ACCESS_NOACCESS"}

  ghost predicate Ascending(places: seq<nat>) {
    forall i, j :: 0 <= i < j < |places| ==> places[i] < places[j]
  }

  // --- indexes ---

  /** What an exported index says of the `k`-th index of `n`: its name, the fields of the node it names, and whether
      it is implied, which only the last one can be. */
  ghost predicate IndexShown(n: Tree, names: map<string, Tree>, k: nat, ix: Index) {
    k < |n.indexes| && n.indexes[k] in names && ix.labelname == n.indexes[k] && NodeShown(names[n.indexes[k]], ix) &&
    (ix.implied <==> n.impliedIndex && k + 1 == |n.indexes|)
  }

  ghost predicate NodeShown(node: Tree, ix: Index) {
    ExportedAs(node.typ, ix.typ) && ix.fixedSize == node.fixedSize && ix.enumValues == node.enumValues
  }

  lemma SlotShown(n: Tree, names: map<string, Tree>, k: nat)
    requires k < |n.indexes|
    ensures ResolveAll(n, names)[k].Some? <==> n.indexes[k] in names && Supported(names[n.indexes[k]].typ)
    ensures ResolveAll(n, names)[k].Some? ==> IndexShown(n, names, k, ResolveAll(n, names)[k].value.index)
  {
    if n.indexes[k] in names { ExportedExactly(names[n.indexes[k]].typ); }
  }

  /** The kept indexes are some of those of the list, in their order, the last one among them. */
  lemma {:induction false} KeptPlaces(items: seq<Item>) returns (places: seq<nat>)
    requires Run(Resolved(items)).Collapsed?
    ensures At(items, Kept(items), places)
    ensures items != [] ==> places != [] && places[|places| - 1] == |items| - 1
    ensures (forall x :: x in items ==> !IsAddress(x)) ==> |places| == |items|
  {
    if items == [] {
      places := [];
      assert Resolved([]) == [];
    } else {
      var front, x := items[..|items| - 1], items[|items| - 1];
      assert items == front + [x];
      var k := KeptStep(front, x);
      var before := KeptPlaces(front);
      PlacesCut(front, x, Kept(front), before, k);
      places := before[..k] + [|front|];
    }
  }

  ghost predicate At(items: seq<Item>, kept: seq<Item>, places: seq<nat>) {
    Ascending(places) && |places| == |kept| && forall j :: 0 <= j < |places| ==> places[j] < |items| && kept[j] == items[places[j]]
  }

  lemma PlacesCut(front: seq<Item>, x: Item, kept: seq<Item>, places: seq<nat>, k: nat)
    requires At(front, kept, places) && k <= |kept|
    ensures At(front + [x], kept[..k] + [x], places[..k] + [|front|])
  {
    var more := places[..k] + [|front|];
    forall j | 0 <= j < |more|
      ensures more[j] < |front + [x]| && (kept[..k] + [x])[j] == (front + [x])[more[j]]
    {
      if j < k { assert more[j] == places[j]; }
    }
  }

  ghost predicate IndexesShown(n: Tree, names: map<string, Tree>, ixs: seq<Index>, places: seq<nat>) {
    Ascending(places) && |places| == |ixs| &&
    (forall j :: 0 <= j < |ixs| ==> IndexShown(n, names, places[j], ixs[j])) &&
    (n.indexes != [] ==> places != [] && places[|places| - 1] == |n.indexes| - 1) &&
    (NoAddresses(n, names) ==> |ixs| == |n.indexes|)
  }

  /** No index is of a type that takes another index as its own type. */
  ghost predicate NoAddresses(n: Tree, names: map<string, Tree>) {
    forall k :: 0 <= k < |n.indexes| && n.indexes[k] in names ==> names[n.indexes[k]].typ !in COMBINED
  }

  const COMBINED := {"InetAddress", "InetAddressMissingSize", "LldpPortId"}

  lemma CombinedKept(typ: string)
    requires MetricType(typ).Some? && CombinedSubtype(MetricType(typ).value).Some?
    ensures typ in COMBINED
  {
    var e := MetricType(typ).value;
    assert e in COMBINED;
    assert "gauge" !in COMBINED && "counter" !in COMBINED && "OctetString" !in COMBINED && "Bits" !in COMBINED;
    assert "InetAddressIPv4" !in COMBINED by {
      assert |"InetAddressIPv4"| == 15 && |"InetAddress"| == 11 && |"InetAddressMissingSize"| == 22 && |"LldpPortId"| == 10;
    }
  }

  /** The indexes of `n` before the first one whose name or type is unknown. */
  function KnownItems(n: Tree, names: map<string, Tree>): seq<Item> {
    Known(ResolveAll(n, names))
  }

  ghost predicate AllKnown(n: Tree, names: map<string, Tree>) {
    forall k :: 0 <= k < |n.indexes| ==> n.indexes[k] in names && Supported(names[n.indexes[k]].typ)
  }

  lemma KnownAll(n: Tree, names: map<string, Tree>)
    ensures AllKnown(n, names) <==> |KnownItems(n, names)| == |n.indexes|
    ensures AllKnown(n, names) ==> ResolveAll(n, names) == Resolved(KnownItems(n, names))
  {
    forall k | 0 <= k < |n.indexes|
      ensures ResolveAll(n, names)[k].Some? <==> n.indexes[k] in names && Supported(names[n.indexes[k]].typ)
    {
      SlotShown(n, names, k);
    }
  }

  /** What the collapse looks at: the convention of the node an index names, and the type that must precede an address. */
  lemma ItemShown(n: Tree, names: map<string, Tree>, k: nat)
    requires k < |n.indexes| && ResolveAll(n, names)[k].Some?
    ensures var item, node := ResolveAll(n, names)[k].value, names[n.indexes[k]];
      item.convention == node.textualConvention && (IsAddress(item) <==> node.typ in COMBINED) &&
      (IsAddress(item) ==> item.subtype.value == if node.typ == "LldpPortId" then "LldpPortIdSubtype" else "InetAddressType")
  {
    var item, node := ResolveAll(n, names)[k].value, names[n.indexes[k]];
    if IsAddress(item) { CombinedKept(node.typ); }
  }

  // --- the nodes that have a metric ---

  /** A node has a metric if its type and access allow it, no override ignores its name, and every one of its indexes
      is known and goes through. */
  ghost predicate HasMetric(n: Tree, names: map<string, Tree>, overrides: map<string, Override>) {
    Supported(n.typ) && n.access in READABLE &&
    (forall k :: k in overrides && overrides[k].ignore ==> !SanitizedAs(n.name, k)) &&
    AllKnown(n, names) && AllGo(KnownItems(n, names))
  }

  lemma UsableExactly(n: Tree)
    ensures Usable(n) <==> Supported(n.typ) && n.access in READABLE
  {
    ExportedExactly(n.typ);
  }

  lemma IgnoredExactly(n: Tree, overrides: map<string, Override>)
    ensures Ignored(SanitizeLabelName(n.name), overrides) <==>
      exists k :: k in overrides && overrides[k].ignore && SanitizedAs(n.name, k)
  {
    forall k
      ensures k == SanitizeLabelName(n.name) <==> SanitizedAs(n.name, k)
    {
      SanitizedExactly(n.name, k);
    }
  }

  lemma CollapsesExactly(n: Tree, names: map<string, Tree>)
    ensures Run(ResolveAll(n, names)).Collapsed? <==> AllKnown(n, names) && AllGo(KnownItems(n, names))
  {
    var slots := ResolveAll(n, names);
    KnownAll(n, names);
    if AllKnown(n, names) {
      KnownSubtypesAreNamed(n, names);
      RunGoes(KnownItems(n, names));
    } else {
      var k := |KnownItems(n, names)|;
      RunExtends(slots, k);
      RunStops(slots, k + 1);
    }
  }

  lemma EmitsExactly(n: Tree, names: map<string, Tree>, overrides: map<string, Override>)
    ensures Emit(n, names, overrides).Emitted? <==> HasMetric(n, names, overrides)
  {
    UsableExactly(n);
    IgnoredExactly(n, overrides);
    CollapsesExactly(n, names);
  }

  /** The metric of a node before its lookups. */
  ghost predicate MetricShown(n: Tree, names: map<string, Tree>, m: Metric) {
    SanitizedAs(n.name, m.name) && m.oid == n.oid && ExportedAs(n.typ, m.typ) && m.enumValues == n.enumValues &&
    m.lookups == [] && exists places :: IndexesShown(n, names, m.indexes, places)
  }

  lemma MetricShows(n: Tree, names: map<string, Tree>, overrides: map<string, Override>)
    requires Emit(n, names, overrides).Emitted?
    ensures MetricShown(n, names, Emit(n, names, overrides).metric)
  {
    var items := KnownItems(n, names);
    SanitizedExactly(n.name, SanitizeLabelName(n.name));
    ExportedExactly(n.typ);
    CollapsesExactly(n, names);
    KnownAll(n, names);
    var places := KeptPlaces(items);
    KeptShown(n, names, items, places);
  }

  lemma KeptShown(n: Tree, names: map<string, Tree>, items: seq<Item>, places: seq<nat>)
    requires ResolveAll(n, names) == Resolved(items) && Run(Resolved(items)).Collapsed? &&
      At(items, Kept(items), places)
    requires items != [] ==> places != [] && places[|places| - 1] == |items| - 1
    requires (forall x :: x in items ==> !IsAddress(x)) ==> |places| == |items|
    ensures IndexesShown(n, names, IndexesOf(Kept(items)), places)
  {
    forall j | 0 <= j < |places|
      ensures IndexShown(n, names, places[j], IndexesOf(Kept(items))[j])
    {
      SlotShown(n, names, places[j]);
      assert ResolveAll(n, names)[places[j]] == Some(items[places[j]]);
    }
    if NoAddresses(n, names) {
      forall k | 0 <= k < |items|
        ensures !IsAddress(items[k])
      {
        assert ResolveAll(n, names)[k] == Some(items[k]);
        if IsAddress(items[k]) { CombinedKept(names[n.indexes[k]].typ); }
      }
    }
  }

  // --- the metrics of a walk ---

  /** `places` are the places of the nodes that have a metric. */
  ghost predicate MetricPlaces(ns: seq<Tree>, names: map<string, Tree>, overrides: map<string, Override>,
          places: seq<nat>) {
    Ascending(places) && forall i: nat :: i in places <==> i < |ns| && HasMetric(ns[i], names, overrides)
  }

  /** `ms` are the metrics of the nodes at `places`. */
  ghost predicate ShownAt(ns: seq<Tree>, names: map<string, Tree>, ms: seq<Metric>, places: seq<nat>) {
    |places| == |ms| && forall j :: 0 <= j < |ms| ==> places[j] < |ns| && MetricShown(ns[places[j]], names, ms[j])
  }

  lemma OneMorePlace(front: seq<Tree>, n: Tree, names: map<string, Tree>, overrides: map<string, Override>,
          places: seq<nat>)
    requires MetricPlaces(front, names, overrides, places)
    ensures HasMetric(n, names, overrides) ==> MetricPlaces(front + [n], names, overrides, places + [|front|])
    ensures !HasMetric(n, names, overrides) ==> MetricPlaces(front + [n], names, overrides, places)
  {
    var all, more := front + [n], if HasMetric(n, names, overrides) then places + [|front|] else places;
    assert forall j :: 0 <= j < |places| ==> places[j] in places;
    forall i: nat
      ensures i in more <==> i < |all| && HasMetric(all[i], names, overrides)
    {
      assert i in more <==> i in places || (i == |front| && HasMetric(n, names, overrides));
      if i < |front| { assert all[i] == front[i]; }
    }
  }

  lemma OneMoreShown(front: seq<Tree>, n: Tree, names: map<string, Tree>, ms: seq<Metric>, places: seq<nat>, m: Metric)
    requires ShownAt(front, names, ms, places) && MetricShown(n, names, m)
    ensures ShownAt(front + [n], names, ms + [m], places + [|front|])
  {
    var all, more, after := front + [n], places + [|front|], ms + [m];
    forall j | 0 <= j < |after|
      ensures more[j] < |all| && MetricShown(all[more[j]], names, after[j])
    {
      if j < |ms| { assert more[j] == places[j] && after[j] == ms[j] && all[places[j]] == front[places[j]]; }
    }
  }

  /** A walk generates exactly one metric for each node that has one, in the order of the walk. */
  lemma {:induction false} MetricsListed(ns: seq<Tree>, names: map<string, Tree>, overrides: map<string, Override>)
    returns (places: seq<nat>)
    ensures MetricPlaces(ns, names, overrides, places) && ShownAt(ns, names, MetricsOf(ns, names, overrides), places)
  {
    if ns == [] {
      places := [];
    } else {
      var front, n := ns[..|ns| - 1], ns[|ns| - 1];
      assert ns == front + [n];
      var before := MetricsListed(front, names, overrides);
      places := ListedStep(front, n, names, overrides, before);
    }
  }

  lemma ListedStep(front: seq<Tree>, n: Tree, names: map<string, Tree>, overrides: map<string, Override>,
          before: seq<nat>)
    returns (places: seq<nat>)
    requires MetricPlaces(front, names, overrides, before)
    requires ShownAt(front, names, MetricsOf(front, names, overrides), before)
    ensures MetricPlaces(front + [n], names, overrides, places)
    ensures ShownAt(front + [n], names, MetricsOf(front + [n], names, overrides), places)
  {
    var ms := MetricsOf(front, names, overrides);
    MetricsOfConcat(front, [n], names, overrides);
    SingleNode(n, names, overrides);
    EmitsExactly(n, names, overrides);
    OneMorePlace(front, n, names, overrides, before);
    if HasMetric(n, names, overrides) {
      MetricShows(n, names, overrides);
      OneMoreShown(front, n, names, ms, before, Emit(n, names, overrides).metric);
      places := before + [|front|];
    } else {
      SameShown(front, n, names, ms, before);
      assert ms + [] == ms;
      places := before;
    }
  }

  lemma SameShown(front: seq<Tree>, n: Tree, names: map<string, Tree>, ms: seq<Metric>, places: seq<nat>)
    requires ShownAt(front, names, ms, places)
    ensures ShownAt(front + [n], names, ms, places)
  {
    var all := front + [n];
    assert forall j :: 0 <= j < |ms| ==> all[places[j]] == front[places[j]];
  }
}
