/** Lookups: chains of labels resolved from a metric's indexes, one configured lookup after the other. */
module Lookups {
  import opened ByteStrings
  import opened Oids
  import opened MibTree
  import opened IndexCollapse

  datatype Lookup = Lookup(labels: seq<string>, labelname: string, oid: string, typ: string)

  datatype Metric = Metric(
    name: string, oid: string, typ: string,
    indexes: seq<Index>, lookups: seq<Lookup>, enumValues: map<int, string>)

  datatype LookupConfig = LookupConfig(sourceIndexes: seq<string>, lookup: string, dropSourceIndexes: bool)

  predicate IsWordChar(c: char) {
    IsLetter(c) || IsDigit(c) || c == '_'
  }

  /** Every character outside [a-zA-Z0-9_] becomes '_'. */
  function SanitizeLabelName(name: string): (s: string)
    ensures |s| == |name| && forall i :: 0 <= i < |s| ==> IsWordChar(s[i])
  {
    seq(|name|, i requires 0 <= i < |name| => if IsWordChar(name[i]) then name[i] else '_')
  }

  /** The characters of a label. */
  predicate LabelChar(c: char) {
    'a' <= c <= 'z' || 'A' <= c <= 'Z' || '0' <= c <= '9' || c == '_'
  }

  /** `s` has every character of `name` that a label may have, in its place, and '_' in all other places. */
  ghost predicate SanitizedAs(name: string, s: string) {
    |s| == |name| && forall i :: 0 <= i < |name| ==> s[i] == if LabelChar(name[i]) then name[i] else '_'
  }

  lemma SanitizedExactly(name: string, s: string)
    ensures s == SanitizeLabelName(name) <==> SanitizedAs(name, s)
  {}

  /** Labels are left as they are. */
  lemma LabelsUnchanged(name: string)
    requires forall c :: c in name ==> LabelChar(c)
    ensures SanitizeLabelName(name) == name
  {
    SanitizedExactly(name, name);
  }

  lemma SanitizeIdempotent(name: string)
    ensures SanitizeLabelName(SanitizeLabelName(name)) == SanitizeLabelName(name)
  {}

  function GetSanitizedLabels(sourceIndexes: seq<string>): (labels: seq<string>)
    ensures |labels| == |sourceIndexes|
  {
    seq(|sourceIndexes|, i requires 0 <= i < |sourceIndexes| => SanitizeLabelName(sourceIndexes[i]))
  }

  function GetRequiredIndexes(lookups: seq<LookupConfig>): seq<string> {
    if lookups == [] then [] else lookups[0].sourceIndexes + GetRequiredIndexes(lookups[1..])
  }

  function CountSources(key: string, sources: seq<string>): nat {
    if sources == [] then 0 else (if sources[0] == key then 1 else 0) + CountSources(key, sources[1..])
  }

  /** The number of (index, source) pairs that carry the same label. */
  function CountMatches(indexes: seq<Index>, sources: seq<string>): nat {
    if indexes == [] then 0 else CountSources(indexes[0].labelname, sources) + CountMatches(indexes[1..], sources)
  }

  predicate HasAllRequiredIndexes(metric: Metric, lookup: LookupConfig) {
    CountMatches(metric.indexes, lookup.sourceIndexes) == |lookup.sourceIndexes|
  }

  // --- getIndexNode ---

  /** The OID without its last component. */
  function ParentPrefix(oid: string): string {
    var parts := Split(oid);
    Join(parts[..|parts| - 1])
  }

  predicate Near(node: Tree, lookup: string, metricOid: string) {
    node.name == lookup && HasPrefix(node.oid, ParentPrefix(metricOid))
  }

  /** The node getIndexNode may return: any table entry of that label near the metric, else the table's own answer. */
  ghost predicate IsIndexNode(lookup: string, names: map<string, Tree>, metricOid: string, node: Tree) {
    if exists k :: k in names && Near(names[k], lookup, metricOid)
    then Near(node, lookup, metricOid) && exists k :: k in names && names[k] == node
    else lookup in names && node == names[lookup]
  }

  method GetIndexNode(lookup: string, names: map<string, Tree>, metricOid: string) returns (node: Tree)
    requires lookup in names
    ensures IsIndexNode(lookup, names, metricOid, node)
  {
    var rest := names.Keys;
    while rest != {}
      invariant rest <= names.Keys
      invariant forall k :: k in names && k !in rest ==> !Near(names[k], lookup, metricOid)
    {
      var k :| k in rest;
      rest := rest - {k};
      var candidate := names[k];
      if candidate.name != lookup {
        continue;
      }
      if HasPrefix(candidate.oid, ParentPrefix(metricOid)) {
        return candidate;
      }
    }
    return names[lookup];
  }

  /** Whatever node is chosen, its label is that of the node the table holds for the lookup. */
  lemma IndexNodeLabel(lookup: string, t: Tree, metricOid: string, node: Tree)
    requires IsTree(t) && LabelsAreNames(t) && lookup in NameToNode(t)
    requires IsIndexNode(lookup, NameToNode(t), metricOid, node)
    ensures node.name == NameToNode(t)[lookup].name && node in Preorder(t)
  {
    var names := NameToNode(t);
    NameToNodeSound(t, lookup);
    if k :| k in names && Near(names[k], lookup, metricOid) {
      var j :| j in names && names[j] == node;
      NameToNodeSound(t, j);
      Below(t, [t.subid], names[lookup]);
      assert lookup == node.name;
      assert IsLabel(node.name);
    }
  }

  // --- what "near" means ---

  lemma ParentPrefixRender(a: Arcs)
    requires a != []
    ensures ParentPrefix(Render(a)) == if |a| == 1 then "" else Render(a[..|a| - 1])
  {
    SplitRender(a);
    if |a| > 1 { JoinDecimals(a[..|a| - 1], Split(Render(a))[..|a| - 1]); }
  }

  /** The arcs match in every branch of `a` but the last: `b` is the parent of `a` or lies below it. */
  predicate UnderParent(a: Arcs, b: Arcs)
    requires a != []
  {
    a[..|a| - 1] <= b
  }

  /** The arcs part at the parent of `a`, at an arc that only begins with the digits of the parent's. */
  predicate LooksUnderParent(a: Arcs, b: Arcs)
    requires a != []
  {
    var k := |a| - 2;
    0 <= k < |b| && a[..k] == b[..k] && a[k] != b[k] && Decimal(a[k]) <= Decimal(b[k])
  }

  /** The test has no dot at its end, so it accepts look-alikes of the parent too. */
  lemma NearExactly(a: Arcs, b: Arcs)
    requires a != [] && b != []
    ensures HasPrefix(Render(b), ParentPrefix(Render(a))) <==> UnderParent(a, b) || LooksUnderParent(a, b)
    ensures !(UnderParent(a, b) && LooksUnderParent(a, b))
  {
    ParentPrefixRender(a);
    if |a| > 1 {
      RenderPrefix(a[..|a| - 1], b);
      ParentCases(a, a[..|a| - 1], b);
    }
  }

  lemma ParentCases(a: Arcs, p: Arcs, b: Arcs)
    requires |a| > 1 && p == a[..|a| - 1]
    ensures DigitPrefix(p, b) <==> UnderParent(a, b) || LooksUnderParent(a, b)
    ensures !(UnderParent(a, b) && LooksUnderParent(a, b))
  {
    var k := |p| - 1;
    assert p[..k] == a[..k] && p[k] == a[k];
    assert p <= b <==> |p| <= |b| && p[..k] == b[..k] && p[k] == b[k];
  }

  ghost predicate NamedUnderParent(t: Tree, n: Tree, lookup: string, m: Tree) {
    PathOf(n) != [] && m in Preorder(t) && m.name == lookup && UnderParent(PathOf(n), PathOf(m))
  }

  ghost predicate LookAlike(t: Tree, n: Tree, lookup: string, m: Tree) {
    PathOf(n) != [] && m in Preorder(t) && m.name == lookup && LooksUnderParent(PathOf(n), PathOf(m))
  }

  lemma NearNode(t: Tree, n: Tree, lookup: string, m: Tree)
    requires IsTree(t) && n in Preorder(t) && m in Preorder(t)
    ensures Near(m, lookup, n.oid) <==> NamedUnderParent(t, n, lookup, m) || LookAlike(t, n, lookup, m)
    ensures !(NamedUnderParent(t, n, lookup, m) && LookAlike(t, n, lookup, m))
  {
    Below(t, [t.subid], n);
    Below(t, [t.subid], m);
    NearExactly(PathOf(n), PathOf(m));
  }

  /** If a node of that name lies under the metric's parent, every choice does exactly if no look-alike has that name. */
  lemma IndexNodeUnderParent(lookup: string, t: Tree, n: Tree)
    requires IsTree(t) && LabelsAreNames(t) && n in Preorder(t) && lookup in NameToNode(t)
    requires exists m :: NamedUnderParent(t, n, lookup, m)
    ensures (forall node :: IsIndexNode(lookup, NameToNode(t), n.oid, node) ==> NamedUnderParent(t, n, lookup, node)) <==>
      !(exists m :: LookAlike(t, n, lookup, m))
  {
    var m :| NamedUnderParent(t, n, lookup, m);
    ChoicesNear(lookup, t, n, m);
    forall node | node in Preorder(t)
      ensures IsIndexNode(lookup, NameToNode(t), n.oid, node) <==>
        NamedUnderParent(t, n, lookup, node) || LookAlike(t, n, lookup, node)
      ensures !(NamedUnderParent(t, n, lookup, node) && LookAlike(t, n, lookup, node))
    {
      NearNode(t, n, lookup, node);
    }
  }

  /** If some node is near, the choices are the near nodes of the tree. */
  lemma ChoicesNear(lookup: string, t: Tree, n: Tree, m: Tree)
    requires IsTree(t) && LabelsAreNames(t) && n in Preorder(t) && lookup in NameToNode(t) &&
      NamedUnderParent(t, n, lookup, m)
    ensures forall node :: IsIndexNode(lookup, NameToNode(t), n.oid, node) <==>
      node in Preorder(t) && Near(node, lookup, n.oid)
  {
    var names := NameToNode(t);
    NearNode(t, n, lookup, m);
    NameToNodeByOid(t, m);
    assert m.oid in names && Near(names[m.oid], lookup, n.oid);
    forall node
      ensures IsIndexNode(lookup, names, n.oid, node) <==> node in Preorder(t) && Near(node, lookup, n.oid)
    {
      if node in Preorder(t) { NameToNodeByOid(t, node); }
      if k :| k in names && names[k] == node { NameToNodeSound(t, k); }
    }
  }

  /** The parent 1.3.6.1.1 of a metric has look-alikes below 1.3.6.1.10. */
  lemma LookAlikeExample(x: nat, y: nat)
    ensures LooksUnderParent([1, 3, 6, 1, 1, x], [1, 3, 6, 1, 10, y])
  {
    var a, b: Arcs := [1, 3, 6, 1, 1, x], [1, 3, 6, 1, 10, y];
    assert a[..4] == b[..4];
    assert Decimal(1) == "1" && Decimal(10) == "1" + "0";
  }

  // --- one metric's lookups ---

  function TypeOr(t: Option<string>): string {
    if t.Some? then t.value else ""
  }

  function MakeLookup(lookup: LookupConfig, node: Tree): Lookup {
    Lookup(GetSanitizedLabels(lookup.sourceIndexes), SanitizeLabelName(node.name), node.oid, TypeOr(MetricType(node.typ)))
  }

  /** processAdditionalIndexes: a label that some lookup reads becomes an index too. */
  function ApplyLookup(metric: Metric, lookup: LookupConfig, node: Tree, required: seq<string>): Metric {
    var l := MakeLookup(lookup, node);
    metric.(lookups := metric.lookups + [l],
            indexes := metric.indexes + if l.labelname in required then [Index(l.labelname, l.typ, 0, false, map[])] else [])
  }

  /** The metric after the configured lookups; `chosen` holds the node found for each of them. */
  function RunLookups(metric: Metric, lookups: seq<LookupConfig>, chosen: seq<Tree>, required: seq<string>): Metric
    requires |chosen| == |lookups|
  {
    if lookups == [] then metric else
      var k := |lookups| - 1;
      var before := RunLookups(metric, lookups[..k], chosen[..k], required);
      if HasAllRequiredIndexes(before, lookups[k]) then ApplyLookup(before, lookups[k], chosen[k], required) else before
  }

  predicate Applied(metric: Metric, lookups: seq<LookupConfig>, chosen: seq<Tree>, required: seq<string>, k: int)
    requires |chosen| == |lookups| && 0 <= k < |lookups|
  {
    HasAllRequiredIndexes(RunLookups(metric, lookups[..k], chosen[..k], required), lookups[k])
  }

  /** The source indexes that the applied lookups ask to drop. */
  function ToDelete(metric: Metric, lookups: seq<LookupConfig>, chosen: seq<Tree>, required: seq<string>): seq<string>
    requires |chosen| == |lookups|
  {
    if lookups == [] then [] else
      var k := |lookups| - 1;
      ToDelete(metric, lookups[..k], chosen[..k], required) +
      if Applied(metric, lookups, chosen, required, k) && lookups[k].dropSourceIndexes then lookups[k].sourceIndexes else []
  }

  function DropLookups(toDelete: seq<string>): (ls: seq<Lookup>)
    ensures |ls| == |toDelete|
  {
    seq(|toDelete|, i requires 0 <= i < |toDelete| => Lookup([], SanitizeLabelName(toDelete[i]), "", ""))
  }

  function SanitizeIndexes(indexes: seq<Index>): (r: seq<Index>)
    ensures |r| == |indexes|
  {
    seq(|indexes|, i requires 0 <= i < |indexes| => indexes[i].(labelname := SanitizeLabelName(indexes[i].labelname)))
  }

  /** The metric once its lookups and the lookups for dropped labels are in. */
  function FinishLookups(metric: Metric, lookups: seq<LookupConfig>, chosen: seq<Tree>): Metric
    requires |chosen| == |lookups|
  {
    var required := GetRequiredIndexes(lookups);
    var m := RunLookups(metric, lookups, chosen, required);
    m.(lookups := m.lookups + DropLookups(ToDelete(metric, lookups, chosen, required)))
  }

  // --- the count is a membership test ---

  ghost predicate DistinctLabels(indexes: seq<Index>) {
    forall i, j :: 0 <= i < j < |indexes| ==> indexes[i].labelname != indexes[j].labelname
  }

  ghost predicate HasLabel(indexes: seq<Index>, key: string) {
    exists i :: 0 <= i < |indexes| && indexes[i].labelname == key
  }

  function CountLabel(indexes: seq<Index>, key: string): nat {
    if indexes == [] then 0 else (if indexes[0].labelname == key then 1 else 0) + CountLabel(indexes[1..], key)
  }

  lemma {:induction false} CountMatchesBySource(indexes: seq<Index>, sources: seq<string>)
    requires sources != []
    ensures CountMatches(indexes, sources) == CountLabel(indexes, sources[0]) + CountMatches(indexes, sources[1..])
  {
    if indexes != [] { CountMatchesBySource(indexes[1..], sources); }
  }

  lemma {:induction false} CountNoSources(indexes: seq<Index>)
    ensures CountMatches(indexes, []) == 0
  {
    if indexes != [] { CountNoSources(indexes[1..]); }
  }

  lemma {:induction false} CountDistinctLabel(indexes: seq<Index>, key: string)
    requires DistinctLabels(indexes)
    ensures CountLabel(indexes, key) == if HasLabel(indexes, key) then 1 else 0
  {
    if indexes != [] {
      CountDistinctLabel(indexes[1..], key);
      if HasLabel(indexes[1..], key) {
        var i :| 0 <= i < |indexes[1..]| && indexes[1..][i].labelname == key;
        assert indexes[i + 1].labelname == key;
      } else if i :| 0 <= i < |indexes| && indexes[i].labelname == key {
        if i > 0 { assert indexes[1..][i - 1].labelname == key; }
      }
    }
  }

  lemma {:induction false} CountMatchesBound(indexes: seq<Index>, sources: seq<string>)
    requires DistinctLabels(indexes)
    ensures CountMatches(indexes, sources) <= |sources|
    ensures CountMatches(indexes, sources) == |sources| <==> forall s :: s in sources ==> HasLabel(indexes, s)
  {
    if sources == [] {
      CountNoSources(indexes);
    } else {
      CountMatchesBySource(indexes, sources);
      CountDistinctLabel(indexes, sources[0]);
      CountMatchesBound(indexes, sources[1..]);
      assert sources == [sources[0]] + sources[1..];
    }
  }

  /** With distinct index labels the pair count says that every source is there. */
  lemma RequiredMeansPresent(metric: Metric, lookup: LookupConfig)
    requires DistinctLabels(metric.indexes)
    ensures HasAllRequiredIndexes(metric, lookup) <==>
      forall s :: s in lookup.sourceIndexes ==> HasLabel(metric.indexes, s)
  {
    CountMatchesBound(metric.indexes, lookup.sourceIndexes);
  }

  /** A repeated index label makes up for a missing source: the count alone is then no membership test. */
  lemma RepeatedLabelCounterexample(a: Index, metric: Metric, lookup: LookupConfig)
    requires metric.indexes == [a, a] && a.labelname == "a" && lookup.sourceIndexes == ["a", "b"]
    ensures HasAllRequiredIndexes(metric, lookup) && !HasLabel(metric.indexes, "b")
  {
    assert CountSources("a", ["a", "b"]) == 1 by {
      assert ["a", "b"][1..] == ["b"] && CountSources("a", ["b"]) == 0;
    }
    assert [a, a][1..] == [a] && CountMatches([a], ["a", "b"]) == 1;
  }

  lemma {:induction false} PresentLabelCounts(indexes: seq<Index>, i: nat)
    requires i < |indexes|
    ensures CountLabel(indexes, indexes[i].labelname) >= 1
  {
    if i > 0 { PresentLabelCounts(indexes[1..], i - 1); }
  }

  lemma {:induction false} RepeatedLabelCounts(indexes: seq<Index>, i: nat, j: nat)
    requires i < j < |indexes| && indexes[i].labelname == indexes[j].labelname
    ensures CountLabel(indexes, indexes[i].labelname) >= 2
  {
    if i == 0 {
      PresentLabelCounts(indexes[1..], j - 1);
    } else {
      RepeatedLabelCounts(indexes[1..], i - 1, j - 1);
    }
  }

  /** A label that two indexes share is counted twice, and a lookup that needs just this label is refused. */
  lemma RepeatedLabelIsRefused(metric: Metric, i: nat, j: nat, lookup: LookupConfig)
    requires i < j < |metric.indexes| && metric.indexes[i].labelname == metric.indexes[j].labelname
    requires lookup.sourceIndexes == [metric.indexes[i].labelname]
    ensures HasLabel(metric.indexes, lookup.sourceIndexes[0]) && !HasAllRequiredIndexes(metric, lookup)
  {
    RepeatedLabelCounts(metric.indexes, i, j);
    CountMatchesBySource(metric.indexes, lookup.sourceIndexes);
    CountNoSources(metric.indexes);
  }

  /** The count answers rightly for every lookup exactly when the metric's index labels are distinct. */
  lemma RequiredExactly(metric: Metric)
    ensures (forall l: LookupConfig :: HasAllRequiredIndexes(metric, l) <==>
              forall s :: s in l.sourceIndexes ==> HasLabel(metric.indexes, s)) <==>
            DistinctLabels(metric.indexes)
  {
    if DistinctLabels(metric.indexes) {
      forall l: LookupConfig
        ensures HasAllRequiredIndexes(metric, l) <==> forall s :: s in l.sourceIndexes ==> HasLabel(metric.indexes, s)
      {
        RequiredMeansPresent(metric, l);
      }
    } else {
      var i, j :| 0 <= i < j < |metric.indexes| && metric.indexes[i].labelname == metric.indexes[j].labelname;
      var l := LookupConfig([metric.indexes[i].labelname], "", false);
      RepeatedLabelIsRefused(metric, i, j, l);
      assert !HasAllRequiredIndexes(metric, l);
      assert forall s :: s in l.sourceIndexes ==> HasLabel(metric.indexes, s);
    }
  }

  // --- chains are well founded ---

  /** A label that the lookup at place `k` may read: a sanitised original index or the result of an earlier lookup. */
  ghost predicate Grounded(original: Metric, lookups: seq<Lookup>, k: int, key: string) {
    (exists i :: 0 <= i < |original.indexes| && SanitizeLabelName(original.indexes[i].labelname) == key) ||
    (exists j :: 0 <= j < k && j < |lookups| && lookups[j].labelname == key)
  }

  ghost predicate AllGrounded(original: Metric, lookups: seq<Lookup>) {
    forall k, s :: 0 <= k < |lookups| && s in lookups[k].labels ==> Grounded(original, lookups, k, s)
  }

  /** Applied lookups bring labels that differ from each other and from the original indexes. */
  ghost predicate FreshLabels(metric: Metric, lookups: seq<LookupConfig>, chosen: seq<Tree>, required: seq<string>)
    requires |chosen| == |lookups|
  {
    (forall i, j :: 0 <= i < j < |lookups| && Applied(metric, lookups, chosen, required, i) && Applied(metric, lookups, chosen, required, j)
      ==> SanitizeLabelName(chosen[i].name) != SanitizeLabelName(chosen[j].name)) &&
    (forall i :: 0 <= i < |lookups| && Applied(metric, lookups, chosen, required, i)
      ==> !HasLabel(metric.indexes, SanitizeLabelName(chosen[i].name)))
  }

  /** `key` was brought by one of the first `k` configured lookups. */
  ghost predicate Brought(metric: Metric, lookups: seq<LookupConfig>, chosen: seq<Tree>, required: seq<string>,
          k: int, key: string)
    requires |chosen| == |lookups| && k <= |lookups|
  {
    exists i :: 0 <= i < k && Applied(metric, lookups, chosen, required, i) && key == SanitizeLabelName(chosen[i].name)
  }

  ghost predicate FromLookup(m: Metric, key: string) {
    exists j :: 0 <= j < |m.lookups| && m.lookups[j].labelname == key
  }

  /** What the first `k` lookups keep: labels stay distinct, and every index comes from the node or from a lookup. */
  ghost predicate ChainInvariant(original: Metric, m: Metric, lookups: seq<LookupConfig>, chosen: seq<Tree>,
          required: seq<string>, k: int)
    requires |chosen| == |lookups| && k <= |lookups|
  {
    DistinctLabels(m.indexes) && AllGrounded(original, m.lookups) &&
    (forall i :: 0 <= i < |m.indexes| ==> HasLabel(original.indexes, m.indexes[i].labelname) || FromLookup(m, m.indexes[i].labelname)) &&
    (forall j :: 0 <= j < |m.lookups| ==>
      m.lookups[j].labelname == SanitizeLabelName(m.lookups[j].labelname) &&
      Brought(original, lookups, chosen, required, k, m.lookups[j].labelname))
  }

  lemma {:induction false} LookupChain(metric: Metric, lookups: seq<LookupConfig>, chosen: seq<Tree>,
          required: seq<string>, k: nat)
    requires |chosen| == |lookups| && metric.lookups == [] && DistinctLabels(metric.indexes) && k <= |lookups|
    requires FreshLabels(metric, lookups, chosen, required)
    ensures ChainInvariant(metric, RunLookups(metric, lookups[..k], chosen[..k], required), lookups, chosen, required, k)
  {
    if k > 0 {
      LookupChain(metric, lookups, chosen, required, k - 1);
      var before := RunLookups(metric, lookups[..k - 1], chosen[..k - 1], required);
      assert lookups[..k][..k - 1] == lookups[..k - 1] && chosen[..k][..k - 1] == chosen[..k - 1];
      forall j | 0 <= j < |before.lookups|
        ensures Brought(metric, lookups, chosen, required, k, before.lookups[j].labelname)
      {
        assert Brought(metric, lookups, chosen, required, k - 1, before.lookups[j].labelname);
      }
      if Applied(metric, lookups, chosen, required, k - 1) {
        ChainStep(metric, before, lookups, chosen, required, k - 1);
      }
    }
  }

  lemma ChainStep(original: Metric, m: Metric, lookups: seq<LookupConfig>, chosen: seq<Tree>, required: seq<string>,
          k: nat)
    requires |chosen| == |lookups| && k < |lookups| && Applied(original, lookups, chosen, required, k)
    requires FreshLabels(original, lookups, chosen, required)
    requires ChainInvariant(original, m, lookups, chosen, required, k)
    requires HasAllRequiredIndexes(m, lookups[k])
    ensures ChainInvariant(original, ApplyLookup(m, lookups[k], chosen[k], required), lookups, chosen, required, k + 1)
  {
    var l := MakeLookup(lookups[k], chosen[k]);
    var m' := ApplyLookup(m, lookups[k], chosen[k], required);
    SanitizeIdempotent(chosen[k].name);
    LabelsGrounded(original, m, lookups, chosen, required, k);
    GroundedGrows(original, m.lookups, l);
    LookupLabelIsNew(original, m, lookups, chosen, required, k);
    IndexesKnown(original, m, m');
    forall j | 0 <= j < |m'.lookups|
      ensures Brought(original, lookups, chosen, required, k + 1, m'.lookups[j].labelname)
    {
      assert j < |m.lookups| ==> Brought(original, lookups, chosen, required, k, m.lookups[j].labelname);
    }
  }

  /** An applied lookup reads labels that the metric had or that an earlier lookup brought. */
  lemma LabelsGrounded(original: Metric, m: Metric, lookups: seq<LookupConfig>, chosen: seq<Tree>,
          required: seq<string>, k: nat)
    requires |chosen| == |lookups| && k < |lookups| && ChainInvariant(original, m, lookups, chosen, required, k)
    requires HasAllRequiredIndexes(m, lookups[k])
    ensures var l := MakeLookup(lookups[k], chosen[k]);
      forall s :: s in l.labels ==> Grounded(original, m.lookups + [l], |m.lookups|, s)
  {
    var l := MakeLookup(lookups[k], chosen[k]);
    var after := m.lookups + [l];
    RequiredMeansPresent(m, lookups[k]);
    forall s | s in l.labels
      ensures Grounded(original, after, |m.lookups|, s)
    {
      var i :| 0 <= i < |l.labels| && l.labels[i] == s;
      var source := lookups[k].sourceIndexes[i];
      assert source in lookups[k].sourceIndexes;
      assert HasLabel(m.indexes, source);
      if FromLookup(m, source) {
        var j :| 0 <= j < |m.lookups| && m.lookups[j].labelname == source;
        assert after[j].labelname == s;
      }
    }
  }

  lemma LookupLabelIsNew(original: Metric, m: Metric, lookups: seq<LookupConfig>, chosen: seq<Tree>,
          required: seq<string>, k: nat)
    requires |chosen| == |lookups| && k < |lookups| && Applied(original, lookups, chosen, required, k)
    requires FreshLabels(original, lookups, chosen, required)
    requires ChainInvariant(original, m, lookups, chosen, required, k)
    ensures !HasLabel(m.indexes, MakeLookup(lookups[k], chosen[k]).labelname)
  {
    var added := MakeLookup(lookups[k], chosen[k]).labelname;
    forall i | 0 <= i < |m.indexes|
      ensures m.indexes[i].labelname != added
    {
      if FromLookup(m, m.indexes[i].labelname) {
        var j :| 0 <= j < |m.lookups| && m.lookups[j].labelname == m.indexes[i].labelname;
        assert Brought(original, lookups, chosen, required, k, m.lookups[j].labelname);
      }
    }
  }

  /** A new index carries the label of a new lookup. */
  lemma IndexesKnown(original: Metric, m: Metric, m': Metric)
    requires forall i :: 0 <= i < |m.indexes| ==>
      HasLabel(original.indexes, m.indexes[i].labelname) || FromLookup(m, m.indexes[i].labelname)
    requires m.indexes <= m'.indexes && m.lookups <= m'.lookups && |m'.lookups| == |m.lookups| + 1
    requires forall i :: |m.indexes| <= i < |m'.indexes| ==>
      m'.indexes[i].labelname == m'.lookups[|m.lookups|].labelname
    ensures forall i :: 0 <= i < |m'.indexes| ==>
      HasLabel(original.indexes, m'.indexes[i].labelname) || FromLookup(m', m'.indexes[i].labelname)
  {
    forall i | 0 <= i < |m'.indexes|
      ensures HasLabel(original.indexes, m'.indexes[i].labelname) || FromLookup(m', m'.indexes[i].labelname)
    {
      if i < |m.indexes| && FromLookup(m, m.indexes[i].labelname) {
        var j :| 0 <= j < |m.lookups| && m.lookups[j].labelname == m.indexes[i].labelname;
        assert m'.lookups[j].labelname == m'.indexes[i].labelname;
      }
    }
  }

  lemma GroundedGrows(original: Metric, lookups: seq<Lookup>, l: Lookup)
    requires AllGrounded(original, lookups)
    requires forall s :: s in l.labels ==> Grounded(original, lookups + [l], |lookups|, s)
    ensures AllGrounded(original, lookups + [l])
  {
    var ls := lookups + [l];
    forall k, s | 0 <= k < |ls| && s in ls[k].labels
      ensures Grounded(original, ls, k, s)
    {
      if k < |lookups| {
        assert Grounded(original, lookups, k, s);
        if j :| 0 <= j < k && j < |lookups| && lookups[j].labelname == s {
          assert ls[j].labelname == s;
        }
      }
    }
  }

  lemma DropsGrounded(metric: Metric, ls: seq<Lookup>, toDelete: seq<string>)
    requires AllGrounded(metric, ls)
    ensures AllGrounded(metric, ls + DropLookups(toDelete))
  {
    var all := ls + DropLookups(toDelete);
    forall k, s | 0 <= k < |all| && s in all[k].labels
      ensures Grounded(metric, all, k, s)
    {
      assert Grounded(metric, ls, k, s);
      if j :| 0 <= j < k && j < |ls| && ls[j].labelname == s { assert all[j].labelname == s; }
    }
  }

  /** Every label a lookup of the finished metric reads is a sanitised original index or the result of an
      earlier lookup of that metric. */
  lemma LookupsWellFounded(metric: Metric, lookups: seq<LookupConfig>, chosen: seq<Tree>)
    requires |chosen| == |lookups| && metric.lookups == [] && DistinctLabels(metric.indexes)
    requires FreshLabels(metric, lookups, chosen, GetRequiredIndexes(lookups))
    ensures AllGrounded(metric, FinishLookups(metric, lookups, chosen).lookups)
  {
    var required := GetRequiredIndexes(lookups);
    LookupChain(metric, lookups, chosen, required, |lookups|);
    assert lookups[..|lookups|] == lookups && chosen[..|lookups|] == chosen;
    DropsGrounded(metric, RunLookups(metric, lookups, chosen, required).lookups, ToDelete(metric, lookups, chosen, required));
  }
}
