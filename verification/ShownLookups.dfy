/** The lookups and the added indexes of a finished metric, over the configured lookups and the metric itself. */
module ShownLookups {
  import opened MibTree
  import opened IndexCollapse
  import opened Lookups
  import opened WalkPlan
  import opened CompiledModule
  import opened MetricFields

  // --- when a lookup applies ---

  function Labels(ixs: seq<Index>): (labels: seq<string>)
    ensures |labels| == |ixs|
  {
    seq(|ixs|, i requires 0 <= i < |ixs| => ixs[i].labelname)
  }

  /** The pairs of places at which a label is a source. */
  function Pairs(labels: seq<string>, sources: seq<string>): set<(int, int)> {
    set i, j | 0 <= i < |labels| && 0 <= j < |sources| && labels[i] == sources[j] :: (i, j)
  }

  /** A lookup applies if there are as many such pairs as it has sources. */
  predicate Matches(labels: seq<string>, sources: seq<string>) {
    |Pairs(labels, sources)| == |sources|
  }

  lemma {:induction false} SourcePairs(i: int, key: string, sources: seq<string>)
    ensures |(set j | 0 <= j < |sources| && sources[j] == key :: (i, j))| == CountSources(key, sources)
  {
    if sources != [] {
      var front, last := sources[..|sources| - 1], |sources| - 1;
      SourcePairs(i, key, front);
      CountSourcesAppend(key, front, sources[last]);
      assert sources == front + [sources[last]];
      var before, all := set j | 0 <= j < |front| && front[j] == key :: (i, j), set j | 0 <= j < |sources| && sources[j] == key :: (i, j);
      assert all == before + if sources[last] == key then {(i, last)} else {};
    }
  }

  lemma {:induction false} CountSourcesAppend(key: string, sources: seq<string>, s: string)
    ensures CountSources(key, sources + [s]) == CountSources(key, sources) + if s == key then 1 else 0
  {
    if sources == [] {
      assert sources + [s] == [s] && [s][1..] == [];
    } else {
      assert (sources + [s])[1..] == sources[1..] + [s];
      CountSourcesAppend(key, sources[1..], s);
    }
  }

  lemma {:induction false} CountMatchesAppend(ixs: seq<Index>, x: Index, sources: seq<string>)
    ensures CountMatches(ixs + [x], sources) == CountMatches(ixs, sources) + CountSources(x.labelname, sources)
  {
    if ixs == [] {
      assert ixs + [x] == [x] && [x][1..] == [];
    } else {
      assert (ixs + [x])[1..] == ixs[1..] + [x];
      CountMatchesAppend(ixs[1..], x, sources);
    }
  }

  lemma PairsAppend(labels: seq<string>, key: string, sources: seq<string>)
    ensures |Pairs(labels + [key], sources)| == |Pairs(labels, sources)| + CountSources(key, sources)
  {
    var n := |labels|;
    var all, front, last := Pairs(labels + [key], sources), Pairs(labels, sources), set j | 0 <= j < |sources| && sources[j] == key :: (n, j);
    SourcePairs(n, key, sources);
    forall i, j
      ensures (i, j) in all <==> (i, j) in front || (i, j) in last
    {}
    assert all == front + last && front !! last;
  }

  /** The generator's nested loops count exactly these pairs. */
  lemma {:induction false} CountIsPairs(ixs: seq<Index>, sources: seq<string>)
    ensures CountMatches(ixs, sources) == |Pairs(Labels(ixs), sources)|
  {
    if ixs == [] {
      assert Pairs([], sources) == {};
    } else {
      var front, x := ixs[..|ixs| - 1], ixs[|ixs| - 1];
      assert ixs == front + [x];
      CountIsPairs(front, sources);
      CountMatchesAppend(front, x, sources);
      assert Labels(ixs) == Labels(front) + [x.labelname];
      PairsAppend(Labels(front), x.labelname, sources);
    }
  }

  lemma AppliesExactly(metric: Metric, lookup: LookupConfig)
    ensures HasAllRequiredIndexes(metric, lookup) <==> Matches(Labels(metric.indexes), lookup.sourceIndexes)
  {
    CountIsPairs(metric.indexes, lookup.sourceIndexes);
  }

  // --- what a lookup says ---

  /** A lookup of the module: the node it reads, and the sources it reads it by, in order. */
  ghost predicate LookupShown(lookup: LookupConfig, node: Tree, l: Lookup) {
    l.oid == node.oid && SanitizedAs(node.name, l.labelname) && ExportedAs(node.typ, l.typ) &&
    |l.labels| == |lookup.sourceIndexes| && forall i :: 0 <= i < |l.labels| ==> SanitizedAs(lookup.sourceIndexes[i], l.labels[i])
  }

  /** A lookup that only drops a label. */
  ghost predicate DropShown(source: string, l: Lookup) {
    SanitizedAs(source, l.labelname) && l.labels == [] && l.oid == "" && l.typ == ""
  }

  lemma MadeLookup(lookup: LookupConfig, node: Tree)
    requires MetricType(node.typ).Some?
    ensures LookupShown(lookup, node, MakeLookup(lookup, node))
  {
    ExportedExactly(node.typ);
    forall i | 0 <= i < |lookup.sourceIndexes|
      ensures SanitizedAs(lookup.sourceIndexes[i], GetSanitizedLabels(lookup.sourceIndexes)[i])
    {
      SanitizedExactly(lookup.sourceIndexes[i], SanitizeLabelName(lookup.sourceIndexes[i]));
    }
  }

  /** Some configured lookup reads the label. */
  ghost predicate IsSource(lookups: seq<LookupConfig>, key: string) {
    exists k, i :: 0 <= k < |lookups| && 0 <= i < |lookups[k].sourceIndexes| && lookups[k].sourceIndexes[i] == key
  }

  lemma {:induction false} RequiredAreSources(lookups: seq<LookupConfig>, key: string)
    ensures key in GetRequiredIndexes(lookups) <==> IsSource(lookups, key)
  {
    if lookups != [] {
      var first, rest := lookups[0].sourceIndexes, lookups[1..];
      RequiredAreSources(rest, key);
      if key in first {
        var i :| 0 <= i < |first| && first[i] == key;
        assert lookups[0].sourceIndexes[i] == key;
      }
      if IsSource(rest, key) {
        var k, i :| 0 <= k < |rest| && 0 <= i < |rest[k].sourceIndexes| && rest[k].sourceIndexes[i] == key;
        assert lookups[k + 1].sourceIndexes[i] == key;
      }
      if IsSource(lookups, key) {
        var k, i :| 0 <= k < |lookups| && 0 <= i < |lookups[k].sourceIndexes| && lookups[k].sourceIndexes[i] == key;
        if k > 0 { assert rest[k - 1].sourceIndexes[i] == key; }
      }
    }
  }

  /** The indexes that lookups add: one for each lookup whose label some configured lookup reads. */
  ghost function AddedIndexes(ls: seq<Lookup>, lookups: seq<LookupConfig>): seq<Index> {
    if ls == [] then [] else
      var l := ls[|ls| - 1];
      AddedIndexes(ls[..|ls| - 1], lookups) + if IsSource(lookups, l.labelname) then [Index(l.labelname, l.typ, 0, false, map[])] else []
  }

  /** The sources that the lookups at `places` drop, in order. */
  function DroppedSources(lookups: seq<LookupConfig>, places: seq<nat>): seq<string>
  {
    if places == [] then [] else
      var k := places[|places| - 1];
      DroppedSources(lookups, places[..|places| - 1]) +
      if k < |lookups| && lookups[k].dropSourceIndexes then lookups[k].sourceIndexes else []
  }

  // --- all lookups of a metric ---

  /** The lookups `ls` are those configured at `places`, all below `k`. */
  ghost predicate LookupsAt(lookups: seq<LookupConfig>, chosen: seq<Tree>, ls: seq<Lookup>, places: seq<nat>, k: nat)
    requires |chosen| == |lookups|
  {
    Ascending(places) && |ls| == |places| && (forall p :: p in places ==> p < k && p < |lookups|) &&
    forall j :: 0 <= j < |ls| && places[j] < |lookups| ==> LookupShown(lookups[places[j]], chosen[places[j]], ls[j])
  }

  /** `j` of the places lie below `k`. */
  ghost predicate Below(places: seq<nat>, j: nat, k: nat) {
    j <= |places| && (forall i :: 0 <= i < j ==> places[i] < k) &&
    (j < |places| ==> places[j] >= k) && forall i :: j <= i < |places| ==> places[i] >= k
  }

  /** Whether the `k`-th configured lookup applies is decided by the labels at that moment: the metric's own ones and those
      that the lookups before it have added. */
  ghost predicate DecidedAt(ixs: seq<Index>, lookups: seq<LookupConfig>, ls: seq<Lookup>, places: seq<nat>, k: nat)
    requires k < |lookups|
  {
    forall j: nat {:trigger Below(places, j, k)} :: Below(places, j, k) && j <= |ls| ==>
      (k in places <==> Matches(Labels(ixs + AddedIndexes(ls[..j], lookups)), lookups[k].sourceIndexes))
  }

  ghost predicate Decided(ixs: seq<Index>, lookups: seq<LookupConfig>, ls: seq<Lookup>, places: seq<nat>, n: nat)
    requires n <= |lookups|
  {
    forall k: nat {:trigger DecidedAt(ixs, lookups, ls, places, k)} :: k < n ==> DecidedAt(ixs, lookups, ls, places, k)
  }

  /** What is known after the first `k` configured lookups. */
  ghost predicate LookedUpAs(base: Metric, lookups: seq<LookupConfig>, chosen: seq<Tree>, m: Metric,
          places: seq<nat>, k: nat)
    requires |chosen| == |lookups| && k <= |lookups|
  {
    LookupsAt(lookups, chosen, m.lookups, places, k) && Decided(base.indexes, lookups, m.lookups, places, k) &&
    m.indexes == base.indexes + AddedIndexes(m.lookups, lookups)
  }

  lemma SkippedStep(base: Metric, lookups: seq<LookupConfig>, chosen: seq<Tree>, m: Metric, places: seq<nat>, k: nat)
    requires |chosen| == |lookups| && k < |lookups| && LookedUpAs(base, lookups, chosen, m, places, k)
    requires !HasAllRequiredIndexes(m, lookups[k])
    ensures LookedUpAs(base, lookups, chosen, m, places, k + 1)
  {
    AppliesExactly(m, lookups[k]);
    assert m.lookups[..|m.lookups|] == m.lookups;
    forall i: nat | i < k + 1
      ensures DecidedAt(base.indexes, lookups, m.lookups, places, i)
    {
      if i == k {
        forall j: nat | Below(places, j, k)
          ensures j == |places| && k !in places
        {
          AllBelow(places, j, k);
        }
      }
    }
  }

  lemma AllBelow(places: seq<nat>, j: nat, k: nat)
    requires Below(places, j, k) && forall p :: p in places ==> p < k
    ensures j == |places|
  {
    assert forall i :: 0 <= i < |places| ==> places[i] in places;
  }

  lemma AppliedStep(base: Metric, lookups: seq<LookupConfig>, chosen: seq<Tree>, m: Metric, places: seq<nat>, k: nat)
    requires |chosen| == |lookups| && k < |lookups| && LookedUpAs(base, lookups, chosen, m, places, k)
    requires HasAllRequiredIndexes(m, lookups[k]) && MetricType(chosen[k].typ).Some?
    ensures LookedUpAs(base, lookups, chosen, ApplyLookup(m, lookups[k], chosen[k], GetRequiredIndexes(lookups)), places + [k], k + 1)
  {
    var l := MakeLookup(lookups[k], chosen[k]);
    MadeLookup(lookups[k], chosen[k]);
    MoreLookupsAt(lookups, chosen, m.lookups, places, k, l);
    AppliesExactly(m, lookups[k]);
    AllDecided(base.indexes, lookups, m.lookups, places, k, l);
    MoreIndexes(base, lookups, m, lookups[k], chosen[k]);
  }

  lemma MoreIndexes(base: Metric, lookups: seq<LookupConfig>, m: Metric, lookup: LookupConfig, node: Tree)
    requires m.indexes == base.indexes + AddedIndexes(m.lookups, lookups)
    ensures var after := ApplyLookup(m, lookup, node, GetRequiredIndexes(lookups));
      after.lookups == m.lookups + [MakeLookup(lookup, node)] &&
      after.indexes == base.indexes + AddedIndexes(after.lookups, lookups)
  {
    var l := MakeLookup(lookup, node);
    RequiredAreSources(lookups, l.labelname);
    assert (m.lookups + [l])[..|m.lookups|] == m.lookups;
  }

  lemma AllDecided(ixs: seq<Index>, lookups: seq<LookupConfig>, ls: seq<Lookup>, places: seq<nat>, k: nat, l: Lookup)
    requires k < |lookups| && |ls| == |places| && (forall p :: p in places ==> p < k) && Decided(ixs, lookups, ls, places, k)
    requires Matches(Labels(ixs + AddedIndexes(ls, lookups)), lookups[k].sourceIndexes)
    ensures Decided(ixs, lookups, ls + [l], places + [k], k + 1)
  {
    forall i: nat | i < k + 1
      ensures DecidedAt(ixs, lookups, ls + [l], places + [k], i)
    {
      MoreDecided(ixs, lookups, ls, places, k, l, i);
    }
  }

  lemma MoreLookupsAt(lookups: seq<LookupConfig>, chosen: seq<Tree>, ls: seq<Lookup>, places: seq<nat>, k: nat,
          l: Lookup)
    requires |chosen| == |lookups| && k < |lookups| && LookupsAt(lookups, chosen, ls, places, k)
    requires LookupShown(lookups[k], chosen[k], l)
    ensures LookupsAt(lookups, chosen, ls + [l], places + [k], k + 1)
  {
    var more, all := places + [k], ls + [l];
    assert forall j :: 0 <= j < |places| ==> more[j] == places[j] && places[j] in places;
    forall j | 0 <= j < |all| && more[j] < |lookups|
      ensures LookupShown(lookups[more[j]], chosen[more[j]], all[j])
    {
      if j < |ls| { assert all[j] == ls[j]; }
    }
  }

  lemma MoreDecided(ixs: seq<Index>, lookups: seq<LookupConfig>, ls: seq<Lookup>, places: seq<nat>, k: nat,
          l: Lookup, i: nat)
    requires i <= k < |lookups| && |ls| == |places| && (forall p :: p in places ==> p < k)
    requires i < k ==> DecidedAt(ixs, lookups, ls, places, i)
    requires i == k ==> Matches(Labels(ixs + AddedIndexes(ls, lookups)), lookups[k].sourceIndexes)
    ensures DecidedAt(ixs, lookups, ls + [l], places + [k], i)
  {
    var more, all := places + [k], ls + [l];
    forall j: nat | Below(more, j, i) && j <= |all|
      ensures i in more <==> Matches(Labels(ixs + AddedIndexes(all[..j], lookups)), lookups[i].sourceIndexes)
    {
      assert more[|places|] == k;
      assert all[..j] == ls[..j];
      assert forall q :: 0 <= q < |places| ==> more[q] == places[q];
      if i < k {
        assert Below(places, j, i);
      } else {
        assert Below(places, j, k);
        AllBelow(places, j, k);
        assert ls[..j] == ls;
      }
    }
  }

  /** The lookup loop after `k` configured lookups, of which those at `places` have applied. */
  ghost predicate RanAs(base: Metric, lookups: seq<LookupConfig>, chosen: seq<Tree>, places: seq<nat>, k: nat)
    requires |chosen| == |lookups| && k <= |lookups|
  {
    var required := GetRequiredIndexes(lookups);
    LookedUpAs(base, lookups, chosen, RunLookups(base, lookups[..k], chosen[..k], required), places, k) &&
    (forall p :: p in places ==> p < k && Applied(base, lookups, chosen, required, p)) &&
    ToDelete(base, lookups[..k], chosen[..k], required) == DroppedSources(lookups, places)
  }

  /** The lookups of a metric, and which of the configured ones they are. */
  lemma {:induction false} LookupsRun(base: Metric, lookups: seq<LookupConfig>, chosen: seq<Tree>, k: nat)
          returns (places: seq<nat>)
    requires |chosen| == |lookups| && k <= |lookups| && base.lookups == []
    requires forall i :: 0 <= i < k && Applied(base, lookups, chosen, GetRequiredIndexes(lookups), i) ==>
      MetricType(chosen[i].typ).Some?
    ensures RanAs(base, lookups, chosen, places, k)
  {
    if k == 0 {
      places := [];
    } else {
      var before := LookupsRun(base, lookups, chosen, k - 1);
      places := LookupStep(base, lookups, chosen, before, k - 1);
    }
  }

  lemma LookupStep(base: Metric, lookups: seq<LookupConfig>, chosen: seq<Tree>, before: seq<nat>, k: nat)
          returns (places: seq<nat>)
    requires |chosen| == |lookups| && k < |lookups| && RanAs(base, lookups, chosen, before, k)
    requires Applied(base, lookups, chosen, GetRequiredIndexes(lookups), k) ==> MetricType(chosen[k].typ).Some?
    ensures RanAs(base, lookups, chosen, places, k + 1)
  {
    var required := GetRequiredIndexes(lookups);
    var m := RunLookups(base, lookups[..k], chosen[..k], required);
    RunStep(base, lookups, chosen, required, k);
    if HasAllRequiredIndexes(m, lookups[k]) {
      AppliedStep(base, lookups, chosen, m, before, k);
      DroppedAppend(lookups, before, k);
      places := before + [k];
    } else {
      SkippedStep(base, lookups, chosen, m, before, k);
      places := before;
    }
  }

  lemma DroppedAppend(lookups: seq<LookupConfig>, places: seq<nat>, k: nat)
    requires k < |lookups|
    ensures DroppedSources(lookups, places + [k]) ==
      DroppedSources(lookups, places) + if lookups[k].dropSourceIndexes then lookups[k].sourceIndexes else []
  {
    assert (places + [k])[..|places|] == places;
  }

  lemma RunStep(base: Metric, lookups: seq<LookupConfig>, chosen: seq<Tree>, required: seq<string>, k: nat)
    requires |chosen| == |lookups| && k < |lookups|
    ensures var m := RunLookups(base, lookups[..k], chosen[..k], required);
      RunLookups(base, lookups[..k + 1], chosen[..k + 1], required) ==
        (if HasAllRequiredIndexes(m, lookups[k]) then ApplyLookup(m, lookups[k], chosen[k], required) else m)
    ensures ToDelete(base, lookups[..k + 1], chosen[..k + 1], required) == ToDelete(base, lookups[..k], chosen[..k], required) +
      if Applied(base, lookups, chosen, required, k) && lookups[k].dropSourceIndexes then lookups[k].sourceIndexes else []
  {
    assert lookups[..k + 1][..k] == lookups[..k] && chosen[..k + 1][..k] == chosen[..k];
  }

  // --- the finished metric ---

  /** Its index is that of the metric before, under a label name. */
  ghost predicate IndexFinished(before: Index, after: Index) {
    SanitizedAs(before.labelname, after.labelname) && after == before.(labelname := after.labelname)
  }

  /** The lookups and indexes of the finished metric `m`, whose own indexes were `ixs`: first the configured lookups at
      `places`, each with a node that its name may stand for, then one lookup for each source they drop. */
  ghost predicate LookupsFinished(t: Tree, cfg: Config, ixs: seq<Index>, m: Metric, chosen: seq<Tree>,
          places: seq<nat>) {
    |chosen| == |cfg.lookups| && |places| <= |m.lookups| &&
    LookupsAt(cfg.lookups, chosen, m.lookups[..|places|], places, |cfg.lookups|) &&
    Decided(ixs, cfg.lookups, m.lookups[..|places|], places, |cfg.lookups|) &&
    (forall p :: p in places ==> p < |chosen| && ChosenNode(t, cfg, m.oid, chosen[p], p)) &&
    DropsShown(DroppedSources(cfg.lookups, places), m.lookups[|places|..]) &&
    IndexesFinished(ixs + AddedIndexes(m.lookups[..|places|], cfg.lookups), m.indexes)
  }

  ghost predicate ChosenNode(t: Tree, cfg: Config, oid: string, node: Tree, p: nat) {
    p < |cfg.lookups| && cfg.lookups[p].lookup in NameToNode(t) &&
    IsIndexNode(cfg.lookups[p].lookup, NameToNode(t), oid, node) && node in Preorder(t) && node.oid != ""
  }

  ghost predicate DropsShown(sources: seq<string>, ls: seq<Lookup>) {
    |ls| == |sources| && forall i :: 0 <= i < |ls| ==> DropShown(sources[i], ls[i])
  }

  ghost predicate IndexesFinished(before: seq<Index>, after: seq<Index>) {
    |after| == |before| && forall i :: 0 <= i < |after| ==> IndexFinished(before[i], after[i])
  }

  lemma DropsAreShown(sources: seq<string>)
    ensures DropsShown(sources, DropLookups(sources))
  {
    forall i | 0 <= i < |sources|
      ensures DropShown(sources[i], DropLookups(sources)[i])
    {
      SanitizedExactly(sources[i], SanitizeLabelName(sources[i]));
    }
  }

  lemma SanitizedIndexes(ixs: seq<Index>)
    ensures IndexesFinished(ixs, SanitizeIndexes(ixs))
  {
    forall i | 0 <= i < |ixs|
      ensures IndexFinished(ixs[i], SanitizeIndexes(ixs)[i])
    {
      SanitizedExactly(ixs[i].labelname, SanitizeLabelName(ixs[i].labelname));
    }
  }

  /** Every finished metric has the lookups that apply to it, and no others. */
  lemma FinishedLookups(t: Tree, cfg: Config, base: Metric, m: Metric) returns (chosen: seq<Tree>, places: seq<nat>)
    requires GoodTree(t) && Finished(base, cfg, t, m) && base.lookups == []
    ensures LookupsFinished(t, cfg, base.indexes, m, chosen, places)
  {
    chosen := FinishedKeepsOid(base, cfg, t, m);
    var lookups, required := cfg.lookups, GetRequiredIndexes(cfg.lookups);
    assert lookups[..|lookups|] == lookups && chosen[..|lookups|] == chosen;
    places := LookupsRun(base, lookups, chosen, |lookups|);
    var run := RunLookups(base, lookups, chosen, required);
    assert m.lookups[..|places|] == run.lookups && m.lookups[|places|..] == DropLookups(DroppedSources(lookups, places));
    DropsAreShown(DroppedSources(lookups, places));
    SanitizedIndexes(run.indexes);
    forall p | p in places
      ensures ChosenNode(t, cfg, m.oid, chosen[p], p)
    {
      IndexNodeLabel(lookups[p].lookup, t, base.oid, chosen[p]);
      NodePath(t, chosen[p]);
    }
  }
}
