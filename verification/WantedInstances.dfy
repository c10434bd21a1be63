/** What a finished module fetches, said of the walk entries, the metrics and the nodes: no request list, no key. */
module WantedInstances {
  import opened Oids
  import opened FetchSet
  import opened MibTree
  import opened IndexCollapse
  import opened Lookups
  import opened WalkPlan
  import opened CompiledModule
  import opened MetricFields
  import opened AddressTypes

  ghost predicate NodeAt(t: Tree, oid: string, n: Tree) {
    n in Preorder(t) && n.oid == oid
  }

  predicate IsScalarNode(n: Tree) {
    Supported(n.typ) && n.access in READABLE && n.indexes == []
  }

  /** What a walk entry asks for: the instance .0 of a scalar, the subtree of any other node, or just itself. */
  ghost predicate EntryWants(t: Tree, w: string, x: Arcs) {
    x != [] &&
    if exists n :: NodeAt(t, w, n)
    then exists n :: NodeAt(t, w, n) && if IsScalarNode(n) then x == PathOf(n) + [0] else PathOf(n) <= x
    else Render(x) == w
  }

  /** The column `n` is walked at its instance `s`: the entry is no node, and `n` is the deepest node above it. */
  ghost predicate SavedFor(t: Tree, toWalk: seq<string>, n: Tree, s: string) {
    n.oid + s in toWalk && (forall y :: y in Preorder(t) ==> y.oid != n.oid + s) && LongestMatch(n.oid + s, Preorder(t), n)
  }

  ghost predicate HasSaved(t: Tree, toWalk: seq<string>, n: Tree) {
    exists s :: SavedFor(t, toWalk, n, s)
  }

  /** What a column that goes with the metric at `n` is asked for: its whole subtree, or the instances saved for `n`. */
  ghost predicate ColumnWants(t: Tree, toWalk: seq<string>, n: Tree, column: Tree, x: Arcs) {
    x != [] &&
    if HasSaved(t, toWalk, n)
    then exists s :: SavedFor(t, toWalk, n, s) && Render(x) == column.oid + s
    else PathOf(column) <= x
  }

  /** The columns that go with a metric: those its lookups read, and the type of its address. */
  ghost predicate GoesWith(t: Tree, m: Metric, n: Tree, column: Tree) {
    NodeAt(t, m.oid, n) &&
    ((exists l :: l in m.lookups && l.oid != "" && NodeAt(t, l.oid, column)) ||
     (m.typ in ADDRESS_TYPES && TypeBefore(t, n, column)))
  }

  ghost predicate MetricWants(t: Tree, toWalk: seq<string>, m: Metric, x: Arcs) {
    exists n, column :: GoesWith(t, m, n, column) && ColumnWants(t, toWalk, n, column, x)
  }

  ghost predicate Wanted(t: Tree, toWalk: seq<string>, metrics: seq<Metric>, x: Arcs) {
    (exists w :: w in toWalk && EntryWants(t, w, x)) || exists m :: m in metrics && MetricWants(t, toWalk, m, x)
  }

  // --- entries ---

  lemma OneNodeAt(t: Tree, oid: string, m: Tree, n: Tree)
    requires IsTree(t) && NodeAt(t, oid, m) && NodeAt(t, oid, n)
    ensures m == n
  {
    SameOidSameNode(t, [t.subid], m, n);
  }

  lemma NodeClassified(t: Tree, w: string, m: Tree)
    requires GoodTree(t) && NodeAt(t, w, m)
    ensures Classify(w, t) == if IsScalarNode(m) then OidScalar(m) else OidSubtree(m)
  {
    NameToNodeByOid(t, m);
    UsableExactly(m);
  }

  lemma EntryNode(t: Tree, w: string, n: Tree)
    requires GoodTree(t) && PlannedAt(t, w, n)
    ensures Classify(w, t).OidInstance? <==> !exists m :: NodeAt(t, w, m)
    ensures !Classify(w, t).OidInstance? ==> NodeAt(t, w, n) && (Classify(w, t).OidScalar? <==> IsScalarNode(n))
  {
    if Classify(w, t).OidInstance? {
      InstanceIsNoNode(t, w);
    } else {
      assert NodeAt(t, w, n);
      NodeClassified(t, w, n);
    }
  }

  lemma InstanceIsNoNode(t: Tree, w: string)
    requires GoodTree(t) && Classify(w, t).OidInstance?
    ensures forall m :: !NodeAt(t, w, m)
  {
    if m :| NodeAt(t, w, m) {
      NodeClassified(t, w, m);
      assert false;
    }
  }

  lemma EntryMeans(t: Tree, entries: seq<string>, toWalk: seq<string>, w: string, x: Arcs)
    requires Plan(t, entries, toWalk) && w in toWalk
    ensures Denotes(WalkKey(w, Classify(w, t)), x) <==> EntryWants(t, w, x)
  {
    var n := EntryPlanned(t, entries, toWalk, w);
    EntryNode(t, w, n);
    NodePath(t, n);
    if !Classify(w, t).OidInstance? {
      forall m | NodeAt(t, w, m)
        ensures m == n
      {
        OneNodeAt(t, w, m, n);
      }
    }
    KeyMeans(w, Classify(w, t), n, x);
  }

  lemma KeyMeans(w: string, c: NodeClass, n: Tree, x: Arcs)
    requires IsOid(w) && PathOf(n) != [] && (!c.OidInstance? ==> w == Render(PathOf(n))) && !c.OidNotFound?
    ensures Denotes(WalkKey(w, c), x) <==>
      (x != [] && if c.OidSubtree? then PathOf(n) <= x else if c.OidInstance? then Render(x) == w else x == PathOf(n) + [0])
  {
    match c {
      case OidSubtree(_) =>
        SubtreeKey(PathOf(n));
      case OidInstance(_) =>
        InstanceKey(ArcsOf(w));
        if x != [] && Render(x) == w { RenderInjective(x, ArcsOf(w)); }
      case OidScalar(_) =>
        RenderZero(PathOf(n));
        ScalarInstance(w);
        InstanceKey(PathOf(n) + [0]);
    }
  }

  // --- saved instances ---

  lemma LongestUnique(t: Tree, w: string, m: Tree, n: Tree)
    requires LongestMatch(w, Preorder(t), m) && LongestMatch(w, Preorder(t), n)
    ensures m == n
  {}

  lemma SavedExactly(t: Tree, entries: seq<string>, toWalk: seq<string>, n: Tree, s: string)
    requires Plan(t, entries, toWalk) && n in Preorder(t)
    ensures s in InstancesAt(toWalk, t, n.oid) <==> SavedFor(t, toWalk, n, s)
  {
    var w := n.oid + s;
    if s in InstancesAt(toWalk, t, n.oid) {
      var v := InstanceEntry(toWalk, t, n.oid, s);
      var m := EntryPlanned(t, entries, toWalk, v);
      var c := SavedSuffix(t, v, m);
      EntryNode(t, v, m);
      OneNodeAt(t, n.oid, m, n);
      SearchIsLongestMatch(v, t, [t.subid]);
      assert forall y :: y in Preorder(t) ==> !NodeAt(t, v, y);
    }
    if SavedFor(t, toWalk, n, s) {
      var m := EntryPlanned(t, entries, toWalk, w);
      EntryNode(t, w, m);
      assert !exists y :: NodeAt(t, w, y);
      SearchIsLongestMatch(w, t, [t.subid]);
      LongestUnique(t, w, m, n);
      EntrySaved(toWalk, t, w);
      assert n.oid <= w && w[|n.oid|..] == s;
    }
  }

  // --- columns ---

  lemma AllSaved(t: Tree, entries: seq<string>, toWalk: seq<string>, n: Tree)
    requires Plan(t, entries, toWalk) && n in Preorder(t)
    ensures forall s :: s in InstancesAt(toWalk, t, n.oid) <==> SavedFor(t, toWalk, n, s)
    ensures InstancesAt(toWalk, t, n.oid) != [] <==> HasSaved(t, toWalk, n)
  {
    var instances := InstancesAt(toWalk, t, n.oid);
    forall s
      ensures s in instances <==> SavedFor(t, toWalk, n, s)
    {
      SavedExactly(t, entries, toWalk, n, s);
    }
    if instances != [] { assert instances[0] in instances; }
  }

  /** Some key of the column asks for the instance. */
  ghost predicate ColumnAsks(column: Tree, instances: seq<string>, x: Arcs) {
    exists k :: k in ColumnKeys(column.oid, instances) && Denotes(k, x)
  }

  lemma ColumnMeans(t: Tree, entries: seq<string>, toWalk: seq<string>, n: Tree, column: Tree, x: Arcs)
    requires Plan(t, entries, toWalk) && n in Preorder(t) && column in Preorder(t)
    ensures ColumnAsks(column, InstancesAt(toWalk, t, n.oid), x) <==> ColumnWants(t, toWalk, n, column, x)
  {
    AllSaved(t, entries, toWalk, n);
    if InstancesAt(toWalk, t, n.oid) == [] {
      SubtreeKeyMeans(t, column, x);
    } else {
      InstanceKeysMean(t, toWalk, entries, n, column, x);
    }
  }

  lemma SubtreeKeyMeans(t: Tree, column: Tree, x: Arcs)
    requires IsTree(t) && column in Preorder(t)
    ensures ColumnAsks(column, [], x) <==> x != [] && PathOf(column) <= x
  {
    NodePath(t, column);
    SubtreeKey(PathOf(column));
    assert column.oid in ColumnKeys(column.oid, []);
  }

  lemma InstanceKeysMean(t: Tree, toWalk: seq<string>, entries: seq<string>, n: Tree, column: Tree, x: Arcs)
    requires Plan(t, entries, toWalk) && n in Preorder(t) && column in Preorder(t) &&
      InstancesAt(toWalk, t, n.oid) != []
    ensures ColumnAsks(column, InstancesAt(toWalk, t, n.oid), x) <==>
      x != [] && exists s :: s in InstancesAt(toWalk, t, n.oid) && Render(x) == column.oid + s
  {
    var instances := InstancesAt(toWalk, t, n.oid);
    SavedInstances(t, entries, toWalk, n.oid);
    forall s | s in instances
      ensures column.oid + s + "." in ColumnKeys(column.oid, instances)
      ensures Denotes(column.oid + s + ".", x) <==> x != [] && Render(x) == column.oid + s
    {
      NodeInstanceKeyGood(t, column, s);
      DottedEqual(column.oid + s, x);
    }
  }

  lemma DottedEqual(oid: string, x: Arcs)
    requires IsInstanceKey(oid + ".")
    ensures Denotes(oid + ".", x) <==> x != [] && Render(x) == oid
  {
    if x != [] && oid + "." == Render(x) + "." {
      assert oid == (oid + ".")[..|oid|];
      assert Render(x) == (Render(x) + ".")[..|Render(x)|];
    }
  }

  // --- the whole module ---

  lemma MetricNode(t: Tree, cfg: Config, toWalk: seq<string>, nodes: seq<Tree>, metrics: seq<Metric>,
          get: seq<string>, walk: seq<string>, m: Metric)
    returns (n: Tree, base: Metric)
    requires Compiled(t, cfg, toWalk, nodes, metrics, get, walk) && m in metrics
    ensures NodeAt(t, m.oid, n) && base.lookups == [] && base.oid == n.oid && Finished(base, cfg, t, m)
  {
    var w, y, b := MetricOrigin(t, cfg, toWalk, nodes, metrics, get, walk, m);
    n, base := y, b;
    var chosen := FinishedKeepsOid(base, cfg, t, m);
  }

  /** Some column key of the metric asks for the instance. */
  ghost predicate MetricAsks(t: Tree, toWalk: seq<string>, m: Metric, x: Arcs) {
    exists k :: Denotes(k, x) && MetricKey(t, toWalk, m, k)
  }

  ghost predicate MetricKey(t: Tree, toWalk: seq<string>, m: Metric, k: string) {
    k in LookupKeys(m.lookups, InstancesAt(toWalk, t, m.oid)) || k in TypeKeys(m, NameToNode(t), InstancesAt(toWalk, t, m.oid))
  }

  lemma LookupColumnsMean(t: Tree, cfg: Config, toWalk: seq<string>, n: Tree, base: Metric, m: Metric, x: Arcs)
    requires Plan(t, cfg.walk, toWalk) && NodeAt(t, m.oid, n) && base.lookups == [] && Finished(base, cfg, t, m)
    ensures (exists k :: k in LookupKeys(m.lookups, InstancesAt(toWalk, t, m.oid)) && Denotes(k, x)) <==>
      exists l, column :: l in m.lookups && l.oid != "" && NodeAt(t, l.oid, column) && ColumnWants(t, toWalk, n, column, x)
  {
    var instances := InstancesAt(toWalk, t, m.oid);
    if k :| k in LookupKeys(m.lookups, instances) && Denotes(k, x) {
      LookupKeysMember(m.lookups, instances, k);
      var l :| l in m.lookups && l.oid != "" && k in ColumnKeys(l.oid, instances);
      var column := FinishedLookupNode(base, cfg, t, m, l);
      ColumnMeans(t, cfg.walk, toWalk, n, column, x);
    }
    if l, column :| l in m.lookups && l.oid != "" && NodeAt(t, l.oid, column) && ColumnWants(t, toWalk, n, column, x) {
      ColumnMeans(t, cfg.walk, toWalk, n, column, x);
      var k :| k in ColumnKeys(column.oid, instances) && Denotes(k, x);
      LookupKeysMember(m.lookups, instances, k);
    }
  }

  /** The node that gives the type of the address at `n` asks for the instance. */
  ghost predicate TypeWants(t: Tree, toWalk: seq<string>, n: Tree, x: Arcs) {
    exists p :: TypeBefore(t, n, p) && ColumnWants(t, toWalk, n, p, x)
  }

  lemma TypeColumnMeans(t: Tree, cfg: Config, toWalk: seq<string>, n: Tree, m: Metric, x: Arcs)
    requires Plan(t, cfg.walk, toWalk) && NodeAt(t, m.oid, n)
    ensures (exists k :: k in TypeKeys(m, NameToNode(t), InstancesAt(toWalk, t, m.oid)) && Denotes(k, x)) <==>
      m.typ in ADDRESS_TYPES && TypeWants(t, toWalk, n, x)
  {
    var keys := TypeKeys(m, NameToNode(t), InstancesAt(toWalk, t, m.oid));
    SiblingExactly(t, n, m);
    if HasTypeSibling(m, NameToNode(t)) {
      var p := TheTypeBefore(t, n, m);
      TypeNodeMeans(t, cfg.walk, toWalk, n, p, x);
      assert m.typ in ADDRESS_TYPES ==> keys == ColumnKeys(p.oid, InstancesAt(toWalk, t, n.oid));
    }
  }

  lemma TypeNodeMeans(t: Tree, entries: seq<string>, toWalk: seq<string>, n: Tree, p: Tree, x: Arcs)
    requires Plan(t, entries, toWalk) && n in Preorder(t) && TypeBefore(t, n, p) && forall q :: TypeBefore(t, n, q) ==>
      q == p
    ensures ColumnAsks(p, InstancesAt(toWalk, t, n.oid), x) <==> TypeWants(t, toWalk, n, x)
  {
    ColumnMeans(t, entries, toWalk, n, p, x);
  }

  lemma TheTypeBefore(t: Tree, n: Tree, m: Metric) returns (p: Tree)
    requires GoodTree(t) && NodeAt(t, m.oid, n) && HasTypeSibling(m, NameToNode(t))
    ensures p.oid == PrevOid(m.oid) && TypeBefore(t, n, p) && forall q :: TypeBefore(t, n, q) ==> q == p
  {
    p := PrecedingSibling(t, n, PrevOid(m.oid));
    forall q | TypeBefore(t, n, q)
      ensures q == p
    {
      OneTypeBefore(t, n, p, q);
    }
  }

  lemma OneTypeBefore(t: Tree, n: Tree, p: Tree, q: Tree)
    requires IsTree(t) && TypeBefore(t, n, p) && TypeBefore(t, n, q)
    ensures p == q
  {
    OneLower(PathOf(p), PathOf(n));
    OneLower(PathOf(q), PathOf(n));
    NodePath(t, p);
    NodePath(t, q);
    SameOidSameNode(t, [t.subid], p, q);
  }

  lemma MetricMeans(t: Tree, cfg: Config, toWalk: seq<string>, nodes: seq<Tree>, metrics: seq<Metric>,
          get: seq<string>, walk: seq<string>, m: Metric, x: Arcs)
    requires Compiled(t, cfg, toWalk, nodes, metrics, get, walk) && m in metrics
    ensures MetricAsks(t, toWalk, m, x) <==> MetricWants(t, toWalk, m, x)
  {
    var n, base := MetricNode(t, cfg, toWalk, nodes, metrics, get, walk, m);
    LookupColumnsMean(t, cfg, toWalk, n, base, m, x);
    TypeColumnMeans(t, cfg, toWalk, n, m, x);
    WantsAt(t, toWalk, m, n, x);
  }

  lemma WantsAt(t: Tree, toWalk: seq<string>, m: Metric, n: Tree, x: Arcs)
    requires IsTree(t) && NodeAt(t, m.oid, n)
    ensures MetricWants(t, toWalk, m, x) <==>
      exists column :: GoesWith(t, m, n, column) && ColumnWants(t, toWalk, n, column, x)
  {
    if y, column :| GoesWith(t, m, y, column) && ColumnWants(t, toWalk, y, column, x) { OneNodeAt(t, m.oid, y, n); }
  }

  /** A module fetches the instances that its walk entries and the columns of its metrics ask for, and no others. */
  lemma FetchesWanted(t: Tree, cfg: Config, toWalk: seq<string>, nodes: seq<Tree>, metrics: seq<Metric>,
          get: seq<string>, walk: seq<string>, x: Arcs)
    requires Compiled(t, cfg, toWalk, nodes, metrics, get, walk)
    ensures Fetched(get, walk, x) <==> Wanted(t, toWalk, metrics, x)
  {
    FetchesExactly(t, cfg, toWalk, nodes, metrics, get, walk);
    forall w | w in toWalk
      ensures Denotes(WalkKey(w, Classify(w, t)), x) <==> EntryWants(t, w, x)
    {
      EntryMeans(t, cfg.walk, toWalk, w, x);
    }
    forall m | m in metrics
      ensures MetricAsks(t, toWalk, m, x) <==> MetricWants(t, toWalk, m, x)
    {
      MetricMeans(t, cfg, toWalk, nodes, metrics, get, walk, m, x);
    }
    KeysAsk(t, toWalk, metrics, x);
    assert EntryAsks(t, toWalk, x) <==> exists w :: w in toWalk && EntryWants(t, w, x);
  }

  ghost predicate EntryAsks(t: Tree, toWalk: seq<string>, x: Arcs) {
    exists w :: w in toWalk && Denotes(WalkKey(w, Classify(w, t)), x)
  }

  lemma KeysAsk(t: Tree, toWalk: seq<string>, metrics: seq<Metric>, x: Arcs)
    ensures (exists k :: k in FetchKeys(metrics, toWalk, t) && Denotes(k, x)) <==>
      EntryAsks(t, toWalk, x) || exists m :: m in metrics && MetricAsks(t, toWalk, m, x)
  {
    if k :| k in FetchKeys(metrics, toWalk, t) && Denotes(k, x) {
      KeyOrigin(t, toWalk, metrics, k);
      if k in BaseKeys(toWalk, t) { assert EntryAsks(t, toWalk, x); }
    }
    if EntryAsks(t, toWalk, x) {
      var w :| w in toWalk && Denotes(WalkKey(w, Classify(w, t)), x);
      assert WalkKey(w, Classify(w, t)) in BaseKeys(toWalk, t);
    }
    if m :| m in metrics && MetricAsks(t, toWalk, m, x) {
      var k :| Denotes(k, x) && MetricKey(t, toWalk, m, k);
      KeyOrigin(t, toWalk, metrics, k);
    }
  }

  lemma KeyOrigin(t: Tree, toWalk: seq<string>, metrics: seq<Metric>, k: string)
    ensures k in FetchKeys(metrics, toWalk, t) <==>
      k in BaseKeys(toWalk, t) || exists m :: m in metrics && MetricKey(t, toWalk, m, k)
  {
    AllLookupKeysMember(metrics, toWalk, t, k);
    AllTypeKeysMember(metrics, toWalk, t, k);
  }
}
