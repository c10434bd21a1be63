/** From the configured walk entries to metric nodes and fetch keys, and why every metric is fetched once. */
module WalkPlan {
  import opened ByteStrings
  import opened Minimize
  import opened Oids
  import opened FetchSet
  import opened MibTree
  import opened IndexCollapse

  /** What getMetricNode reports about a walk entry. */
  datatype NodeClass = OidNotFound | OidScalar(node: Tree) | OidInstance(node: Tree) | OidSubtree(node: Tree)

  /** A node whose type and access make it a metric. */
  predicate Usable(n: Tree) {
    MetricType(n.typ).Some? && MetricAccess(n.access)
  }

  function GetMetricNode(oid: string, t: Tree, names: map<string, Tree>): NodeClass {
    if oid in names then
      var n := names[oid];
      if Usable(n) && n.indexes == [] then OidScalar(n) else OidSubtree(n)
    else
      match SearchNodeTree(oid, t)
      case None => OidNotFound
      case Some(n) => if Usable(n) && n.indexes != [] then OidInstance(n) else OidNotFound
  }

  function Classify(oid: string, t: Tree): NodeClass {
    GetMetricNode(oid, t, NameToNode(t))
  }

  /** The needToWalk key of a walk entry. */
  function WalkKey(oid: string, c: NodeClass): string {
    match c
    case OidSubtree(_) => oid
    case OidInstance(_) => oid + "."
    case _ => oid + ".0."
  }

  /** strings.Replace(s, old, "", 1). */
  function RemoveFirst(s: string, old_: string): string {
    if old_ <= s then s[|old_|..]
    else if s == "" then s
    else [s[0]] + RemoveFirst(s[1..], old_)
  }

  /** The index suffixes saved for the column at `oid`, in order. */
  function InstancesAt(toWalk: seq<string>, t: Tree, oid: string): seq<string> {
    if toWalk == [] then [] else
      var w := toWalk[|toWalk| - 1];
      var c := Classify(w, t);
      InstancesAt(toWalk[..|toWalk| - 1], t, oid) +
      if c.OidInstance? && c.node.oid == oid then [RemoveFirst(w, c.node.oid)] else []
  }

  function ResolveWalk(entries: seq<string>, names: map<string, Tree>): (r: seq<string>)
    ensures |r| == |entries|
  {
    seq(|entries|, i requires 0 <= i < |entries| => if entries[i] in names then names[entries[i]].oid else entries[i])
  }

  ghost predicate UsableNodesAreLeaves(t: Tree) {
    forall n :: n in Preorder(t) && Usable(n) ==> n.children == []
  }

  /** A walk entry is a name, an OID, or lies outside the tree (and is reported as not found). */
  ghost predicate IsWalkEntry(w: string, t: Tree) {
    w in NameToNode(t) || IsOid(w) || !Covers(t.oid, w)
  }

  ghost predicate WalkEntriesAreOids(entries: seq<string>, t: Tree) {
    forall w {:trigger IsWalkEntry(w, t)} :: w in entries ==> IsWalkEntry(w, t)
  }

  ghost predicate GoodTree(t: Tree) {
    IsTree(t) && LabelsAreNames(t)
  }

  /** The minimised walk list of a run that found all of its entries. */
  ghost predicate Plan(t: Tree, entries: seq<string>, toWalk: seq<string>) {
    GoodTree(t) && WalkEntriesAreOids(entries, t) && Minimizes(ResolveWalk(entries, NameToNode(t)), toWalk) &&
    forall w :: w in toWalk ==> !Classify(w, t).OidNotFound?
  }

  // --- what the entries of a plan are ---

  /** The facts about one entry: its node is in the tree, covers it, and is the entry itself unless that is an instance. */
  ghost predicate PlannedAt(t: Tree, w: string, n: Tree) {
    !Classify(w, t).OidNotFound? && Classify(w, t).node == n && n in Preorder(t) && Covers(n.oid, w) && IsOid(w) &&
    (if Classify(w, t).OidInstance? then w != n.oid && Usable(n) && n.indexes != [] else w == n.oid)
  }

  lemma ResolvedEntry(t: Tree, entries: seq<string>, u: string)
    requires GoodTree(t) && WalkEntriesAreOids(entries, t) && u in ResolveWalk(entries, NameToNode(t))
    ensures (exists n :: n in Preorder(t) && n.oid == u) || (u !in NameToNode(t) && (IsOid(u) || !Covers(t.oid, u)))
  {
    var names := NameToNode(t);
    var i :| 0 <= i < |entries| && ResolveWalk(entries, names)[i] == u;
    assert entries[i] in entries && IsWalkEntry(entries[i], t);
    if entries[i] in names {
      NameToNodeSound(t, entries[i]);
    }
  }

  lemma EntryPlanned(t: Tree, entries: seq<string>, toWalk: seq<string>, w: string) returns (n: Tree)
    requires Plan(t, entries, toWalk) && w in toWalk
    ensures n == Classify(w, t).node && PlannedAt(t, w, n)
  {
    var root := [t.subid];
    n := Classify(w, t).node;
    assert w in Elements(toWalk);
    ResolvedEntry(t, entries, w);
    if w in NameToNode(t) {
      var m :| m in Preorder(t) && m.oid == w;
      NameToNodeByOid(t, m);
      Below(t, root, m);
    } else {
      if m :| m in Preorder(t) && m.oid == w {
        NameToNodeByOid(t, m);
      }
      SearchIsLongestMatch(w, t, root);
      Below(t, root, n);
      CoversTransitive(t.oid, n.oid, w);
      if w == n.oid { NameToNodeByOid(t, n); }
    }
  }

  /** No entry of a plan covers another. */
  lemma PlanIsAntichain(t: Tree, entries: seq<string>, toWalk: seq<string>)
    requires Plan(t, entries, toWalk)
    ensures forall v, w :: v in toWalk && w in toWalk && Covers(v, w) ==> v == w
  {
    var all := ResolveWalk(entries, NameToNode(t));
    forall u | u in all
      ensures NoLowChars(u)
    {
      ResolvedNoLowChars(t, entries, toWalk, u);
    }
    NoLowCharsNotSeparated(Elements(all));
    assert forall v :: v in toWalk ==> v in Elements(toWalk);
  }

  /** In a plan every resolved entry is an OID: it is covered by an entry that was found. */
  lemma ResolvedNoLowChars(t: Tree, entries: seq<string>, toWalk: seq<string>, u: string)
    requires Plan(t, entries, toWalk) && u in ResolveWalk(entries, NameToNode(t))
    ensures NoLowChars(u)
  {
    assert HasCover(toWalk, u);
    var w :| w in toWalk && Covers(w, u);
    var n := EntryPlanned(t, entries, toWalk, w);
    UnderTheRoot(t, n, w, u);
    ResolvedEntry(t, entries, u);
    if m :| m in Preorder(t) && m.oid == u { NodeNoLowChars(t, m); }
  }

  lemma UnderTheRoot(t: Tree, n: Tree, w: string, u: string)
    requires IsTree(t) && n in Preorder(t) && Covers(n.oid, w) && Covers(w, u)
    ensures Covers(t.oid, u)
  {
    Below(t, [t.subid], n);
    CoversTransitive(t.oid, n.oid, w);
    CoversTransitive(t.oid, w, u);
  }

  lemma NodeNoLowChars(t: Tree, m: Tree)
    requires IsTree(t) && m in Preorder(t)
    ensures NoLowChars(m.oid)
  {
    Below(t, [t.subid], m);
  }

  /** A node below another in OID is in its subtree. */
  lemma {:induction false} CoveredInSubtree(t: Tree, arcs: Arcs, m: Tree, n: Tree)
    requires WellFormed(t, arcs) && m in Preorder(t) && n in Preorder(t) && Covers(m.oid, n.oid)
    ensures n in Preorder(m)
    decreases t
  {
    if m != t {
      var i := ChildAbove(t, arcs, m);
      SameChildAbove(t, arcs, m, n, i);
      CoveredInSubtree(t.children[i], arcs + [t.children[i].subid], m, n);
    }
  }

  lemma SameChildAbove(t: Tree, arcs: Arcs, m: Tree, n: Tree, i: nat)
    requires WellFormed(t, arcs) && m in Preorder(t) && n in Preorder(t) && Covers(m.oid, n.oid) && m != t
    requires i < |t.children| && |PathOf(m)| > |arcs| && PathOf(m)[|arcs|] == t.children[i].subid &&
      WellFormed(m, PathOf(m))
    ensures n in Preorder(t.children[i])
  {
    Below(t, arcs, n);
    CoversIsArcPrefix(PathOf(m), PathOf(n));
    WellFormedPath(t, arcs);
    assert |PathOf(t)| < |PathOf(m)|;
    var j := ChildAbove(t, arcs, n);
    assert PathOf(n)[|arcs|] == PathOf(m)[|arcs|];
  }

  lemma ChildAbove(t: Tree, arcs: Arcs, n: Tree) returns (i: nat)
    requires WellFormed(t, arcs) && n in Preorder(t) && n != t
    ensures i < |t.children| && n in Preorder(t.children[i]) && WellFormed(t.children[i], arcs + [t.children[i].subid])
    ensures |PathOf(n)| > |arcs| && PathOf(n)[|arcs|] == t.children[i].subid && WellFormed(n, PathOf(n))
  {
    Below(t, arcs, n);
    i :| 0 <= i < |t.children| && n in Preorder(t.children[i]) && arcs + [t.children[i].subid] <= PathOf(n);
  }

  /** `n` lies below `m`, and walking an instance of the column `m` makes `m` a metric node. */
  ghost predicate UnderColumn(m: Tree, n: Tree) {
    Usable(m) && m.indexes != [] && n in Preorder(m) && n != m
  }

  /** Two entries whose subtrees share a node have the same metric node, unless one is an instance of a column above
      the other's. */
  lemma MetricNodesApart(t: Tree, entries: seq<string>, toWalk: seq<string>, v: string, w: string, x: Tree)
    requires Plan(t, entries, toWalk) && v in toWalk && w in toWalk
    requires x in Preorder(Classify(v, t).node) && x in Preorder(Classify(w, t).node)
    ensures var m, n := Classify(v, t).node, Classify(w, t).node;
      m == n || UnderColumn(m, n) || UnderColumn(n, m)
  {
    var m := EntryPlanned(t, entries, toWalk, v);
    var n := EntryPlanned(t, entries, toWalk, w);
    PlanIsAntichain(t, entries, toWalk);
    var root := [t.subid];
    Below(t, root, m);
    Below(t, root, n);
    Below(m, PathOf(m), x);
    Below(n, PathOf(n), x);
    CoversComparable(m.oid, n.oid, x.oid);
    if Covers(m.oid, n.oid) {
      ApartStep(t, v, m, w, n);
    } else {
      ApartStep(t, w, n, v, m);
    }
  }

  lemma ApartStep(t: Tree, v: string, m: Tree, w: string, n: Tree)
    requires GoodTree(t) && PlannedAt(t, v, m) && PlannedAt(t, w, n) && Covers(m.oid, n.oid)
    requires Covers(v, w) ==> v == w
    ensures m == n || UnderColumn(m, n)
  {
    if Classify(v, t).OidInstance? {
      CoveredInSubtree(t, [t.subid], m, n);
    } else {
      CoversTransitive(v, n.oid, w);
    }
  }

  // --- instance suffixes ---

  /** For an entry classified as an instance, node OID plus saved suffix is the entry again. */
  lemma SavedSuffix(t: Tree, w: string, n: Tree) returns (c: Arcs)
    requires IsTree(t) && PlannedAt(t, w, n) && Classify(w, t).OidInstance?
    ensures n.oid + RemoveFirst(w, n.oid) == w
    ensures c != [] && RemoveFirst(w, n.oid) == Suffix(c)
  {
    Below(t, [t.subid], n);
    var a := PathOf(n);
    c := ArcsBelow(a, ArcsOf(w));
    RenderConcat(a, c);
  }

  lemma ArcsBelow(a: Arcs, b: Arcs) returns (c: Arcs)
    requires a != [] && b != [] && Covers(Render(a), Render(b)) && Render(a) != Render(b)
    ensures b == a + c && c != []
  {
    CoversIsArcPrefix(a, b);
    c := b[|a|..];
    assert c == [] ==> b == a;
  }

  ghost predicate IsSuffix(s: string) {
    exists c: Arcs :: c != [] && s == Suffix(c)
  }

  lemma {:induction false} InstancesAreSuffixes(t: Tree, entries: seq<string>, toWalk: seq<string>, k: nat, oid: string)
    requires Plan(t, entries, toWalk) && k <= |toWalk|
    ensures forall s :: s in InstancesAt(toWalk[..k], t, oid) ==> IsSuffix(s)
  {
    if k > 0 {
      assert toWalk[..k][..k - 1] == toWalk[..k - 1];
      InstancesAreSuffixes(t, entries, toWalk, k - 1, oid);
      var w := toWalk[k - 1];
      if Classify(w, t).OidInstance? {
        var n := EntryPlanned(t, entries, toWalk, w);
        var c := SavedSuffix(t, w, n);
      }
    }
  }

  // --- keys ---

  /** The keys the generator uses: OIDs of nodes for subtrees, any OID for instances. */
  ghost predicate GoodKey(t: Tree, key: string) {
    if IsInstanceKey(key) then IsOid(TrimSuffix(key, ".")) else exists n :: n in Preorder(t) && n.oid == key
  }

  lemma NodeKeyGood(t: Tree, n: Tree)
    requires IsTree(t) && n in Preorder(t)
    ensures GoodKey(t, n.oid) && !IsInstanceKey(n.oid)
  {
    Below(t, [t.subid], n);
    SubtreeKey(PathOf(n));
  }

  lemma NodeInstanceKeyGood(t: Tree, n: Tree, s: string)
    requires IsTree(t) && n in Preorder(t) && IsSuffix(s)
    ensures GoodKey(t, n.oid + s + ".") && IsInstanceKey(n.oid + s + ".") && IsOid(n.oid + s)
  {
    Below(t, [t.subid], n);
    var c: Arcs :| c != [] && s == Suffix(c);
    RenderConcat(PathOf(n), c);
    InstanceKey(PathOf(n) + c);
  }

  lemma GoodKeyWellFormed(t: Tree, key: string)
    requires IsTree(t) && GoodKey(t, key)
    ensures WellFormedKey(key)
  {
    if !IsInstanceKey(key) {
      var n :| n in Preorder(t) && n.oid == key;
      Below(t, [t.subid], n);
    }
  }

  /** The form of an entry's key. */
  lemma WalkKeyForm(t: Tree, w: string, n: Tree)
    requires GoodTree(t) && PlannedAt(t, w, n)
    ensures GoodKey(t, WalkKey(w, Classify(w, t)))
    ensures Classify(w, t).OidSubtree? <==> !IsInstanceKey(WalkKey(w, Classify(w, t)))
    ensures Classify(w, t).OidInstance? ==> WalkKey(w, Classify(w, t)) == w + "." && IsOid(w)
    ensures Classify(w, t).OidScalar? ==>
      WalkKey(w, Classify(w, t)) == (w + ".0") + "." && IsOid(w + ".0") && Covers(w, w + ".0")
  {
    match Classify(w, t) {
      case OidSubtree(_) =>
        NodeKeyGood(t, n);
      case OidInstance(_) =>
        InstanceKey(ArcsOf(w));
      case OidScalar(_) =>
        ScalarInstance(w);
        NodeInstanceKeyGood(t, n, Suffix([0]));
    }
  }

  lemma ScalarInstance(w: string)
    ensures Suffix([0]) == ".0" && w + ".0" + "." == w + ".0." && Covers(w, w + ".0")
  {
    assert w + ".0" + "." == (w + ".") + "0.";
  }

  // --- request lists ---

  ghost predicate InstanceFetched(get: seq<string>, walk: seq<string>, instance: string) {
    instance in get || exists w :: w in walk && Covers(w, instance)
  }

  /** The request lists of a good key set: its minimal keys. */
  ghost predicate Requests(t: Tree, keys: set<string>, get: seq<string>, walk: seq<string>) {
    GoodTree(t) && (forall k :: k in keys ==> GoodKey(t, k)) && SplitsMinimal(keys, get, walk)
  }

  lemma KeysWellFormed(t: Tree, keys: set<string>)
    requires IsTree(t) && forall k :: k in keys ==> GoodKey(t, k)
    ensures forall k :: k in keys ==> WellFormedKey(k)
    ensures !HasSeparated(keys)
  {
    forall k | k in keys
      ensures WellFormedKey(k) && NoLowChars(k)
    {
      GoodKeyWellFormed(t, k);
      WellFormedKeyLowChars(k);
    }
    NoLowCharsNotSeparated(keys);
  }

  lemma SubtreeKeyFetched(t: Tree, keys: set<string>, get: seq<string>, walk: seq<string>, key: string)
    requires Requests(t, keys, get, walk) && key in keys && !IsInstanceKey(key)
    ensures exists w :: w in walk && Covers(w, key)
  {
    KeysWellFormed(t, keys);
    SubtreeWalked(keys, get, walk, key);
  }

  /** An instance key is served by its own Get or by a Walk of a node above the instance. */
  lemma InstanceKeyFetched(t: Tree, keys: set<string>, get: seq<string>, walk: seq<string>, instance: string)
    requires Requests(t, keys, get, walk) && instance + "." in keys && IsOid(instance)
    ensures instance in get || exists w, n :: w in walk && n in Preorder(t) && n.oid == w && Covers(w, instance)
    ensures InstanceFetched(get, walk, instance)
  {
    KeysWellFormed(t, keys);
    var key := instance + ".";
    InstanceKey(ArcsOf(instance));
    var m := RootCover(keys, key);
    assert m in Minimal(keys);
    if IsInstanceKey(m) {
      InstanceCoversItself(m, key);
    } else {
      var n :| n in Preorder(t) && n.oid == m;
      Below(t, [t.subid], n);
      SubtreeCoversInstance(PathOf(n), ArcsOf(instance));
      assert m in walk;
    }
  }

  lemma UsableLeaf(t: Tree, n: Tree)
    requires UsableNodesAreLeaves(t) && n in Preorder(t) && Usable(n)
    ensures Preorder(n) == [n]
  {}

  lemma {:induction false} InstanceEntry(toWalk: seq<string>, t: Tree, oid: string, s: string) returns (w: string)
    requires s in InstancesAt(toWalk, t, oid)
    ensures w in toWalk && Classify(w, t).OidInstance? && Classify(w, t).node.oid == oid && s == RemoveFirst(w, oid)
  {
    var last := toWalk[|toWalk| - 1];
    if s in InstancesAt(toWalk[..|toWalk| - 1], t, oid) {
      w := InstanceEntry(toWalk[..|toWalk| - 1], t, oid, s);
    } else {
      w := last;
    }
  }

  /** Each saved instance of a column is fetched. */
  lemma SavedInstanceFetched(t: Tree, entries: seq<string>, toWalk: seq<string>, keys: set<string>,
          get: seq<string>, walk: seq<string>, oid: string, s: string)
    requires Plan(t, entries, toWalk) && Requests(t, keys, get, walk)
    requires forall w :: w in toWalk ==> WalkKey(w, Classify(w, t)) in keys
    requires s in InstancesAt(toWalk, t, oid)
    ensures InstanceFetched(get, walk, oid + s)
  {
    var w := InstanceEntry(toWalk, t, oid, s);
    var n := EntryPlanned(t, entries, toWalk, w);
    var c := SavedSuffix(t, w, n);
    WalkKeyForm(t, w, n);
    InstanceKeyFetched(t, keys, get, walk, w);
  }

  // --- completeness ---

  /** The whole column is walked, or each of the saved instances is fetched. */
  ghost predicate ColumnFetched(get: seq<string>, walk: seq<string>, oid: string, instances: seq<string>) {
    if instances == [] then exists w :: w in walk && Covers(w, oid)
    else forall s :: s in instances ==> InstanceFetched(get, walk, oid + s)
  }

  ghost predicate ScalarAt(t: Tree, oid: string) {
    exists n :: n in Preorder(t) && n.oid == oid && n.indexes == []
  }

  /** A metric is fetched as a column, or it has no indexes and its one instance is fetched. */
  ghost predicate MetricFetched(t: Tree, get: seq<string>, walk: seq<string>, oid: string, instances: seq<string>) {
    ColumnFetched(get, walk, oid, instances) || (ScalarAt(t, oid) && InstanceFetched(get, walk, oid + ".0"))
  }

  /** A walk entry has every node of a subtree fetched, and the node of an instance or of a scalar. */
  lemma MetricIsFetched(t: Tree, entries: seq<string>, toWalk: seq<string>, keys: set<string>, get: seq<string>,
          walk: seq<string>, w: string, x: Tree)
    requires Plan(t, entries, toWalk) && w in toWalk && Requests(t, keys, get, walk)
    requires forall v :: v in toWalk ==> WalkKey(v, Classify(v, t)) in keys
    requires x in Preorder(Classify(w, t).node) && (Classify(w, t).OidSubtree? || Classify(w, t).node == x)
    ensures MetricFetched(t, get, walk, x.oid, InstancesAt(toWalk, t, x.oid))
  {
    if InstancesAt(toWalk, t, x.oid) != [] {
      forall s | s in InstancesAt(toWalk, t, x.oid)
        ensures InstanceFetched(get, walk, x.oid + s)
      {
        SavedInstanceFetched(t, entries, toWalk, keys, get, walk, x.oid, s);
      }
    } else {
      var n := EntryPlanned(t, entries, toWalk, w);
      WalkKeyForm(t, w, n);
      match Classify(w, t) {
        case OidSubtree(_) => BelowIsFetched(t, keys, get, walk, n, x);
        case OidInstance(_) => EntrySaved(toWalk, t, w);
        case _ => InstanceKeyFetched(t, keys, get, walk, w + ".0");
      }
    }
  }

  lemma BelowIsFetched(t: Tree, keys: set<string>, get: seq<string>, walk: seq<string>, n: Tree, x: Tree)
    requires Requests(t, keys, get, walk) && n in Preorder(t) && n.oid in keys && !IsInstanceKey(n.oid) &&
      x in Preorder(n)
    ensures exists v :: v in walk && Covers(v, x.oid)
  {
    Below(t, [t.subid], n);
    Below(n, PathOf(n), x);
    SubtreeKeyFetched(t, keys, get, walk, n.oid);
    var v :| v in walk && Covers(v, n.oid);
    CoversTransitive(v, n.oid, x.oid);
  }

  lemma {:induction false} EntrySaved(toWalk: seq<string>, t: Tree, w: string)
    requires w in toWalk && Classify(w, t).OidInstance?
    ensures RemoveFirst(w, Classify(w, t).node.oid) in InstancesAt(toWalk, t, Classify(w, t).node.oid)
  {
    var last := |toWalk| - 1;
    if w != toWalk[last] { EntrySaved(toWalk[..last], t, w); }
  }
}
