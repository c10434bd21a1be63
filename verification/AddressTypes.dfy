/** The types of the metrics of a module: an address stays one exactly if its type is given by the sibling before it. */
module AddressTypes {
  import opened Oids
  import opened MibTree
  import opened Lookups
  import opened WalkPlan
  import opened CompiledModule

  const ADDRESS_TYPES := {"InetAddress", "InetAddressMissingSize"}

  /** The node at `p` is the sibling whose number is one less, and says what type of address follows. */
  ghost predicate TypeBefore(t: Tree, n: Tree, p: Tree) {
    p in Preorder(t) && Precedes(PathOf(p), PathOf(n)) && p.textualConvention == "InetAddressType"
  }

  /** The type of a finished metric, given that of the metric the walk generated at `n`. */
  ghost predicate TypeChecked(t: Tree, n: Tree, before: string, after: string) {
    if before !in ADDRESS_TYPES || exists p :: TypeBefore(t, n, p) then after == before else after == "OctetString"
  }

  lemma OneLower(a: Arcs, b: Arcs)
    requires Precedes(a, b)
    ensures Render(a) == RenderPrev(b)
  {
    LowerRendered(b);
    var c := b[|b| - 1 := b[|b| - 1] - 1];
    assert a == a[..|a| - 1] + [a[|a| - 1]] && c == c[..|c| - 1] + [c[|c| - 1]];
    assert c[..|c| - 1] == b[..|b| - 1];
  }

  lemma SiblingExactly(t: Tree, n: Tree, m: Metric)
    requires GoodTree(t) && n in Preorder(t) && m.oid == n.oid
    ensures HasTypeSibling(m, NameToNode(t)) <==> exists p :: TypeBefore(t, n, p)
  {
    NodePath(t, n);
    PrevOidRender(PathOf(n));
    if HasTypeSibling(m, NameToNode(t)) {
      var p := PrecedingSibling(t, n, PrevOid(n.oid));
      assert TypeBefore(t, n, p);
    }
    if p :| TypeBefore(t, n, p) {
      NodePath(t, p);
      OneLower(PathOf(p), PathOf(n));
      NameToNodeByOid(t, p);
    }
  }

  /** The type of every finished metric. */
  lemma FinishedType(t: Tree, cfg: Config, n: Tree, base: Metric, m: Metric)
    requires GoodTree(t) && n in Preorder(t) && base.oid == n.oid && Finished(base, cfg, t, m)
    ensures TypeChecked(t, n, base.typ, m.typ)
  {
    var chosen := FinishedKeepsOid(base, cfg, t, m);
    var looked := SanitizeMetric(FinishLookups(base, cfg.lookups, chosen));
    RunKeeps(base, cfg.lookups, chosen, GetRequiredIndexes(cfg.lookups));
    SiblingExactly(t, n, looked);
  }

  /** A finished metric is typed as an address if and only if its node was and the sibling before it gives the type. */
  lemma AddressExactly(t: Tree, cfg: Config, n: Tree, base: Metric, m: Metric)
    requires GoodTree(t) && n in Preorder(t) && base.oid == n.oid && Finished(base, cfg, t, m)
    ensures m.typ in ADDRESS_TYPES <==> base.typ in ADDRESS_TYPES && exists p :: TypeBefore(t, n, p)
  {
    FinishedType(t, cfg, n, base, m);
    assert |"OctetString"| == |"InetAddress"| == 11 && "OctetString"[0] != "InetAddress"[0];
    assert |"InetAddressMissingSize"| == 22;
  }
}
