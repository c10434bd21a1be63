/** Every field of a prepared node, over the fields of the node before. */
module PreparedFields {
  import opened Oids
  import opened MibTree
  import opened Prepare
  import opened WalkPlan
  import opened WalkedEntries

  /** The conventions that become the type. */
  const PROMOTED := {"Float", "Double", "DateAndTime", "ParseDateAndTime", "NTPTimeStamp",
                     "InetAddressIPv4", "InetAddressIPv6", "InetAddress", "LldpPortId"}

  /** A number of digits and one of the letters 'a' and 't'. */
  ghost predicate IsTextHint(hint: string) {
    exists digits, letter: char :: hint == digits + [letter] && AllDigits(digits) && (letter == 'a' || letter == 't')
  }

  lemma TextHintExactly(hint: string)
    ensures IsDisplayHint(hint) <==> IsTextHint(hint)
  {
    if IsDisplayHint(hint) {
      assert hint == hint[..|hint| - 1] + [hint[|hint| - 1]];
    }
    if digits, letter: char :| hint == digits + [letter] && AllDigits(digits) && (letter == 'a' || letter == 't') {
      assert hint[..|hint| - 1] == digits;
    }
  }

  /** The type of a prepared node: a promoted convention, else a text, else a hardware address, else as it was. */
  ghost predicate TypePrepared(n: Tree, typ: string) {
    if n.textualConvention in PROMOTED then typ == n.textualConvention
    else if n.textualConvention == "PhysAddress" then typ == "PhysAddress48"
    else if n.textualConvention == "DisplayString" || IsTextHint(n.hint) then typ == "DisplayString"
    else if n.hint == "1x:" then typ == "PhysAddress48"
    else typ == n.typ
  }

  lemma PreparedTypeExactly(n: Tree)
    ensures TypePrepared(n, PreparedType(n.typ, n.hint, n.textualConvention))
  {
    TextHintExactly(n.hint);
    assert "PhysAddress" !in PROMOTED by {
      assert |"PhysAddress"| == |"DateAndTime"| == |"InetAddress"| == 11 && "PhysAddress"[0] == 'P';
      assert "DateAndTime"[0] == 'D' && "InetAddress"[0] == 'I';
      assert |"Float"| == 5 && |"Double"| == 6 && |"ParseDateAndTime"| == 16 && |"NTPTimeStamp"| == 12;
      assert |"InetAddressIPv4"| == |"InetAddressIPv6"| == 15 && |"LldpPortId"| == 10;
    }
  }

  /** An index named INTEGER is the node's own label. */
  ghost predicate IndexesFixed(n: Tree, indexes: seq<string>) {
    |indexes| == |n.indexes| &&
    forall i :: 0 <= i < |indexes| ==> indexes[i] == if n.indexes[i] == "INTEGER" then n.name else n.indexes[i]
  }

  /** What the index passes start from. */
  lemma {:induction false} InitialIndexes(ns: seq<Tree>, n: Tree)
    requires n in ns && forall m :: m in ns && m.oid == n.oid ==> m == n
    ensures var ix := Lookup(FixedState(ns), n.oid);
      n.oid in FixedState(ns) && IndexesFixed(n, ix.indexes) && ix.implied == n.impliedIndex
  {
    var front, last := ns[..|ns| - 1], ns[|ns| - 1];
    assert ns == front + [last];
    if last != n { InitialIndexes(front, n); }
  }

  /** A prepared node keeps every other field of the node before it. */
  ghost predicate NodePrepared(n: Tree, after: Tree, st: IxState) {
    after == n.(typ := after.typ, indexes := after.indexes, impliedIndex := after.impliedIndex, children := after.children) &&
    TypePrepared(n, after.typ) && Ix(after.indexes, after.impliedIndex) == Lookup(st, n.oid)
  }

  lemma {:induction false} WalkWithState(t: Tree, st: IxState)
    ensures |Preorder(WithState(t, st))| == |Preorder(t)|
    ensures forall i :: 0 <= i < |Preorder(t)| ==> Preorder(WithState(t, st))[i] == WithState(Preorder(t)[i], st)
    decreases t, 0
  {
    var below, after := PreorderAll(t.children), PreorderAll(WithStateAll(t.children, st));
    WalkAllWithState(t.children, st);
    assert Preorder(t) == [t] + below && Preorder(WithState(t, st)) == [WithState(t, st)] + after;
  }

  lemma {:induction false} WalkAllWithState(ts: seq<Tree>, st: IxState)
    ensures |PreorderAll(WithStateAll(ts, st))| == |PreorderAll(ts)|
    ensures forall i :: 0 <= i < |PreorderAll(ts)| ==>
      PreorderAll(WithStateAll(ts, st))[i] == WithState(PreorderAll(ts)[i], st)
    decreases ts
  {
    if ts != [] {
      WalkWithState(ts[0], st);
      WalkAllWithState(ts[1..], st);
    }
  }

  /** Preparing changes a tree node by node, place by place. */
  lemma PreparedNodes(t: Tree, i: nat)
    requires i < |Preorder(t)|
    ensures |Preorder(PreparedTree(t))| == |Preorder(t)|
    ensures NodePrepared(Preorder(t)[i], Preorder(PreparedTree(t))[i], PreparedState(t))
  {
    WalkWithState(t, PreparedState(t));
    PreparedTypeExactly(Preorder(t)[i]);
  }

  /** A row augments the node that its AUGMENTS clause names, by OID or by label, if there is one. */
  lemma TargetExactly(t: Tree, n: Tree)
    requires GoodTree(t)
    ensures var target := Target(n, NameOids(Preorder(t)));
      (target.Some? <==> n.augments != "" && exists m :: m in Preorder(t) && (m.oid == n.augments || m.name == n.augments)) &&
      (target.Some? ==> EntryFor(t, n.augments, target.value))
  {
    var ns := Preorder(t);
    NameTablesAgree(ns);
    EntryResolves(t, n.augments);
    NamedExactly(t, n.augments);
    if n.augments in NameTable(ns) { NameTableOids(ns, n.augments); }
  }

  lemma NamedExactly(t: Tree, name: string)
    requires GoodTree(t)
    ensures name in NameToNode(t) <==> exists m :: m in Preorder(t) && (m.oid == name || m.name == name)
  {
    if m :| m in Preorder(t) && m.oid == name {
      NameToNodeByOid(t, m);
    } else {
      LabelFindsLast(Preorder(t), name);
    }
  }
}
