/** Metric types, and the look-back machine that folds (type, address) index pairs into one index. */
module IndexCollapse {
  import opened MibTree

  /** combinedTypes: the type that has to come before an address of type `t`. */
  function CombinedSubtype(t: string): Option<string> {
    match t
    case "InetAddress" => Some("InetAddressType")
    case "InetAddressMissingSize" => Some("InetAddressType")
    case "LldpPortId" => Some("LldpPortIdSubtype")
    case _ => None
  }

  /** metricType: the exported type for a MIB type, None if it is not supported. */
  function MetricType(t: string): Option<string> {
    if CombinedSubtype(t).Some? then Some(t)
    else if t in ["gauge", "INTEGER", "GAUGE", "TIMETICKS", "UINTEGER", "UNSIGNED32", "INTEGER32"] then Some("gauge")
    else if t in ["counter", "COUNTER", "COUNTER64"] then Some("counter")
    else if t in ["OctetString", "OCTETSTR", "OBJID"] then Some("OctetString")
    else if t == "BITSTRING" then Some("Bits")
    else if t in ["InetAddressIPv4", "IpAddr", "IPADDR", "NETADDR"] then Some("InetAddressIPv4")
    else if t in ["PhysAddress48", "DisplayString", "Float", "Double", "InetAddressIPv6",
                  "DateAndTime", "ParseDateAndTime", "NTPTimeStamp", "EnumAsInfo", "EnumAsStateSet"] then Some(t)
    else None
  }

  predicate MetricAccess(a: string) {
    a in ["ACCESS_READONLY", "ACCESS_READWRITE", "ACCESS_CREATE", "ACCESS_NOACCESS"]
  }

  /** The types that are exported under one name, and those that keep theirs. */
  const GAUGES := {"gauge", "INTEGER", "GAUGE", "TIMETICKS", "UINTEGER", "UNSIGNED32", "INTEGER32"}
  const COUNTERS := {"counter", "COUNTER", "COUNTER64"}
  const OCTETS := {"OctetString", "OCTETSTR", "OBJID"}
  const IPV4S := {"InetAddressIPv4", "IpAddr", "IPADDR", "NETADDR"}
  const KEPT_TYPES := {
    "InetAddress", "InetAddressMissingSize", "LldpPortId", "PhysAddress48", "DisplayString", "Float", "Double",
    "InetAddressIPv6", "DateAndTime", "ParseDateAndTime", "NTPTimeStamp", "EnumAsInfo", "EnumAsStateSet"}

  predicate ExportedAs(typ: string, e: string) {
    (typ in GAUGES && e == "gauge") || (typ in COUNTERS && e == "counter") || (typ in OCTETS && e == "OctetString") ||
    (typ == "BITSTRING" && e == "Bits") || (typ in IPV4S && e == "InetAddressIPv4") || (typ in KEPT_TYPES && e == typ)
  }

  predicate Supported(typ: string) {
    typ in GAUGES || typ in COUNTERS || typ in OCTETS || typ == "BITSTRING" || typ in IPV4S || typ in KEPT_TYPES
  }

  lemma ExportedExactly(typ: string)
    ensures MetricType(typ).Some? <==> Supported(typ)
    ensures MetricType(typ).Some? ==> ExportedAs(typ, MetricType(typ).value)
  {}

  datatype Index = Index(labelname: string, typ: string, fixedSize: int, implied: bool, enumValues: map<int, string>)

  /** An index of a node, the type that must come before it if it is an address, and the textual
      convention of the node it names. */
  datatype Item = Item(index: Index, subtype: Option<string>, convention: string)

  /** What becomes of a node's index list: a list, a warning that skips the metric, or a negative slice bound. */
  datatype Collapse = Collapsed(kept: seq<Item>) | Skipped | OutOfRange

  predicate IsAddress(item: Item) {
    item.subtype.Some?
  }

  /** The `k`-th index of `n`, None if its name or its type cannot be handled. */
  function Resolve(n: Tree, k: nat, names: map<string, Tree>): Option<Item>
    requires k < |n.indexes|
  {
    var i := n.indexes[k];
    if i !in names || MetricType(names[i].typ).None? then None else
      var node, typ := names[i], MetricType(names[i].typ).value;
      Some(Item(Index(i, typ, node.fixedSize, n.impliedIndex && k + 1 == |n.indexes|, node.enumValues),
                CombinedSubtype(typ), node.textualConvention))
  }

  function ResolveAll(n: Tree, names: map<string, Tree>): (slots: seq<Option<Item>>)
    ensures |slots| == |n.indexes|
  {
    seq(|n.indexes|, k requires 0 <= k < |n.indexes| => Resolve(n, k, names))
  }

  /** One round of the loop: `prev` and `prev2` are the conventions of the last two indexes. */
  function Step(kept: seq<Item>, prev: string, prev2: string, item: Item): Collapse {
    match item.subtype
    case None => Collapsed(kept + [item])
    case Some(subtype) =>
      if prev == subtype then
        if |kept| < 1 then OutOfRange else Collapsed(kept[..|kept| - 1] + [item])
      else if prev2 == subtype then
        if |kept| < 2 then OutOfRange else Collapsed(kept[..|kept| - 2] + [item])
      else Skipped
  }

  /** The convention `back` places before the end, empty where there is none. */
  function Convention(slots: seq<Option<Item>>, back: nat): string {
    if 0 < back <= |slots| && slots[|slots| - back].Some? then slots[|slots| - back].value.convention else ""
  }

  function Run(slots: seq<Option<Item>>): Collapse {
    if slots == [] then Collapsed([]) else
      var front, slot := slots[..|slots| - 1], slots[|slots| - 1];
      match Run(front)
      case Collapsed(kept) =>
        if slot.None? then Skipped else Step(kept, Convention(front, 1), Convention(front, 2), slot.value)
      case other => other
  }

  method CollapseIndexes(n: Tree, names: map<string, Tree>) returns (c: Collapse)
    ensures c == Run(ResolveAll(n, names))
  {
    ghost var slots := ResolveAll(n, names);
    var kept: seq<Item> := [];
    var prevType, prev2Type := "", "";
    for count := 0 to |n.indexes|
      invariant Run(slots[..count]) == Collapsed(kept)
      invariant prevType == Convention(slots[..count], 1)
      invariant prev2Type == Convention(slots[..count], 2)
    {
      var item := ResolveIndex(n, count, names);
      RunExtends(slots, count);
      if item.None? {
        RunStops(slots, count + 1);
        return Skipped;
      }
      var subtype := item.value.subtype;
      if subtype.Some? {
        if prevType == subtype.value {
          if |kept| < 1 {
            RunStops(slots, count + 1);
            return OutOfRange;
          }
          kept := kept[..|kept| - 1];
        } else if prev2Type == subtype.value {
          if |kept| < 2 {
            RunStops(slots, count + 1);
            return OutOfRange;
          }
          kept := kept[..|kept| - 2];
        } else {
          RunStops(slots, count + 1);
          return Skipped;
        }
      }
      prev2Type := prevType;
      prevType := item.value.convention;
      kept := kept + [item.value];
    }
    assert slots[..|n.indexes|] == slots;
    return Collapsed(kept);
  }

  method ResolveIndex(n: Tree, count: nat, names: map<string, Tree>) returns (item: Option<Item>)
    requires count < |n.indexes|
    ensures item == Resolve(n, count, names)
  {
    var i := n.indexes[count];
    if i !in names {
      return None;
    }
    var indexNode := names[i];
    var typ := MetricType(indexNode.typ);
    if typ.None? {
      return None;
    }
    var implied := n.impliedIndex && count + 1 == |n.indexes|;
    return Some(Item(Index(i, typ.value, indexNode.fixedSize, implied, indexNode.enumValues),
                     CombinedSubtype(typ.value), indexNode.textualConvention));
  }

  lemma RunExtends(slots: seq<Option<Item>>, k: nat)
    requires k < |slots|
    ensures slots[..k + 1] == slots[..k] + [slots[k]]
    ensures Run(slots[..k + 1]) ==
      match Run(slots[..k])
      case Collapsed(kept) =>
        if slots[k].None? then Skipped
        else Step(kept, Convention(slots[..k], 1), Convention(slots[..k], 2), slots[k].value)
      case other => other
    ensures Convention(slots[..k + 1], 2) == Convention(slots[..k], 1)
    ensures slots[k].Some? ==> Convention(slots[..k + 1], 1) == slots[k].value.convention
  {
    assert slots[..k + 1][..k] == slots[..k];
  }

  lemma {:induction false} RunStops(slots: seq<Option<Item>>, k: nat)
    requires k <= |slots| && !Run(slots[..k]).Collapsed?
    ensures Run(slots) == Run(slots[..k])
  {
    if k == |slots| {
      assert slots[..k] == slots;
    } else {
      assert slots[..|slots| - 1][..k] == slots[..k];
      RunStops(slots[..|slots| - 1], k);
    }
  }

  // --- the parse ---

  /** One exported index: by itself, after its own type, or after its own type and one plain index. */
  datatype Group = Plain(index: Item) | Pair(typ: Item, address: Item) | Triple(typ: Item, plain: Item, address: Item)

  predicate ValidGroup(g: Group) {
    match g
    case Plain(i) => !IsAddress(i)
    case Pair(t, a) => !IsAddress(t) && a.subtype == Some(t.convention)
    case Triple(t, p, a) =>
      !IsAddress(t) && !IsAddress(p) && a.subtype == Some(t.convention) && t.convention != p.convention
  }

  ghost predicate ValidGroups(gs: seq<Group>) {
    forall g :: g in gs ==> ValidGroup(g)
  }

  function Items(g: Group): seq<Item> {
    match g
    case Plain(i) => [i]
    case Pair(t, a) => [t, a]
    case Triple(t, p, a) => [t, p, a]
  }

  function Flatten(gs: seq<Group>): seq<Item> {
    if gs == [] then [] else Flatten(gs[..|gs| - 1]) + Items(gs[|gs| - 1])
  }

  function Head(g: Group): Item {
    if g.Plain? then g.index else g.address
  }

  /** What the groups leave: the last index of each. */
  function Heads(gs: seq<Group>): seq<Item> {
    if gs == [] then [] else Heads(gs[..|gs| - 1]) + [Head(gs[|gs| - 1])]
  }

  function Resolved(items: seq<Item>): (slots: seq<Option<Item>>)
    ensures |slots| == |items|
  {
    seq(|items|, k requires 0 <= k < |items| => Some(items[k]))
  }

  function Last(items: seq<Item>, back: nat): string {
    if 0 < back <= |items| then items[|items| - back].convention else ""
  }

  lemma RunAppend(items: seq<Item>, x: Item)
    ensures Run(Resolved(items + [x])) ==
      match Run(Resolved(items))
      case Collapsed(kept) => Step(kept, Last(items, 1), Last(items, 2), x)
      case other => other
  {
    var slots, front := Resolved(items + [x]), Resolved(items);
    assert slots[..|items|] == front && slots[|items|] == Some(x);
    LastOfResolved(items, 1);
    LastOfResolved(items, 2);
  }

  lemma LastOfResolved(items: seq<Item>, back: nat)
    ensures Convention(Resolved(items), back) == Last(items, back)
  {}

  lemma CollapsePlain(items: seq<Item>, r: seq<Item>, x: Item)
    requires Run(Resolved(items)) == Collapsed(r) && !IsAddress(x)
    ensures Run(Resolved(items + [x])) == Collapsed(r + [x])
  {
    RunAppend(items, x);
  }

  lemma CollapsePair(items: seq<Item>, r: seq<Item>, t: Item, a: Item)
    requires Run(Resolved(items)) == Collapsed(r) && ValidGroup(Pair(t, a))
    ensures Run(Resolved(items + [t, a])) == Collapsed(r + [a])
  {
    CollapsePlain(items, r, t);
    RunAppend(items + [t], a);
    assert items + [t] + [a] == items + [t, a];
    assert (r + [t])[..|r|] == r;
  }

  lemma CollapseTriple(items: seq<Item>, r: seq<Item>, t: Item, p: Item, a: Item)
    requires Run(Resolved(items)) == Collapsed(r) && ValidGroup(Triple(t, p, a))
    ensures Run(Resolved(items + [t, p, a])) == Collapsed(r + [a])
  {
    CollapsePlain(items, r, t);
    CollapsePlain(items + [t], r + [t], p);
    RunAppend(items + [t] + [p], a);
    assert items + [t] + [p] + [a] == items + [t, p, a];
    assert (r + [t] + [p])[..|r|] == r;
  }

  /** On a list made of valid groups the collapse replaces each group by its address index and keeps the order. */
  lemma {:induction false} CollapseParsesGroups(gs: seq<Group>)
    requires ValidGroups(gs)
    ensures Run(Resolved(Flatten(gs))) == Collapsed(Heads(gs))
  {
    if gs == [] {
      assert Resolved([]) == [];
    } else {
      var front, g := gs[..|gs| - 1], gs[|gs| - 1];
      CollapseParsesGroups(front);
      assert ValidGroup(g);
      match g {
        case Plain(i) => CollapsePlain(Flatten(front), Heads(front), i);
        case Pair(t, a) => CollapsePair(Flatten(front), Heads(front), t, a);
        case Triple(t, p, a) => CollapseTriple(Flatten(front), Heads(front), t, p, a);
      }
    }
  }

  /** Place `k` holds an address with its own type right before it, or two before with one plain index between. */
  predicate PrecededAt(items: seq<Item>, k: int)
    requires 0 <= k < |items|
  {
    var subtype := items[k].subtype;
    subtype.Some? ==>
      (k >= 1 && !IsAddress(items[k - 1]) && items[k - 1].convention == subtype.value) ||
      (k >= 2 && !IsAddress(items[k - 1]) && !IsAddress(items[k - 2]) &&
       items[k - 1].convention != subtype.value && items[k - 2].convention == subtype.value)
  }

  ghost predicate Preceded(items: seq<Item>) {
    forall k :: 0 <= k < |items| ==> PrecededAt(items, k)
  }

  /** The local condition is the same as being a list of groups. */
  lemma {:induction false} GroupsArePreceded(gs: seq<Group>)
    requires ValidGroups(gs)
    ensures Preceded(Flatten(gs))
  {
    if gs != [] {
      var front, g := gs[..|gs| - 1], gs[|gs| - 1];
      GroupsArePreceded(front);
      assert ValidGroup(g);
      var items, all := Flatten(front), Flatten(gs);
      forall k | 0 <= k < |all|
        ensures PrecededAt(all, k)
      {
        if k < |items| { assert PrecededAt(items, k); }
      }
    }
  }

  lemma {:induction false} PrecededAreGroups(items: seq<Item>) returns (gs: seq<Group>)
    requires Preceded(items)
    ensures ValidGroups(gs) && Flatten(gs) == items
  {
    if items == [] {
      gs := [];
    } else {
      var k := |items| - 1;
      var subtype := items[k].subtype;
      assert PrecededAt(items, k);
      var g := if subtype.None? then Plain(items[k])
               else if items[k - 1].convention == subtype.value then Pair(items[k - 1], items[k])
               else Triple(items[k - 2], items[k - 1], items[k]);
      var front := items[..|items| - |Items(g)|];
      assert items == front + Items(g);
      forall j | 0 <= j < |front|
        ensures PrecededAt(front, j)
      {
        assert PrecededAt(items, j);
      }
      gs := PrecededAreGroups(front);
      gs := gs + [g];
      assert gs[..|gs| - 1] + [g] == gs;
    }
  }

  // --- exactness ---

  function Addresses(items: seq<Item>): seq<Item> {
    if items == [] then [] else
      var last := items[|items| - 1];
      Addresses(items[..|items| - 1]) + if IsAddress(last) then [last] else []
  }

  /** The collapse goes through and no address index is dropped. */
  ghost predicate KeepsAddresses(items: seq<Item>) {
    Run(Resolved(items)).Collapsed? && Addresses(Run(Resolved(items)).kept) == Addresses(items)
  }

  /** Exactly the lists in which every address follows its own type are collapsed without losing an address. */
  lemma CollapseIsExact(items: seq<Item>)
    ensures KeepsAddresses(items) <==> Preceded(items)
  {
    if Preceded(items) {
      var gs := PrecededAreGroups(items);
      CollapseParsesGroups(gs);
      HeadsKeepAddresses(gs);
    }
    if KeepsAddresses(items) {
      KeepingMeansPreceded(items);
    }
  }

  lemma AddressesAppend(r: seq<Item>, x: Item)
    ensures Addresses(r + [x]) == Addresses(r) + if IsAddress(x) then [x] else []
  {
    assert (r + [x])[..|r|] == r;
  }

  lemma {:induction false} HeadsKeepAddresses(gs: seq<Group>)
    requires ValidGroups(gs)
    ensures Addresses(Heads(gs)) == Addresses(Flatten(gs))
  {
    if gs != [] {
      var front, g := gs[..|gs| - 1], gs[|gs| - 1];
      HeadsKeepAddresses(front);
      assert ValidGroup(g);
      AddressesAppend(Heads(front), Head(g));
      match g {
        case Plain(i) => AddressesAppend(Flatten(front), i);
        case Pair(t, a) => PairAddresses(Flatten(front), t, a);
        case Triple(t, p, a) => TripleAddresses(Flatten(front), t, p, a);
      }
    }
  }

  lemma PairAddresses(items: seq<Item>, t: Item, a: Item)
    requires !IsAddress(t) && IsAddress(a)
    ensures Addresses(items + [t, a]) == Addresses(items) + [a]
  {
    AddressesAppend(items, t);
    AddressesAppend(items + [t], a);
    assert items + [t] + [a] == items + [t, a];
  }

  lemma TripleAddresses(items: seq<Item>, t: Item, p: Item, a: Item)
    requires !IsAddress(t) && !IsAddress(p) && IsAddress(a)
    ensures Addresses(items + [t, p, a]) == Addresses(items) + [a]
  {
    AddressesAppend(items, t);
    PairAddresses(items + [t], p, a);
    assert items + [t] + [p, a] == items + [t, p, a];
  }

  lemma {:induction false} AddressesPrefix(r: seq<Item>, k: nat)
    ensures k <= |r| ==> |Addresses(r[..k])| <= |Addresses(r)|
  {
    if k < |r| {
      assert r[..|r| - 1][..k] == r[..k];
      AddressesPrefix(r[..|r| - 1], k);
    } else if k == |r| {
      assert r[..k] == r;
    }
  }

  // --- what a run keeps ---

  function Kept(items: seq<Item>): seq<Item>
    requires Run(Resolved(items)).Collapsed?
  {
    Run(Resolved(items)).kept
  }

  /** One round drops a number of the last kept indexes, according to the conventions before it, and appends the new one. */
  lemma KeptStep(items: seq<Item>, x: Item) returns (k: nat)
    requires Run(Resolved(items + [x])).Collapsed?
    ensures Run(Resolved(items)).Collapsed? && k <= |Kept(items)| && Kept(items + [x]) == Kept(items)[..k] + [x]
    ensures !IsAddress(x) ==> k == |Kept(items)|
    ensures IsAddress(x) && Last(items, 1) == x.subtype.value ==> k == |Kept(items)| - 1
    ensures IsAddress(x) && Last(items, 1) != x.subtype.value ==>
      k == |Kept(items)| - 2 && Last(items, 2) == x.subtype.value
  {
    RunAppend(items, x);
    var kept := Kept(items);
    k := if x.subtype.None? then |kept| else if Last(items, 1) == x.subtype.value then |kept| - 1 else |kept| - 2;
    assert kept[..|kept|] == kept;
  }

  /** It ends with the latest index. */
  lemma KeptEnd(items: seq<Item>)
    requires items != [] && Run(Resolved(items)).Collapsed?
    ensures Kept(items) != [] && Kept(items)[|Kept(items)| - 1] == items[|items| - 1]
  {
    assert items == items[..|items| - 1] + [items[|items| - 1]];
    var k := KeptStep(items[..|items| - 1], items[|items| - 1]);
  }

  /** Behind the one before it, if the latest is plain. */
  lemma KeptBeforeEnd(items: seq<Item>)
    requires |items| >= 2 && !IsAddress(items[|items| - 1]) && Run(Resolved(items)).Collapsed?
    ensures |Kept(items)| >= 2 && Kept(items)[|Kept(items)| - 2] == items[|items| - 2]
  {
    assert items == items[..|items| - 1] + [items[|items| - 1]];
    var k := KeptStep(items[..|items| - 1], items[|items| - 1]);
    KeptEnd(items[..|items| - 1]);
  }

  lemma {:induction false} KeptIsShorter(items: seq<Item>)
    requires Run(Resolved(items)).Collapsed?
    ensures |Kept(items)| <= |items|
  {
    if items != [] {
      var front, x := items[..|items| - 1], items[|items| - 1];
      assert items == front + [x];
      var k := KeptStep(front, x);
      KeptIsShorter(front);
    }
  }

  /** A run never gains addresses. */
  lemma {:induction false} KeptAddresses(items: seq<Item>)
    requires Run(Resolved(items)).Collapsed?
    ensures |Addresses(Kept(items))| <= |Addresses(items)|
  {
    if items != [] {
      var front, x := items[..|items| - 1], items[|items| - 1];
      assert items == front + [x];
      var k := KeptStep(front, x);
      KeptAddresses(front);
      AddressesPrefix(Kept(front), k);
      AddressesAppend(Kept(front)[..k], x);
      AddressesAppend(front, x);
    }
  }

  lemma {:induction false} KeepingMeansPreceded(items: seq<Item>)
    requires Run(Resolved(items)).Collapsed?
    requires |Addresses(Kept(items))| == |Addresses(items)|
    ensures Preceded(items)
    decreases |items|, 1
  {
    if items != [] {
      var front, x := items[..|items| - 1], items[|items| - 1];
      assert items == front + [x];
      KeepingStep(front, x);
    }
  }

  lemma {:induction false} KeepingStep(front: seq<Item>, x: Item)
    requires Run(Resolved(front + [x])).Collapsed?
    requires |Addresses(Kept(front + [x]))| == |Addresses(front + [x])|
    ensures Preceded(front + [x])
    decreases |front| + 1, 0
  {
    LastKeeps(front, x);
    KeepingMeansPreceded(front);
    PrecededExtends(front, x);
  }

  /** If no address is lost with the last item, none is lost before it, and the last one follows its type. */
  lemma LastKeeps(front: seq<Item>, x: Item)
    requires Run(Resolved(front + [x])).Collapsed?
    requires |Addresses(Kept(front + [x]))| == |Addresses(front + [x])|
    ensures Run(Resolved(front)).Collapsed? && |Addresses(Kept(front))| == |Addresses(front)|
    ensures PrecededAt(front + [x], |front|)
  {
    var k := KeptStep(front, x);
    var kept := Kept(front);
    KeptAddresses(front);
    AddressesPrefix(kept, k);
    AddressesAppend(kept[..k], x);
    AddressesAppend(front, x);
    KeptEndsAlike(front);
    LastPreceded(front, kept, x, k);
  }

  lemma PrecededExtends(front: seq<Item>, x: Item)
    requires Preceded(front) && PrecededAt(front + [x], |front|)
    ensures Preceded(front + [x])
  {
    forall j | 0 <= j < |front + [x]|
      ensures PrecededAt(front + [x], j)
    {
      if j < |front| { assert PrecededAt(front, j); }
    }
  }

  /** What the next round can rely on: the ends of what was kept so far. */
  ghost predicate EndsAlike(front: seq<Item>, r: seq<Item>) {
    |r| <= |front| &&
    (front != [] ==> r != [] && r[|r| - 1] == front[|front| - 1]) &&
    (|front| >= 2 && !IsAddress(front[|front| - 1]) ==> |r| >= 2 && r[|r| - 2] == front[|front| - 2])
  }

  lemma KeptEndsAlike(front: seq<Item>)
    requires Run(Resolved(front)).Collapsed?
    ensures EndsAlike(front, Kept(front))
  {
    KeptIsShorter(front);
    if front != [] { KeptEnd(front); }
    if |front| >= 2 && !IsAddress(front[|front| - 1]) { KeptBeforeEnd(front); }
  }

  /** An address that kept all earlier addresses dropped only its type, or its type and a plain index. */
  lemma LastPreceded(front: seq<Item>, r: seq<Item>, x: Item, k: nat)
    requires EndsAlike(front, r) && k <= |r| && |Addresses(r[..k])| == |Addresses(r)|
    requires IsAddress(x) && Last(front, 1) == x.subtype.value ==> k == |r| - 1
    requires IsAddress(x) && Last(front, 1) != x.subtype.value ==> k == |r| - 2 && Last(front, 2) == x.subtype.value
    ensures PrecededAt(front + [x], |front|)
  {
    if IsAddress(x) {
      DroppedIsPlain(r, k, |r| - 1);
      if k == |r| - 2 { DroppedIsPlain(r, k, |r| - 2); }
    }
  }

  /** What is dropped without losing an address is plain. */
  lemma {:induction false} DroppedIsPlain(r: seq<Item>, k: nat, j: nat)
    requires k <= j < |r| && |Addresses(r[..k])| == |Addresses(r)|
    ensures !IsAddress(r[j])
  {
    var init := r[..|r| - 1];
    assert r == init + [r[|r| - 1]];
    AddressesAppend(init, r[|r| - 1]);
    AddressesPrefix(init, k);
    assert init[..k] == r[..k];
    if j < |r| - 1 { DroppedIsPlain(init, k, j); }
  }

  // --- when the slice bound becomes negative ---

  /** The type of the address at `k` stands two places before it, and not right before it. */
  predicate BackTwo(items: seq<Item>, k: int)
    requires 0 <= k < |items|
  {
    IsAddress(items[k]) && k >= 2 && items[k - 2].convention == items[k].subtype.value &&
    items[k - 1].convention != items[k].subtype.value
  }

  /** Place `k` holds a plain index, or an address whose type is the convention of one of the two places before it. */
  predicate Typed(items: seq<Item>, k: int)
    requires 0 <= k < |items|
  {
    IsAddress(items[k]) ==>
      (k >= 1 && items[k - 1].convention == items[k].subtype.value) ||
      (k >= 2 && items[k - 2].convention == items[k].subtype.value)
  }

  /** Plain indexes lengthen the exported list by one, addresses with their type two places back shorten it by one. */
  function Length(items: seq<Item>): int {
    if items == [] then 0 else
      var k := |items| - 1;
      Length(items[..k]) + (if IsAddress(items[k]) then 0 else 1) - (if BackTwo(items, k) then 1 else 0)
  }

  predicate Goes(items: seq<Item>, k: int)
    requires 0 <= k < |items|
  {
    Typed(items, k) && (BackTwo(items, k) ==> Length(items[..k]) >= 2)
  }

  ghost predicate AllGo(items: seq<Item>) {
    forall k :: 0 <= k < |items| ==> Goes(items, k)
  }

  /** The first place that does not go is an address that has to drop two indexes of fewer than two. */
  ghost predicate BreaksAt(items: seq<Item>, k: int) {
    0 <= k < |items| && BackTwo(items, k) && Length(items[..k]) < 2 && forall j :: 0 <= j < k ==> Goes(items, j)
  }

  ghost predicate Breaks(items: seq<Item>) {
    exists k :: BreaksAt(items, k)
  }

  ghost predicate NamedSubtypes(items: seq<Item>) {
    forall k :: 0 <= k < |items| ==> items[k].subtype != Some("")
  }

  lemma GoesInFront(front: seq<Item>, x: Item, k: nat)
    requires k < |front|
    ensures Goes(front + [x], k) == Goes(front, k) && BreaksAt(front + [x], k) == BreaksAt(front, k)
  {
    var items := front + [x];
    assert items[..k] == front[..k];
    forall j | 0 <= j <= k
      ensures Goes(items, j) == Goes(front, j)
    {
      assert items[..j] == front[..j];
    }
  }

  lemma LengthAppend(front: seq<Item>, x: Item)
    ensures var k := |front|;
      Length(front + [x]) == Length(front) + (if IsAddress(x) then 0 else 1) - (if BackTwo(front + [x], k) then 1 else 0)
  {
    assert (front + [x])[..|front|] == front;
  }

  /** One round goes through exactly if its place does, and keeps the count. */
  lemma RoundGoes(front: seq<Item>, x: Item)
    requires NamedSubtypes(front + [x]) && Run(Resolved(front)).Collapsed? && |Kept(front)| == Length(front)
    ensures var items := front + [x]; var k := |front|;
      (Run(Resolved(items)).Collapsed? <==> Goes(items, k)) &&
      (Run(Resolved(items)) == OutOfRange <==> BackTwo(items, k) && Length(front) < 2) &&
      (Run(Resolved(items)).Collapsed? ==> |Kept(items)| == Length(items))
  {
    var items := front + [x];
    assert items[|front|].subtype != Some("");
    assert items[..|front|] == front;
    RunAppend(front, x);
    LengthAppend(front, x);
    if front != [] { KeptEnd(front); }
  }

  /** A list goes through exactly if every place does. */
  lemma {:induction false} RunGoes(items: seq<Item>)
    requires NamedSubtypes(items)
    ensures Run(Resolved(items)).Collapsed? <==> AllGo(items)
    ensures Run(Resolved(items)).Collapsed? ==> |Kept(items)| == Length(items)
  {
    if items == [] {
      assert Resolved([]) == [];
    } else {
      var front, x := items[..|items| - 1], items[|items| - 1];
      assert items == front + [x];
      RunGoes(front);
      AllGoAppend(front, x);
      if Run(Resolved(front)).Collapsed? {
        RoundGoes(front, x);
      } else {
        RunAppend(front, x);
      }
    }
  }

  lemma AllGoAppend(front: seq<Item>, x: Item)
    ensures AllGo(front + [x]) <==> AllGo(front) && Goes(front + [x], |front|)
  {
    var items := front + [x];
    forall k | 0 <= k < |front|
      ensures Goes(items, k) == Goes(front, k)
    {
      GoesInFront(front, x, k);
    }
    if !AllGo(front) {
      var k :| 0 <= k < |front| && !Goes(front, k);
      assert !Goes(items, k);
    }
  }

  /** A slice bound becomes negative exactly if the list breaks. */
  lemma {:induction false} OutOfRangeExactly(items: seq<Item>)
    requires NamedSubtypes(items)
    ensures Run(Resolved(items)) == OutOfRange <==> Breaks(items)
  {
    if items == [] {
      assert Resolved([]) == [];
    } else {
      var front, x := items[..|items| - 1], items[|items| - 1];
      assert items == front + [x];
      OutOfRangeExactly(front);
      RunGoes(front);
      BreaksExtends(front, x);
      if Run(Resolved(front)).Collapsed? {
        RoundGoes(front, x);
      } else {
        RunAppend(front, x);
      }
    }
  }

  /** The first break of a longer list is that of its front, or its last place if the whole front goes. */
  lemma BreaksExtends(front: seq<Item>, x: Item)
    ensures Breaks(front + [x]) <==>
      Breaks(front) || (AllGo(front) && BackTwo(front + [x], |front|) && Length(front) < 2)
  {
    var items, n := front + [x], |front|;
    assert items[..n] == front;
    forall k | 0 <= k < n
      ensures Goes(items, k) == Goes(front, k) && BreaksAt(items, k) == BreaksAt(front, k)
    {
      GoesInFront(front, x, k);
    }
    if k :| BreaksAt(items, k) { assert k < n ==> BreaksAt(front, k); }
    if k :| BreaksAt(front, k) { assert BreaksAt(items, k); }
    if AllGo(front) && BackTwo(items, n) && Length(front) < 2 {
      assert BreaksAt(items, n);
    }
  }

  /** The indexes before the first one that cannot be handled. */
  function Known(slots: seq<Option<Item>>): (items: seq<Item>)
    ensures |items| <= |slots| && forall k :: 0 <= k < |items| ==> slots[k] == Some(items[k])
    ensures |items| < |slots| ==> slots[|items|].None?
  {
    if slots == [] || slots[0].None? then [] else [slots[0].value] + Known(slots[1..])
  }

  /** The machine breaks on the whole list exactly if it breaks before the first index that cannot be handled. */
  lemma RunKnown(slots: seq<Option<Item>>)
    ensures Run(slots) == OutOfRange <==> Run(Resolved(Known(slots))) == OutOfRange
  {
    var n := |Known(slots)|;
    assert slots[..n] == Resolved(Known(slots));
    if n < |slots| {
      RunExtends(slots, n);
      RunStops(slots, n + 1);
    } else {
      assert slots[..n] == slots;
    }
  }

  /** A node whose index list cannot be sliced. */
  ghost predicate Unsliceable(n: Tree, names: map<string, Tree>) {
    Breaks(Known(ResolveAll(n, names)))
  }

  lemma UnsliceableExactly(n: Tree, names: map<string, Tree>)
    ensures Run(ResolveAll(n, names)) == OutOfRange <==> Unsliceable(n, names)
  {
    RunKnown(ResolveAll(n, names));
    KnownSubtypesAreNamed(n, names);
    OutOfRangeExactly(Known(ResolveAll(n, names)));
  }

  lemma KnownSubtypesAreNamed(n: Tree, names: map<string, Tree>)
    ensures NamedSubtypes(Known(ResolveAll(n, names)))
  {
    var slots := ResolveAll(n, names);
    forall k | 0 <= k < |Known(slots)|
      ensures Known(slots)[k].subtype != Some("")
    {
      assert slots[k] == Resolve(n, k, names);
    }
  }

  /** Two addresses after one type: the second truncation would use a negative bound. */
  lemma SharedTypeOutOfRange(t: Item, a: Item, b: Item)
    requires t.convention == "InetAddressType" && !IsAddress(t)
    requires a.subtype == b.subtype == Some("InetAddressType") && a.convention == "InetAddress"
    ensures Run(Resolved([t, a, b])) == OutOfRange
  {
    assert Resolved([]) == [] && [] + [t, a] == [t, a] && [t, a] + [b] == [t, a, b];
    assert a.convention[|a.convention| - 1] != t.convention[|t.convention| - 1];
    CollapsePair([], [], t, a);
    RunAppend([t, a], b);
  }

  /** With an index in front, the same list is collapsed but both that index and the first address are lost. */
  lemma SharedTypeLosesIndexes(x: Item, t: Item, a: Item, b: Item)
    requires !IsAddress(x) && t.convention == "InetAddressType" && !IsAddress(t)
    requires a.subtype == b.subtype == Some("InetAddressType") && a.convention == "InetAddress"
    ensures Run(Resolved([x, t, a, b])) == Collapsed([b])
  {
    assert Resolved([]) == [] && [] + [x] == [x] && [x] + [t, a] == [x, t, a] && [x, t, a] + [b] == [x, t, a, b];
    assert a.convention[|a.convention| - 1] != t.convention[|t.convention| - 1];
    CollapsePlain([], [], x);
    CollapsePair([x], [x], t, a);
    RunAppend([x, t, a], b);
  }
}
