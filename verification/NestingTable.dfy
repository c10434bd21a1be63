/** A column with a metric below it: a readable node with indexes over a readable leaf, which is its index. */
module NestingTable {
  import opened MibTree
  import opened IndexCollapse
  import opened WalkPlan
  import opened CompiledModule
  import opened SmallTables

  function Kid(): Tree {
    Leaf(1, "kid", "", "INTEGER", "", "ACCESS_READONLY", [])
  }

  function Nesting(): Tree {
    Table([Kid()]).(typ := "INTEGER", access := "ACCESS_READONLY", indexes := ["kid"])
  }

  lemma NestingIsTree()
    ensures GoodTree(Nesting()) && Preorder(Nesting()) == [Nesting(), Kid()]
    ensures "kid" in NameToNode(Nesting()) && NameToNode(Nesting())["kid"] == Kid()
  {
    TableIsTree([Kid()]);
    assert Preorder(Nesting()) == [Nesting(), Kid()];
    FoundByName([Nesting(), Kid()], Kid());
  }

  /** No node of the tree crashes, and both are metrics. */
  lemma NestingEmits(n: Tree)
    requires n in Preorder(Nesting())
    ensures Emit(n, NameToNode(Nesting()), map[]).Emitted?
  {
    NestingIsTree();
    if n == Kid() {
      assert ResolveAll(n, NameToNode(Nesting())) == [];
    } else {
      KidIsIndex(ResolveAll(n, NameToNode(Nesting())));
    }
  }

  lemma KidIsIndex(slots: seq<Option<Item>>)
    requires |slots| == 1 && slots[0].Some? && slots[0].value.subtype.None?
    ensures Run(slots).Collapsed?
  {
    assert slots[..0] == [] && Run([]) == Collapsed([]);
  }

  /** Neither condition holds for it, and no run over it panics. */
  lemma MetricBelowColumn()
    ensures GoodTree(Nesting()) && NoPanic(Preorder(Nesting()), NameToNode(Nesting()), map[])
    ensures !ColumnsEmitAlone(Nesting(), map[]) && !UsableEmitAlone(Nesting(), map[])
  {
    NestingIsTree();
    NestingEmits(Kid());
    assert UnderColumn(Nesting(), Kid());
    NestingEmits(Nesting());
    SingleNode(Nesting(), NameToNode(Nesting()), map[]);
    SingleNode(Kid(), NameToNode(Nesting()), map[]);
    MetricsOfConcat([Nesting()], [Kid()], NameToNode(Nesting()), map[]);
    assert Preorder(Nesting()) == [Nesting()] + [Kid()];
  }
}
