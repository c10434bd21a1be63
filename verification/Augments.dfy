/** AUGMENTS: where the indexes of a row come from, and when the order in which the rows are visited matters. */
module Augments {
  import opened MibTree
  import opened Prepare

  // --- the pass as a list of steps ---

  /** The steps of the pass over some nodes, one after the other. */
  function Steps(ns: seq<Tree>, names: map<string, string>, st: IxState): IxState {
    if ns == [] then st else AugmentStep(Steps(ns[..|ns| - 1], names, st), ns[|ns| - 1], names)
  }

  lemma {:induction false} StepsConcat(a: seq<Tree>, b: seq<Tree>, names: map<string, string>, st: IxState)
    ensures Steps(a + b, names, st) == Steps(b, names, Steps(a, names, st))
  {
    if b == [] {
      assert a + b == a;
    } else {
      assert (a + b)[..|a + b| - 1] == a + b[..|b| - 1];
      StepsConcat(a, b[..|b| - 1], names, st);
    }
  }

  lemma {:induction false} AugmentIsSteps(t: Tree, names: map<string, string>, st: IxState)
    ensures Augment(t, names, st) == Steps(Preorder(t), names, st)
    decreases t, 0
  {
    StepsConcat([t], PreorderAll(t.children), names, st);
    assert [t][..0] == [];
    AugmentAllIsSteps(t.children, names, AugmentStep(st, t, names));
  }

  lemma {:induction false} AugmentAllIsSteps(ts: seq<Tree>, names: map<string, string>, st: IxState)
    ensures AugmentAll(ts, names, st) == Steps(PreorderAll(ts), names, st)
    decreases ts
  {
    if ts != [] {
      AugmentIsSteps(ts[0], names, st);
      AugmentAllIsSteps(ts[1..], names, Augment(ts[0], names, st));
      StepsConcat(Preorder(ts[0]), PreorderAll(ts[1..]), names, st);
    }
  }

  // --- where indexes come from ---

  /** The step at `n` assigns the indexes of the node with this OID. */
  ghost predicate Writes(n: Tree, names: map<string, string>, oid: string) {
    Target(n, names).Some? && (n.oid == oid || exists c :: c in n.children && c.oid == oid)
  }

  /** Whose initial indexes a node has after the steps over `ns`. */
  ghost function Source(ns: seq<Tree>, names: map<string, string>, oid: string): string {
    if ns == [] then oid else
      var init, n := ns[..|ns| - 1], ns[|ns| - 1];
      Source(init, names, if Writes(n, names, oid) then Target(n, names).value else oid)
  }

  lemma {:induction false} SourceHolds(ns: seq<Tree>, names: map<string, string>, st: IxState, oid: string)
    ensures Lookup(Steps(ns, names, st), oid) == Lookup(st, Source(ns, names, oid))
  {
    if ns != [] {
      var init, n := ns[..|ns| - 1], ns[|ns| - 1];
      StepValue(Steps(init, names, st), n, names, oid);
      SourceHolds(init, names, st, if Writes(n, names, oid) then Target(n, names).value else oid);
    }
  }

  lemma StepValue(st: IxState, n: Tree, names: map<string, string>, oid: string)
    ensures Lookup(AugmentStep(st, n, names), oid) == Lookup(st, if Writes(n, names, oid) then Target(n, names).value else oid)
  {
    if Target(n, names).Some? {
      SetAllValue(st, n.children, Lookup(st, Target(n, names).value), oid);
    }
  }

  lemma {:induction false} SourceSkips(ns: seq<Tree>, k: nat, names: map<string, string>, oid: string)
    requires k <= |ns| && forall i :: k <= i < |ns| ==> !Writes(ns[i], names, oid)
    ensures Source(ns, names, oid) == Source(ns[..k], names, oid)
  {
    if k == |ns| {
      assert ns[..k] == ns;
    } else {
      assert ns[..|ns| - 1][..k] == ns[..k];
      SourceSkips(ns[..|ns| - 1], k, names, oid);
    }
  }

  // --- the conditions ---

  /** Every row, when it is visited, finds the row it augments with its own initial indexes. */
  ghost predicate TakesInitial(ns: seq<Tree>, names: map<string, string>) {
    forall i :: 0 <= i < |ns| && Target(ns[i], names).Some? ==> TakesInitialAt(ns, names, i)
  }

  ghost predicate TakesInitialAt(ns: seq<Tree>, names: map<string, string>, i: int)
    requires 0 <= i < |ns| && Target(ns[i], names).Some?
  {
    Source(ns[..i], names, Target(ns[i], names).value) == Target(ns[i], names).value
  }

  /** No row takes its indexes from a row that was overwritten before, by its own augmentation or by its parent's. */
  ghost predicate InOrder(ns: seq<Tree>, names: map<string, string>) {
    forall i, j :: 0 <= j < i < |ns| && Target(ns[i], names).Some? ==> !Writes(ns[j], names, Target(ns[i], names).value)
  }

  lemma InOrderTakesInitial(ns: seq<Tree>, names: map<string, string>)
    requires InOrder(ns, names)
    ensures TakesInitial(ns, names)
  {
    forall i | 0 <= i < |ns| && Target(ns[i], names).Some?
      ensures TakesInitialAt(ns, names, i)
    {
      SourceSkips(ns[..i], 0, names, Target(ns[i], names).value);
      assert ns[..i][..0] == [];
    }
  }

  /** Augmentations lead downwards in some ranking of the nodes, so there is no cycle of them. */
  ghost predicate Ranked(ns: seq<Tree>, names: map<string, string>, rank: string -> nat) {
    forall n, oid :: n in ns && Writes(n, names, oid) ==> rank(Target(n, names).value) < rank(oid)
  }

  lemma {:induction false} SourceRank(ns: seq<Tree>, names: map<string, string>, rank: string -> nat, oid: string)
    requires Ranked(ns, names, rank)
    ensures rank(Source(ns, names, oid)) <= rank(oid)
    ensures (exists n :: n in ns && Writes(n, names, oid)) ==> rank(Source(ns, names, oid)) < rank(oid)
  {
    if ns != [] {
      var init, n := ns[..|ns| - 1], ns[|ns| - 1];
      assert ns == init + [n];
      SourceRank(init, names, rank, if Writes(n, names, oid) then Target(n, names).value else oid);
    }
  }

  /** Without cycles the visiting order decides: a row that was overwritten does not have its initial indexes. */
  lemma InOrderExactly(ns: seq<Tree>, names: map<string, string>, rank: string -> nat)
    requires Ranked(ns, names, rank)
    ensures TakesInitial(ns, names) <==> InOrder(ns, names)
  {
    if InOrder(ns, names) { InOrderTakesInitial(ns, names); }
    if TakesInitial(ns, names) {
      forall i, j | 0 <= j < i < |ns| && Target(ns[i], names).Some?
        ensures !Writes(ns[j], names, Target(ns[i], names).value)
      {
        assert TakesInitialAt(ns, names, i);
        assert ns[..i][j] == ns[j];
        SourceRank(ns[..i], names, rank, Target(ns[i], names).value);
      }
    }
  }

  /** Rows that are augmented are neither augmentations themselves nor children of one. */
  ghost predicate AugmentsOnce(t: Tree, names: map<string, string>) {
    forall x, y :: x in Preorder(t) && y in Preorder(t) && Target(x, names) == Some(y.oid) ==>
      Target(y, names).None? && forall p :: p in Preorder(t) && y in p.children ==> Target(p, names).None?
  }

  /** Then every visiting order will do. */
  lemma AugmentsOnceInOrder(t: Tree, names: map<string, string>)
    requires AugmentsOnce(t, names)
    ensures InOrder(Preorder(t), names)
  {
    var ns := Preorder(t);
    forall i, j | 0 <= j < i < |ns| && Target(ns[i], names).Some?
      ensures !Writes(ns[j], names, Target(ns[i], names).value)
    {
      var y, p := Target(ns[i], names).value, ns[j];
      assert ns[i] in ns && p in ns;
      if Target(p, names).Some? {
        if c :| c in p.children && c.oid == y { ChildInside(t, p, c); }
      }
    }
  }

  lemma ChildInside(t: Tree, p: Tree, c: Tree)
    requires p in Preorder(t) && c in p.children
    ensures c in Preorder(t)
  {
    var i :| 0 <= i < |p.children| && p.children[i] == c;
    assert c in Preorder(c);
    InSubtree(p, c);
    SubtreeWithin(t, p, c);
  }
}
