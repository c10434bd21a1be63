/** minimizeOids: one sort and one remembered OID compute the minimal elements of the covering order. */
module Minimize {
  import opened ByteStrings

  /** The generator's test that `oid` is `p` or lies below it. */
  predicate Covers(p: string, oid: string) {
    HasPrefix(oid + ".", p + ".")
  }

  /** `p` is minimal in `oids`: nothing else there covers it. */
  ghost predicate Uncovered(p: string, oids: set<string>) {
    p in oids && forall c :: c in oids && Covers(c, p) ==> c == p
  }

  ghost function Minimal(oids: set<string>): set<string> {
    set p | p in oids && Uncovered(p, oids)
  }

  /** No character sorts below '.', as in every OID made of digits and dots. */
  ghost predicate NoLowChars(s: string) {
    forall i :: 0 <= i < |s| ==> s[i] >= '.'
  }

  /** A covered entry `r` that the sort separates from its minimal cover `p` by a foreign entry `q`. */
  ghost predicate Separated(oids: set<string>, p: string, q: string, r: string) {
    Uncovered(p, oids) && q in oids && r in oids && Less(p, q) && Less(q, r) && Covers(p, r) && !Covers(p, q)
  }

  ghost predicate HasSeparated(oids: set<string>) {
    exists p, q, r :: Separated(oids, p, q, r)
  }

  function Self(s: string): string {
    s
  }

  /** The loop of minimizeOids over the sorted entries, with the remembered `prevOid`. */
  function Scan(sorted: seq<string>, prevOid: string): seq<string> {
    if sorted == [] then []
    else if !HasPrefix(sorted[0] + ".", prevOid) || prevOid == "" then
      [sorted[0]] + Scan(sorted[1..], sorted[0] + ".")
    else Scan(sorted[1..], prevOid)
  }

  ghost predicate HasCover(oids: seq<string>, o: string) {
    exists p :: p in oids && Covers(p, o)
  }

  /** What the loop achieves on any entries at all: sorted, no repeats, nothing uncovered lost, nothing left
      uncovered; and exactly the minimal entries if and only if none is separated from its cover. */
  ghost predicate Minimizes(oids: seq<string>, minimized: seq<string>) {
    StrictlySortedBy(Self, minimized) &&
    Elements(minimized) <= Elements(oids) &&
    Minimal(Elements(oids)) <= Elements(minimized) &&
    (forall o {:trigger HasCover(minimized, o)} :: o in oids ==> HasCover(minimized, o)) &&
    (Elements(minimized) == Minimal(Elements(oids)) <==> !HasSeparated(Elements(oids)))
  }

  method MinimizeOids(oids: seq<string>) returns (minimized: seq<string>)
    ensures Minimizes(oids, minimized)
    ensures minimized == Scan(SortBy(Self, oids), "")
  {
    var sorted := SortBy(Self, oids);
    var prevOid := "";
    minimized := [];
    for i := 0 to |sorted|
      invariant minimized + Scan(sorted[i..], prevOid) == Scan(sorted, "")
    {
      var oid := sorted[i];
      assert sorted[i..][0] == oid && sorted[i..][1..] == sorted[i + 1..];
      if !HasPrefix(oid + ".", prevOid) || prevOid == "" {
        minimized := minimized + [oid];
        prevOid := oid + ".";
      }
    }
    assert minimized == Scan(sorted, "");
    ScanMinimizes(oids);
  }

  lemma ScanMinimizes(oids: seq<string>)
    ensures Minimizes(oids, Scan(SortBy(Self, oids), ""))
  {
    var sorted := SortBy(Self, oids);
    SortElements(Self, oids);
    ScanSorted(sorted);
    ScanKeepsUncovered(sorted);
    ScanExact(sorted);
    forall o | o in oids
      ensures HasCover(Scan(sorted, ""), o)
    {
      assert o in Elements(sorted);
      var k := ScanCovers(sorted, o);
    }
  }

  // --- the covering order ---

  lemma CoversTransitive(a: string, b: string, c: string)
    requires Covers(a, b) && Covers(b, c)
    ensures Covers(a, c)
  {}

  lemma CoversPrefix(p: string, o: string)
    requires Covers(p, o)
    ensures p <= o && (p == o || (|p| < |o| && o[|p|] == '.'))
    ensures AtMost(p, o)
  {
    assert p == (p + ".")[..|p|] == (o + ".")[..|p|];
    if |p| < |o| {
      assert (p + ".")[|p|] == (o + ".")[|p|];
    }
    PrefixAtMost(p, o);
  }

  lemma PrefixCovers(p: string, o: string)
    requires p <= o && (p == o || o[|p|] == '.')
    ensures Covers(p, o)
  {
    if p != o {
      assert o == p + o[|p|..];
      assert o[|p|..] == "." + o[|p| + 1..];
    }
  }

  lemma CoversComparable(a: string, b: string, o: string)
    requires Covers(a, o) && Covers(b, o)
    ensures Covers(a, b) || Covers(b, a)
  {
    CoversPrefix(a, o);
    CoversPrefix(b, o);
    if |a| <= |b| {
      PrefixCovers(a, b);
    } else {
      PrefixCovers(b, a);
    }
  }

  lemma CoversAntisymmetric(a: string, b: string)
    requires Covers(a, b) && Covers(b, a)
    ensures a == b
  {
    CoversPrefix(a, b);
    CoversPrefix(b, a);
  }

  /** Every entry has a minimal entry above it. */
  lemma RootCover(oids: set<string>, o: string) returns (p: string)
    requires o in oids
    ensures Uncovered(p, oids) && Covers(p, o)
    decreases |o|
  {
    if Uncovered(o, oids) {
      p := o;
    } else {
      var c :| c in oids && Covers(c, o) && c != o;
      CoversPrefix(c, o);
      p := RootCover(oids, c);
      CoversTransitive(p, c, o);
    }
  }

  /** With no character below '.', everything between an OID and a descendant is a descendant. */
  lemma BetweenDescendants(p: string, q: string, r: string)
    requires Less(p, q) && Less(q, r) && Covers(p, r) && NoLowChars(q)
    ensures Covers(p, q)
  {
    CoversPrefix(p, r);
    BetweenExtensions(p, q, r);
    LessTotal(p, q);
    LessTotal(q, r);
    LessTransitive(p, q, r);
    LessTotal(p, r);
    var x, y := q[|p|..], r[|p|..];
    assert q == p + x && r == p + y;
    LessAfterCommon(p, x, y);
    assert x == [] ==> q == p;
    assert |q| > |p| && x[0] == q[|p|];
    PrefixCovers(p, q);
  }

  lemma NoLowCharsNotSeparated(oids: set<string>)
    requires forall o :: o in oids ==> NoLowChars(o)
    ensures !HasSeparated(oids)
  {
    forall p, q, r | Separated(oids, p, q, r)
      ensures false
    {
      BetweenDescendants(p, q, r);
    }
  }

  // --- what the scan keeps ---

  lemma {:induction false} ScanIncreasing(sorted: seq<string>, p: string)
    requires SortedBy(Self, sorted)
    requires sorted != [] ==> AtMost(p, sorted[0])
    ensures var m := Scan(sorted, p + ".");
      StrictlySortedBy(Self, m) && Elements(m) <= Elements(sorted) &&
      forall k :: 0 <= k < |m| ==> Less(p, m[k])
  {
    if sorted != [] {
      var s, rest := sorted[0], sorted[1..];
      assert sorted == [s] + rest && (rest != [] ==> rest[0] == sorted[1]);
      if HasPrefix(s + ".", p + ".") {
        if rest != [] && p != s && s != rest[0] { LessTransitive(p, s, rest[0]); }
        ScanIncreasing(rest, p);
      } else {
        ScanIncreasing(rest, s);
        var m := Scan(rest, s + ".");
        ElementsCons(s, rest);
        ElementsCons(s, m);
        forall k | 0 <= k < |m|
          ensures Less(p, m[k])
        {
          LessTransitive(p, s, m[k]);
        }
      }
    }
  }

  lemma ScanSorted(sorted: seq<string>)
    requires SortedBy(Self, sorted)
    ensures StrictlySortedBy(Self, Scan(sorted, ""))
    ensures Elements(Scan(sorted, "")) <= Elements(sorted)
  {
    if sorted != [] {
      ScanIncreasing(sorted[1..], sorted[0]);
      assert sorted == [sorted[0]] + sorted[1..];
      ElementsCons(sorted[0], sorted[1..]);
      ElementsCons(sorted[0], Scan(sorted[1..], sorted[0] + "."));
    }
  }

  lemma {:induction false} ScanKeepsUncoveredFrom(sorted: seq<string>, p: string, o: string)
    requires o in sorted && !Covers(p, o)
    requires forall c :: c in sorted && Covers(c, o) ==> c == o
    ensures o in Scan(sorted, p + ".")
  {
    var s, rest := sorted[0], sorted[1..];
    if HasPrefix(s + ".", p + ".") {
      ScanKeepsUncoveredFrom(rest, p, o);
    } else if s != o {
      ScanKeepsUncoveredFrom(rest, s, o);
    }
  }

  lemma ScanKeepsUncovered(sorted: seq<string>)
    ensures Minimal(Elements(sorted)) <= Elements(Scan(sorted, ""))
  {
    forall o | Uncovered(o, Elements(sorted))
      ensures o in Scan(sorted, "")
    {
      if o != sorted[0] {
        assert sorted[0] in Elements(sorted);
        ScanKeepsUncoveredFrom(sorted[1..], sorted[0], o);
      }
    }
  }

  /** Each entry is covered by the last kept entry that does not sort after it. */
  ghost predicate LastKept(m: seq<string>, k: int, o: string) {
    0 <= k < |m| && AtMost(m[k], o) && Covers(m[k], o) && forall j :: k < j < |m| ==> Less(o, m[j])
  }

  lemma {:induction false} ScanCoversFrom(sorted: seq<string>, p: string, o: string) returns (k: int)
    requires SortedBy(Self, sorted) && o in sorted && AtMost(p, sorted[0])
    ensures LastKept([p] + Scan(sorted, p + "."), k, o)
  {
    var s, rest := sorted[0], sorted[1..];
    var m := Scan(sorted, p + ".");
    if o == s {
      if HasPrefix(s + ".", p + ".") {
        k := 0;
        if rest != [] {
          assert rest[0] == sorted[1];
          if o in rest && p != s && s != rest[0] { LessTransitive(p, s, rest[0]); }
        }
        ScanAfter(sorted, p, o);
      } else {
        k := 1;
        if rest != [] { assert rest[0] == sorted[1]; }
        ScanIncreasing(rest, s);
        assert ([p] + m)[1] == s;
      }
    } else {
      assert rest[0] == sorted[1];
      if HasPrefix(s + ".", p + ".") {
        if p != s && s != rest[0] { LessTransitive(p, s, rest[0]); }
        k := ScanCoversFrom(rest, p, o);
      } else {
        k := ScanCoversFrom(rest, s, o);
        var m' := [s] + Scan(rest, s + ".");
        assert m == m';
        k := k + 1;
        assert ([p] + m)[1..] == m';
        assert forall j :: k < j < |[p] + m| ==> ([p] + m)[j] == m'[j - 1];
      }
    }
  }

  /** An entry at the head covered by the remembered one is followed only by larger kept entries. */
  lemma {:induction false} ScanAfter(sorted: seq<string>, p: string, o: string)
    requires SortedBy(Self, sorted) && sorted != [] && sorted[0] == o && AtMost(p, o) && Covers(p, o)
    ensures forall k :: 0 <= k < |Scan(sorted, p + ".")| ==> Less(o, Scan(sorted, p + ".")[k])
  {
    var rest := sorted[1..];
    if rest != [] {
      assert rest[0] == sorted[1];
      if rest[0] == o {
        ScanAfter(rest, p, o);
      } else {
        var m := Scan(rest, p + ".");
        if p != o { LessTransitive(p, o, rest[0]); }
        ScanIncreasing(rest, p);
        forall k | 0 <= k < |m|
          ensures Less(o, m[k])
        {
          assert m[k] in Elements(m);
          var i :| 0 <= i < |rest| && rest[i] == m[k];
          if i > 0 && rest[0] != rest[i] { LessTransitive(o, rest[0], rest[i]); }
        }
      }
    }
  }

  lemma ScanCovers(sorted: seq<string>, o: string) returns (k: int)
    requires SortedBy(Self, sorted) && o in sorted
    ensures LastKept(Scan(sorted, ""), k, o)
  {
    var s, rest := sorted[0], sorted[1..];
    ScanSorted(sorted);
    if o == s {
      k := 0;
    } else {
      assert rest[0] == sorted[1];
      k := ScanCoversFrom(rest, s, o);
    }
  }

  /** A kept entry is not covered by the one kept before it. */
  lemma {:induction false} ScanNeighbours(sorted: seq<string>, prevOid: string, k: nat)
    requires k + 1 < |Scan(sorted, prevOid)|
    ensures !Covers(Scan(sorted, prevOid)[k], Scan(sorted, prevOid)[k + 1])
  {
    var s, rest := sorted[0], sorted[1..];
    if !HasPrefix(s + ".", prevOid) || prevOid == "" {
      if k == 0 {
        ScanFirst(rest, s);
      } else {
        ScanNeighbours(rest, s + ".", k - 1);
      }
    } else {
      ScanNeighbours(rest, prevOid, k);
    }
  }

  lemma {:induction false} ScanFirst(sorted: seq<string>, p: string)
    requires Scan(sorted, p + ".") != []
    ensures !Covers(p, Scan(sorted, p + ".")[0])
  {
    if HasPrefix(sorted[0] + ".", p + ".") {
      ScanFirst(sorted[1..], p);
    }
  }

  // --- exactness ---

  lemma {:induction false} KeptIsUncovered(sorted: seq<string>, k: nat)
    requires SortedBy(Self, sorted) && !HasSeparated(Elements(sorted))
    requires k < |Scan(sorted, "")|
    ensures Uncovered(Scan(sorted, "")[k], Elements(sorted))
  {
    if k > 0 { KeptIsUncovered(sorted, k - 1); }
    if !Uncovered(Scan(sorted, "")[k], Elements(sorted)) {
      var p := CoveredIsSeparated(sorted, k);
      assert false;
    }
  }

  /** The first kept entry that is covered is separated from its cover by the one kept before it. */
  lemma CoveredIsSeparated(sorted: seq<string>, k: nat) returns (p: string)
    requires SortedBy(Self, sorted) && k < |Scan(sorted, "")|
    requires !Uncovered(Scan(sorted, "")[k], Elements(sorted))
    requires k > 0 ==> Uncovered(Scan(sorted, "")[k - 1], Elements(sorted))
    ensures k > 0 && Separated(Elements(sorted), p, Scan(sorted, "")[k - 1], Scan(sorted, "")[k])
  {
    var m, all := Scan(sorted, ""), Elements(sorted);
    ScanSorted(sorted);
    assert m[k] in Elements(m);
    p := RootCover(all, m[k]);
    ScanKeepsUncovered(sorted);
    assert p in Minimal(all);
    var j :| 0 <= j < |m| && m[j] == p;
    CoversPrefix(p, m[k]);
    if j > k { LessTotal(m[j], m[k]); }
    ScanNeighbours(sorted, "", k - 1);
    assert m[k - 1] in Elements(m);
  }

  /** A separated entry leaves a kept entry that another entry covers. */
  lemma SeparatedBreaks(sorted: seq<string>, p: string, q: string, r: string)
    requires SortedBy(Self, sorted) && Separated(Elements(sorted), p, q, r)
    ensures Elements(Scan(sorted, "")) != Minimal(Elements(sorted))
  {
    var m, all := Scan(sorted, ""), Elements(sorted);
    if Elements(m) == Minimal(all) {
      ScanSorted(sorted);
      var i := ScanCovers(sorted, q);
      var k := ScanCovers(sorted, r);
      assert m[i] in Elements(m) && m[k] in Elements(m);
      SeparatorRootAfter(all, p, q, r, m[i]);
      CoversComparable(p, m[k], r);
      assert m[k] == p;
      LessTotal(m[i], m[k]);
      assert i > k;
      LessTotal(q, r);
      if m[i] != q { LessTransitive(m[i], q, r); }
      LessTotal(m[i], r);
      assert false;
    }
  }

  lemma SeparatorRootAfter(all: set<string>, p: string, q: string, r: string, root: string)
    requires Separated(all, p, q, r) && Uncovered(root, all) && Covers(root, q)
    ensures Less(p, root)
  {
    LessTotal(p, root);
    if Less(root, p) {
      CoversPrefix(root, q);
      CoversPrefix(p, r);
      BetweenExtensions(root, p, q);
      LessTotal(p, q);
      LessTransitive(root, p, q);
      LessTotal(root, q);
      var x, y, z := p[|root|..], q[|root|..], r[|root|..];
      assert p == root + x && q == root + y && r == root + z;
      LessAfterCommon(root, x, y);
      LessAfterCommon(root, y, z);
      assert x[0] == p[|root|] == r[|root|] == z[0] && y[0] == '.';
      if x[0] == '.' { PrefixCovers(root, p); }
      assert false;
    }
  }

  lemma ScanExact(sorted: seq<string>)
    requires SortedBy(Self, sorted)
    ensures Elements(Scan(sorted, "")) == Minimal(Elements(sorted)) <==> !HasSeparated(Elements(sorted))
  {
    var m, all := Scan(sorted, ""), Elements(sorted);
    ScanKeepsUncovered(sorted);
    if HasSeparated(all) {
      var p, q, r :| Separated(all, p, q, r);
      SeparatedBreaks(sorted, p, q, r);
    } else {
      forall o | o in Elements(m)
        ensures o in Minimal(all)
      {
        var k :| 0 <= k < |m| && m[k] == o;
        KeptIsUncovered(sorted, k);
      }
    }
  }

  /** A sorted list without its repeats. */
  function WithoutRepeats(sorted: seq<string>): seq<string> {
    if sorted == [] then []
    else if |sorted| > 1 && sorted[0] == sorted[1] then WithoutRepeats(sorted[1..])
    else [sorted[0]] + WithoutRepeats(sorted[1..])
  }

  lemma {:induction false} RepeatsRemoved(sorted: seq<string>)
    requires SortedBy(Self, sorted)
    ensures StrictlySortedBy(Self, WithoutRepeats(sorted)) && Elements(WithoutRepeats(sorted)) == Elements(sorted)
  {
    if sorted != [] {
      var s, rest := sorted[0], sorted[1..];
      RepeatsRemoved(rest);
      assert sorted == [s] + rest;
      ElementsCons(s, rest);
      if |sorted| == 1 || s != sorted[1] {
        var m := WithoutRepeats(rest);
        ElementsCons(s, m);
        forall k | 0 <= k < |m|
          ensures Less(s, m[k])
        {
          assert m[k] in Elements(m);
          var j :| 0 <= j < |rest| && rest[j] == m[k];
          FirstIsSmaller(sorted, j + 1);
        }
      }
    }
  }

  lemma FirstIsSmaller(sorted: seq<string>, j: nat)
    requires SortedBy(Self, sorted) && 0 < j < |sorted| && sorted[0] != sorted[1]
    ensures Less(sorted[0], sorted[j])
  {
    assert AtMost(Self(sorted[0]), Self(sorted[1])) && (j > 1 ==> AtMost(Self(sorted[1]), Self(sorted[j])));
    if j > 1 && sorted[1] != sorted[j] { LessTransitive(sorted[0], sorted[1], sorted[j]); }
  }

  /** Repeats stand side by side, and the loop skips them. */
  lemma {:induction false} ScanSkipsRepeats(sorted: seq<string>, prevOid: string)
    ensures Scan(WithoutRepeats(sorted), prevOid) == Scan(sorted, prevOid)
  {
    if |sorted| > 1 && sorted[0] == sorted[1] {
      ScanSkipsRepeats(sorted[1..], prevOid);
      assert sorted[1..][0] == sorted[0];
    } else if sorted != [] {
      var m := WithoutRepeats(sorted);
      assert m[0] == sorted[0] && m[1..] == WithoutRepeats(sorted[1..]);
      ScanSkipsRepeats(sorted[1..], prevOid);
      ScanSkipsRepeats(sorted[1..], sorted[0] + ".");
    }
  }

  /** No entry is covered by the one before it. */
  ghost predicate NeighboursApart(m: seq<string>) {
    forall k {:trigger ApartAt(m, k)} :: 0 < k < |m| ==> ApartAt(m, k)
  }

  ghost predicate ApartAt(m: seq<string>, k: int)
    requires 0 < k < |m|
  {
    !Covers(m[k - 1], m[k])
  }

  lemma ApartRest(m: seq<string>)
    requires m != [] && NeighboursApart(m)
    ensures NeighboursApart(m[1..])
    ensures |m| > 1 ==> !HasPrefix(m[1..][0] + ".", m[0] + ".")
  {
    var rest := m[1..];
    forall k | 0 < k < |rest|
      ensures ApartAt(rest, k)
    {
      assert ApartAt(m, k + 1);
    }
    if |m| > 1 { assert ApartAt(m, 1); }
  }

  /** The loop keeps such a list as it is. */
  lemma {:induction false} ScanKeepsAll(m: seq<string>, prevOid: string)
    requires NeighboursApart(m)
    requires m != [] ==> !HasPrefix(m[0] + ".", prevOid) || prevOid == ""
    ensures Scan(m, prevOid) == m
  {
    if m != [] {
      var first, rest := m[0], m[1..];
      ApartRest(m);
      ScanKeepsAll(rest, first + ".");
      assert m == [first] + rest;
    }
  }

  /** The result depends on the entries only as a set, and minimising again changes nothing. */
  lemma MinimizedAsSet(a: seq<string>, b: seq<string>)
    requires Elements(a) == Elements(b)
    ensures Scan(SortBy(Self, a), "") == Scan(SortBy(Self, b), "")
    ensures Scan(SortBy(Self, Scan(SortBy(Self, a), "")), "") == Scan(SortBy(Self, a), "")
  {
    SameSetSameScan(a, b);
    var sorted := SortBy(Self, a);
    var m := Scan(sorted, "");
    ScanSorted(sorted);
    forall k | 0 < k < |m|
      ensures ApartAt(m, k)
    {
      ScanNeighbours(sorted, "", k - 1);
    }
    ScanKeepsAll(m, "");
    ScanAfterSort(m);
  }

  lemma SameSetSameScan(a: seq<string>, b: seq<string>)
    requires Elements(a) == Elements(b)
    ensures Scan(SortBy(Self, a), "") == Scan(SortBy(Self, b), "")
  {
    var sa, sb := SortBy(Self, a), SortBy(Self, b);
    SortElements(Self, a);
    SortElements(Self, b);
    RepeatsRemoved(sa);
    RepeatsRemoved(sb);
    StrictlySortedUnique(Self, WithoutRepeats(sa), WithoutRepeats(sb));
    ScanSkipsRepeats(sa, "");
    ScanSkipsRepeats(sb, "");
  }

  lemma ScanAfterSort(m: seq<string>)
    requires StrictlySortedBy(Self, m)
    ensures Scan(SortBy(Self, m), "") == Scan(m, "")
  {
    var sorted := SortBy(Self, m);
    SortElements(Self, m);
    RepeatsRemoved(sorted);
    StrictlySortedUnique(Self, WithoutRepeats(sorted), m);
    ScanSkipsRepeats(sorted, "");
  }

  lemma MinimalIdempotent(oids: set<string>)
    ensures Minimal(Minimal(oids)) == Minimal(oids)
    ensures !HasSeparated(Minimal(oids))
  {
    forall p, q, r | Separated(Minimal(oids), p, q, r)
      ensures false
    {
      LessTotal(p, q);
    }
  }

  /** Every entry has exactly one minimal entry covering it. */
  lemma CoveredOnce(oids: set<string>, o: string)
    requires o in oids
    ensures exists p :: p in Minimal(oids) && Covers(p, o)
    ensures forall p, q :: p in Minimal(oids) && q in Minimal(oids) && Covers(p, o) && Covers(q, o) ==> p == q
  {
    var p := RootCover(oids, o);
    assert p in Minimal(oids);
    forall p, q | p in Minimal(oids) && q in Minimal(oids) && Covers(p, o) && Covers(q, o)
      ensures p == q
    {
      CoversComparable(p, q, o);
    }
  }

  /** '-' sorts below '.', so it can part an OID from its descendant. */
  lemma LowCharacterCounterexample()
    ensures Separated({"1", "1-", "1.2"}, "1", "1-", "1.2")
  {
    assert "1.2" + "." == "1." + "2." && "1" + "." == "1.";
    assert !("1." <= "1-.") by { assert "1-."[1] == '-'; }
    assert Less("1", "1-");
    assert Less("1-"[1..], "1.2"[1..]);
    assert !Covers("1-", "1") && !Covers("1.2", "1");
  }
}
