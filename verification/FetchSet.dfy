/** What the keys of needToWalk mean, and processFinalOIDs, which must keep that meaning. */
module FetchSet {
  import opened ByteStrings
  import opened Minimize
  import opened Oids

  predicate IsInstanceKey(key: string) {
    HasSuffix(key, ".")
  }

  /** A key is an OID (fetch the subtree) or an OID and a dot (fetch that one instance). */
  ghost predicate WellFormedKey(key: string) {
    IsOid(if IsInstanceKey(key) then TrimSuffix(key, ".") else key)
  }

  /** The instances a key stands for. */
  ghost predicate Denotes(key: string, x: Arcs) {
    x != [] && if IsInstanceKey(key) then key == Render(x) + "." else Covers(key, Render(x))
  }

  /** An instance is fetched by the request lists of the finished module. */
  ghost predicate Fetched(get: seq<string>, walk: seq<string>, x: Arcs) {
    x != [] && (Render(x) in get || exists w :: w in walk && Covers(w, Render(x)))
  }

  ghost predicate NoDuplicates<T>(s: seq<T>) {
    forall i, j :: 0 <= i < j < |s| ==> s[i] != s[j]
  }

  /** The request lists hold exactly the minimal keys, sorted out by their last character. */
  ghost predicate SplitsMinimal(keys: set<string>, get: seq<string>, walk: seq<string>) {
    (forall g {:trigger g in get} :: g in get <==> g + "." in Minimal(keys)) &&
    (forall w :: w in walk <==> w in Minimal(keys) && !IsInstanceKey(w)) &&
    NoDuplicates(get) && NoDuplicates(walk)
  }

  ghost predicate Listed(k: string, get: seq<string>, walk: seq<string>) {
    if IsInstanceKey(k) then TrimSuffix(k, ".") in get else k in walk
  }

  /** What the request lists are for any keys at all: sorted keys, among them every minimal one and one above each. */
  ghost predicate Splits(keys: set<string>, get: seq<string>, walk: seq<string>) {
    StrictlySortedBy(g => g + ".", get) && StrictlySortedBy(Self, walk) &&
    (forall g {:trigger g in get} :: g in get ==> g + "." in keys) &&
    (forall w :: w in walk ==> w in keys && !IsInstanceKey(w)) &&
    (forall k :: k in Minimal(keys) ==> Listed(k, get, walk)) &&
    (forall k {:trigger ListedAbove(k, keys, get, walk)} :: k in keys ==> ListedAbove(k, keys, get, walk))
  }

  ghost predicate ListedAbove(k: string, keys: set<string>, get: seq<string>, walk: seq<string>) {
    exists m :: m in keys && Covers(m, k) && Listed(m, get, walk)
  }

  method ProcessFinalOids(needToWalk: set<string>) returns (get: seq<string>, walk: seq<string>)
    ensures Splits(needToWalk, get, walk)
    ensures !HasSeparated(needToWalk) ==> SplitsMinimal(needToWalk, get, walk)
  {
    var oids := [];
    var rest := needToWalk;
    while rest != {}
      invariant rest <= needToWalk && Elements(oids) == needToWalk - rest
    {
      var k :| k in rest;
      ElementsAppend(oids, k);
      oids := oids + [k];
      rest := rest - {k};
    }
    assert Elements(oids) == needToWalk;
    var minimized := MinimizeOids(oids);
    get, walk := SplitByLastCharacter(minimized);
    SplitMinimized(oids, minimized);
  }

  method SplitByLastCharacter(minimized: seq<string>) returns (get: seq<string>, walk: seq<string>)
    ensures get == Gets(minimized) && walk == Walks(minimized)
  {
    get, walk := [], [];
    for i := 0 to |minimized|
      invariant get == Gets(minimized[..i]) && walk == Walks(minimized[..i])
    {
      var oid := minimized[i];
      assert minimized[..i + 1][..i] == minimized[..i];
      if HasSuffix(oid, ".") {
        get := get + [TrimSuffix(oid, ".")];
      } else {
        walk := walk + [oid];
      }
    }
    assert minimized[..|minimized|] == minimized;
  }

  lemma SplitMinimized(oids: seq<string>, minimized: seq<string>)
    requires Minimizes(oids, minimized)
    ensures Splits(Elements(oids), Gets(minimized), Walks(minimized))
    ensures !HasSeparated(Elements(oids)) ==> SplitsMinimal(Elements(oids), Gets(minimized), Walks(minimized))
  {
    var keys, get, walk := Elements(oids), Gets(minimized), Walks(minimized);
    SplitKeys(minimized);
    SplitSorted(minimized);
    assert forall k :: k in minimized <==> k in Elements(minimized);
    forall k | k in keys
      ensures ListedAbove(k, keys, get, walk)
    {
      assert HasCover(minimized, k);
      var m :| m in minimized && Covers(m, k);
      KeyListed(minimized, m);
    }
    forall k | k in Minimal(keys)
      ensures Listed(k, get, walk)
    {
      KeyListed(minimized, k);
    }
  }

  function Gets(keys: seq<string>): seq<string> {
    if keys == [] then [] else
      var k := keys[|keys| - 1];
      Gets(keys[..|keys| - 1]) + if HasSuffix(k, ".") then [TrimSuffix(k, ".")] else []
  }

  function Walks(keys: seq<string>): seq<string> {
    if keys == [] then [] else
      var k := keys[|keys| - 1];
      Walks(keys[..|keys| - 1]) + if HasSuffix(k, ".") then [] else [k]
  }

  lemma {:induction false} SplitKeys(keys: seq<string>)
    requires StrictlySortedBy(Self, keys)
    ensures forall g :: g in Gets(keys) <==> g + "." in keys
    ensures forall w :: w in Walks(keys) <==> w in keys && !IsInstanceKey(w)
    ensures NoDuplicates(Gets(keys)) && NoDuplicates(Walks(keys))
  {
    if keys != [] {
      var init, k := keys[..|keys| - 1], keys[|keys| - 1];
      SplitKeys(init);
      assert keys == init + [k];
      LessTotal(k, k);
      assert k !in init;
      DotInjective(k);
      assert IsInstanceKey(k) ==> TrimSuffix(k, ".") !in Gets(init);
      assert k !in Walks(init);
    }
  }

  lemma {:induction false} SplitSorted(keys: seq<string>)
    requires StrictlySortedBy(Self, keys)
    ensures StrictlySortedBy(g => g + ".", Gets(keys)) && StrictlySortedBy(Self, Walks(keys))
  {
    if keys != [] {
      var init, k := keys[..|keys| - 1], keys[|keys| - 1];
      SplitSorted(init);
      SplitKeys(init);
      DotInjective(k);
      forall o | o in init
        ensures Less(o, k)
      {
        var i :| 0 <= i < |init| && init[i] == o;
        assert Less(Self(keys[i]), Self(keys[|keys| - 1]));
      }
      assert forall g :: g in Gets(init) ==> g + "." in init;
      assert forall w :: w in Walks(init) ==> w in init;
    }
  }

  lemma KeyListed(keys: seq<string>, k: string)
    requires StrictlySortedBy(Self, keys) && k in keys
    ensures Listed(k, Gets(keys), Walks(keys))
  {
    SplitKeys(keys);
    DotInjective(k);
  }

  lemma DotInjective(oid: string)
    ensures forall g :: g + "." == oid <==> HasSuffix(oid, ".") && g == TrimSuffix(oid, ".")
  {
    forall g
      ensures g + "." == oid <==> HasSuffix(oid, ".") && g == TrimSuffix(oid, ".")
    {
      if g + "." == oid {
        assert oid[|oid| - 1..] == "." && oid[..|oid| - 1] == g;
      }
      if HasSuffix(oid, ".") {
        assert oid == oid[..|oid| - 1] + oid[|oid| - 1..];
      }
    }
  }

  // --- denotations on arcs ---

  lemma SubtreeKey(a: Arcs)
    requires a != []
    ensures WellFormedKey(Render(a)) && !IsInstanceKey(Render(a))
    ensures forall x: Arcs :: Denotes(Render(a), x) <==> x != [] && a <= x
  {
    var s := Render(a);
    assert s[|s| - 1..] != "." by { assert s[|s| - 1..][0] == s[|s| - 1]; }
    forall x: Arcs
      ensures Denotes(s, x) <==> x != [] && a <= x
    {
      if x != [] { CoversIsArcPrefix(a, x); }
    }
  }

  lemma InstanceKey(a: Arcs)
    requires a != []
    ensures WellFormedKey(Render(a) + ".") && IsInstanceKey(Render(a) + ".")
    ensures forall x: Arcs :: Denotes(Render(a) + ".", x) <==> x == a
  {
    var s := Render(a) + ".";
    assert s[|s| - 1..] == "." && s[..|s| - 1] == Render(a);
    forall x: Arcs
      ensures Denotes(s, x) <==> x == a
    {
      if x != [] && s == Render(x) + "." {
        assert Render(x) == (Render(x) + ".")[..|s| - 1];
        RenderInjective(a, x);
      }
    }
  }

  lemma KeyArcs(key: string) returns (a: Arcs)
    requires WellFormedKey(key)
    ensures a != [] && key == if IsInstanceKey(key) then Render(a) + "." else Render(a)
  {
    if IsInstanceKey(key) {
      a := ArcsOf(TrimSuffix(key, "."));
      assert key == key[..|key| - 1] + key[|key| - 1..];
    } else {
      a := ArcsOf(key);
    }
  }

  lemma WellFormedKeyLowChars(key: string)
    requires WellFormedKey(key)
    ensures NoLowChars(key)
  {
    var a := KeyArcs(key);
  }

  /** An instance key covers nothing but itself. */
  lemma InstanceCoversItself(m: string, k: string)
    requires WellFormedKey(m) && WellFormedKey(k) && IsInstanceKey(m) && Covers(m, k)
    ensures m == k
  {
    var a := KeyArcs(m);
    var b := KeyArcs(k);
    CoversPrefix(m, k);
    if m != k {
      assert m[|m| - 1] == '.' && k[|m| - 1] == m[|m| - 1] && k[|m|] == '.';
      if |m| < |Render(b)| {
        NoDoubleDot(b, |m| - 1);
      } else {
        assert false;
      }
    }
  }

  lemma {:induction false} NoDoubleDot(a: Arcs, i: int)
    requires a != [] && 0 <= i && i + 1 < |Render(a)|
    ensures !(Render(a)[i] == '.' && Render(a)[i + 1] == '.')
  {
    if |a| > 1 {
      var init := a[..|a| - 1];
      if i + 1 < |Render(init)| { NoDoubleDot(init, i); }
    }
  }

  /** Covering respects the meaning of keys. */
  lemma CoversDenotes(m: string, k: string, x: Arcs)
    requires WellFormedKey(m) && WellFormedKey(k) && Covers(m, k) && Denotes(k, x)
    ensures Denotes(m, x)
  {
    if IsInstanceKey(m) {
      InstanceCoversItself(m, k);
    } else {
      var a := KeyArcs(m);
      SubtreeKey(a);
      if IsInstanceKey(k) {
        SubtreeCoversInstance(a, x);
      } else {
        CoversTransitive(m, k, Render(x));
      }
    }
  }

  lemma SubtreeCoversInstance(a: Arcs, x: Arcs)
    requires a != [] && x != []
    ensures Covers(Render(a), Render(x) + ".") <==> Covers(Render(a), Render(x))
  {
    var r := Render(x);
    if Covers(Render(a), r + ".") {
      CoversPrefix(Render(a), r + ".");
      assert IsDigit(Render(a)[|Render(a)| - 1]) && (r + ".")[|r|] == '.';
      assert Render(a) == (r + ".")[..|Render(a)|] == r[..|Render(a)|];
      if |Render(a)| < |r| { assert (r + ".")[|Render(a)|] == r[|Render(a)|]; }
      PrefixCovers(Render(a), r);
    }
    if Covers(Render(a), r) {
      assert r + "." + "." == (r + ".") + ".";
    }
  }

  /** Keys that share an instance are comparable. */
  lemma SharedInstance(k: string, l: string, x: Arcs)
    requires WellFormedKey(k) && WellFormedKey(l) && Denotes(k, x) && Denotes(l, x)
    ensures Covers(k, l) || Covers(l, k)
  {
    var a := KeyArcs(k);
    var b := KeyArcs(l);
    if IsInstanceKey(k) && !IsInstanceKey(l) {
      SubtreeCoversInstance(b, x);
    } else if IsInstanceKey(l) && !IsInstanceKey(k) {
      SubtreeCoversInstance(a, x);
    } else if !IsInstanceKey(k) {
      CoversComparable(k, l, Render(x));
    }
  }

  /** Minimising the fetch set keeps its meaning: an instance denoted by some key is denoted by
      exactly one of the minimal ones, and by none if by none before. */
  lemma MinimalKeepsMeaning(keys: set<string>, x: Arcs)
    requires forall k :: k in keys ==> WellFormedKey(k)
    ensures (exists k :: k in keys && Denotes(k, x)) <==> (exists k :: k in Minimal(keys) && Denotes(k, x))
    ensures forall k, l :: k in Minimal(keys) && l in Minimal(keys) && Denotes(k, x) && Denotes(l, x) ==> k == l
  {
    if k :| k in keys && Denotes(k, x) {
      var m := RootCover(keys, k);
      CoversDenotes(m, k, x);
      assert m in Minimal(keys);
    }
    forall k, l | k in Minimal(keys) && l in Minimal(keys) && Denotes(k, x) && Denotes(l, x)
      ensures k == l
    {
      SharedInstance(k, l, x);
    }
  }

  /** The request lists fetch exactly the instances that the keys denote. */
  lemma FetchedIsDenoted(keys: set<string>, get: seq<string>, walk: seq<string>, x: Arcs)
    requires forall k :: k in keys ==> WellFormedKey(k)
    requires SplitsMinimal(keys, get, walk)
    ensures Fetched(get, walk, x) <==> exists k :: k in keys && Denotes(k, x)
  {
    MinimalKeepsMeaning(keys, x);
    if x != [] { InstanceKey(x); }
    if k :| k in Minimal(keys) && Denotes(k, x) {
      if IsInstanceKey(k) {
        assert Render(x) in get;
      } else {
        assert k in walk && Covers(k, Render(x));
      }
    }
    if Fetched(get, walk, x) {
      if Render(x) in get {
        assert Denotes(Render(x) + ".", x);
      } else {
        var w :| w in walk && Covers(w, Render(x));
        assert Denotes(w, x);
      }
    }
  }

  /** No instance is requested twice: two entries of the request lists never share one. */
  lemma RequestsDisjoint(keys: set<string>, get: seq<string>, walk: seq<string>, x: Arcs)
    requires forall k :: k in keys ==> WellFormedKey(k)
    requires SplitsMinimal(keys, get, walk) && x != []
    ensures Render(x) in get ==> forall w :: w in walk ==> !Covers(w, Render(x))
    ensures forall v, w :: v in walk && w in walk && Covers(v, Render(x)) && Covers(w, Render(x)) ==> v == w
    ensures forall g, w :: g in get && w in walk ==> !Covers(w, g)
    ensures forall v, w :: v in walk && w in walk && Covers(v, w) ==> v == w
  {
    MinimalKeepsMeaning(keys, x);
    InstanceKey(x);
    assert Render(x) in get ==> Denotes(Render(x) + ".", x);
    assert forall w :: w in walk && Covers(w, Render(x)) ==> Denotes(w, x);
    forall g, w | g in get && w in walk
      ensures !Covers(w, g)
    {
      if Covers(w, g) {
        var y := KeyArcs(g + ".");
        assert IsInstanceKey(g + ".") && g == TrimSuffix(g + ".", ".");
        assert g == (g + ".")[..|g|] == (Render(y) + ".")[..|g|] == Render(y);
        MinimalKeepsMeaning(keys, y);
        assert Denotes(g + ".", y) && Denotes(w, y);
        assert false;
      }
    }
  }

  /** A requested subtree stays inside one Walk. */
  lemma SubtreeWalked(keys: set<string>, get: seq<string>, walk: seq<string>, key: string)
    requires forall k :: k in keys ==> WellFormedKey(k)
    requires SplitsMinimal(keys, get, walk) && key in keys && !IsInstanceKey(key)
    ensures exists w :: w in walk && Covers(w, key)
  {
    var m := RootCover(keys, key);
    if IsInstanceKey(m) { InstanceCoversItself(m, key); }
    assert m in Minimal(keys);
  }
}
