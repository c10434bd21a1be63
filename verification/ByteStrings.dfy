/** Go strings as the generator uses them: prefix tests, byte order and a sort by a string key.
    Comparing UTF-8 bytes and comparing code points give the same order, so `char` stands for a byte. */
module ByteStrings {

  predicate HasPrefix(s: string, prefix: string) {
    prefix <= s
  }

  predicate HasSuffix(s: string, suffix: string) {
    |suffix| <= |s| && s[|s| - |suffix|..] == suffix
  }

  function TrimSuffix(s: string, suffix: string): string {
    if HasSuffix(s, suffix) then s[..|s| - |suffix|] else s
  }

  /** Go's `<` on strings. */
  predicate Less(a: string, b: string) {
    if b == [] then false
    else if a == [] then true
    else if a[0] != b[0] then a[0] < b[0]
    else Less(a[1..], b[1..])
  }

  predicate AtMost(a: string, b: string) {
    a == b || Less(a, b)
  }

  function Elements<T>(s: seq<T>): set<T> {
    set x | x in s
  }

  lemma ElementsCons<T>(x: T, s: seq<T>)
    ensures Elements([x] + s) == {x} + Elements(s)
  {}

  lemma ElementsAppend<T>(s: seq<T>, x: T)
    ensures Elements(s + [x]) == Elements(s) + {x}
  {}

  lemma {:induction false} LessTotal(a: string, b: string)
    ensures Less(a, b) || a == b || Less(b, a)
    ensures !(Less(a, b) && Less(b, a))
    ensures !Less(a, a)
  {
    if a != [] && b != [] {
      LessTotal(a[1..], b[1..]);
      if a[0] == b[0] && a[1..] == b[1..] {
        assert a == [a[0]] + a[1..] && b == [b[0]] + b[1..];
      }
    }
    if a != [] { LessTotal(a[1..], a[1..]); }
  }

  lemma {:induction false} LessTransitive(a: string, b: string, c: string)
    requires Less(a, b) && Less(b, c)
    ensures Less(a, c)
  {
    if a != [] && a[0] == b[0] == c[0] {
      LessTransitive(a[1..], b[1..], c[1..]);
    }
  }

  /** Decides the order of two strings at the first place where they differ. */
  lemma {:induction false} LessAfterCommon(p: string, x: string, y: string)
    ensures Less(p + x, p + y) == Less(x, y)
  {
    if p == [] {
      assert p + x == x && p + y == y;
    } else {
      assert (p + x)[1..] == p[1..] + x && (p + y)[1..] == p[1..] + y;
      LessAfterCommon(p[1..], x, y);
    }
  }

  lemma PrefixAtMost(p: string, s: string)
    requires p <= s
    ensures AtMost(p, s)
  {
    var x := s[|p|..];
    assert s == p + x && p == p + [];
    LessAfterCommon(p, [], x);
  }

  /** The strings that extend `p` form an interval of the order. */
  lemma {:induction false} BetweenExtensions(p: string, q: string, r: string)
    requires p <= r && AtMost(p, q) && AtMost(q, r)
    ensures p <= q
  {
    if p != [] && p != q && q != r {
      assert r[0] == p[0] == q[0];
      BetweenExtensions(p[1..], q[1..], r[1..]);
      assert q == [q[0]] + q[1..] && p == [p[0]] + p[1..];
    }
  }

  predicate SortedBy<T>(key: T -> string, s: seq<T>) {
    forall i, j :: 0 <= i < j < |s| ==> AtMost(key(s[i]), key(s[j]))
  }

  predicate StrictlySortedBy<T>(key: T -> string, s: seq<T>) {
    forall i, j :: 0 <= i < j < |s| ==> Less(key(s[i]), key(s[j]))
  }

  function InsertBy<T>(key: T -> string, x: T, s: seq<T>): seq<T> {
    if s == [] || !Less(key(s[0]), key(x)) then [x] + s
    else [s[0]] + InsertBy(key, x, s[1..])
  }

  lemma {:induction false} InsertByElements<T>(key: T -> string, x: T, s: seq<T>)
    ensures multiset(InsertBy(key, x, s)) == multiset(s) + multiset{x}
  {
    if !(s == [] || !Less(key(s[0]), key(x))) {
      InsertByElements(key, x, s[1..]);
      assert s == [s[0]] + s[1..];
    }
  }

  lemma {:induction false} InsertBySorted<T>(key: T -> string, x: T, s: seq<T>)
    requires SortedBy(key, s)
    ensures SortedBy(key, InsertBy(key, x, s))
  {
    if s == [] {
    } else if !Less(key(s[0]), key(x)) {
      InsertFirst(key, x, s);
    } else {
      var rest := InsertBy(key, x, s[1..]);
      InsertBySorted(key, x, s[1..]);
      InsertByElements(key, x, s[1..]);
      forall i | 0 <= i < |rest|
        ensures AtMost(key(s[0]), key(rest[i]))
      {
        assert rest[i] in multiset(rest);
      }
    }
  }

  lemma InsertFirst<T>(key: T -> string, x: T, s: seq<T>)
    requires SortedBy(key, s) && s != [] && !Less(key(s[0]), key(x))
    ensures SortedBy(key, [x] + s)
  {
    LessTotal(key(s[0]), key(x));
    forall j | 0 <= j < |s|
      ensures AtMost(key(x), key(s[j]))
    {
      if j > 0 && key(x) != key(s[0]) && key(s[0]) != key(s[j]) {
        LessTransitive(key(x), key(s[0]), key(s[j]));
      }
    }
  }

  /** The library sort (sort.Strings, sort.Slice on a string field). */
  function SortBy<T>(key: T -> string, s: seq<T>): (r: seq<T>)
    ensures multiset(r) == multiset(s)
    ensures SortedBy(key, r)
  {
    if s == [] then [] else
      var rest := SortBy(key, s[1..]);
      InsertByElements(key, s[0], rest);
      InsertBySorted(key, s[0], rest);
      assert s == [s[0]] + s[1..];
      InsertBy(key, s[0], rest)
  }

  lemma SortElements<T>(key: T -> string, s: seq<T>)
    ensures Elements(SortBy(key, s)) == Elements(s)
    ensures |SortBy(key, s)| == |s|
  {
    var r := SortBy(key, s);
    assert forall x :: x in r <==> x in multiset(r);
    assert forall x :: x in s <==> x in multiset(s);
    assert |multiset(r)| == |multiset(s)|;
  }

  /** A strictly sorted sequence is determined by its set of elements. */
  lemma {:induction false} StrictlySortedUnique<T>(key: T -> string, a: seq<T>, b: seq<T>)
    requires StrictlySortedBy(key, a) && StrictlySortedBy(key, b)
    requires Elements(a) == Elements(b)
    ensures a == b
  {
    ElementsEmpty(a);
    ElementsEmpty(b);
    if a != [] {
      assert a[0] in Elements(b) && b[0] in Elements(a);
      if b[0] != a[0] {
        var i :| 0 <= i < |b| && b[i] == a[0];
        var j :| 0 <= j < |a| && a[j] == b[0];
        LessTotal(key(a[0]), key(b[0]));
        assert false;
      }
      assert Elements(a[1..]) == Elements(a) - {a[0]} by { TailElements(key, a); }
      assert Elements(b[1..]) == Elements(b) - {b[0]} by { TailElements(key, b); }
      StrictlySortedUnique(key, a[1..], b[1..]);
    }
  }

  lemma ElementsEmpty<T>(s: seq<T>)
    ensures Elements(s) == {} <==> s == []
  {
    if s != [] { assert s[0] in Elements(s); }
  }

  lemma TailElements<T>(key: T -> string, a: seq<T>)
    requires StrictlySortedBy(key, a) && a != []
    ensures Elements(a[1..]) == Elements(a) - {a[0]}
  {
    forall i | 0 < i < |a|
      ensures a[i] != a[0]
    {
      LessTotal(key(a[0]), key(a[0]));
    }
    assert a == [a[0]] + a[1..];
  }
}
