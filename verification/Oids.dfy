/** Dotted-decimal OIDs, as the tree builder prints them and as sequences of arcs. */
module Oids {
  import opened Minimize

  type Arcs = seq<nat>

  /** The largest value strconv.Atoi can return. */
  const MAX_INT := 0x7fff_ffff_ffff_ffff

  predicate IsDigit(c: char) {
    '0' <= c <= '9'
  }

  predicate AllDigits(s: string) {
    s != [] && forall i :: 0 <= i < |s| ==> IsDigit(s[i])
  }

  function Digit(d: nat): char
    requires d < 10
  {
    ('0' as int + d) as char
  }

  function DigitValue(c: char): nat
    requires IsDigit(c)
  {
    c as int - '0' as int
  }

  /** fmt's %d on an unsigned value. */
  function Decimal(n: nat): (s: string)
    ensures AllDigits(s)
  {
    if n < 10 then [Digit(n)] else Decimal(n / 10) + [Digit(n % 10)]
  }

  /** strconv.Itoa. */
  function Itoa(i: int): string {
    if i < 0 then "-" + Decimal(-i) else Decimal(i)
  }

  function DigitsValue(s: string): nat
    requires forall i :: 0 <= i < |s| ==> IsDigit(s[i])
  {
    if s == [] then 0
    else DigitsValue(s[..|s| - 1]) * 10 + DigitValue(s[|s| - 1])
  }

  /** strconv.Atoi on a run of digits: a value out of range comes back as the largest int. */
  function Atoi(s: string): nat
    requires AllDigits(s)
  {
    var v := DigitsValue(s);
    if v > MAX_INT then MAX_INT else v
  }

  lemma {:induction false} DecimalValue(n: nat)
    ensures DigitsValue(Decimal(n)) == n
  {
    if n >= 10 {
      DecimalValue(n / 10);
      assert Decimal(n)[..|Decimal(n)| - 1] == Decimal(n / 10);
    }
  }

  /** The digits of a value, without a zero in front. */
  predicate IsNumeral(s: string, n: nat) {
    AllDigits(s) && DigitsValue(s) == n && (|s| > 1 ==> s[0] != '0')
  }

  /** A number is printed as its one numeral. */
  lemma {:induction false} DecimalExactly(n: nat, s: string)
    ensures s == Decimal(n) <==> IsNumeral(s, n)
    decreases n, 1
  {
    DecimalValue(n);
    if n < 10 {
      if IsNumeral(s, n) { ShortNumeral(s, n); }
    } else {
      var front := Decimal(n / 10);
      DecimalExactly(n / 10, front);
      assert Decimal(n)[..|Decimal(n)| - 1] == front && n / 10 > 0;
      assert DigitsValue([]) == 0 && (|front| == 1 ==> front[..0] == [] && DigitsValue(front) == DigitValue(front[0]));
      if IsNumeral(s, n) { LongNumeral(s, n); }
    }
  }

  lemma ShortNumeral(s: string, n: nat)
    requires IsNumeral(s, n) && n < 10
    ensures s == [Digit(n)]
  {
    var front := s[..|s| - 1];
    if |s| > 1 {
      NumeralPositive(front);
      assert false;
    }
    assert DigitsValue(front) == 0;
  }

  lemma {:induction false} NumeralPositive(s: string)
    requires AllDigits(s) && s[0] != '0'
    ensures DigitsValue(s) > 0
  {
    if |s| > 1 { NumeralPositive(s[..|s| - 1]); }
  }

  lemma LongNumeral(s: string, n: nat)
    requires IsNumeral(s, n) && n >= 10
    ensures s == Decimal(n)
    decreases n, 0
  {
    var front, d := s[..|s| - 1], DigitValue(s[|s| - 1]);
    assert |s| == 1 ==> front == [];
    assert DigitsValue([]) == 0;
    assert n == DigitsValue(front) * 10 + d && n / 10 == DigitsValue(front) && n % 10 == d;
    if |front| > 1 { assert front[0] == s[0]; }
    DecimalExactly(n / 10, front);
    assert s == front + [s[|s| - 1]] && s[|s| - 1] == Digit(d);
  }

  lemma DecimalInjective(m: nat, n: nat)
    requires Decimal(m) == Decimal(n)
    ensures m == n
  {
    DecimalValue(m);
    DecimalValue(n);
  }

  /** The OID of a node: its parent's OID, a dot and its own sub-identifier. */
  function Render(arcs: Arcs): (s: string)
    requires arcs != []
    ensures s != [] && IsDigit(s[0]) && IsDigit(s[|s| - 1])
    ensures forall i :: 0 <= i < |s| ==> IsDigit(s[i]) || s[i] == '.'
  {
    var last := Decimal(arcs[|arcs| - 1]);
    if |arcs| == 1 then last else
      var s := Render(arcs[..|arcs| - 1]) + "." + last;
      assert s[|s| - 1] == last[|last| - 1];
      s
  }

  /** Arcs each preceded by a dot: what an OID adds below another. */
  function Suffix(arcs: Arcs): string {
    if arcs == [] then "" else "." + Decimal(arcs[0]) + Suffix(arcs[1..])
  }

  /** Arcs each followed by a dot. */
  function Terminated(arcs: Arcs): string {
    if arcs == [] then "" else Decimal(arcs[0]) + "." + Terminated(arcs[1..])
  }

  lemma {:induction false} SuffixConcat(a: Arcs, b: Arcs)
    ensures Suffix(a + b) == Suffix(a) + Suffix(b)
  {
    if a == [] {
      assert a + b == b;
    } else {
      assert (a + b)[1..] == a[1..] + b;
      SuffixConcat(a[1..], b);
    }
  }

  lemma {:induction false} RenderConcat(a: Arcs, b: Arcs)
    requires a != []
    ensures Render(a + b) == Render(a) + Suffix(b)
    decreases |b|
  {
    if b == [] {
      assert a + b == a;
    } else {
      var init, last := b[..|b| - 1], b[|b| - 1];
      assert b == init + [last] && a + b == (a + init) + [last];
      RenderConcat(a, init);
      RenderChild(a + init, last);
      SuffixConcat(init, [last]);
    }
  }

  lemma RenderChild(a: Arcs, x: nat)
    requires a != []
    ensures Render(a + [x]) == Render(a) + Suffix([x]) && Suffix([x]) == "." + Decimal(x)
  {
    assert (a + [x])[..|a|] == a;
    assert Suffix([x][1..]) == "";
  }

  lemma RenderZero(a: Arcs)
    requires a != []
    ensures Render(a + [0]) == Render(a) + ".0"
  {
    RenderChild(a, 0);
    assert Suffix([0]) == ".0";
  }

  lemma {:induction false} SuffixTerminated(arcs: Arcs)
    ensures Suffix(arcs) + "." == "." + Terminated(arcs)
  {
    if arcs != [] {
      SuffixTerminated(arcs[1..]);
      assert Suffix(arcs) + "." == "." + Decimal(arcs[0]) + (Suffix(arcs[1..]) + ".");
    }
  }

  lemma RenderTerminated(arcs: Arcs)
    requires arcs != []
    ensures Render(arcs) + "." == Terminated(arcs)
  {
    var first, rest := [arcs[0]], arcs[1..];
    assert arcs == first + rest;
    RenderConcat(first, rest);
    SuffixTerminated(rest);
    Reassociate(Render(first), Suffix(rest), Terminated(rest));
  }

  lemma Reassociate(a: string, b: string, c: string)
    requires b + "." == "." + c
    ensures (a + b) + "." == (a + ".") + c
  {
    assert (a + b) + "." == a + (b + ".");
  }

  lemma {:induction false} TerminatedConcat(a: Arcs, b: Arcs)
    ensures Terminated(a + b) == Terminated(a) + Terminated(b)
  {
    if a == [] {
      assert a + b == b;
    } else {
      assert (a + b)[1..] == a[1..] + b;
      TerminatedConcat(a[1..], b);
    }
  }

  /** The first dot-terminated group of digits of a string is unique. */
  lemma FirstGroup(d: string, e: string, x: string, y: string)
    requires AllDigits(d) && AllDigits(e)
    requires d + "." + x <= e + "." + y
    ensures d == e && x <= y
  {
    var l, r := d + "." + x, e + "." + y;
    assert l[|d|] == '.' && r[|e|] == '.' && forall i :: 0 <= i < |l| ==> l[i] == r[i];
    assert (forall i :: 0 <= i < |d| ==> l[i] == d[i]) && forall i :: 0 <= i < |e| ==> r[i] == e[i];
    if |d| < |e| { assert false; }
    if |e| < |d| { assert false; }
    assert d == l[..|d|] == r[..|d|] == e;
    assert x == l[|d| + 1..] && y == r[|d| + 1..];
  }

  lemma {:induction false} TerminatedPrefix(a: Arcs, b: Arcs)
    ensures Terminated(b) <= Terminated(a) <==> b <= a
  {
    if b <= a {
      assert a == b + a[|b|..];
      TerminatedConcat(b, a[|b|..]);
    }
    if Terminated(b) <= Terminated(a) && b != [] {
      assert |Terminated(b)| > 0;
      assert a != [];
      var x, y := Terminated(b[1..]), Terminated(a[1..]);
      FirstGroup(Decimal(b[0]), Decimal(a[0]), x, y);
      DecimalInjective(b[0], a[0]);
      TerminatedPrefix(a[1..], b[1..]);
      assert b == [b[0]] + b[1..] && a == [a[0]] + a[1..];
    }
  }

  /** The generator's string test is the prefix order on arcs. */
  lemma CoversIsArcPrefix(b: Arcs, a: Arcs)
    requires a != [] && b != []
    ensures Covers(Render(b), Render(a)) <==> b <= a
  {
    RenderTerminated(a);
    RenderTerminated(b);
    TerminatedPrefix(a, b);
  }

  lemma RenderInjective(a: Arcs, b: Arcs)
    requires a != [] && b != [] && Render(a) == Render(b)
    ensures a == b
  {
    CoversIsArcPrefix(a, b);
    CoversIsArcPrefix(b, a);
  }

  ghost predicate IsOid(s: string) {
    exists arcs: Arcs :: arcs != [] && Render(arcs) == s
  }

  ghost function ArcsOf(s: string): (arcs: Arcs)
    requires IsOid(s)
    ensures arcs != [] && Render(arcs) == s
  {
    var arcs: Arcs :| arcs != [] && Render(arcs) == s;
    arcs
  }

  // --- splitting at dots ---

  /** strings.Join(parts, "."). */
  function Join(parts: seq<string>): string {
    if parts == [] then ""
    else if |parts| == 1 then parts[0]
    else Join(parts[..|parts| - 1]) + "." + parts[|parts| - 1]
  }

  /** Length of the longest dot-free end of `s`. */
  function DotFreeEnd(s: string): (n: nat)
    ensures n <= |s|
    ensures forall i :: |s| - n <= i < |s| ==> s[i] != '.'
    ensures n < |s| ==> s[|s| - n - 1] == '.'
  {
    if s == [] || s[|s| - 1] == '.' then 0 else
      var n := DotFreeEnd(s[..|s| - 1]);
      n + 1
  }

  /** strings.Split(s, "."). */
  function Split(s: string): (parts: seq<string>)
    ensures parts != []
    decreases |s|
  {
    var n := DotFreeEnd(s);
    if n == |s| then [s] else Split(s[..|s| - n - 1]) + [s[|s| - n..]]
  }

  lemma DotFreeEndUnique(x: string, d: string)
    requires AllDigits(d)
    ensures DotFreeEnd(d) == |d|
    ensures DotFreeEnd(x + "." + d) == |d|
  {
    var s := x + "." + d;
    var n := DotFreeEnd(s);
    assert s[|x|] == '.' && forall i :: |x| < i < |s| ==> s[i] == d[i - |x| - 1];
  }

  function Decimals(arcs: Arcs): (parts: seq<string>)
    ensures |parts| == |arcs| && forall i :: 0 <= i < |arcs| ==> parts[i] == Decimal(arcs[i])
  {
    if arcs == [] then [] else Decimals(arcs[..|arcs| - 1]) + [Decimal(arcs[|arcs| - 1])]
  }

  lemma {:induction false} SplitRender(arcs: Arcs)
    requires arcs != []
    ensures Split(Render(arcs)) == Decimals(arcs)
  {
    var init, last := arcs[..|arcs| - 1], Decimal(arcs[|arcs| - 1]);
    if |arcs| == 1 {
      DotFreeEndUnique("", last);
      assert Decimals(init) == [];
    } else {
      SplitRender(init);
      SplitAtDot(Render(init), last);
    }
  }

  lemma SplitAtDot(x: string, d: string)
    requires AllDigits(d)
    ensures Split(x + "." + d) == Split(x) + [d]
  {
    var s := x + "." + d;
    DotFreeEndUnique(x, d);
    assert s[..|s| - |d| - 1] == x && s[|s| - |d|..] == d;
  }

  lemma {:induction false} JoinDecimals(arcs: Arcs, parts: seq<string>)
    requires arcs != [] && |parts| == |arcs| && forall i :: 0 <= i < |arcs| ==> parts[i] == Decimal(arcs[i])
    ensures Join(parts) == Render(arcs)
  {
    if |arcs| > 1 {
      JoinDecimals(arcs[..|arcs| - 1], parts[..|parts| - 1]);
    }
  }

  /** An OID with its last arc replaced by `last`, through Split and Join. */
  function WithLast(oid: string, last: string): string {
    var parts := Split(oid);
    Join(parts[|parts| - 1 := last])
  }

  lemma WithLastRender(arcs: Arcs, last: string)
    requires arcs != []
    ensures WithLast(Render(arcs), last) ==
      if |arcs| == 1 then last else Render(arcs[..|arcs| - 1]) + "." + last
  {
    SplitRender(arcs);
    var parts := Split(Render(arcs))[|arcs| - 1 := last];
    if |arcs| > 1 {
      JoinDecimals(arcs[..|arcs| - 1], parts[..|parts| - 1]);
    }
  }

  // --- string prefixes without the dot ---

  /** `b` agrees with `p` but for the last arc of `p`, whose digits begin those of the arc in its place. */
  predicate DigitPrefix(p: Arcs, b: Arcs)
    requires p != []
  {
    var k := |p| - 1;
    |p| <= |b| && p[..k] == b[..k] && Decimal(p[k]) <= Decimal(b[k])
  }

  lemma RenderLast(a: Arcs)
    requires a != []
    ensures Render(a) == Terminated(a[..|a| - 1]) + Decimal(a[|a| - 1])
  {
    if |a| > 1 { RenderTerminated(a[..|a| - 1]); }
  }

  lemma DigitsWithin(d: string, e: string, x: string)
    requires AllDigits(d) && AllDigits(e)
    ensures d <= e + "." + x <==> d <= e
  {
    var s := e + "." + x;
    assert s[|e|] == '.' && forall i :: 0 <= i < |e| ==> s[i] == e[i];
    assert d <= s ==> forall i :: 0 <= i < |d| ==> d[i] == s[i];
  }

  lemma {:induction false} DigitsAfter(a: Arcs, d: string, b: Arcs)
    requires AllDigits(d)
    ensures Terminated(a) + d <= Terminated(b) <==> |a| < |b| && a == b[..|a|] && d <= Decimal(b[|a|])
  {
    var front, all := Terminated(a), Terminated(b);
    if front + d <= all || a <= b {
      assert front + d <= all ==> front == (front + d)[..|front|] == all[..|front|];
      TerminatedPrefix(b, a);
      var c := b[|a|..];
      assert b == a + c;
      TerminatedConcat(a, c);
      assert front + d <= all <==> d <= Terminated(c);
      if c != [] { DigitsWithin(d, Decimal(c[0]), Terminated(c[1..])); }
    }
  }

  /** When one printed OID begins with another as a string. */
  lemma RenderPrefix(p: Arcs, b: Arcs)
    requires p != [] && b != []
    ensures Render(p) <= Render(b) <==> DigitPrefix(p, b)
  {
    RenderLast(p);
    RenderTerminated(b);
    DigitsAfter(p[..|p| - 1], Decimal(p[|p| - 1]), b);
    var r, s := Render(p), Render(b);
    if r <= s + "." {
      assert forall i :: 0 <= i < |r| ==> r[i] == (s + ".")[i];
      assert r == (s + ".")[..|r|] == s[..|r|];
    }
  }
}
