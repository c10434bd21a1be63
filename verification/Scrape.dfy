/** The bpftrace scrape: a countdown frames the output stream into dumps; histograms are exported cumulatively. */
module Scrape {

  /** Decoded JSON, as far as the exporter looks at it. */
  datatype Json = Number(n: real) | Histogram(buckets: seq<Bucket>) | Object(fields: map<string, Json>) | Unusable

  datatype Bucket = Bucket(min: real, max: real, count: nat)

  /** A line of output: not JSON, a printf, variable data, variable data that cannot be decoded, or another type. */
  datatype Line = NotJson | Printf | Vars(data: map<string, Json>) | BadVars | OtherType

  datatype VarType = NumberVar | HistogramVar

  datatype VarDef = VarDef(varType: VarType, isMap: bool, counter: bool)

  datatype Sample =
    | Probes(probes: nat)
    | NumberSample(name: string, counter: bool, n: real, labels: seq<string>)
    | HistSample(name: string, count: nat, cumulative: map<real, nat>, labels: seq<string>)

  const TWO64: nat := 0x1_0000_0000_0000_0000

  // --- histograms ---

  /** uint64 addition of all counts. */
  function HistCount(h: seq<Bucket>): nat {
    if h == [] then 0 else (HistCount(h[..|h| - 1]) + h[|h| - 1].count) % TWO64
  }

  function HistBuckets(h: seq<Bucket>): map<real, nat> {
    if h == [] then map[] else HistBuckets(h[..|h| - 1])[h[|h| - 1].max := HistCount(h)]
  }

  method ExportHist(h: seq<Bucket>) returns (count: nat, buckets: map<real, nat>)
    ensures count == HistCount(h) && buckets == HistBuckets(h)
  {
    buckets := map[];
    count := 0;
    for i := 0 to |h|
      invariant count == HistCount(h[..i]) && buckets == HistBuckets(h[..i])
    {
      assert h[..i + 1][..i] == h[..i];
      var upperBound := h[i].max;
      count := (count + h[i].count) % TWO64;
      buckets := buckets[upperBound := count];
    }
    assert h[..|h|] == h;
  }

  /** The buckets come sorted by their upper bound. */
  ghost predicate SortedByMax(h: seq<Bucket>) {
    forall i, j :: 0 <= i < j < |h| ==> h[i].max <= h[j].max
  }

  /** The sum of the counts of all buckets with an upper bound of at most `b`. */
  function TotalUpTo(h: seq<Bucket>, b: real): nat {
    if h == [] then 0 else
      TotalUpTo(h[..|h| - 1], b) + if h[|h| - 1].max <= b then h[|h| - 1].count else 0
  }

  function Total(h: seq<Bucket>): nat {
    if h == [] then 0 else Total(h[..|h| - 1]) + h[|h| - 1].count
  }

  lemma {:induction false} TotalUpToTotal(h: seq<Bucket>, b: real)
    requires forall i :: 0 <= i < |h| ==> h[i].max <= b
    ensures TotalUpTo(h, b) == Total(h)
  {
    if h != [] { TotalUpToTotal(h[..|h| - 1], b); }
  }

  lemma {:induction false} CountIsTotal(h: seq<Bucket>)
    ensures HistCount(h) == Total(h) % TWO64
  {
    if h != [] {
      var init, c := h[..|h| - 1], h[|h| - 1].count;
      CountIsTotal(init);
      AddModulo(Total(init), c);
    }
  }

  lemma AddModulo(a: nat, c: nat)
    ensures (a % TWO64 + c) % TWO64 == (a + c) % TWO64
  {
    var q := a / TWO64;
    assert a + c == (a % TWO64 + c) + q * TWO64;
    ModuloMultiple(a % TWO64 + c, q);
  }

  lemma SmallModulo(x: nat)
    requires x < TWO64
    ensures x % TWO64 == x
  {}

  lemma {:induction false} ModuloMultiple(x: nat, q: nat)
    ensures (x + q * TWO64) % TWO64 == x % TWO64
  {
    if q > 0 {
      ModuloMultiple(x, q - 1);
      assert x + q * TWO64 == (x + (q - 1) * TWO64) + TWO64;
    }
  }

  /** Each exported bound maps to the counts of all buckets up to it, modulo 2^64. */
  lemma {:induction false} BucketsModulo(h: seq<Bucket>)
    requires SortedByMax(h)
    ensures HistBuckets(h).Keys == set b | b in h :: b.max
    ensures forall b :: b in HistBuckets(h) ==> HistBuckets(h)[b] == TotalUpTo(h, b) % TWO64
  {
    if h != [] {
      var init, last := h[..|h| - 1], h[|h| - 1];
      BucketsModulo(init);
      assert h == init + [last];
      TotalUpToTotal(h, last.max);
      CountIsTotal(h);
      forall b | b in HistBuckets(init) && b != last.max
        ensures TotalUpTo(h, b) == TotalUpTo(init, b)
      {
        var c :| c in init && c.max == b;
      }
    }
  }

  lemma {:induction false} TotalUpToMonotone(h: seq<Bucket>, b: real, c: real)
    requires b <= c
    ensures TotalUpTo(h, b) <= TotalUpTo(h, c) <= Total(h)
  {
    if h != [] { TotalUpToMonotone(h[..|h| - 1], b, c); }
  }

  /** For a sorted list whose total fits, the exported histogram is cumulative: exact at every bound, monotone, and
      its count is the value at the largest bound and the sum of all counts. */
  lemma HistogramIsCumulative(h: seq<Bucket>)
    requires SortedByMax(h) && Total(h) < TWO64
    ensures HistBuckets(h).Keys == set b | b in h :: b.max
    ensures forall b :: b in HistBuckets(h) ==> HistBuckets(h)[b] == TotalUpTo(h, b)
    ensures forall b, c :: b in HistBuckets(h) && c in HistBuckets(h) && b <= c ==>
      HistBuckets(h)[b] <= HistBuckets(h)[c]
    ensures HistCount(h) == Total(h)
    ensures h != [] ==> h[|h| - 1].max in HistBuckets(h) && HistBuckets(h)[h[|h| - 1].max] == HistCount(h)
  {
    BucketsModulo(h);
    CountIsTotal(h);
    SmallModulo(Total(h));
    forall b | b in HistBuckets(h)
      ensures HistBuckets(h)[b] == TotalUpTo(h, b)
    {
      TotalUpToMonotone(h, b, b);
      SmallModulo(TotalUpTo(h, b));
    }
    if h != [] {
      TotalUpToTotal(h, h[|h| - 1].max);
      assert h[|h| - 1] in h;
    }
    forall b, c | b in HistBuckets(h) && c in HistBuckets(h) && b <= c
      ensures HistBuckets(h)[b] <= HistBuckets(h)[c]
    {
      TotalUpToMonotone(h, b, c);
    }
  }

  // --- when the export is cumulative ---

  ghost predicate Cumulative(h: seq<Bucket>) {
    forall b :: b in HistBuckets(h) ==> HistBuckets(h)[b] == TotalUpTo(h, b)
  }

  /** No later bucket has the same bound, so this one decides what the bound maps to. */
  ghost predicate LastOf(h: seq<Bucket>, k: int)
    requires 0 <= k < |h|
  {
    forall i :: k < i < |h| ==> h[i].max != h[k].max
  }

  /** Of two buckets out of order the first is empty, and so is the second if the first decides its bound. */
  ghost predicate InversionsEmpty(h: seq<Bucket>) {
    forall i, j :: 0 <= i < j < |h| && h[i].max > h[j].max ==> h[i].count == 0 && (LastOf(h, i) ==> h[j].count == 0)
  }

  lemma {:induction false} BucketAtLast(h: seq<Bucket>, k: nat)
    requires k < |h| && Total(h) < TWO64 && LastOf(h, k)
    ensures h[k].max in HistBuckets(h) && HistBuckets(h)[h[k].max] == Total(h[..k + 1])
  {
    var init := h[..|h| - 1];
    if k == |h| - 1 {
      assert h[..k + 1] == h;
      CountIsTotal(h);
      SmallModulo(Total(h));
    } else {
      assert init[..k + 1] == h[..k + 1] && h[|h| - 1].max != h[k].max;
      BucketAtLast(init, k);
    }
  }

  lemma {:induction false} LastWithBound(h: seq<Bucket>, j: nat) returns (k: nat)
    requires j < |h|
    ensures j <= k < |h| && h[k].max == h[j].max && LastOf(h, k)
    decreases |h| - j
  {
    if i :| j < i < |h| && h[i].max == h[j].max {
      k := LastWithBound(h, i);
    } else {
      k := j;
    }
  }

  lemma {:induction false} BoundHasBucket(h: seq<Bucket>, b: real) returns (j: nat)
    requires b in HistBuckets(h)
    ensures j < |h| && h[j].max == b
  {
    if h[|h| - 1].max == b {
      j := |h| - 1;
    } else {
      j := BoundHasBucket(h[..|h| - 1], b);
    }
  }

  lemma {:induction false} TotalUpToSplit(h: seq<Bucket>, k: nat, b: real)
    requires k <= |h|
    ensures TotalUpTo(h, b) == TotalUpTo(h[..k], b) + TotalUpTo(h[k..], b)
  {
    if k == |h| {
      assert h[..k] == h;
    } else {
      var init := h[..|h| - 1];
      assert init[..k] == h[..k] && init[k..] == h[k..][..|h[k..]| - 1];
      TotalUpToSplit(init, k, b);
    }
  }

  /** Nothing counts towards a bound exactly if all buckets within it are empty. */
  lemma {:induction false} NothingWithin(h: seq<Bucket>, b: real)
    ensures TotalUpTo(h, b) == 0 <==> forall i :: 0 <= i < |h| && h[i].max <= b ==> h[i].count == 0
  {
    if h != [] { NothingWithin(h[..|h| - 1], b); }
  }

  /** Everything counts towards a bound exactly if all buckets above it are empty. */
  lemma {:induction false} NothingAbove(h: seq<Bucket>, b: real)
    ensures TotalUpTo(h, b) == Total(h) <==> forall i :: 0 <= i < |h| && h[i].max > b ==> h[i].count == 0
  {
    if h != [] {
      NothingAbove(h[..|h| - 1], b);
      TotalUpToMonotone(h[..|h| - 1], b, b);
    }
  }

  /** What a bound maps to is exact if what is counted too much before its last bucket makes up for what comes later. */
  lemma BoundExactly(h: seq<Bucket>, k: nat)
    requires k < |h| && Total(h) < TWO64 && LastOf(h, k)
    ensures h[k].max in HistBuckets(h)
    ensures HistBuckets(h)[h[k].max] == TotalUpTo(h, h[k].max) <==>
      Total(h[..k + 1]) == TotalUpTo(h[..k + 1], h[k].max) + TotalUpTo(h[k + 1..], h[k].max)
  {
    BucketAtLast(h, k);
    TotalUpToSplit(h, k + 1, h[k].max);
  }

  lemma BoundIsExact(h: seq<Bucket>, k: nat)
    requires k < |h| && Total(h) < TWO64 && LastOf(h, k) && InversionsEmpty(h)
    ensures h[k].max in HistBuckets(h) && HistBuckets(h)[h[k].max] == TotalUpTo(h, h[k].max)
  {
    BoundExactly(h, k);
    EmptyBeside(h, k, h[..k + 1], h[k + 1..]);
    NothingAbove(h[..k + 1], h[k].max);
    NothingWithin(h[k + 1..], h[k].max);
  }

  lemma EmptyBeside(h: seq<Bucket>, k: nat, front: seq<Bucket>, later: seq<Bucket>)
    requires k < |h| && LastOf(h, k) && InversionsEmpty(h) && front == h[..k + 1] && later == h[k + 1..]
    ensures forall i :: 0 <= i < |front| && front[i].max > h[k].max ==> front[i].count == 0
    ensures forall i :: 0 <= i < |later| && later[i].max <= h[k].max ==> later[i].count == 0
  {
    forall i | 0 <= i < |later| && later[i].max <= h[k].max
      ensures later[i].count == 0
    {
      assert later[i] == h[k + 1 + i] && h[k + 1 + i].max != h[k].max;
    }
  }

  /** In a cumulative export a bucket that stands before one with a lower bound is empty. */
  lemma {:induction false} FirstIsEmpty(h: seq<Bucket>, i: nat, j: nat)
    requires i < j < |h| && h[i].max > h[j].max && Total(h) < TWO64 && Cumulative(h)
    ensures h[i].count == 0
    decreases |h| - j
  {
    var b := h[j].max;
    var k := LastWithBound(h, j);
    BoundExactly(h, k);
    NothingAbove(h[..k + 1], b);
    NothingWithin(h[k + 1..], b);
    if h[i].count > 0 {
      assert h[..k + 1][i] == h[i];
      TotalUpToMonotone(h[..k + 1], b, b);
      var l :| 0 <= l < |h[k + 1..]| && h[k + 1..][l].max <= b && h[k + 1..][l].count != 0;
      assert h[k + 1 + l].max != b;
      FirstIsEmpty(h, i, k + 1 + l);
    }
  }

  lemma SecondIsEmpty(h: seq<Bucket>, i: nat, j: nat)
    requires i < j < |h| && h[i].max > h[j].max && Total(h) < TWO64 && Cumulative(h) && LastOf(h, i)
    ensures h[j].count == 0
  {
    var b, front, later := h[i].max, h[..i + 1], h[i + 1..];
    BoundExactly(h, i);
    forall k | 0 <= k < |front| && front[k].max > b
      ensures front[k].count == 0
    {
      FirstIsEmpty(h, k, i);
    }
    NothingAbove(front, b);
    NothingWithin(later, b);
    assert later[j - i - 1] == h[j];
  }

  /** If the total fits, the export is cumulative at every bound exactly if buckets out of order are empty. */
  lemma CumulativeExactly(h: seq<Bucket>)
    requires Total(h) < TWO64
    ensures Cumulative(h) <==> InversionsEmpty(h)
  {
    if InversionsEmpty(h) {
      forall b | b in HistBuckets(h)
        ensures HistBuckets(h)[b] == TotalUpTo(h, b)
      {
        var j := BoundHasBucket(h, b);
        var k := LastWithBound(h, j);
        BoundIsExact(h, k);
      }
    }
    if Cumulative(h) {
      forall i, j | 0 <= i < j < |h| && h[i].max > h[j].max
        ensures h[i].count == 0 && (LastOf(h, i) ==> h[j].count == 0)
      {
        FirstIsEmpty(h, i, j);
        if LastOf(h, i) { SecondIsEmpty(h, i, j); }
      }
    }
  }

  /** Without empty buckets: exactly if the buckets are sorted. */
  lemma SortedExactly(h: seq<Bucket>)
    requires Total(h) < TWO64 && forall k :: 0 <= k < |h| ==> h[k].count > 0
    ensures Cumulative(h) <==> SortedByMax(h)
  {
    CumulativeExactly(h);
  }

  // --- samples ---

  /** exportScalarVar: one sample, or none if the value does not decode as the declared type. */
  function ScalarSamples(name: string, def: VarDef, val: Json, labels: seq<string>): set<Sample> {
    match def.varType
    case NumberVar => if val.Number? then {NumberSample(name, def.counter, val.n, labels)} else {}
    case HistogramVar => if val.Histogram? then {HistSample(name, HistCount(val.buckets), HistBuckets(val.buckets), labels)} else {}
  }

  /** exportVar: a scalar, or one sample for each key of a map. */
  function VarSamples(name: string, def: VarDef, val: Json): set<Sample> {
    if !def.isMap then ScalarSamples(name, def, val, [])
    else if val.Object? then set k, s | k in val.fields && s in ScalarSamples(name, def, val.fields[k], [k]) :: s
    else {}
  }

  method ExportScalarVar(name: string, def: VarDef, val: Json, labels: seq<string>) returns (ch: set<Sample>)
    ensures ch == ScalarSamples(name, def, val, labels)
  {
    ch := {};
    match def.varType {
      case NumberVar =>
        if val.Number? {
          ch := {NumberSample(name, def.counter, val.n, labels)};
        }
      case HistogramVar =>
        if val.Histogram? {
          var count, buckets := ExportHist(val.buckets);
          ch := {HistSample(name, count, buckets, labels)};
        }
    }
  }

  method ExportVar(name: string, def: VarDef, val: Json) returns (ch: set<Sample>)
    ensures ch == VarSamples(name, def, val)
  {
    if !def.isMap {
      ch := ExportScalarVar(name, def, val, []);
      return;
    }
    ch := {};
    if !val.Object? {
      return;
    }
    var rest := val.fields.Keys;
    while rest != {}
      invariant rest <= val.fields.Keys
      invariant ch == set k, s | k in val.fields && k !in rest && s in ScalarSamples(name, def, val.fields[k], [k]) :: s
    {
      var k :| k in rest;
      var one := ExportScalarVar(name, def, val.fields[k], [k]);
      ch := ch + one;
      rest := rest - {k};
    }
  }

  // --- the stream ---

  type Entry = (string, Json)

  /** Names carry a sigil in front; the declared ones are those whose rest is a declared variable. */
  function DeclaredNames(data: map<string, Json>, vars: map<string, VarDef>): set<string> {
    set name | name in data && name != "" && name[1..] in vars
  }

  function LineEntries(line: Line, vars: map<string, VarDef>): set<Entry> {
    if line.Vars? then set name | name in DeclaredNames(line.data, vars) :: (name, line.data[name]) else {}
  }

  /** The declared values in some lines, each as often as it appears. */
  function Entries(lines: seq<Line>, vars: map<string, VarDef>): multiset<Entry> {
    if lines == [] then multiset{} else multiset(LineEntries(lines[0], vars)) + Entries(lines[1..], vars)
  }

  predicate EndsScrape(line: Line) {
    line.NotJson? || line.BadVars?
  }

  /** Where a scrape that still waits for `rem` variables stops. */
  function Stop(lines: seq<Line>, vars: map<string, VarDef>, pos: nat, rem: int): (end: nat)
    requires pos <= |lines|
    ensures pos <= end <= |lines|
    decreases |lines| - pos
  {
    if rem <= 0 || pos == |lines| then pos
    else if EndsScrape(lines[pos]) then pos + 1
    else Stop(lines, vars, pos + 1, rem - |LineEntries(lines[pos], vars)|)
  }

  class Scanner {
    const lines: seq<Line>
    var pos: nat

    constructor (lines: seq<Line>)
      ensures this.lines == lines && pos == 0
    {
      this.lines := lines;
      pos := 0;
    }

    method Scan() returns (more: bool)
      requires pos <= |lines|
      modifies this
      ensures more == (old(pos) < |lines|) && pos == old(pos) + if more then 1 else 0
    {
      more := pos < |lines|;
      if more {
        pos := pos + 1;
      }
    }
  }

  /** Every variable name has a sigil: name[1:] fails on an empty one. */
  ghost predicate NamesHaveSigil(lines: seq<Line>) {
    forall i :: 0 <= i < |lines| && lines[i].Vars? ==> "" !in lines[i].data
  }

  function SamplesOf(handled: seq<Entry>, vars: map<string, VarDef>): set<Sample> {
    if handled == [] then {} else
      var e := handled[|handled| - 1];
      SamplesOf(handled[..|handled| - 1], vars) +
      if e.0 != "" && e.0[1..] in vars then VarSamples(e.0[1..], vars[e.0[1..]], e.1) else {}
  }

  // --- what a scrape sends, over the lines it has read ---

  /** Some of the lines has a value of the variable: its name has one character in front. */
  ghost predicate Reads(lines: seq<Line>, v: string, val: Json) {
    exists i, key :: 0 <= i < |lines| && ReadsAt(lines[i], key, v, val)
  }

  ghost predicate ReadsAt(line: Line, key: string, v: string, val: Json) {
    line.Vars? && key in line.data && key != "" && key[1..] == v && line.data[key] == val
  }

  /** A scalar's value stands for itself, without labels; that of a map has one for each key, which is the label. */
  ghost predicate Holds(isMap: bool, val: Json, one: Json, labels: seq<string>) {
    if isMap then val.Object? && |labels| == 1 && labels[0] in val.fields && val.fields[labels[0]] == one
    else labels == [] && val == one
  }

  /** A histogram as it is sent: its total, and at every bound the total up to the last bucket with that bound. */
  ghost predicate HistSent(h: seq<Bucket>, count: nat, cumulative: map<real, nat>) {
    count == Total(h) % TWO64 &&
    (forall b :: b in cumulative ==> exists k :: 0 <= k < |h| && h[k].max == b && LastOf(h, k)) &&
    forall k :: 0 <= k < |h| && LastOf(h, k) ==>
      h[k].max in cumulative && cumulative[h[k].max] == Total(h[..k + 1]) % TWO64
  }

  /** The samples of a scrape: the number of probes, and for each value read of a declared variable what its declaration
      makes of it. */
  ghost predicate SentFor(lines: seq<Line>, vars: map<string, VarDef>, probes: nat, s: Sample) {
    match s
    case Probes(n) => n == probes
    case NumberSample(v, counter, n, labels) =>
      v in vars && vars[v].varType == NumberVar && counter == vars[v].counter &&
      exists val :: Reads(lines, v, val) && Holds(vars[v].isMap, val, Number(n), labels)
    case HistSample(v, count, cumulative, labels) =>
      v in vars && vars[v].varType == HistogramVar &&
      exists val, h :: Reads(lines, v, val) && Holds(vars[v].isMap, val, Histogram(h), labels) && HistSent(h, count, cumulative)
  }

  lemma {:induction false} BucketModulo(h: seq<Bucket>, k: nat)
    requires k < |h| && LastOf(h, k)
    ensures h[k].max in HistBuckets(h) && HistBuckets(h)[h[k].max] == Total(h[..k + 1]) % TWO64
  {
    var n := |h| - 1;
    if k == n {
      assert h[..n + 1] == h;
      CountIsTotal(h);
    } else {
      var front := h[..n];
      assert front[..k + 1] == h[..k + 1] && front[k] == h[k];
      assert forall i :: k < i < n ==> front[i] == h[i];
      BucketModulo(front, k);
    }
  }

  lemma HistExactly(h: seq<Bucket>, count: nat, cumulative: map<real, nat>)
    ensures HistSent(h, count, cumulative) <==> count == HistCount(h) && cumulative == HistBuckets(h)
  {
    CountIsTotal(h);
    forall k | 0 <= k < |h| && LastOf(h, k)
      ensures h[k].max in HistBuckets(h) && HistBuckets(h)[h[k].max] == Total(h[..k + 1]) % TWO64
    {
      BucketModulo(h, k);
    }
    forall b | b in HistBuckets(h)
      ensures exists k :: 0 <= k < |h| && h[k].max == b && LastOf(h, k)
    {
      var j := BoundHasBucket(h, b);
      var k := LastWithBound(h, j);
    }
    if HistSent(h, count, cumulative) {
      forall b
        ensures b in cumulative <==> b in HistBuckets(h)
        ensures b in cumulative ==> cumulative[b] == HistBuckets(h)[b]
      {
        if b in cumulative || b in HistBuckets(h) {
          var k :| 0 <= k < |h| && h[k].max == b && LastOf(h, k);
        }
      }
      assert cumulative == HistBuckets(h);
    }
  }

  /** What a sorted histogram sends if its total fits. */
  lemma SortedSent(h: seq<Bucket>, count: nat, cumulative: map<real, nat>)
    requires HistSent(h, count, cumulative) && SortedByMax(h) && Total(h) < TWO64
    ensures count == Total(h) && forall b :: b in cumulative ==> cumulative[b] == TotalUpTo(h, b)
    ensures forall k :: 0 <= k < |h| ==> h[k].max in cumulative
  {
    HistExactly(h, count, cumulative);
    HistogramIsCumulative(h);
  }

  lemma ScalarExactly(name: string, def: VarDef, val: Json, labels: seq<string>, s: Sample)
    ensures s in ScalarSamples(name, def, val, labels) <==>
      ((def.varType == NumberVar && val.Number? && s == NumberSample(name, def.counter, val.n, labels)) ||
       (def.varType == HistogramVar && val.Histogram? && s.HistSample? && s.name == name && s.labels == labels &&
        HistSent(val.buckets, s.count, s.cumulative)))
  {
    if val.Histogram? && s.HistSample? { HistExactly(val.buckets, s.count, s.cumulative); }
    if val.Histogram? { HistExactly(val.buckets, HistCount(val.buckets), HistBuckets(val.buckets)); }
  }

  /** What the value `val` of the variable `name` sends. */
  ghost predicate ValueSends(name: string, def: VarDef, val: Json, s: Sample) {
    (def.varType == NumberVar && s.NumberSample? && s.name == name && s.counter == def.counter &&
     Holds(def.isMap, val, Number(s.n), s.labels)) ||
    (def.varType == HistogramVar && s.HistSample? && s.name == name &&
     exists h :: Holds(def.isMap, val, Histogram(h), s.labels) && HistSent(h, s.count, s.cumulative))
  }

  lemma ValueExactly(name: string, def: VarDef, val: Json, s: Sample)
    ensures s in VarSamples(name, def, val) <==> ValueSends(name, def, val, s)
  {
    if !def.isMap {
      ScalarExactly(name, def, val, [], s);
      if val.Histogram? { assert Holds(false, val, Histogram(val.buckets), []); }
    } else if val.Object? {
      MapExactly(name, def, val, s);
    }
  }

  lemma MapExactly(name: string, def: VarDef, val: Json, s: Sample)
    requires def.isMap && val.Object?
    ensures s in VarSamples(name, def, val) <==> ValueSends(name, def, val, s)
  {
    forall k | k in val.fields
      ensures s in ScalarSamples(name, def, val.fields[k], [k]) <==>
        (ValueSends(name, def, val, s) && !s.Probes? && s.labels == [k])
    {
      ScalarExactly(name, def, val.fields[k], [k], s);
      if val.fields[k].Histogram? { assert Holds(true, val, Histogram(val.fields[k].buckets), [k]); }
    }
    if ValueSends(name, def, val, s) { assert s.labels == [s.labels[0]] && s.labels[0] in val.fields; }
  }

  lemma {:induction false} SamplesOfMember(handled: seq<Entry>, vars: map<string, VarDef>, s: Sample)
    ensures s in SamplesOf(handled, vars) <==>
      exists e :: e in handled && e.0 != "" && e.0[1..] in vars && s in VarSamples(e.0[1..], vars[e.0[1..]], e.1)
  {
    if handled != [] {
      var front, last := handled[..|handled| - 1], handled[|handled| - 1];
      SamplesOfMember(front, vars, s);
      assert handled == front + [last];
    }
  }

  lemma {:induction false} EntriesMember(lines: seq<Line>, vars: map<string, VarDef>, e: Entry)
    ensures e in Entries(lines, vars) <==> exists i :: 0 <= i < |lines| && e in LineEntries(lines[i], vars)
  {
    if lines != [] {
      var rest := lines[1..];
      EntriesMember(rest, vars, e);
      assert Entries(lines, vars) == multiset(LineEntries(lines[0], vars)) + Entries(rest, vars);
      if i :| 0 <= i < |rest| && e in LineEntries(rest[i], vars) { assert lines[i + 1] == rest[i]; }
      if i :| 0 <= i < |lines| && e in LineEntries(lines[i], vars) { assert i > 0 ==> rest[i - 1] == lines[i]; }
    }
  }

  lemma HandledReads(lines: seq<Line>, vars: map<string, VarDef>, handled: seq<Entry>, v: string, val: Json)
    requires multiset(handled) == Entries(lines, vars) && v in vars
    ensures (exists e :: e in handled && e.0 != "" && e.0[1..] == v && e.1 == val) <==> Reads(lines, v, val)
  {
    if e :| e in handled && e.0 != "" && e.0[1..] == v && e.1 == val {
      assert e in multiset(handled);
      EntriesMember(lines, vars, e);
      var i :| 0 <= i < |lines| && e in LineEntries(lines[i], vars);
      LineEntriesMember(lines[i].data, vars, e);
      assert ReadsAt(lines[i], e.0, v, val);
    }
    if i, key :| 0 <= i < |lines| && ReadsAt(lines[i], key, v, val) {
      var e := (key, val);
      LineEntriesMember(lines[i].data, vars, e);
      EntriesMember(lines, vars, e);
      assert e in multiset(handled);
    }
  }

  /** The samples of the handled values are those that the lines send. */
  lemma SamplesExactly(lines: seq<Line>, vars: map<string, VarDef>, probes: nat, handled: seq<Entry>, s: Sample)
    requires multiset(handled) == Entries(lines, vars)
    ensures s in {Probes(probes)} + SamplesOf(handled, vars) <==> SentFor(lines, vars, probes, s)
  {
    SamplesOfMember(handled, vars, s);
    if !s.Probes? && s.name in vars { ReadSends(lines, vars, handled, s); }
  }

  lemma ReadSends(lines: seq<Line>, vars: map<string, VarDef>, handled: seq<Entry>, s: Sample)
    requires multiset(handled) == Entries(lines, vars) && !s.Probes? && s.name in vars
    ensures (exists e :: e in handled && e.0 != "" && e.0[1..] in vars && s in VarSamples(e.0[1..], vars[e.0[1..]], e.1)) <==>
      exists val :: Reads(lines, s.name, val) && ValueSends(s.name, vars[s.name], val, s)
  {
    if e :| e in handled && e.0 != "" && e.0[1..] in vars && s in VarSamples(e.0[1..], vars[e.0[1..]], e.1) {
      ValueExactly(e.0[1..], vars[e.0[1..]], e.1, s);
      HandledReads(lines, vars, handled, s.name, e.1);
    }
    if val :| Reads(lines, s.name, val) && ValueSends(s.name, vars[s.name], val, s) {
      HandledReads(lines, vars, handled, s.name, val);
      ValueExactly(s.name, vars[s.name], val, s);
    }
  }

  // --- where a scrape stops, over the lines ---

  predicate Unreadable(line: Line) {
    line.NotJson? || line.BadVars?
  }

  /** The number of declared values in a line. */
  function Declared(line: Line, vars: map<string, VarDef>): nat {
    if line.Vars? then |set key | key in line.data && key != "" && key[1..] in vars| else 0
  }

  function DeclaredIn(lines: seq<Line>, vars: map<string, VarDef>): nat {
    if lines == [] then 0 else DeclaredIn(lines[..|lines| - 1], vars) + Declared(lines[|lines| - 1], vars)
  }

  /** A scrape that waits for `rem` values reads lines from `pos` to `end`: until they are there, or to a line that cannot
      be read, or to the end of the stream, and no further. */
  ghost predicate StopsAt(lines: seq<Line>, vars: map<string, VarDef>, pos: nat, rem: int, end: nat) {
    pos <= end <= |lines| &&
    (forall i :: pos <= i < end ==> DeclaredIn(lines[pos..i], vars) < rem) &&
    (forall i :: pos <= i < end - 1 ==> !Unreadable(lines[i])) &&
    (end == |lines| || DeclaredIn(lines[pos..end], vars) >= rem || (pos < end && Unreadable(lines[end - 1])))
  }

  lemma {:induction false} EntriesPerName(data: map<string, Json>, names: set<string>)
    requires forall name :: name in names ==> name in data
    ensures |(set name | name in names :: (name, data[name]))| == |names|
    decreases |names|
  {
    if names != {} {
      var name :| name in names;
      var rest := names - {name};
      EntriesPerName(data, rest);
      assert (set n | n in names :: (n, data[n])) == (set n | n in rest :: (n, data[n])) + {(name, data[name])};
    }
  }

  lemma DeclaredExactly(line: Line, vars: map<string, VarDef>)
    ensures |LineEntries(line, vars)| == Declared(line, vars)
  {
    if line.Vars? {
      EntriesPerName(line.data, DeclaredNames(line.data, vars));
      assert DeclaredNames(line.data, vars) == set key | key in line.data && key != "" && key[1..] in vars;
    }
  }

  lemma {:induction false} DeclaredCons(line: Line, lines: seq<Line>, vars: map<string, VarDef>)
    ensures DeclaredIn([line] + lines, vars) == Declared(line, vars) + DeclaredIn(lines, vars)
  {
    if lines == [] {
      assert [line] + lines == [line] && [line][..0] == [];
    } else {
      assert ([line] + lines)[..|lines|] == [line] + lines[..|lines| - 1];
      DeclaredCons(line, lines[..|lines| - 1], vars);
    }
  }

  lemma {:induction false} StopExactly(lines: seq<Line>, vars: map<string, VarDef>, pos: nat, rem: int)
    requires pos <= |lines|
    ensures StopsAt(lines, vars, pos, rem, Stop(lines, vars, pos, rem))
    decreases |lines| - pos
  {
    assert lines[pos..pos] == [];
    if rem > 0 && pos < |lines| {
      DeclaredExactly(lines[pos], vars);
      if Unreadable(lines[pos]) {
      } else {
        StopExactly(lines, vars, pos + 1, rem - Declared(lines[pos], vars));
        StopsLater(lines, vars, pos, rem, Stop(lines, vars, pos, rem));
      }
    }
  }

  lemma StopsLater(lines: seq<Line>, vars: map<string, VarDef>, pos: nat, rem: int, end: nat)
    requires pos < |lines| && rem > 0 && !Unreadable(lines[pos])
    requires StopsAt(lines, vars, pos + 1, rem - Declared(lines[pos], vars), end)
    ensures StopsAt(lines, vars, pos, rem, end)
  {
    forall i | pos < i <= end
      ensures DeclaredIn(lines[pos..i], vars) == Declared(lines[pos], vars) + DeclaredIn(lines[pos + 1..i], vars)
    {
      assert lines[pos..i] == [lines[pos]] + lines[pos + 1..i];
      DeclaredCons(lines[pos], lines[pos + 1..i], vars);
    }
    assert lines[pos..pos] == [];
  }

  class Exporter {
    const vars: map<string, VarDef>
    const scanner: Scanner
    const numProbes: nat

    constructor (vars: map<string, VarDef>, scanner: Scanner, numProbes: nat)
      ensures this.vars == vars && this.scanner == scanner && this.numProbes == numProbes
    {
      this.vars, this.scanner, this.numProbes := vars, scanner, numProbes;
    }

    /** One line of variable data; the map is visited in any order. */
    method ExportLine(data: map<string, Json>) returns (ch: set<Sample>, handled: seq<Entry>)
      requires "" !in data
      ensures multiset(handled) == multiset(LineEntries(Vars(data), vars)) &&
        |handled| == |LineEntries(Vars(data), vars)|
      ensures ch == SamplesOf(handled, vars)
    {
      ch, handled := {}, [];
      var rest := data.Keys;
      while rest != {}
        invariant rest <= data.Keys && ch == SamplesOf(handled, vars)
        invariant multiset(handled) == multiset(LineEntries(Vars(data - rest), vars))
      {
        var name :| name in rest;
        ghost var before := rest;
        rest := rest - {name};
        if name[1..] in vars {
          var one := ExportVar(name[1..], vars[name[1..]], data[name]);
          LineEntriesAdd(data, before, name, vars);
          assert (handled + [(name, data[name])])[..|handled|] == handled;
          ch := ch + one;
          handled := handled + [(name, data[name])];
        } else {
          LineEntriesSkip(data, before, name, vars);
        }
      }
      assert data - {} == data;
      assert |multiset(handled)| == |handled| && |multiset(LineEntries(Vars(data), vars))| == |LineEntries(Vars(data), vars)|;
    }

    /** The switch on the type of a line. */
    method HandleLine(line: Line) returns (ok: bool, ch: set<Sample>, handled: seq<Entry>)
      requires line.Vars? ==> "" !in line.data
      ensures ok <==> line.Printf? || line.OtherType? || line.Vars?
      ensures ok == !EndsScrape(line)
      ensures multiset(handled) == multiset(LineEntries(line, vars)) && |handled| == |LineEntries(line, vars)|
      ensures ch == SamplesOf(handled, vars)
    {
      ok, ch, handled := true, {}, [];
      match line {
        case NotJson =>
          ok := false;
        case BadVars =>
          ok := false;
        case Printf =>
        case OtherType =>
        case Vars(data) =>
          ch, handled := ExportLine(data);
      }
    }

    /** Whether `ch` is what the exporter sends when it handles `handled`. */
    ghost predicate Sent(ch: set<Sample>, handled: seq<Entry>) {
      ch == {Probes(numProbes)} + SamplesOf(handled, vars)
    }

    /** What a scrape has sent and handled when it has read the lines from `start` to `pos`. */
    ghost predicate Scraped(start: nat, pos: nat, ch: set<Sample>, handled: seq<Entry>) {
      start <= pos <= |scanner.lines| && multiset(handled) == Entries(scanner.lines[start..pos], vars) && Sent(ch, handled)
    }

    lemma NothingScraped(pos: nat)
      requires pos <= |scanner.lines|
      ensures Scraped(pos, pos, {Probes(numProbes)}, [])
    {
      assert scanner.lines[pos..pos] == [];
    }

    lemma LineTaken(start: nat, pos: nat, ch: set<Sample>, handled: seq<Entry>, one: set<Sample>, entries: seq<Entry>,
        pos': nat, ch': set<Sample>, handled': seq<Entry>)
      requires Scraped(start, pos, ch, handled) && pos < |scanner.lines| && pos' == pos + 1
      requires multiset(entries) == multiset(LineEntries(scanner.lines[pos], vars)) && one == SamplesOf(entries, vars)
      requires ch' == ch + one && handled' == handled + entries
      ensures Scraped(start, pos', ch', handled')
    {
      EntriesAppend(scanner.lines, start, pos, vars);
      SamplesConcat(handled, entries, vars);
    }

    /** Handles the next line of the stream, if there is one, after what was handled before. */
    method Next(ghost start: nat, remVars: int, before: seq<Entry>, sent: set<Sample>)
      returns (more: bool, remVars': int, ch: set<Sample>, handled: seq<Entry>)
      requires NamesHaveSigil(scanner.lines) && Scraped(start, scanner.pos, sent, before)
      modifies scanner
      ensures Scraped(start, scanner.pos, ch, handled)
      ensures old(scanner.pos) == |scanner.lines| ==> !more && scanner.pos == old(scanner.pos)
      ensures old(scanner.pos) < |scanner.lines| ==> scanner.pos == old(scanner.pos) + 1
      ensures old(scanner.pos) < |scanner.lines| ==> var line := scanner.lines[old(scanner.pos)];
        more == !EndsScrape(line) && remVars' == remVars - |LineEntries(line, vars)|
    {
      remVars', ch, handled := remVars, sent, before;
      ghost var pos := scanner.pos;
      more := scanner.Scan();
      if more {
        var line := scanner.lines[scanner.pos - 1];
        var ok, one, entries;
        ok, one, entries := HandleLine(line);
        ch := sent + one;
        handled := before + entries;
        LineTaken(start, pos, sent, before, one, entries, scanner.pos, ch, handled);
        remVars' := remVars - |entries|;
        more := ok;
      }
    }

    /** scrape: exports the process's next values until every declared variable has been counted down. */
    method Scrape() returns (ch: set<Sample>, handled: seq<Entry>)
      requires scanner.pos <= |scanner.lines| && NamesHaveSigil(scanner.lines)
      modifies scanner
      ensures scanner.pos == Stop(scanner.lines, vars, old(scanner.pos), |vars|)
      ensures StopsAt(scanner.lines, vars, old(scanner.pos), |vars|, scanner.pos)
      ensures Scraped(old(scanner.pos), scanner.pos, ch, handled)
      ensures forall s :: s in ch <==> SentFor(scanner.lines[old(scanner.pos)..scanner.pos], vars, numProbes, s)
    {
      StopExactly(scanner.lines, vars, scanner.pos, |vars|);
      ch, handled := {Probes(numProbes)}, [];
      var remVars: int := |vars|;
      ghost var start, goal := scanner.pos, Stop(scanner.lines, vars, scanner.pos, |vars|);
      NothingScraped(start);
      while remVars > 0
        invariant Scraped(start, scanner.pos, ch, handled) && Stop(scanner.lines, vars, scanner.pos, remVars) == goal
        decreases |scanner.lines| - scanner.pos
      {
        ghost var pos, waiting := scanner.pos, remVars;
        var more;
        more, remVars, ch, handled := Next(start, remVars, handled, ch);
        StopStep(scanner.lines, vars, pos, waiting, scanner.pos, remVars, more);
        if !more {
          break;
        }
      }
      ScrapedSends(start, scanner.pos, ch, handled);
    }

    lemma ScrapedSends(start: nat, pos: nat, ch: set<Sample>, handled: seq<Entry>)
      requires Scraped(start, pos, ch, handled)
      ensures forall s :: s in ch <==> SentFor(scanner.lines[start..pos], vars, numProbes, s)
    {
      forall s
        ensures s in ch <==> SentFor(scanner.lines[start..pos], vars, numProbes, s)
      {
        SamplesExactly(scanner.lines[start..pos], vars, numProbes, handled, s);
      }
    }
  }

  lemma StopStep(lines: seq<Line>, vars: map<string, VarDef>, pos: nat, rem: int, pos': nat, rem': int, more: bool)
    requires pos <= |lines| && rem > 0 && pos' == if pos == |lines| then pos else pos + 1
    requires pos == |lines| ==> !more
    requires pos < |lines| ==> more == !EndsScrape(lines[pos]) && rem' == rem - |LineEntries(lines[pos], vars)|
    ensures Stop(lines, vars, pos, rem) == if more then Stop(lines, vars, pos', rem') else pos'
  {}

  lemma LineEntriesAdd(data: map<string, Json>, rest: set<string>, name: string, vars: map<string, VarDef>)
    requires name in data && name in rest && name != "" && name[1..] in vars
    ensures multiset(LineEntries(Vars(data - (rest - {name})), vars)) ==
      multiset(LineEntries(Vars(data - rest), vars)) + multiset{(name, data[name])}
  {
    var before, after := LineEntries(Vars(data - rest), vars), LineEntries(Vars(data - (rest - {name})), vars);
    forall e: Entry
      ensures e in after <==> e in before || e == (name, data[name])
      ensures e == (name, data[name]) ==> e !in before
    {
      LineEntriesMember(data - rest, vars, e);
      LineEntriesMember(data - (rest - {name}), vars, e);
    }
    assert after == before + {(name, data[name])};
  }

  lemma LineEntriesMember(data: map<string, Json>, vars: map<string, VarDef>, e: Entry)
    ensures e in LineEntries(Vars(data), vars) <==>
      e.0 in data && e.0 != "" && e.0[1..] in vars && e.1 == data[e.0]
  {
    if e.0 in data && e.0 != "" && e.0[1..] in vars && e.1 == data[e.0] {
      assert e.0 in DeclaredNames(data, vars) && e == (e.0, data[e.0]);
    }
  }

  lemma LineEntriesSkip(data: map<string, Json>, rest: set<string>, name: string, vars: map<string, VarDef>)
    requires name in data && name in rest && name != "" && name[1..] !in vars
    ensures LineEntries(Vars(data - (rest - {name})), vars) == LineEntries(Vars(data - rest), vars)
  {
    forall e: Entry
      ensures e in LineEntries(Vars(data - (rest - {name})), vars) <==> e in LineEntries(Vars(data - rest), vars)
    {
      LineEntriesMember(data - rest, vars, e);
      LineEntriesMember(data - (rest - {name}), vars, e);
    }
  }

  lemma {:induction false} SamplesConcat(a: seq<Entry>, b: seq<Entry>, vars: map<string, VarDef>)
    ensures SamplesOf(a + b, vars) == SamplesOf(a, vars) + SamplesOf(b, vars)
  {
    if b == [] {
      assert a + b == a;
    } else {
      assert (a + b)[..|a + b| - 1] == a + b[..|b| - 1];
      SamplesConcat(a, b[..|b| - 1], vars);
    }
  }

  lemma {:induction false} EntriesConcat(a: seq<Line>, b: seq<Line>, vars: map<string, VarDef>)
    ensures Entries(a + b, vars) == Entries(a, vars) + Entries(b, vars)
  {
    if a == [] {
      assert a + b == b;
    } else {
      assert (a + b)[1..] == a[1..] + b;
      EntriesConcat(a[1..], b, vars);
    }
  }

  lemma EntriesAppend(lines: seq<Line>, start: nat, i: nat, vars: map<string, VarDef>)
    requires start <= i < |lines|
    ensures Entries(lines[start..i + 1], vars) == Entries(lines[start..i], vars) + multiset(LineEntries(lines[i], vars))
  {
    assert lines[start..i + 1] == lines[start..i] + [lines[i]] && [lines[i]][1..] == [];
    EntriesConcat(lines[start..i], [lines[i]], vars);
  }

  // --- framing ---

  ghost predicate Decodable(lines: seq<Line>) {
    forall i :: 0 <= i < |lines| ==> !EndsScrape(lines[i])
  }

  /** A block that lacks declared values makes the scrape run on into what follows it. */
  lemma {:induction false} ShortBlockRunsOn(lines: seq<Line>, vars: map<string, VarDef>, pos: nat, end: nat, rem: nat)
    requires pos <= end < |lines| && Decodable(lines[pos..end]) && |Entries(lines[pos..end], vars)| < rem
    ensures Stop(lines, vars, pos, rem) > end
    decreases end - pos
  {
    var block := lines[pos..end];
    if block != [] {
      assert block[0] == lines[pos] && block[1..] == lines[pos + 1..end];
      assert !EndsScrape(block[0]);
      assert |multiset(LineEntries(lines[pos], vars))| == |LineEntries(lines[pos], vars)|;
      ShortBlockRunsOn(lines, vars, pos + 1, end, rem - |LineEntries(lines[pos], vars)|);
    }
  }

  /** Reading the block up to its last line, and not before, ends a scrape that waits for `rem` variables. */
  ghost predicate Fills(block: seq<Line>, vars: map<string, VarDef>, rem: int) {
    if block == [] then rem <= 0 else
      var init, last := block[..|block| - 1], block[|block| - 1];
      Decodable(init) && |Entries(init, vars)| < rem && (EndsScrape(last) || |Entries(block, vars)| >= rem)
  }

  lemma EntriesCons(block: seq<Line>, vars: map<string, VarDef>)
    requires block != []
    ensures |Entries(block, vars)| == |LineEntries(block[0], vars)| + |Entries(block[1..], vars)|
  {
    assert |multiset(LineEntries(block[0], vars))| == |LineEntries(block[0], vars)|;
  }

  lemma FillsRest(block: seq<Line>, vars: map<string, VarDef>, rem: int)
    requires |block| > 1 && Fills(block, vars, rem)
    ensures rem > 0 && !EndsScrape(block[0]) && Fills(block[1..], vars, rem - |LineEntries(block[0], vars)|)
  {
    var init := block[..|block| - 1];
    assert init[0] == block[0] && block[1..][..|block| - 2] == init[1..];
    EntriesCons(block, vars);
    EntriesCons(init, vars);
    forall i | 0 <= i < |init[1..]|
      ensures !EndsScrape(init[1..][i])
    {
      assert init[1..][i] == init[i + 1];
    }
  }

  lemma {:induction false} StopAfter(lines: seq<Line>, vars: map<string, VarDef>, pos: nat, end: nat, rem: int)
    requires pos <= end <= |lines| && Fills(lines[pos..end], vars, rem)
    ensures Stop(lines, vars, pos, rem) == end
    decreases end - pos
  {
    var block := lines[pos..end];
    if |block| == 1 {
      assert block[..0] == [] && block[0] == lines[pos] && block[1..] == [];
      EntriesCons(block, vars);
    } else if |block| > 1 {
      FillsRest(block, vars, rem);
      assert block[0] == lines[pos] && block[1..] == lines[pos + 1..end];
      StopAfter(lines, vars, pos + 1, end, rem - |LineEntries(lines[pos], vars)|);
    }
  }

  /** Either some first lines end a scrape, or the whole is readable and has too few values. */
  lemma {:induction false} FillOrShort(d: seq<Line>, vars: map<string, VarDef>, rem: int) returns (k: nat)
    ensures k <= |d| ==> Fills(d[..k], vars, rem)
    ensures k > |d| ==> Decodable(d) && |Entries(d, vars)| < rem
  {
    if d == [] {
      k := if rem <= 0 then 0 else 1;
    } else {
      var init := d[..|d| - 1];
      k := FillOrShort(init, vars, rem);
      if k <= |init| {
        assert init[..k] == d[..k];
      } else if EndsScrape(d[|d| - 1]) || |Entries(d, vars)| >= rem {
        k := |d|;
        assert d[..k] == d;
      } else {
        k := |d| + 1;
        assert forall i :: 0 <= i < |init| ==> !EndsScrape(init[i]) && init[i] == d[i];
      }
    }
  }

  /** A scrape of the dump ends with its first `k` lines, and the others have no declared value. */
  ghost predicate FramedAt(d: seq<Line>, vars: map<string, VarDef>, k: int) {
    0 <= k <= |d| && Fills(d[..k], vars, |vars|) && Entries(d[k..], vars) == multiset{}
  }

  lemma OneMore(d: seq<Line>, vars: map<string, VarDef>) returns (line: Line)
    requires |vars| > 0
    ensures Entries(d + [line], vars) != Entries(d, vars)
  {
    var v :| v in vars;
    line := Vars(map["@" + v := Unusable]);
    assert ("@" + v)[1..] == v;
    assert ("@" + v, Unusable) in LineEntries(line, vars) by {
      LineEntriesMember(line.data, vars, ("@" + v, Unusable));
    }
    EntriesConcat(d, [line], vars);
    assert [line][1..] == [];
    assert |multiset(LineEntries(line, vars))| == |LineEntries(line, vars)|;
    assert |Entries(d + [line], vars)| > |Entries(d, vars)|;
  }

  /** Whatever lines follow a dump, a scrape that starts with it handles exactly the dump's declared values. */
  ghost predicate HandledExactly(d: seq<Line>, vars: map<string, VarDef>) {
    forall rest :: Entries((d + rest)[..Stop(d + rest, vars, 0, |vars|)], vars) == Entries(d, vars)
  }

  /** Exactly the framed dumps are handled exactly. */
  lemma FramedExactly(d: seq<Line>, vars: map<string, VarDef>)
    ensures (exists k :: FramedAt(d, vars, k)) <==> HandledExactly(d, vars)
  {
    if k :| FramedAt(d, vars, k) {
      forall rest
        ensures Entries((d + rest)[..Stop(d + rest, vars, 0, |vars|)], vars) == Entries(d, vars)
      {
        FramedHandled(d, vars, k, rest);
      }
    }
    if HandledExactly(d, vars) {
      var k := HandledFramed(d, vars);
    }
  }

  lemma HandledFramed(d: seq<Line>, vars: map<string, VarDef>) returns (k: nat)
    requires HandledExactly(d, vars)
    ensures FramedAt(d, vars, k)
  {
    k := FillOrShort(d, vars, |vars|);
    if k <= |d| {
      FilledHandled(d, vars, k, []);
      assert d + [] == d == d[..k] + d[k..];
      EntriesConcat(d[..k], d[k..], vars);
    } else {
      var line := OneMore(d, vars);
      ShortHandled(d, vars, line);
      assert false;
    }
  }

  lemma FilledHandled(d: seq<Line>, vars: map<string, VarDef>, k: nat, rest: seq<Line>)
    requires k <= |d| && Fills(d[..k], vars, |vars|)
    ensures Stop(d + rest, vars, 0, |vars|) == k && (d + rest)[..k] == d[..k]
  {
    assert (d + rest)[0..k] == d[..k];
    StopAfter(d + rest, vars, 0, k, |vars|);
  }

  lemma FramedHandled(d: seq<Line>, vars: map<string, VarDef>, k: nat, rest: seq<Line>)
    requires FramedAt(d, vars, k)
    ensures Entries((d + rest)[..Stop(d + rest, vars, 0, |vars|)], vars) == Entries(d, vars)
  {
    FilledHandled(d, vars, k, rest);
    assert d[..k] + d[k..] == d;
    EntriesConcat(d[..k], d[k..], vars);
  }

  lemma ShortHandled(d: seq<Line>, vars: map<string, VarDef>, line: Line)
    requires Decodable(d) && |Entries(d, vars)| < |vars|
    ensures (d + [line])[..Stop(d + [line], vars, 0, |vars|)] == d + [line]
  {
    assert (d + [line])[0..|d|] == d;
    ShortBlockRunsOn(d + [line], vars, 0, |d|, |vars|);
  }

  function Stream(dumps: seq<seq<Line>>): seq<Line> {
    if dumps == [] then [] else Stream(dumps[..|dumps| - 1]) + dumps[|dumps| - 1]
  }

  /** The scanner's place after `k` scrapes. */
  function After(lines: seq<Line>, vars: map<string, VarDef>, k: nat): (pos: nat)
    ensures pos <= |lines|
  {
    if k == 0 then 0 else Stop(lines, vars, After(lines, vars, k - 1), |vars|)
  }

  /** Lines that can all be read and have no declared value. */
  ghost predicate Silent(lines: seq<Line>, vars: map<string, VarDef>) {
    forall i :: 0 <= i < |lines| ==> !EndsScrape(lines[i]) && LineEntries(lines[i], vars) == {}
  }

  lemma EmptyMultiset<T>(s: set<T>)
    ensures multiset(s) == multiset{} <==> s == {}
  {
    if x :| x in s { assert x in multiset(s); }
  }

  lemma {:induction false} SilentExactly(lines: seq<Line>, vars: map<string, VarDef>)
    ensures Silent(lines, vars) <==> Decodable(lines) && Entries(lines, vars) == multiset{}
  {
    if lines != [] {
      var rest := lines[1..];
      SilentExactly(rest, vars);
      assert Entries(lines, vars) == multiset(LineEntries(lines[0], vars)) + Entries(rest, vars);
      EmptyMultiset(LineEntries(lines[0], vars));
      assert forall i :: 0 < i < |lines| ==> lines[i] == rest[i - 1];
    }
  }

  /** A framed dump of which the lines left for the next scrape can be read. */
  ghost predicate Framed(dump: seq<Line>, vars: map<string, VarDef>) {
    exists k :: FramedAt(dump, vars, k) && Silent(dump[k..], vars)
  }

  /** A dump holds as many declared values as there are declared variables, among any other lines. */
  ghost predicate Complete(dump: seq<Line>, vars: map<string, VarDef>) {
    Decodable(dump) && |Entries(dump, vars)| == |vars|
  }

  lemma CompleteIsFramed(dump: seq<Line>, vars: map<string, VarDef>)
    requires Complete(dump, vars)
    ensures Framed(dump, vars)
  {
    var k := FillOrShort(dump, vars, |vars|);
    assert dump[..k] + dump[k..] == dump;
    EntriesConcat(dump[..k], dump[k..], vars);
    assert forall i :: 0 <= i < |dump[k..]| ==> dump[k..][i] == dump[k + i];
    FillsEnough(dump, vars, k);
    SilentExactly(dump[k..], vars);
    assert FramedAt(dump, vars, k) && Silent(dump[k..], vars);
  }

  lemma FillsEnough(dump: seq<Line>, vars: map<string, VarDef>, k: nat)
    requires Decodable(dump) && k <= |dump| && Fills(dump[..k], vars, |vars|)
    ensures |Entries(dump[..k], vars)| >= |vars|
  {
    if k > 0 { assert dump[..k][k - 1] == dump[k - 1]; }
  }

  /** The declared values of a dump, listed as `es`, name every declared variable exactly once. */
  ghost predicate OnceEach(dump: seq<Line>, vars: map<string, VarDef>, es: seq<Entry>) {
    multiset(es) == Entries(dump, vars) &&
    (forall i :: 0 <= i < |es| ==> es[i].0 != "" && es[i].0[1..] in vars) &&
    (forall i, j :: 0 <= i < j < |es| ==> es[i].0[1..] != es[j].0[1..]) &&
    (forall v :: v in vars ==> exists i :: 0 <= i < |es| && es[i].0[1..] == v)
  }

  lemma OnceEachIsComplete(dump: seq<Line>, vars: map<string, VarDef>, es: seq<Entry>)
    requires Decodable(dump) && OnceEach(dump, vars, es)
    ensures Complete(dump, vars)
  {
    DistinctCount(es);
    var names := set i | 0 <= i < |es| :: es[i].0[1..];
    assert names == vars.Keys;
    assert |multiset(es)| == |es| && |vars.Keys| == |vars|;
  }

  lemma {:induction false} DistinctCount(es: seq<Entry>)
    requires forall i :: 0 <= i < |es| ==> es[i].0 != ""
    requires forall i, j :: 0 <= i < j < |es| ==> es[i].0[1..] != es[j].0[1..]
    ensures |(set i | 0 <= i < |es| :: es[i].0[1..])| == |es|
  {
    if es != [] {
      var init, last := es[..|es| - 1], es[|es| - 1];
      DistinctCount(init);
      var before := set i | 0 <= i < |init| :: init[i].0[1..];
      var all := set i | 0 <= i < |es| :: es[i].0[1..];
      assert forall i :: 0 <= i < |init| ==> init[i] == es[i];
      assert all == before + {last.0[1..]};
      assert last.0[1..] !in before;
    }
  }

  lemma {:induction false} StreamPrefix(dumps: seq<seq<Line>>, k: nat)
    requires k <= |dumps|
    ensures Stream(dumps[..k]) <= Stream(dumps)
  {
    if k < |dumps| {
      assert dumps[..|dumps| - 1][..k] == dumps[..k];
      StreamPrefix(dumps[..|dumps| - 1], k);
    } else {
      assert dumps[..k] == dumps;
    }
  }

  lemma FramedPlace(dump: seq<Line>, vars: map<string, VarDef>) returns (n: nat)
    requires Framed(dump, vars)
    ensures n <= |dump| && Fills(dump[..n], vars, |vars|) && Silent(dump[n..], vars)
  {
    var k :| FramedAt(dump, vars, k) && Silent(dump[k..], vars);
    n := k;
  }

  /** Scrapes never mix dumps: the k-th scrape handles exactly the declared values of dump k, and what it leaves of
      that dump for the next one can be read and has no declared value. */
  lemma {:induction false} ScrapesFollowDumps(dumps: seq<seq<Line>>, vars: map<string, VarDef>, k: nat)
    requires k <= |dumps| && forall d :: d in dumps ==> Framed(d, vars)
    ensures var lines, end := Stream(dumps), |Stream(dumps[..k])|;
      end <= |lines| && After(lines, vars, k) <= end && Silent(lines[After(lines, vars, k)..end], vars) &&
      (k > 0 ==> Entries(lines[After(lines, vars, k - 1)..After(lines, vars, k)], vars) == Entries(dumps[k - 1], vars))
  {
    var lines := Stream(dumps);
    if k > 0 {
      var from, end := DumpPlace(dumps, k - 1);
      ScrapesFollowDumps(dumps, vars, k - 1);
      ScrapeDump(lines, vars, After(lines, vars, k - 1), from, end);
    } else {
      assert dumps[..0] == [] && lines[0..0] == [];
    }
  }

  lemma DumpPlace(dumps: seq<seq<Line>>, k: nat) returns (from: nat, end: nat)
    requires k < |dumps|
    ensures from == |Stream(dumps[..k])| <= end == |Stream(dumps[..k + 1])| <= |Stream(dumps)|
    ensures Stream(dumps)[from..end] == dumps[k] && dumps[k] in dumps
  {
    var lines, before := Stream(dumps), Stream(dumps[..k]);
    from, end := |before|, |Stream(dumps[..k + 1])|;
    StreamPrefix(dumps, k + 1);
    assert dumps[..k + 1][..k] == dumps[..k];
    assert lines[..end] == before + dumps[k];
    assert lines[from..end] == lines[..end][from..];
  }

  lemma ScrapeDump(lines: seq<Line>, vars: map<string, VarDef>, pos: nat, from: nat, end: nat)
    requires pos <= from <= end <= |lines| && Silent(lines[pos..from], vars) && Framed(lines[from..end], vars)
    ensures var stop := Stop(lines, vars, pos, |vars|);
      pos <= stop <= end && Silent(lines[stop..end], vars) && Entries(lines[pos..stop], vars) == Entries(lines[from..end], vars)
  {
    var n := FramedPlace(lines[from..end], vars);
    SliceOfSlice(lines, from, end, n);
    ScrapeBlock(lines, vars, pos, from, from + n, end);
  }

  lemma SliceOfSlice(lines: seq<Line>, from: nat, end: nat, n: nat)
    requires from + n <= end <= |lines|
    ensures lines[from..end][..n] == lines[from..from + n] && lines[from..end][n..] == lines[from + n..end]
  {}

  /** One scrape over leftovers without declared values and a framed dump that ends a scrape at `mid`. */
  lemma ScrapeBlock(lines: seq<Line>, vars: map<string, VarDef>, pos: nat, from: nat, mid: nat, end: nat)
    requires pos <= from <= mid <= end <= |lines| && Silent(lines[pos..from], vars)
    requires Fills(lines[from..mid], vars, |vars|) && Silent(lines[mid..end], vars)
    ensures var stop := Stop(lines, vars, pos, |vars|);
      pos <= stop <= end && Silent(lines[stop..end], vars) && Entries(lines[pos..stop], vars) == Entries(lines[from..end], vars)
  {
    SilentAfter(lines, vars, from, mid, end);
    if |vars| > 0 {
      SkipSilent(lines, vars, pos, from, |vars|);
      StopAfter(lines, vars, from, mid, |vars|);
      SilentBefore(lines, vars, pos, from, mid);
    } else {
      SilentJoin(lines, vars, pos, from, end);
      assert lines[pos..pos] == lines[from..mid];
    }
  }

  /** Lines without declared values neither end a scrape nor count. */
  lemma {:induction false} SkipSilent(lines: seq<Line>, vars: map<string, VarDef>, pos: nat, from: nat, rem: int)
    requires pos <= from <= |lines| && rem > 0 && Silent(lines[pos..from], vars)
    ensures Stop(lines, vars, pos, rem) == Stop(lines, vars, from, rem)
    decreases from - pos
  {
    if pos < from {
      var block := lines[pos..from];
      assert block[0] == lines[pos] && lines[pos + 1..from] == block[1..];
      SkipSilent(lines, vars, pos + 1, from, rem);
    }
  }

  lemma SilentBefore(lines: seq<Line>, vars: map<string, VarDef>, pos: nat, from: nat, end: nat)
    requires pos <= from <= end <= |lines| && Silent(lines[pos..from], vars)
    ensures Entries(lines[pos..end], vars) == Entries(lines[from..end], vars)
  {
    var a, b := lines[pos..from], lines[from..end];
    SilentExactly(a, vars);
    EntriesConcat(a, b, vars);
    assert lines[pos..end] == a + b;
  }

  lemma SilentAfter(lines: seq<Line>, vars: map<string, VarDef>, pos: nat, mid: nat, end: nat)
    requires pos <= mid <= end <= |lines| && Silent(lines[mid..end], vars)
    ensures Entries(lines[pos..end], vars) == Entries(lines[pos..mid], vars)
  {
    var a, b := lines[pos..mid], lines[mid..end];
    SilentExactly(b, vars);
    EntriesConcat(a, b, vars);
    assert lines[pos..end] == a + b;
  }

  lemma SilentJoin(lines: seq<Line>, vars: map<string, VarDef>, pos: nat, mid: nat, end: nat)
    requires pos <= mid <= end <= |lines| && Silent(lines[pos..mid], vars) && Silent(lines[mid..end], vars)
    ensures Silent(lines[pos..end], vars)
  {
    var a, b := lines[pos..mid], lines[mid..end];
    assert lines[pos..end] == a + b;
  }
}
