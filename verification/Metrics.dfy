/**
 Usage counters (src/metrics.rs:10-57, 138-184, 215-322): saturating counters in a bounded table,
 and a size histogram that must agree with the raw request log however the table overflowed.
 */
module Metrics {
  import opened Common

  const MAX_SERIES: nat := 20_000

  const SIZE_BOUNDS: seq<nat> :=
    [256, 1_024, 4_096, 16_384, 65_536, 262_144, 1_048_576, 16_777_216, 134_217_728, U64_MAX]

  const BUCKETS: nat := 10

  datatype Labels = Labels(provider: string, bucket: string, client: string, operation: string)
  datatype Pair = Pair(provider: string, operation: string)
  datatype Request = Request(labels: Labels, requestBytes: U64, responseBytes: U64, isList: bool, listItems: U64)
  datatype Counters = Counters(requests: U64, requestBytes: U64, responseBytes: U64, listRequests: U64, listItems: U64,
                               size: seq<U64>, sizeSum: U64)
  datatype Histogram = Histogram(buckets: seq<U64>, count: U64, sum: U64)

  type Series = map<Labels, Counters>

  function PairOf(l: Labels): Pair { Pair(l.provider, l.operation) }

  /** A number as a saturating counter shows it. */
  function Sat(n: nat): U64 { if n <= U64_MAX then n else U64_MAX }

  /** saturating_add */
  function SatAdd(a: U64, b: U64): U64 { if a > U64_MAX - b then U64_MAX else a + b }

  /** The first size bucket that admits `bytes`. */
  function BucketIndex(bytes: U64): (i: nat)
    ensures i < BUCKETS && bytes <= SIZE_BOUNDS[i]
    ensures i > 0 ==> bytes > SIZE_BOUNDS[i - 1]
  {
    if bytes <= 256 then 0 else if bytes <= 1_024 then 1 else if bytes <= 4_096 then 2 else if bytes <= 16_384 then 3
    else if bytes <= 65_536 then 4 else if bytes <= 262_144 then 5 else if bytes <= 1_048_576 then 6
    else if bytes <= 16_777_216 then 7 else if bytes <= 134_217_728 then 8 else 9
  }

  // ---- The table ----

  const EMPTY := Counters(0, 0, 0, 0, 0, [0, 0, 0, 0, 0, 0, 0, 0, 0, 0], 0)

  /** The series a request is counted under: its own, unless the table is full. */
  function KeyFor(series: Series, l: Labels): Labels {
    if l in series || |series| < MAX_SERIES then l else Labels(l.provider, "overflow", "overflow", l.operation)
  }

  function Counted(c: Counters, r: Request): Counters
    requires |c.size| == BUCKETS
  {
    var i := BucketIndex(r.requestBytes);
    Counters(SatAdd(c.requests, 1), SatAdd(c.requestBytes, r.requestBytes), SatAdd(c.responseBytes, r.responseBytes),
             if r.isList then SatAdd(c.listRequests, 1) else c.listRequests,
             if r.isList then SatAdd(c.listItems, r.listItems) else c.listItems,
             c.size[i := SatAdd(c.size[i], 1)], SatAdd(c.sizeSum, r.requestBytes))
  }

  predicate WellSized(series: Series) { forall k | k in series :: |series[k].size| == BUCKETS }

  function Recorded(series: Series, r: Request): (s: Series)
    requires WellSized(series)
    ensures WellSized(s)
  {
    var k := KeyFor(series, r.labels);
    series[k := Counted(if k in series then series[k] else EMPTY, r)]
  }

  /** The table after a whole request log, in arrival order. */
  function Table(log: seq<Request>): (s: Series)
    ensures WellSized(s)
  {
    if log == [] then map[] else Recorded(Table(log[..|log| - 1]), Last(log))
  }

  lemma TableNext(log: seq<Request>, r: Request)
    ensures Table(log + [r]) == Recorded(Table(log), r)
  {
    assert (log + [r])[..|log|] == log;
  }

  // ---- Sums over the log ----

  /** The sum of `f` over the requests that were counted under one of `keys`. */
  function SumOver(log: seq<Request>, keys: set<Labels>, f: Request -> nat): nat {
    if log == [] then 0
    else
      var front := log[..|log| - 1];
      SumOver(front, keys, f) + if KeyFor(Table(front), Last(log).labels) in keys then f(Last(log)) else 0
  }

  /** The sum of `f` over the requests of one provider and operation, straight from the log. */
  function LogSum(log: seq<Request>, pair: Pair, f: Request -> nat): nat {
    if log == [] then 0
    else LogSum(log[..|log| - 1], pair, f) + if PairOf(Last(log).labels) == pair then f(Last(log)) else 0
  }

  const ONE: Request -> nat := (r: Request) => 1
  const SENT: Request -> nat := (r: Request) => r.requestBytes
  const RECEIVED: Request -> nat := (r: Request) => r.responseBytes
  const LISTS: Request -> nat := (r: Request) => if r.isList then 1 else 0
  const LISTED: Request -> nat := (r: Request) => if r.isList then r.listItems else 0

  function InBucket(i: nat): Request -> nat { (r: Request) => if BucketIndex(r.requestBytes) == i then 1 else 0 }

  function AtMost(i: nat): Request -> nat
    requires i < BUCKETS
  {
    (r: Request) => if r.requestBytes <= SIZE_BOUNDS[i] then 1 else 0
  }

  /** A series shows the saturated sums of the requests counted under it. */
  ghost predicate Shows(c: Counters, log: seq<Request>, k: Labels) {
    && c.requests == Sat(SumOver(log, {k}, ONE)) && c.requestBytes == c.sizeSum == Sat(SumOver(log, {k}, SENT))
    && c.responseBytes == Sat(SumOver(log, {k}, RECEIVED))
    && c.listRequests == Sat(SumOver(log, {k}, LISTS)) && c.listItems == Sat(SumOver(log, {k}, LISTED))
    && |c.size| == BUCKETS && forall i | 0 <= i < BUCKETS :: c.size[i] == Sat(SumOver(log, {k}, InBucket(i)))
  }

  lemma ShowsNothing(log: seq<Request>, k: Labels)
    requires forall f :: SumOver(log, {k}, f) == 0
    ensures Shows(EMPTY, log, k)
  {
  }

  lemma SumOverNext(log: seq<Request>, r: Request, keys: set<Labels>, f: Request -> nat)
    ensures SumOver(log + [r], keys, f) ==
      SumOver(log, keys, f) + if KeyFor(Table(log), r.labels) in keys then f(r) else 0
  {
    assert (log + [r])[..|log|] == log;
  }

  lemma ShowsCounted(c: Counters, log: seq<Request>, r: Request, k: Labels)
    requires Shows(c, log, k) && KeyFor(Table(log), r.labels) == k
    ensures Shows(Counted(c, r), log + [r], k)
  {
    SumOverNext(log, r, {k}, ONE);
    SumOverNext(log, r, {k}, SENT);
    SumOverNext(log, r, {k}, RECEIVED);
    SumOverNext(log, r, {k}, LISTS);
    SumOverNext(log, r, {k}, LISTED);
    hide SumOver, Table, KeyFor, BucketIndex, InBucket;
    forall i | 0 <= i < BUCKETS ensures Counted(c, r).size[i] == Sat(SumOver(log + [r], {k}, InBucket(i))) {
      SizeCounted(c, log, r, k, i);
    }
  }

  lemma SizeCounted(c: Counters, log: seq<Request>, r: Request, k: Labels, i: nat)
    requires Shows(c, log, k) && KeyFor(Table(log), r.labels) == k && i < BUCKETS
    ensures Counted(c, r).size[i] == Sat(SumOver(log + [r], {k}, InBucket(i)))
  {
    SumOverNext(log, r, {k}, InBucket(i));
    hide SumOver, Table, KeyFor, BucketIndex;
  }

  lemma ShowsOther(c: Counters, log: seq<Request>, r: Request, k: Labels)
    requires Shows(c, log, k) && KeyFor(Table(log), r.labels) != k
    ensures Shows(c, log + [r], k)
  {
    forall f ensures SumOver(log + [r], {k}, f) == SumOver(log, {k}, f) {
      SumOverNext(log, r, {k}, f);
    }
    hide SumOver, Table, KeyFor;
  }

  /** In every reachable state each series shows exactly its own requests, and no request is lost. */
  lemma {:induction false} TableShows(log: seq<Request>, k: Labels)
    ensures k in Table(log) ==> Shows(Table(log)[k], log, k)
    ensures k !in Table(log) ==> forall f :: SumOver(log, {k}, f) == 0
  {
    if log != [] {
      var front, r := log[..|log| - 1], Last(log);
      hide Shows, Counted, BucketIndex;
      TableShows(front, k);
      assert log == front + [r];
      if k !in Table(log) {
        forall f ensures SumOver(log, {k}, f) == 0 { SumOverNext(front, r, {k}, f); }
      }
      hide SumOver;
      if KeyFor(Table(front), r.labels) == k {
        if k !in Table(front) { ShowsNothing(front, k); }
        ShowsCounted(if k in Table(front) then Table(front)[k] else EMPTY, front, r, k);
      } else if k in Table(front) {
        ShowsOther(Table(front)[k], front, r, k);
      }
    }
  }

  /** The key of every request is in the table from then on, with the request's provider and operation. */
  lemma KeyKeepsPair(series: Series, l: Labels)
    ensures PairOf(KeyFor(series, l)) == PairOf(l)
  {
  }

  lemma TableKeys(log: seq<Request>)
    requires log != []
    ensures var front := log[..|log| - 1];
      var k := KeyFor(Table(front), Last(log).labels);
      Table(log).Keys == Table(front).Keys + {k} && PairOf(k) == PairOf(Last(log).labels)
  {
    hide Counted, KeyFor;
    KeyKeepsPair(Table(log[..|log| - 1]), Last(log).labels);
  }

  // ---- The table stays bounded ----

  function Pairs(log: seq<Request>): set<Pair> { set r | r in log :: PairOf(r.labels) }

  predicate IsOverflow(l: Labels) { l.bucket == "overflow" && l.client == "overflow" }

  ghost function Ordinary(keys: set<Labels>): set<Labels> { set k | k in keys && !IsOverflow(k) }
  ghost function Overflow(keys: set<Labels>): set<Labels> { set k | k in keys && IsOverflow(k) }

  lemma {:induction false} OverflowSize(keys: set<Labels>, pairs: set<Pair>)
    requires forall k | k in keys :: IsOverflow(k) && PairOf(k) in pairs
    ensures |keys| <= |pairs|
  {
    if keys != {} {
      var k :| k in keys;
      OverflowSize(keys - {k}, pairs - {PairOf(k)});
    }
  }

  lemma OverflowKey(series: Series, l: Labels)
    ensures var k := KeyFor(series, l);
      k in series || |series.Keys| < MAX_SERIES || IsOverflow(k)
  {
    assert |series.Keys| == |series|;
  }

  lemma OrdinaryAdd(keys: set<Labels>, k: Labels)
    ensures |Ordinary(keys)| <= |keys|
    ensures |Ordinary(keys + {k})| <= |Ordinary(keys)| + if k in keys || IsOverflow(k) then 0 else 1
  {
    SubsetSize(Ordinary(keys), keys);
    if k in keys || IsOverflow(k) {
      assert Ordinary(keys + {k}) == Ordinary(keys);
    } else {
      assert Ordinary(keys + {k}) == Ordinary(keys) + {k};
    }
  }

  lemma {:induction false} OrdinarySize(log: seq<Request>)
    ensures |Ordinary(Table(log).Keys)| <= MAX_SERIES
  {
    if log != [] {
      var front, r := log[..|log| - 1], Last(log);
      OrdinarySize(front);
      TableKeys(log);
      OverflowKey(Table(front), r.labels);
      hide Table, KeyFor, Ordinary, IsOverflow;
      OrdinaryAdd(Table(front).Keys, KeyFor(Table(front), r.labels));
    }
  }

  lemma {:induction false} SubsetSize<T>(a: set<T>, b: set<T>)
    requires a <= b
    ensures |a| <= |b|
  {
    if a != {} {
      var x :| x in a;
      SubsetSize(a - {x}, b - {x});
    }
  }

  /** At most 20,000 series, plus one overflow series per provider and operation seen. */
  lemma TableIsBounded(log: seq<Request>)
    ensures |Table(log)| <= 20_000 + |Pairs(log)|
  {
    var keys := Table(log).Keys;
    OrdinarySize(log);
    forall k | k in keys ensures PairOf(k) in Pairs(log) {
      PairsHaveSeries(log, PairOf(k));
    }
    hide Table;
    OverflowSize(Overflow(keys), Pairs(log));
    assert keys == Ordinary(keys) + Overflow(keys);
    assert |Table(log)| == |keys|;
  }

  // ---- Sums agree ----

  lemma SatSum(a: nat, b: nat)
    ensures SatAdd(Sat(a), Sat(b)) == Sat(a + b)
  {
  }

  /** One more key, one more series' worth of requests. */
  lemma {:induction false} SumOverAdd(log: seq<Request>, keys: set<Labels>, k: Labels, f: Request -> nat)
    requires k !in keys
    ensures SumOver(log, keys + {k}, f) == SumOver(log, keys, f) + SumOver(log, {k}, f)
  {
    hide Table, KeyFor;
    if log != [] {
      SumOverAdd(log[..|log| - 1], keys, k, f);
    }
  }

  /** The series of a provider and operation hold exactly its requests, whatever overflowed. */
  lemma {:induction false} SeriesCoverLog(log: seq<Request>, keys: set<Labels>, pair: Pair, f: Request -> nat)
    requires forall k | k in Table(log) :: k in keys <==> PairOf(k) == pair
    ensures SumOver(log, keys, f) == LogSum(log, pair, f)
  {
    if log != [] {
      var front, r := log[..|log| - 1], Last(log);
      TableKeys(log);
      hide KeyFor, Table;
      SeriesCoverLog(front, keys, pair, f);
    }
  }

  /** Adding the next bucket to a cumulative count. */
  lemma {:induction false} CumulativeStep(log: seq<Request>, keys: set<Labels>, i: nat)
    requires 0 < i < BUCKETS
    ensures SumOver(log, keys, AtMost(i)) == SumOver(log, keys, AtMost(i - 1)) + SumOver(log, keys, InBucket(i))
  {
    hide Table, KeyFor;
    if log != [] {
      CumulativeStep(log[..|log| - 1], keys, i);
      BoundsGrow();
      BucketIsFirst(Last(log).requestBytes, i);
      hide BucketIndex;
    }
  }

  lemma BoundsGrow()
    ensures |SIZE_BOUNDS| == BUCKETS && SIZE_BOUNDS[BUCKETS - 1] == U64_MAX
    ensures forall i, j | 0 <= i < j < BUCKETS :: SIZE_BOUNDS[i] < SIZE_BOUNDS[j]
    ensures SIZE_BOUNDS[..9] == [256, 1_024, 4_096, 16_384, 65_536, 262_144, 1_048_576, 16_777_216, 134_217_728]
  {
  }

  lemma BucketIsFirst(bytes: U64, i: nat)
    requires 0 < i < BUCKETS
    ensures BucketIndex(bytes) == i <==> SIZE_BOUNDS[i - 1] < bytes <= SIZE_BOUNDS[i]
    ensures BucketIndex(bytes) == 0 <==> bytes <= SIZE_BOUNDS[0]
  {
    BoundsGrow();
  }

  lemma {:induction false} CumulativeStart(log: seq<Request>, keys: set<Labels>)
    ensures SumOver(log, keys, AtMost(0)) == SumOver(log, keys, InBucket(0))
  {
    hide Table, KeyFor;
    if log != [] {
      CumulativeStart(log[..|log| - 1], keys);
      BucketIsFirst(Last(log).requestBytes, 1);
      hide BucketIndex;
    }
  }

  /** Everything fits under the last bound. */
  lemma {:induction false} LastBucketIsAll(log: seq<Request>, keys: set<Labels>)
    ensures SumOver(log, keys, AtMost(BUCKETS - 1)) == SumOver(log, keys, ONE)
  {
    hide Table, KeyFor;
    if log != [] {
      LastBucketIsAll(log[..|log| - 1], keys);
    }
  }

  /** The running total of a row of bucket counts, with saturating additions. */
  function Running(counts: seq<U64>, i: nat): U64
    requires i < |counts|
  {
    if i == 0 then SatAdd(0, counts[0]) else SatAdd(Running(counts, i - 1), counts[i])
  }

  /** Saturated bucket counts add up to saturated cumulative counts. */
  lemma {:induction false} RunningIsAtMost(counts: seq<U64>, log: seq<Request>, keys: set<Labels>, i: nat)
    requires |counts| == BUCKETS && i < BUCKETS
    requires forall j | 0 <= j < BUCKETS :: counts[j] == Sat(SumOver(log, keys, InBucket(j)))
    ensures Running(counts, i) == Sat(SumOver(log, keys, AtMost(i)))
  {
    hide SumOver;
    if i == 0 {
      CumulativeStart(log, keys);
    } else {
      RunningIsAtMost(counts, log, keys, i - 1);
      CumulativeStep(log, keys, i);
      SatSum(SumOver(log, keys, AtMost(i - 1)), SumOver(log, keys, InBucket(i)));
    }
  }

  lemma {:induction false} FewerLists(log: seq<Request>, k: Labels)
    ensures SumOver(log, {k}, LISTS) <= SumOver(log, {k}, ONE)
  {
    hide Table, KeyFor;
    if log != [] { FewerLists(log[..|log| - 1], k); }
  }

  /** What every series satisfies in every reachable state. */
  lemma SeriesInvariants(log: seq<Request>, k: Labels)
    requires k in Table(log)
    ensures var c := Table(log)[k];
      && c.sizeSum == c.requestBytes && c.listRequests <= c.requests
      && |c.size| == BUCKETS && Running(c.size, BUCKETS - 1) == c.requests
  {
    TableShows(log, k);
    hide Table, SumOver, Running;
    FewerLists(log, k);
    LastBucketIsAll(log, {k});
    RunningIsAtMost(Table(log)[k].size, log, {k}, BUCKETS - 1);
  }

  // ---- The running process ----

  /** The series of one provider and operation among `keys`. */
  function Of(keys: set<Labels>, pair: Pair): set<Labels> { set k | k in keys && PairOf(k) == pair }

  /** Bucket counts of the requests counted under `keys`. */
  ghost predicate CountsOf(counts: seq<U64>, log: seq<Request>, keys: set<Labels>) {
    |counts| == BUCKETS && forall i | 0 <= i < BUCKETS :: counts[i] == Sat(SumOver(log, keys, InBucket(i)))
  }

  /** The histogram of the requests counted under `keys`. */
  ghost predicate HistogramOf(h: Histogram, log: seq<Request>, keys: set<Labels>) {
    && |h.buckets| == BUCKETS && (forall i | 0 <= i < BUCKETS :: h.buckets[i] == Sat(SumOver(log, keys, AtMost(i))))
    && h.count == Sat(SumOver(log, keys, ONE)) && h.sum == Sat(SumOver(log, keys, SENT))
  }

  /** The histogram of one provider and operation, straight from the log. */
  ghost predicate DirectHistogram(h: Histogram, log: seq<Request>, pair: Pair) {
    && |h.buckets| == BUCKETS && (forall i | 0 <= i < BUCKETS :: h.buckets[i] == Sat(LogSum(log, pair, AtMost(i))))
    && h.count == Sat(LogSum(log, pair, ONE)) && h.sum == Sat(LogSum(log, pair, SENT))
  }

  ghost function Reached(series: Series, minRequests: U64): set<Labels> {
    set k | k in series && series[k].requests >= minRequests
  }

  class UsageMetrics {
    var series: Series
    ghost var log: seq<Request>

    ghost predicate Valid()
      reads this
    {
      series == Table(log)
    }

    constructor ()
      ensures Valid() && log == []
    {
      series, log := map[], [];
    }

    /** record */
    method Record(r: Request)
      requires Valid()
      modifies this
      ensures Valid() && log == old(log) + [r]
    {
      TableNext(log, r);
      hide Table, BucketIndex, SatAdd;
      var key := if r.labels in series || |series| < MAX_SERIES then r.labels
        else Labels(r.labels.provider, "overflow", "overflow", r.labels.operation);
      var c := if key in series then series[key] else EMPTY;
      c := c.(requests := SatAdd(c.requests, 1));
      c := c.(requestBytes := SatAdd(c.requestBytes, r.requestBytes));
      c := c.(responseBytes := SatAdd(c.responseBytes, r.responseBytes));
      if r.isList {
        c := c.(listRequests := SatAdd(c.listRequests, 1));
        c := c.(listItems := SatAdd(c.listItems, r.listItems));
      }
      var index := BucketIndex(r.requestBytes);
      c := c.(size := c.size[index := SatAdd(c.size[index], 1)]);
      c := c.(sizeSum := SatAdd(c.sizeSum, r.requestBytes));
      series := series[key := c];
      log := log + [r];
    }

    /** append_series_metrics: bucket counts by provider and operation. */
    method CollectCounts(minRequests: U64) returns (hist: map<Pair, seq<U64>>)
      requires Valid()
      ensures forall pair :: pair in hist <==> Of(Reached(series, minRequests), pair) != {}
      ensures forall k | k in series :: k in Reached(series, minRequests) <==> series[k].requests >= minRequests
      ensures forall pair | pair in hist :: CountsOf(hist[pair], log, Of(Reached(series, minRequests), pair))
    {
      hist := map[];
      var left := series.Keys;
      ghost var done: set<Labels> := {};
      hide Table, SumOver;
      while left != {}
        invariant left <= series.Keys && done == set k | k in Reached(series, minRequests) && k !in left
        invariant forall pair :: pair in hist <==> Of(done, pair) != {}
        invariant forall pair | pair in hist :: CountsOf(hist[pair], log, Of(done, pair))
        decreases left
      {
        hide CountsOf;
        var k :| k in left;
        left := left - {k};
        if series[k].requests < minRequests { continue; }
        var pair := PairOf(k);
        SeriesSize(log, k);
        ghost var before := done;
        var counts := AddCounts(if pair in hist then hist[pair] else EMPTY.size, series[k].size, log, Of(done, pair),
                                k);
        hist := hist[pair := counts];
        done := done + {k};
        OfAdd(before, k);
      }
      assert done == Reached(series, minRequests);
    }

    /** append_size_histograms, and the whole export of request sizes. */
    method SizeHistograms(minRequests: U64) returns (out: map<Pair, Histogram>)
      requires Valid()
      ensures forall pair :: pair in out <==> Of(Reached(series, minRequests), pair) != {}
      ensures forall pair | pair in out :: HistogramOf(out[pair], log, Of(Reached(series, minRequests), pair))
      ensures minRequests == 0 ==>
        out.Keys == Pairs(log) && forall pair | pair in out :: DirectHistogram(out[pair], log, pair)
    {
      hide Table, SumOver, CountsOf, HistogramOf, DirectHistogram, LogSum, Of;
      var hist := CollectCounts(minRequests);
      var left := hist.Keys;
      out := map[];
      while left != {}
        invariant out.Keys == hist.Keys - left && left <= hist.Keys
        invariant forall pair | pair in out :: HistogramOf(out[pair], log, Of(Reached(series, minRequests), pair))
        decreases left
      {
        var pair :| pair in left;
        left := left - {pair};
        ghost var keys := Of(Reached(series, minRequests), pair);
        var buckets := Cumulate(hist[pair], log, keys);
        var sum := SumSizes(pair, minRequests);
        CountIsLast(buckets, sum, log, keys);
        out := out[pair := Histogram(buckets, buckets[BUCKETS - 1], sum)];
      }
      if minRequests == 0 {
        assert Reached(series, 0) == series.Keys;
        forall pair | pair in out ensures DirectHistogram(out[pair], log, pair) {
          DirectIsSeries(out[pair], log, Of(Reached(series, minRequests), pair), pair);
        }
        forall pair ensures pair in out <==> pair in Pairs(log) {
          PairsHaveSeries(log, pair);
          OfNonEmpty(Reached(series, minRequests), pair);
        }
      }
    }

    /** The saturating sum of the sizes of one provider and operation. */
    method SumSizes(pair: Pair, minRequests: U64) returns (sum: U64)
      requires Valid()
      ensures sum == Sat(SumOver(log, Of(Reached(series, minRequests), pair), SENT))
    {
      var left := series.Keys;
      ghost var keys := Of(Reached(series, minRequests), pair);
      ghost var done: set<Labels> := {};
      sum := 0;
      SumOverNothing(log, SENT);
      assert forall k | k in series :: k in keys <==> PairOf(k) == pair && series[k].requests >= minRequests;
      assert keys <= series.Keys;
      hide Table, SumOver, Of, Reached;
      while left != {}
        invariant left <= series.Keys && done == keys - left
        invariant sum == Sat(SumOver(log, done, SENT))
        decreases left
      {
        var k :| k in left;
        left := left - {k};
        if PairOf(k) == pair && series[k].requests >= minRequests {
          SeriesSize(log, k);
          SumOverAdd(log, done, k, SENT);
          SatSum(SumOver(log, done, SENT), SumOver(log, {k}, SENT));
          sum := SatAdd(sum, series[k].sizeSum);
          done := done + {k};
        }
      }
      assert done == keys;
    }
  }

  lemma SeriesSize(log: seq<Request>, k: Labels)
    requires k in Table(log)
    ensures CountsOf(Table(log)[k].size, log, {k}) && Table(log)[k].sizeSum == Sat(SumOver(log, {k}, SENT))
  {
    TableShows(log, k);
    hide Table, SumOver;
  }

  lemma {:induction false} SumOverNothing(log: seq<Request>, f: Request -> nat)
    ensures SumOver(log, {}, f) == 0
  {
    hide Table, KeyFor;
    if log != [] { SumOverNothing(log[..|log| - 1], f); }
  }

  lemma OfAdd(done: set<Labels>, k: Labels)
    ensures forall pair :: Of(done + {k}, pair) == if pair == PairOf(k) then Of(done, pair) + {k} else Of(done, pair)
  {
  }

  lemma OfNonEmpty(keys: set<Labels>, pair: Pair)
    ensures Of(keys, pair) != {} <==> Covers(keys, pair)
  {
    if k :| k in keys && PairOf(k) == pair {
      assert k in Of(keys, pair);
    }
  }

  /** Adds one series' buckets to a row of totals. */
  method AddCounts(totals: seq<U64>, size: seq<U64>, ghost log: seq<Request>, ghost keys: set<Labels>, ghost k: Labels)
    returns (r: seq<U64>)
    requires |totals| == BUCKETS && k !in keys && CountsOf(size, log, {k})
    requires CountsOf(totals, log, keys) || (keys == {} && totals == EMPTY.size)
    ensures CountsOf(r, log, keys + {k})
  {
    r := totals;
    if keys == {} {
      forall i | 0 <= i < BUCKETS ensures SumOver(log, {}, InBucket(i)) == 0 {
        SumOverNothing(log, InBucket(i));
      }
    }
    assert forall i | 0 <= i < BUCKETS :: totals[i] == Sat(SumOver(log, keys, InBucket(i)));
    hide SumOver, SatAdd, Sat, InBucket;
    forall i | 0 <= i < BUCKETS ensures SatAdd(totals[i], size[i]) == Sat(SumOver(log, keys + {k}, InBucket(i))) {
      SumOverAdd(log, keys, k, InBucket(i));
      SatSum(SumOver(log, keys, InBucket(i)), SumOver(log, {k}, InBucket(i)));
    }
    for i := 0 to BUCKETS
      invariant |r| == BUCKETS && forall j | i <= j < BUCKETS :: r[j] == totals[j]
      invariant forall j | 0 <= j < i :: r[j] == SatAdd(totals[j], size[j])
    {
      r := r[i := SatAdd(r[i], size[i])];
    }
  }

  /** The cumulative buckets of one histogram. */
  method Cumulate(counts: seq<U64>, ghost log: seq<Request>, ghost keys: set<Labels>) returns (buckets: seq<U64>)
    requires CountsOf(counts, log, keys)
    ensures |buckets| == BUCKETS && forall i | 0 <= i < BUCKETS :: buckets[i] == Sat(SumOver(log, keys, AtMost(i)))
  {
    hide SumOver;
    buckets := [];
    var cumulative: U64 := 0;
    for i := 0 to BUCKETS
      invariant |buckets| == i && (i > 0 ==> cumulative == Running(counts, i - 1)) && (i == 0 ==> cumulative == 0)
      invariant forall j | 0 <= j < i :: buckets[j] == Sat(SumOver(log, keys, AtMost(j)))
    {
      cumulative := SatAdd(cumulative, counts[i]);
      RunningIsAtMost(counts, log, keys, i);
      buckets := buckets + [cumulative];
    }
  }

  lemma CountIsLast(buckets: seq<U64>, sum: U64, log: seq<Request>, keys: set<Labels>)
    requires |buckets| == BUCKETS && forall i | 0 <= i < BUCKETS :: buckets[i] == Sat(SumOver(log, keys, AtMost(i)))
    requires sum == Sat(SumOver(log, keys, SENT))
    ensures HistogramOf(Histogram(buckets, buckets[BUCKETS - 1], sum), log, keys)
  {
    hide SumOver;
    LastBucketIsAll(log, keys);
  }

  /** Some key belongs to the provider and operation. */
  ghost predicate Covers(keys: set<Labels>, pair: Pair) { exists k | k in keys :: PairOf(k) == pair }

  lemma CoversAdd(keys: set<Labels>, k: Labels, pair: Pair)
    ensures Covers(keys + {k}, pair) <==> Covers(keys, pair) || pair == PairOf(k)
  {
    assert k in keys + {k};
    if Covers(keys, pair) {
      var x :| x in keys && PairOf(x) == pair;
      assert x in keys + {k};
    }
  }

  /** Every provider and operation seen has a series, and every series was seen. */
  lemma {:induction false} PairsHaveSeries(log: seq<Request>, pair: Pair)
    ensures pair in Pairs(log) <==> Covers(Table(log).Keys, pair)
  {
    hide KeyFor, Covers, PairOf, Recorded;
    if log == [] {
      CoversNothing(pair);
      assert Table(log).Keys == {} && Pairs(log) == {};
    } else {
      var front, r := log[..|log| - 1], Last(log);
      PairsHaveSeries(front, pair);
      TableKeys(log);
      hide Table;
      CoversAdd(Table(front).Keys, KeyFor(Table(front), r.labels), pair);
      PairsAppend(front, r);
      hide Pairs;
      assert log == front + [r];
    }
  }

  lemma CoversNothing(pair: Pair)
    ensures !Covers({}, pair)
  {
  }

  lemma PairsAppend(log: seq<Request>, r: Request)
    ensures Pairs(log + [r]) == Pairs(log) + {PairOf(r.labels)}
  {
    hide PairOf;
  }

  lemma DirectIsSeries(h: Histogram, log: seq<Request>, keys: set<Labels>, pair: Pair)
    requires HistogramOf(h, log, keys) && keys == Of(Table(log).Keys, pair)
    ensures DirectHistogram(h, log, pair)
  {
    hide Table;
    forall f: Request -> nat ensures SumOver(log, keys, f) == LogSum(log, pair, f) {
      SeriesCoverLog(log, keys, pair, f);
    }
    hide SumOver, LogSum;
  }

  /** An exported histogram is cumulative, ends at its count, and its count is the saturated number of requests. */
  lemma HistogramIsCumulative(h: Histogram, log: seq<Request>, pair: Pair, i: nat)
    requires DirectHistogram(h, log, pair) && 0 < i < BUCKETS
    ensures h.buckets[i - 1] <= h.buckets[i] && h.buckets[BUCKETS - 1] == h.count == Sat(LogSum(log, pair, ONE))
  {
    MoreUnderHigherBound(log, pair, i);
    hide LogSum;
  }

  lemma {:induction false} MoreUnderHigherBound(log: seq<Request>, pair: Pair, i: nat)
    requires 0 < i < BUCKETS
    ensures LogSum(log, pair, AtMost(i - 1)) <= LogSum(log, pair, AtMost(i))
    ensures LogSum(log, pair, AtMost(BUCKETS - 1)) == LogSum(log, pair, ONE)
  {
    if log != [] {
      MoreUnderHigherBound(log[..|log| - 1], pair, i);
      BoundsGrow();
    }
  }
}
