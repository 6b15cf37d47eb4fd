/**
 Which requests a series of the usage counters shows, from the request log alone
 (src/metrics.rs:150-156): the first 20,000 distinct label sets have a series of their own, and
 every other request is folded into the overflow series of its provider and operation.
 */
module MetricsSeries {
  import opened Common
  import opened Metrics

  ghost function LabelsIn(log: seq<Request>): set<Labels> { set r | r in log :: r.labels }

  /** The first 20,000 distinct labels, in order of arrival. */
  ghost function Admitted(log: seq<Request>): set<Labels> {
    if log == [] then {}
    else
      var before := Admitted(log[..|log| - 1]);
      if |before| < 20_000 then before + {Last(log).labels} else before
  }

  function Folded(l: Labels): Labels { Labels(l.provider, "overflow", "overflow", l.operation) }

  /** The series of a request with labels `l`. */
  function Home(admitted: set<Labels>, l: Labels): Labels { if l in admitted then l else Folded(l) }

  /** The sum of `f` over the requests with one of these labels, straight from the log. */
  function SumWhere(log: seq<Request>, labels: set<Labels>, f: Request -> nat): nat {
    if log == [] then 0
    else SumWhere(log[..|log| - 1], labels, f) + if Last(log).labels in labels then f(Last(log)) else 0
  }

  /** A series shows the saturated sums of the requests with one of these labels. */
  ghost predicate ShowsWhere(c: Counters, log: seq<Request>, labels: set<Labels>) {
    && c.requests == Sat(SumWhere(log, labels, ONE)) && c.requestBytes == c.sizeSum == Sat(SumWhere(log, labels, SENT))
    && c.responseBytes == Sat(SumWhere(log, labels, RECEIVED))
    && c.listRequests == Sat(SumWhere(log, labels, LISTS)) && c.listItems == Sat(SumWhere(log, labels, LISTED))
    && |c.size| == BUCKETS && forall i | 0 <= i < BUCKETS :: c.size[i] == Sat(SumWhere(log, labels, InBucket(i)))
  }

  /** The labels in the log whose requests belong to the series `k`. */
  ghost function Members(log: seq<Request>, k: Labels): set<Labels> {
    set l | l in LabelsIn(log) && Home(Admitted(log), l) == k
  }

  lemma {:induction false} SameWhere(log: seq<Request>, labels: set<Labels>, others: set<Labels>, f: Request -> nat)
    requires forall l | l in LabelsIn(log) :: l in labels <==> l in others
    ensures SumWhere(log, labels, f) == SumWhere(log, others, f)
  {
    if log != [] {
      assert Last(log) in log && Last(log).labels in LabelsIn(log);
      SameWhere(log[..|log| - 1], labels, others, f);
    }
  }

  lemma LabelsNext(log: seq<Request>)
    requires log != []
    ensures LabelsIn(log) == LabelsIn(log[..|log| - 1]) + {Last(log).labels}
  {
    var front := log[..|log| - 1];
    assert log == front + [Last(log)];
    assert forall r :: r in log <==> r in front || r == Last(log);
  }

  /** Labels are turned away only when there is no room left. */
  lemma {:induction false} AdmittedFacts(log: seq<Request>)
    ensures Admitted(log) <= LabelsIn(log) && |Admitted(log)| <= 20_000
    ensures |Admitted(log)| < 20_000 ==> Admitted(log) == LabelsIn(log)
  {
    if log != [] {
      AdmittedFacts(log[..|log| - 1]);
      LabelsNext(log);
      hide LabelsIn;
    }
  }

  /** The table holds the admitted labels, and once full nothing else but overflow series. */
  lemma {:induction false} TableAdmits(log: seq<Request>)
    ensures Admitted(log) <= Table(log).Keys
    ensures forall k | k in Table(log) && k !in Admitted(log) :: k == Folded(k) && |Admitted(log)| == 20_000
  {
    if log != [] {
      var front, l := log[..|log| - 1], Last(log).labels;
      TableAdmits(front);
      AdmittedFacts(front);
      AdmittedFacts(log);
      TableKeys(log);
      hide Table;
      KeyWhileRoom(front, l);
    }
  }

  /** Where the next request goes, in terms of the labels admitted before it. */
  lemma KeyWhileRoom(log: seq<Request>, l: Labels)
    requires Admitted(log) <= Table(log).Keys && |Admitted(log)| <= 20_000
    requires forall k | k in Table(log) && k !in Admitted(log) :: k == Folded(k) && |Admitted(log)| == 20_000
    ensures |Admitted(log)| < 20_000 ==> KeyFor(Table(log), l) == l
    ensures |Admitted(log)| == 20_000 ==> KeyFor(Table(log), l) == Home(Admitted(log), l)
  {
    hide Table, Admitted;
    assert |Table(log)| == |Table(log).Keys|;
    if |Admitted(log)| < 20_000 {
      assert Table(log).Keys == Admitted(log);
    } else {
      SubsetSize(Admitted(log), Table(log).Keys);
    }
  }

  lemma KeyIsHome(log: seq<Request>)
    requires log != []
    ensures KeyFor(Table(log[..|log| - 1]), Last(log).labels) == Home(Admitted(log), Last(log).labels)
  {
    var front := log[..|log| - 1];
    TableAdmits(front);
    AdmittedFacts(front);
    hide Table;
    KeyWhileRoom(front, Last(log).labels);
  }

  /** A request keeps its series for ever. */
  lemma HomeStays(log: seq<Request>, l: Labels)
    requires log != [] && l in LabelsIn(log[..|log| - 1])
    ensures Home(Admitted(log), l) == Home(Admitted(log[..|log| - 1]), l)
  {
    AdmittedFacts(log[..|log| - 1]);
    hide LabelsIn;
  }

  lemma {:induction false} SumIsWhere(log: seq<Request>, k: Labels, f: Request -> nat)
    ensures SumOver(log, {k}, f) == SumWhere(log, Members(log, k), f)
  {
    if log != [] {
      var front := log[..|log| - 1];
      SumIsWhere(front, k, f);
      KeyIsHome(log);
      LabelsNext(log);
      MembersStay(log, k);
      hide Table, KeyFor, Admitted, LabelsIn, Home;
      SameWhere(front, Members(front, k), Members(log, k), f);
    }
  }

  lemma MembersStay(log: seq<Request>, k: Labels)
    requires log != []
    ensures forall l | l in LabelsIn(log[..|log| - 1]) :: l in Members(log[..|log| - 1], k) <==> l in Members(log, k)
  {
    var front := log[..|log| - 1];
    LabelsNext(log);
    hide Admitted, Home, LabelsIn;
    forall l | l in LabelsIn(front) ensures l in Members(front, k) <==> l in Members(log, k) { HomeStays(log, l); }
  }

  lemma {:induction false} KeysAreHomes(log: seq<Request>, k: Labels)
    ensures k in Table(log) <==> exists l | l in LabelsIn(log) :: Home(Admitted(log), l) == k
  {
    if log == [] {
      assert LabelsIn(log) == {};
    } else {
      var front, last := log[..|log| - 1], Last(log).labels;
      KeysAreHomes(front, k);
      TableKeys(log);
      KeyIsHome(log);
      LabelsNext(log);
      hide Table, KeyFor, Admitted, Home;
      forall l | l in LabelsIn(front) ensures Home(Admitted(log), l) == Home(Admitted(front), l) {
        HomeStays(log, l);
      }
      hide LabelsIn;
      if l :| l in LabelsIn(front) && Home(Admitted(front), l) == k { assert l in LabelsIn(log); }
    }
  }

  /**
   However long the log: a series exists exactly if some request belongs to it, and shows exactly
   the requests that do.
   */
  lemma SeriesExactly(log: seq<Request>, k: Labels)
    ensures k in Table(log) <==> Members(log, k) != {}
    ensures k in Table(log) ==> ShowsWhere(Table(log)[k], log, Members(log, k))
  {
    KeysAreHomes(log, k);
    TableShows(log, k);
    hide Table, Admitted, Home;
    if l :| l in LabelsIn(log) && Home(Admitted(log), l) == k { assert l in Members(log, k); }
    hide Members;
    forall f ensures SumOver(log, {k}, f) == SumWhere(log, Members(log, k), f) { SumIsWhere(log, k, f); }
    hide SumOver, SumWhere, LabelsIn, InBucket;
  }

  lemma {:induction false} AllAdmitted(log: seq<Request>)
    requires |LabelsIn(log)| <= 20_000
    ensures Admitted(log) == LabelsIn(log)
  {
    if log != [] {
      var front := log[..|log| - 1];
      LabelsNext(log);
      SubsetSize(LabelsIn(front), LabelsIn(log));
      AllAdmitted(front);
      hide LabelsIn;
      assert Last(log).labels !in Admitted(front) ==> |LabelsIn(log)| == |Admitted(front)| + 1;
    }
  }

  /** Up to 20,000 distinct labels, every request is counted under its own labels and no other. */
  lemma OwnSeries(log: seq<Request>)
    requires |LabelsIn(log)| <= 20_000
    ensures Table(log).Keys == LabelsIn(log)
    ensures forall k | k in Table(log) :: ShowsWhere(Table(log)[k], log, {k})
  {
    AllAdmitted(log);
    hide Table, Admitted, ShowsWhere, LabelsIn;
    forall k ensures Members(log, k) == if k in LabelsIn(log) then {k} else {} {
    }
    hide Members;
    forall k ensures k in Table(log) <==> k in LabelsIn(log) { SeriesExactly(log, k); }
    forall k | k in Table(log) ensures ShowsWhere(Table(log)[k], log, {k}) { SeriesExactly(log, k); }
  }

  /** A request changes its own series unless that is missing from a table of at least 20,000. */
  lemma FoldedOnlyWhenFull(log: seq<Request>, r: Request, k: Labels)
    ensures var before, after := Table(log), Table(log + [r]);
      var changed := if r.labels in before || |before| < 20_000 then r.labels
                     else Labels(r.labels.provider, "overflow", "overflow", r.labels.operation);
      && after.Keys == before.Keys + {changed}
      && (k in before && k != changed ==> after[k] == before[k])
      && after[changed].requests == Sat((if changed in before then before[changed].requests else 0) + 1)
  {
    TableNext(log, r);
    hide Table, BucketIndex;
  }
}
