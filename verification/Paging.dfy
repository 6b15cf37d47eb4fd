/**
 Paging through a mailbox, with and without a search (src/mail/filesystem.rs:170-195,
 src/api/admin_mail.rs:121-162). The search fetches whole storage pages and filters them, so a
 page may overshoot; it resumes after the last item returned.
 */
module Paging {
  import opened Common
  import opened Sorting
  import opened Journal
  import opened MailFiles
  import opened MailReader

  datatype Page = Page(messages: seq<StoredMessage>, next: Option<string>)

  predicate DistinctIds(messages: seq<StoredMessage>) {
    forall i, j | 0 <= i < j < |messages| :: messages[i].id != messages[j].id
  }

  /** The index after the message with id `marker`; unknown markers start over. */
  function Start(messages: seq<StoredMessage>, marker: Option<string>): (n: nat)
    ensures n <= |messages|
    ensures n > 0 ==> marker == Some(messages[n - 1].id)
    ensures marker.Some? && (exists m :: m in messages && m.id == marker.value) ==> n > 0
  {
    match marker
    case None => 0
    case Some(id) => (match Position(messages, id) case None => 0 case Some(i) => i + 1)
  }

  /** Iterator::position on message ids. */
  function Position(messages: seq<StoredMessage>, id: string): (r: Option<nat>)
    ensures r.Some? ==> r.value < |messages| && messages[r.value].id == id
    ensures r.Some? ==> forall i | 0 <= i < r.value :: messages[i].id != id
    ensures r.None? ==> forall m | m in messages :: m.id != id
  {
    if messages == [] then None
    else if messages[0].id == id then Some(0)
    else match Position(messages[1..], id) case None => None case Some(i) => Some(i + 1)
  }

  function Min(a: nat, b: nat): nat { if a < b then a else b }

  /** The paged tail of list_messages_snapshot. */
  function ListPage(messages: seq<StoredMessage>, marker: Option<string>, limit: Option<nat>): Page {
    var page := messages[Start(messages, marker)..];
    if limit.Some? && |page| > limit.value then
      var cut := page[..limit.value];
      Page(cut, if cut == [] then None else Some(Last(cut).id))
    else
      Page(page, None)
  }

  /** Without a limit a page is everything after the marker, and nothing is left to fetch. */
  lemma UnlimitedPage(messages: seq<StoredMessage>, before: seq<StoredMessage>, marker: Option<string>,
                      after: seq<StoredMessage>)
    requires messages == before + after && DistinctIds(messages)
    requires
      if before == [] then forall i | 0 <= i < |messages| :: marker != Some(messages[i].id)
      else marker == Some(Last(before).id)
    ensures ListPage(messages, marker, None) == Page(after, None)
  {
    if before != [] {
      assert messages[|before| - 1] == Last(before) && messages[|before| - 1] in messages;
      var n := Start(messages, marker);
      assert n > 0 && messages[n - 1].id == messages[|before| - 1].id;
      assert n == |before|;
    }
    assert messages[|before|..] == after;
  }

  /** Where the k-th match of `s` sits: what lies before it filters to the first k matches. */
  lemma {:induction false} MatchPosition<T>(s: seq<T>, k: nat, matches: T -> bool) returns (i: nat)
    requires k < |Filter(s, matches)|
    ensures i < |s| && s[i] == Filter(s, matches)[k]
    ensures Filter(s[i + 1..], matches) == Filter(s, matches)[k + 1..]
  {
    if matches(s[0]) && k == 0 {
      i := 0;
    } else {
      i := MatchPosition(s[1..], if matches(s[0]) then k - 1 else k, matches);
      i := i + 1;
    }
  }

  /** A marker names one place. */
  lemma StartAfter(messages: seq<StoredMessage>, i: nat)
    requires DistinctIds(messages) && i < |messages|
    ensures Start(messages, Some(messages[i].id)) == i + 1
  {
    assert messages[i] in messages;
  }

  /** A storage page is the next stretch of the mailbox, and its marker resumes right after it. */
  lemma PageIsStretch(messages: seq<StoredMessage>, marker: Option<string>, limit: nat)
    requires DistinctIds(messages) && limit > 0
    ensures var start := Start(messages, marker);
      var end := Min(start + limit, |messages|);
      var page := ListPage(messages, marker, Some(limit));
      && page.messages == messages[start..end]
      && (page.next.Some? <==> end < |messages|)
      && (page.next.Some? ==> Start(messages, page.next) == end > start)
  {
    var start := Start(messages, marker);
    if start + limit < |messages| {
      StartAfter(messages, start + limit - 1);
      assert Last(messages[start..][..limit]) == messages[start + limit - 1];
    }
  }

  /** The matches a search page returns: the first `limit` after its marker. */
  function Matches(messages: seq<StoredMessage>, marker: Option<string>,
                   matches: StoredMessage -> bool): seq<StoredMessage>
  {
    Filter(messages[Start(messages, marker)..], matches)
  }

  /** list_messages of the admin API, when a search is given. */
  method Search(messages: seq<StoredMessage>, marker: Option<string>, limit: nat, matches: StoredMessage -> bool)
    returns (page: Page)
    requires DistinctIds(messages)
    ensures var all := Matches(messages, marker, matches);
      page.messages == all[..Min(limit, |all|)] && (limit > 0 && |all| > limit ==> page.next.Some?)
    ensures page.next.Some? ==> limit > 0 && |page.messages| == limit && page.next.value == Last(page.messages).id
  {
    var items, hasMore, at := Collect(messages, marker, limit, matches);
    FilterSplit(messages, Start(messages, marker), at, matches);
    assert messages[|messages|..] == [] && Filter([], matches) == [];
    hide Filter, Start, DistinctIds;
    if |items| > limit { items := items[..limit]; }
    page := Page(items, if hasMore && items != [] then Some(Last(items).id) else None);
  }

  /** Fetches storage pages until enough items match or the mailbox ends; `at` is how far it got. */
  method Collect(messages: seq<StoredMessage>, marker: Option<string>, limit: nat, matches: StoredMessage -> bool)
    returns (items: seq<StoredMessage>, hasMore: bool, ghost at: nat)
    requires DistinctIds(messages)
    ensures Start(messages, marker) <= at <= |messages|
    ensures items == Filter(messages[Start(messages, marker)..at], matches)
    ensures hasMore <==> limit > 0 && |items| >= limit && (|items| > limit || at < |messages|)
    ensures |items| < limit ==> at == |messages|
  {
    var cursor := marker;
    items, hasMore := [], false;
    ghost var start := Start(messages, marker);
    at := start;
    assert messages[start..at] == [];
    assert Filter([], matches) == [];
    hide Filter, Start, DistinctIds, ListPage;
    while |items| < limit
      invariant start <= at == Start(messages, cursor) <= |messages| && !hasMore
      invariant items == Filter(messages[start..at], matches) && (limit > 0 ==> |items| < limit)
      decreases |messages| - at
    {
      var result := ListPage(messages, cursor, Some(limit));
      PageIsStretch(messages, cursor, limit);
      FilterNext(messages, start, at, Min(at + limit, |messages|), matches);
      items := items + Filter(result.messages, matches);
      at := Min(at + limit, |messages|);
      if |items| >= limit {
        hasMore := |items| > limit || result.next.Some?;
        break;
      }
      if result.next == None { break; }
      cursor := result.next;
    }
  }

  /** Resuming at a returned marker continues right after the last item returned. */
  lemma SearchResumes(messages: seq<StoredMessage>, marker: Option<string>, matches: StoredMessage -> bool, k: nat)
    requires DistinctIds(messages) && 0 < k <= |Matches(messages, marker, matches)|
    ensures var all := Matches(messages, marker, matches);
      var next := Some(all[k - 1].id);
      Matches(messages, next, matches) == all[k..] && Start(messages, next) > Start(messages, marker)
  {
    hide Filter, Position;
    var start := Start(messages, marker);
    var i := MatchPosition(messages[start..], k - 1, matches);
    hide Start, DistinctIds;
    StartAfter(messages, start + i);
    assert messages[start..][i + 1..] == messages[start + i + 1..];
  }

  lemma CutInTwo<T>(a: seq<T>, b: seq<T>, n: nat)
    requires n <= |b|
    ensures (a + b[..n]) + b[n..] == a + b && (n == |b| ==> b[..n] == b)
  {
  }

  /** A client that follows the search listing's markers to the end sees every match once, in order. */
  method FollowSearch(messages: seq<StoredMessage>, limit: nat, matches: StoredMessage -> bool)
    returns (found: seq<StoredMessage>)
    requires DistinctIds(messages) && limit > 0
    ensures found == Filter(messages, matches)
  {
    var marker := None;
    found := [];
    assert messages[0..] == messages;
    hide Filter, Start, DistinctIds, Matches;
    while true
      invariant found + Matches(messages, marker, matches) == Filter(messages, matches)
      decreases |messages| - Start(messages, marker)
    {
      ghost var all := Matches(messages, marker, matches);
      var page := Search(messages, marker, limit, matches);
      CutInTwo(found, all, Min(limit, |all|));
      found := found + page.messages;
      if page.next == None { return; }
      SearchResumes(messages, marker, matches, limit);
      marker := page.next;
    }
  }

  /** The same without a search: storage pages partition the mailbox. */
  method FollowPages(messages: seq<StoredMessage>, limit: nat) returns (found: seq<StoredMessage>)
    requires DistinctIds(messages) && limit > 0
    ensures found == messages
  {
    var marker := None;
    found := [];
    while true
      invariant found == messages[..Start(messages, marker)]
      decreases |messages| - Start(messages, marker)
    {
      var page := ListPage(messages, marker, Some(limit));
      PageIsStretch(messages, marker, limit);
      found := found + page.messages;
      if page.next == None { return; }
      marker := page.next;
    }
  }

  /** Any listing of one mailbox can be paged: its ids are distinct. */
  lemma ListingHasDistinctIds(codec: MailCodec, states: seq<Fs>, lo: nat, hi: nat, committed: set<string>,
                              directory: string, messages: seq<StoredMessage>)
    requires codec.Lawful() && lo <= hi < |states| && Snapshot(codec, states, lo, hi, committed, directory, messages)
    ensures DistinctIds(messages)
  {
    hide SeenAt, Lasting;
    forall i, j | 0 <= i < j < |messages| ensures messages[i].id != messages[j].id {
      var a, b := messages[i], messages[j];
      assert Listed(codec, states, lo, hi, committed, directory, a);
      assert Listed(codec, states, lo, hi, committed, directory, b);
      codec.MessagePathInjective(a.mailbox, a.id, b.mailbox, a.id);
      if a.id == b.id {
        assert SamePlace(codec, a, b);
        TwoPlaces(messages, i, j);
      }
    }
  }
}
