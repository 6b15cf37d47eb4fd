/**
 Listings that overlap a writer (src/capture.rs:107-122, src/mail/filesystem.rs:134-196, 339-345,
 396-437). Readers take no lock: every directory scan, marker test and file read happens at its
 own instant of the run, and a scan may miss entries that come or go while it is under way.
 */
module MailReader {
  import opened Common
  import opened Sorting
  import opened Journal
  import opened History
  import opened Budget
  import opened MailFiles
  import Replay

  datatype MailboxInfo = MailboxInfo(directory: string, count: nat, lastReceivedAt: int)

  /** By time received, then by id. */
  predicate MessageLe(a: StoredMessage, b: StoredMessage) {
    a.receivedAt < b.receivedAt || (a.receivedAt == b.receivedAt && StrLe(a.id, b.id))
  }

  const MESSAGE_LE: (StoredMessage, StoredMessage) -> bool := (a: StoredMessage, b: StoredMessage) => MessageLe(a, b)

  /** Earlier messages first; those of the same instant by id, character by character. */
  ghost predicate InTimeOrder(messages: seq<StoredMessage>) {
    forall i, j | 0 <= i < j < |messages| ::
      && messages[i].receivedAt <= messages[j].receivedAt
      && (messages[i].receivedAt == messages[j].receivedAt ==> TextBefore(messages[i].id, messages[j].id))
  }

  lemma SortedIsInTimeOrder(messages: seq<StoredMessage>)
    requires Sorted(messages, MESSAGE_LE)
    ensures InTimeOrder(messages)
  {
    hide StrLe, TextBefore;
    forall i, j | 0 <= i < j < |messages|
      ensures messages[i].receivedAt <= messages[j].receivedAt
      ensures messages[i].receivedAt == messages[j].receivedAt ==> TextBefore(messages[i].id, messages[j].id)
    {
      StrLeMeans(messages[i].id, messages[j].id);
      assert MESSAGE_LE(messages[i], messages[j]);
    }
  }

  /** Some message was received at `time`, and none later. */
  ghost predicate LatestAt(time: int, messages: seq<StoredMessage>) {
    (exists m | m in messages :: m.receivedAt == time) && forall m | m in messages :: m.receivedAt <= time
  }

  lemma LastIsLatest(messages: seq<StoredMessage>)
    requires messages != [] && InTimeOrder(messages)
    ensures LatestAt(Last(messages).receivedAt, messages)
  {
    hide TextBefore;
    assert messages[|messages| - 1] in messages;
    forall m | m in messages ensures m.receivedAt <= Last(messages).receivedAt {
      var i :| 0 <= i < |messages| && messages[i] == m;
    }
  }

  predicate InDirectory(p: Path, directory: string) { |p| == 2 && p[0] == directory && Document(p) }

  predicate Named(tag: string, committed: set<string>) { tag == "" || tag in committed }

  /** `p` is there at every instant from `lo` to `hi`, and always names a transaction in `committed`. */
  ghost predicate Lasting(codec: MailCodec, states: seq<Fs>, lo: nat, hi: nat, committed: set<string>, p: Path)
    requires lo <= hi < |states|
  {
    forall t | lo <= t <= hi :: p in states[t].files && Named(codec.Tag(states[t].files[p]), committed)
  }

  /** `m` is what `p` holds at some instant from `lo` to `hi`. */
  ghost predicate SeenAt(codec: MailCodec, states: seq<Fs>, lo: nat, hi: nat, p: Path, m: StoredMessage)
    requires lo <= hi < |states|
  {
    exists t | lo <= t <= hi :: p in states[t].files && codec.decodeMessage(states[t].files[p]) == Some(m)
  }

  /** `m` was read in `directory` and names a transaction in `committed`. */
  ghost predicate Listed(codec: MailCodec, states: seq<Fs>, lo: nat, hi: nat, committed: set<string>,
                         directory: string, m: StoredMessage)
    requires lo <= hi < |states|
  {
    Named(m.tx, committed) && codec.MailboxDir(m.mailbox) == directory
    && SeenAt(codec, states, lo, hi, codec.MessagePath(m.mailbox, m.id), m)
  }

  /** No file contributes twice. */
  ghost predicate NoRepeats(codec: MailCodec, messages: seq<StoredMessage>) {
    && (forall m :: multiset(messages)[m] <= 1)
    && (forall m, n | m in messages && n in messages && SamePlace(codec, m, n) :: m == n)
  }

  predicate SamePlace(codec: MailCodec, m: StoredMessage, n: StoredMessage) {
    codec.MessagePath(m.mailbox, m.id) == codec.MessagePath(n.mailbox, n.id)
  }

  lemma NothingRepeats(codec: MailCodec)
    ensures NoRepeats(codec, [])
  {
  }

  lemma RepeatsPermute(codec: MailCodec, a: seq<StoredMessage>, b: seq<StoredMessage>)
    requires NoRepeats(codec, a) && multiset(a) == multiset(b)
    ensures NoRepeats(codec, b)
  {
    hide SamePlace;
    forall m | m in b ensures m in a { assert m in multiset(b); }
  }

  lemma AddUnrepeated(codec: MailCodec, a: seq<StoredMessage>, m: StoredMessage)
    requires NoRepeats(codec, a) && forall n | n in a :: !SamePlace(codec, n, m) && !SamePlace(codec, m, n)
    ensures NoRepeats(codec, a + [m])
  {
    hide MailCodec.MessagePath;
    assert SamePlace(codec, m, m);
    assert m !in multiset(a);
  }

  /** What one directory listing may return, given the ids believed committed. */
  ghost predicate Snapshot(codec: MailCodec, states: seq<Fs>, lo: nat, hi: nat, committed: set<string>,
                           directory: string, messages: seq<StoredMessage>)
    requires lo <= hi < |states|
  {
    && NoRepeats(codec, messages)
    && (forall m | m in messages :: Listed(codec, states, lo, hi, committed, directory, m))
    && (forall p | InDirectory(p, directory) && Lasting(codec, states, lo, hi, committed, p) ::
          exists m :: m in messages && codec.MessagePath(m.mailbox, m.id) == p)
  }

  /** A listing shows documents without a transaction, and otherwise only those in the committed set. */
  lemma UntaggedShown(codec: MailCodec, states: seq<Fs>, lo: nat, hi: nat, committed: set<string>, directory: string,
                      messages: seq<StoredMessage>)
    requires lo <= hi < |states| && Snapshot(codec, states, lo, hi, committed, directory, messages)
    ensures forall m | m in messages :: m.tx == "" || m.tx in committed
    ensures forall p | InDirectory(p, directory)
                       && (forall t | lo <= t <= hi :: p in states[t].files && codec.Tag(states[t].files[p]) == "") ::
      exists m :: m in messages && codec.MessagePath(m.mailbox, m.id) == p
  {
    hide InDirectory, NoRepeats, MailCodec.MessagePath, MailCodec.MailboxDir, SeenAt, MailCodec.Tag;
    forall m | m in messages ensures m.tx == "" || m.tx in committed {
      assert Listed(codec, states, lo, hi, committed, directory, m);
    }
    forall p | InDirectory(p, directory)
               && (forall t | lo <= t <= hi :: p in states[t].files && codec.Tag(states[t].files[p]) == "")
      ensures exists m :: m in messages && codec.MessagePath(m.mailbox, m.id) == p
    {
      assert Lasting(codec, states, lo, hi, committed, p);
    }
  }

  class Reader {
    const codec: MailCodec
    const states: seq<Fs>
    var now: nat

    ghost predicate Valid()
      reads this
    {
      codec.Lawful() && Chain(codec.Journal(), states) && now < |states|
    }

    constructor (codec: MailCodec, states: seq<Fs>, start: nat)
      requires codec.Lawful() && Chain(codec.Journal(), states) && start < |states|
      ensures Valid() && this.codec == codec && this.states == states && now == start
    {
      this.codec := codec;
      this.states := states;
      now := start;
    }

    /** Other processes run. */
    method Wait()
      requires Valid()
      modifies this
      ensures Valid() && old(now) <= now
    {
      var later: nat :| now <= later < |states|;
      now := later;
    }

    /** Scans the journal directory; entries present throughout are returned. */
    method ListJournal() returns (ids: set<string>)
      requires Valid()
      modifies this
      ensures Valid() && old(now) <= now
      ensures forall id | (forall t | old(now) <= t <= now :: id in states[t].txs) :: id in ids
    {
      Wait();
      ids := states[now].txs;
    }

    method IsFile(p: Path) returns (present: bool)
      requires Valid()
      modifies this
      ensures Valid() && old(now) <= now && present == (p in states[now].files)
    {
      Wait();
      present := p in states[now].files;
    }

    /** Scans one mailbox directory for documents; those present throughout are returned. */
    method ListDirectory(directory: string) returns (paths: set<Path>)
      requires Valid()
      modifies this
      ensures Valid() && old(now) <= now
      ensures forall p | p in paths :: InDirectory(p, directory)
      ensures forall p | InDirectory(p, directory) && (forall t | old(now) <= t <= now :: p in states[t].files) ::
        p in paths
    {
      Wait();
      paths := set p | p in states[now].files && InDirectory(p, directory);
    }

    method Read(p: Path) returns (data: Option<Bytes>)
      requires Valid()
      modifies this
      ensures Valid() && old(now) <= now
      ensures data == if p in states[now].files then Some(states[now].files[p]) else None
    {
      Wait();
      data := if p in states[now].files then Some(states[now].files[p]) else None;
    }

    /** committed_snapshot: every id committed when it starts, and none not committed when it ends. */
    method CommittedSnapshot() returns (ids: set<string>)
      requires Valid()
      modifies this
      ensures Valid() && old(now) <= now
      ensures forall id | Committed(states[old(now)], id) :: id in ids
      ensures forall id | id in ids :: Committed(states[now], id)
    {
      hide Chain, MailCodec.Lawful, Marker;
      var entries := ListJournal();
      forall id | Committed(states[old(now)], id) ensures id in entries {
        forall t | old(now) <= t <= now ensures id in states[t].txs {
          CommittedHasEntry(codec.Journal(), states, old(now), t, id);
        }
      }
      ids := {};
      ghost var listed := entries;
      while entries != {}
        invariant Valid() && old(now) <= now
        invariant forall id | Committed(states[old(now)], id) :: id in ids || id in entries
        invariant forall id | id in ids :: Committed(states[now], id)
        decreases entries
      {
        ghost var before := now;
        var id :| id in entries;
        entries := entries - {id};
        var committed := IsFile(Marker(id));
        forall other | Committed(states[before], other) ensures Committed(states[now], other) {
          CommittedPersists(codec.Journal(), states, before, now, other);
        }
        forall other | Committed(states[old(now)], other) ensures Committed(states[now], other) {
          CommittedPersists(codec.Journal(), states, old(now), now, other);
        }
        if committed { ids := ids + {id}; }
      }
    }

    /** list_messages_snapshot without paging; `failed` stands for its error return. */
    method ListMessages(directory: string, committed: set<string>) returns (messages: seq<StoredMessage>, failed: bool)
      requires Valid() && directory != JOURNAL && directory != RECORDS
      modifies this
      ensures Valid() && old(now) <= now
      ensures !failed && InTimeOrder(messages)
      ensures Snapshot(codec, states, old(now), now, committed, directory, messages)
    {
      hide Chain, MailCodec.Lawful, Document, Lasting, SeenAt, MailCodec.MessagePath, MailCodec.MailboxDir, NoRepeats;
      failed := false;
      var found := [];
      NothingRepeats(codec);
      var entries := ListDirectory(directory);
      ghost var lo := old(now);
      forall p | InDirectory(p, directory) && Lasting(codec, states, lo, now, committed, p) ensures p in entries {
        LastingIsPresent(codec, states, lo, now, committed, p);
      }
      while entries != {}
        invariant Valid() && lo <= now && !failed
        invariant forall p | p in entries :: InDirectory(p, directory)
        invariant NoRepeats(codec, found) && forall m | m in found :: codec.MessagePath(m.mailbox, m.id) !in entries
        invariant forall m | m in found :: Listed(codec, states, lo, now, committed, directory, m)
        invariant forall p | InDirectory(p, directory) && Lasting(codec, states, lo, now, committed, p) ::
          p in entries || exists m :: m in found && codec.MessagePath(m.mailbox, m.id) == p
        decreases entries
      {
        ghost var before, previous := now, found;
        var p :| p in entries;
        entries := entries - {p};
        var data := Read(p);
        Later(codec, states, lo, before, now, committed, directory);
        if data == None {
          NotLasting(codec, states, lo, now, committed, p);
          continue;
        }
        DocumentIsMessage(codec, states, now, p);
        var stored := codec.decodeMessage(data.value).value;
        if Named(stored.tx, committed) {
          AddUnrepeated(codec, found, stored);
          found := found + [stored];
          assert found[|previous|] == stored;
          NowSeen(codec, states, lo, now, p, stored);
        } else {
          NotLasting(codec, states, lo, now, committed, p);
        }
      }
      messages := Sort(found, MESSAGE_LE);
      MessageOrder();
      SortSorts(found, MESSAGE_LE);
      SortMembers(found, MESSAGE_LE);
      SortPermutes(found, MESSAGE_LE);
      RepeatsPermute(codec, found, messages);
      SortedIsInTimeOrder(messages);
    }

    /** get_message: the document, its marker and the raw sidecar, each read at its own instant. */
    method GetMessage(mailbox: string, id: string) returns (r: Lookup)
      requires Valid()
      modifies this
      ensures Valid() && old(now) <= now && r != Failed
      ensures r == Refused <==> mailbox == "" || !ValidSegment(id)
      ensures r.Found? ==>
        Visible(states[now], r.message.tx) && ReadFrom(codec, states, old(now), now, mailbox, id, r.message)
      ensures r == NotFound ==> UnrecoveredOnce(codec.Journal(), states, old(now), now, codec.MessagePath(mailbox, id))
    {
      if !ValidSegment(id) || mailbox == "" { return Refused; }
      ghost var lo := now;
      var p := codec.MessagePath(mailbox, id);
      codec.MailboxPaths(mailbox, id);
      hide Chain, MailCodec.Lawful, Document, MailCodec.MessagePath, MailCodec.RawPath, ValidSegment, Kept, Destination;
      hide UnrecoveredOnce, ReadFrom, MailCodec.Tag, MailCodec.Journal, Marker;
      var data := Read(p);
      ghost var seen := now;
      if data == None {
        AbsentIsUnrecovered(codec.Journal(), states, lo, seen, p);
        return NotFound;
      }
      PathDocument(codec, states, seen, mailbox, id);
      var stored := codec.decodeMessage(data.value).value;
      Wait();
      if !Visible(states[now], stored.tx) {
        InvisibleIsUnrecovered(codec, states, lo, seen, now, p);
        return NotFound;
      }
      ghost var checked := now;
      var raw := Read(codec.RawPath(mailbox, id));
      VisibleStays(codec.Journal(), states, checked, now, stored.tx);
      ReadIsFrom(codec, states, lo, seen, now, mailbox, id, stored);
      r := Found(if raw.Some? then stored.(message := stored.message.(rawMime := raw)) else stored);
    }

    /** load_record: the record and its marker, each read at its own instant. */
    method LoadRecord(key: string) returns (r: Replay.Loaded)
      requires Valid()
      modifies this
      ensures Valid() && old(now) <= now && r != Replay.Failed
      ensures r.Found? ==> r.record.key == key && Visible(states[now], r.record.tx)
      ensures r.Found? ==> RecordSeen(codec, states, old(now), now, r.record)
      ensures r == Replay.Absent ==> UnrecoveredOnce(codec.Journal(), states, old(now), now, codec.RecordPath(key))
      ensures Replay.LoadRecord(codec, states[old(now)], key).Found? ==>
        r == Replay.LoadRecord(codec, states[old(now)], key)
    {
      ghost var lo := now;
      var p := codec.RecordPath(key);
      hide Chain, MailCodec.Lawful, MailCodec.RecordPath, MailCodec.Journal, MailCodec.Tag, Marker, UnrecoveredOnce;
      hide RecordSeen;
      var data := Read(p);
      ghost var seen := now;
      hide Replay.LoadRecord;
      if Replay.LoadRecord(codec, states[lo], key).Found? { RecordStays(codec, states, lo, seen, key); }
      if data == None {
        AbsentIsUnrecovered(codec.Journal(), states, lo, seen, p);
        return Replay.Absent;
      }
      RecordDocument(codec, states, seen, key);
      var record := codec.decodeRecord(data.value).value;
      Wait();
      if !Visible(states[now], record.tx) {
        InvisibleIsUnrecovered(codec, states, lo, seen, now, p);
        if Replay.LoadRecord(codec, states[lo], key).Found? { RecordStays(codec, states, lo, now, key); }
        return Replay.Absent;
      }
      RecordIsSeen(codec, states, lo, seen, now, record);
      r := Replay.Found(record);
    }

    /** list_messages without a limit: one committed set, then one directory. */
    method ListMailbox(directory: string)
      returns (messages: seq<StoredMessage>, failed: bool, ghost lo: nat, ghost committed: set<string>)
      requires Valid() && directory != JOURNAL && directory != RECORDS
      modifies this
      ensures Valid() && old(now) <= lo <= now && !failed
      ensures forall id | Committed(states[old(now)], id) :: id in committed
      ensures forall id | id in committed :: Committed(states[lo], id)
      ensures InTimeOrder(messages) && Snapshot(codec, states, lo, now, committed, directory, messages)
    {
      var ids := CommittedSnapshot();
      committed, lo := ids, now;
      messages, failed := ListMessages(directory, ids);
    }

    /** Scans the store root for mailbox directories; those with a document throughout are returned. */
    method ListRoot() returns (directories: set<string>)
      requires Valid()
      modifies this
      ensures Valid() && old(now) <= now
      ensures forall d, p | InDirectory(p, d) && (forall t | old(now) <= t <= now :: p in states[t].files) ::
        d in directories
    {
      Wait();
      directories := set p | p in states[now].files && |p| == 2 :: p[0];
    }

    /** list_mailboxes: one committed set for every mailbox. */
    method ListMailboxes() returns (infos: seq<MailboxInfo>, failed: bool,
                                    ghost lo: nat, ghost committed: set<string>,
                                    ghost shown: map<string, seq<StoredMessage>>)
      requires Valid()
      modifies this
      ensures Valid() && old(now) <= lo <= now && !failed
      ensures forall id | Committed(states[old(now)], id) :: id in committed
      ensures forall id | id in committed :: Committed(states[lo], id)
      ensures forall d | d != "" && d[0] != '.' && d != codec.MailboxDir("_all") ::
        Snapshot(codec, states, lo, now, committed, d, ShownIn(shown, d))
      ensures forall d | d in shown :: d != "" && d[0] != '.' && d != codec.MailboxDir("_all")
      ensures forall d | d in shown :: InTimeOrder(shown[d])
      ensures forall info | info in infos :: info.directory in shown && Describes(info, shown[info.directory])
      ensures forall d | ShownIn(shown, d) != [] :: HasInfo(infos, d)
    {
      hide Chain, MailCodec.Lawful, Document, Lasting, SeenAt, MailCodec.MessagePath, MailCodec.MailboxDir;
      hide InDirectory, Snapshot, InTimeOrder, Marker, LatestAt;
      var ids := CommittedSnapshot();
      committed, lo, shown, infos, failed := ids, now, map[], [], false;
      var directories := ListRoot();
      forall d | d !in directories ensures Snapshot(codec, states, lo, now, ids, d, []) {
        NothingThere(codec, states, lo, now, ids, d);
      }
      while directories != {}
        invariant Valid() && old(now) <= lo <= now && !failed
        invariant forall d | IsMailbox(codec, d) && d !in directories ::
          Snapshot(codec, states, lo, now, ids, d, ShownIn(shown, d))
        invariant forall d | d in shown :: d !in directories && InTimeOrder(shown[d]) && IsMailbox(codec, d)
        invariant forall info | info in infos :: info.directory in shown && Describes(info, shown[info.directory])
        invariant forall d | ShownIn(shown, d) != [] :: HasInfo(infos, d)
        decreases directories
      {
        ghost var before, previous := now, infos;
        var d :| d in directories;
        directories := directories - {d};
        if !IsMailbox(codec, d) { continue; }
        var messages;
        messages, failed := ListMessages(d, ids);
        forall e, found | Snapshot(codec, states, lo, before, ids, e, found)
          ensures Snapshot(codec, states, lo, now, ids, e, found)
        {
          Widen(codec, states, lo, lo, before, now, ids, e, found);
        }
        Widen(codec, states, lo, before, now, now, ids, d, messages);
        shown := shown[d := messages];
        if messages != [] {
          LastIsLatest(messages);
          infos := infos + [MailboxInfo(d, |messages|, Last(messages).receivedAt)];
          assert infos[|previous|].directory == d;
          MoreInfos(previous, infos[|previous|]);
        }
      }
    }
  }

  datatype Lookup = Found(message: StoredMessage) | NotFound | Refused | Failed

  /** `m` is a message read at `p` in the window, with the raw bytes its sidecar held, if there was one. */
  ghost predicate ReadFrom(codec: MailCodec, states: seq<Fs>, lo: nat, hi: nat, mailbox: string, id: string,
                           m: StoredMessage)
    requires lo <= hi < |states|
  {
    exists t, stored | lo <= t <= hi ::
      && codec.MessagePath(mailbox, id) in states[t].files
      && codec.decodeMessage(states[t].files[codec.MessagePath(mailbox, id)]) == Some(stored)
      && stored.mailbox == mailbox && stored.id == id && WithRaw(codec, states[hi], mailbox, id, stored) == m
  }

  function WithRaw(codec: MailCodec, fs: Fs, mailbox: string, id: string, stored: StoredMessage): StoredMessage {
    var raw := codec.RawPath(mailbox, id);
    if raw in fs.files then stored.(message := stored.message.(rawMime := Some(fs.files[raw]))) else stored
  }

  /** At some instant of the window, recovery would not have kept `p`. */
  ghost predicate UnrecoveredOnce(codec: Codec, states: seq<Fs>, lo: nat, hi: nat, p: Path)
    requires lo <= hi < |states|
  {
    exists t | lo <= t <= hi :: p !in codec.Recovered(states[t]).files
  }

  lemma ReadIsFrom(codec: MailCodec, states: seq<Fs>, lo: nat, t: nat, hi: nat, mailbox: string, id: string,
                   stored: StoredMessage)
    requires lo <= t <= hi < |states| && codec.MessagePath(mailbox, id) in states[t].files
    requires codec.decodeMessage(states[t].files[codec.MessagePath(mailbox, id)]) == Some(stored)
    requires stored.mailbox == mailbox && stored.id == id
    ensures ReadFrom(codec, states, lo, hi, mailbox, id, WithRaw(codec, states[hi], mailbox, id, stored))
  {
    hide MailCodec.MessagePath;
  }

  lemma AbsentIsUnrecovered(codec: Codec, states: seq<Fs>, lo: nat, t: nat, p: Path)
    requires lo <= t < |states| && p !in states[t].files
    ensures UnrecoveredOnce(codec, states, lo, t, p)
  {
    assert p !in codec.Recovered(states[t]).files;
  }

  /** A document at a message path is that message. */
  lemma PathDocument(codec: MailCodec, states: seq<Fs>, t: nat, mailbox: string, id: string)
    requires codec.Lawful() && Chain(codec.Journal(), states) && t < |states| && ValidSegment(id)
    requires codec.MessagePath(mailbox, id) in states[t].files
    ensures var m := codec.decodeMessage(states[t].files[codec.MessagePath(mailbox, id)]);
      && m.Some? && m.value.mailbox == mailbox && m.value.id == id
      && codec.Tag(states[t].files[codec.MessagePath(mailbox, id)]) == m.value.tx
  {
    var p := codec.MessagePath(mailbox, id);
    codec.MailboxPaths(mailbox, id);
    hide Document, ValidSegment, Chain;
    DocumentIsMessage(codec, states, t, p);
    var m := codec.decodeMessage(states[t].files[p]).value;
    codec.MessagePathInjective(m.mailbox, m.id, mailbox, id);
  }

  /** A document not visible after it was read would not have been recovered when it was read. */
  lemma InvisibleIsUnrecovered(codec: MailCodec, states: seq<Fs>, lo: nat, seen: nat, later: nat, p: Path)
    requires Chain(codec.Journal(), states) && lo <= seen <= later < |states| && p in states[seen].files && Document(p)
    requires !Visible(states[later], codec.Tag(states[seen].files[p]))
    ensures UnrecoveredOnce(codec.Journal(), states, lo, later, p)
  {
    var tag := codec.Tag(states[seen].files[p]);
    assert codec.Journal().Inv(states[seen]);
    codec.Journal().VisibleIsRecovered(states[seen], p);
    hide Chain, Codec.Recovered, Document, Marker, Codec.Inv;
    if Committed(states[seen], tag) { CommittedPersists(codec.Journal(), states, seen, later, tag); }
    assert p !in codec.Journal().Recovered(states[seen]).files;
  }

  /** `record` is what its path holds at some instant from `lo` to `hi`. */
  ghost predicate RecordSeen(codec: MailCodec, states: seq<Fs>, lo: nat, hi: nat, record: Record)
    requires lo <= hi < |states|
  {
    exists t | lo <= t <= hi :: codec.RecordPath(record.key) in states[t].files
      && codec.decodeRecord(states[t].files[codec.RecordPath(record.key)]) == Some(record)
  }

  lemma RecordIsSeen(codec: MailCodec, states: seq<Fs>, lo: nat, t: nat, hi: nat, record: Record)
    requires lo <= t <= hi < |states| && codec.RecordPath(record.key) in states[t].files
    requires codec.decodeRecord(states[t].files[codec.RecordPath(record.key)]) == Some(record)
    ensures RecordSeen(codec, states, lo, hi, record)
  {
    hide MailCodec.RecordPath;
  }

  /** A document at a record path is a record of that key. */
  lemma RecordDocument(codec: MailCodec, states: seq<Fs>, t: nat, key: string)
    requires codec.Lawful() && Chain(codec.Journal(), states) && t < |states|
    requires codec.RecordPath(key) in states[t].files
    ensures var data := states[t].files[codec.RecordPath(key)];
      && Document(codec.RecordPath(key)) && codec.decodeRecord(data).Some? && codec.decodeRecord(data).value.key == key
      && codec.Tag(data) == codec.decodeRecord(data).value.tx
  {
    var p := codec.RecordPath(key);
    codec.RecordPaths(key);
    assert codec.Journal().Inv(states[t]);
    assert codec.Journal().accepts(p, states[t].files[p]);
    codec.RecordPathInjective(key, codec.decodeRecord(states[t].files[p]).value.key);
  }

  /** A record that could be looked up is what its path holds from then on. */
  lemma RecordStays(codec: MailCodec, states: seq<Fs>, lo: nat, t: nat, key: string)
    requires codec.Lawful() && Chain(codec.Journal(), states) && lo <= t < |states|
    requires Replay.LoadRecord(codec, states[lo], key).Found?
    ensures codec.RecordPath(key) in states[t].files
    ensures codec.decodeRecord(states[t].files[codec.RecordPath(key)]) ==
      Some(Replay.LoadRecord(codec, states[lo], key).record)
    ensures Visible(states[t], Replay.LoadRecord(codec, states[lo], key).record.tx)
  {
    var p, record := codec.RecordPath(key), Replay.LoadRecord(codec, states[lo], key).record;
    codec.RecordPaths(key);
    Replay.LoadIsRecovered(codec, states[lo], key);
    assert Visible(states[lo], record.tx);
    hide Replay.LoadRecord, Chain, MailCodec.RecordPath, Document, Destination, Kept, MailCodec.Lawful;
    hide MailCodec.Journal;
    KeptPersists(codec.Journal(), states, lo, t, p);
    VisibleStays(codec.Journal(), states, lo, t, record.tx);
  }

  lemma VisibleStays(codec: Codec, states: seq<Fs>, t: nat, later: nat, tag: string)
    requires Chain(codec, states) && t <= later < |states| && Visible(states[t], tag)
    ensures Visible(states[later], tag)
  {
    hide Chain, Marker;
    if tag != "" { CommittedPersists(codec, states, t, later, tag); }
  }

  /** A directory that is listed as a mailbox: not hidden, and not the account-wide one. */
  predicate IsMailbox(codec: MailCodec, d: string) {
    d != "" && d[0] != '.' && d != codec.MailboxDir(ALL_MAILBOX)
  }

  function ShownIn(shown: map<string, seq<StoredMessage>>, d: string): seq<StoredMessage> {
    if d in shown then shown[d] else []
  }

  /** Some mailbox entry is the one of directory `d`. */
  predicate HasInfo(infos: seq<MailboxInfo>, d: string) {
    exists info | info in infos :: info.directory == d
  }

  lemma MoreInfos(infos: seq<MailboxInfo>, info: MailboxInfo)
    ensures forall d :: HasInfo(infos + [info], d) <==> HasInfo(infos, d) || d == info.directory
  {
    forall d ensures HasInfo(infos + [info], d) <==> HasInfo(infos, d) || d == info.directory {
      var more := infos + [info];
      assert more[|infos|] == info;
      if HasInfo(infos, d) {
        var i :| i in infos && i.directory == d;
        assert i in more;
      }
    }
  }

  ghost predicate Describes(info: MailboxInfo, messages: seq<StoredMessage>) {
    messages != [] && info.count == |messages| && LatestAt(info.lastReceivedAt, messages)
  }

  lemma NothingThere(codec: MailCodec, states: seq<Fs>, lo: nat, hi: nat, committed: set<string>, d: string)
    requires lo <= hi < |states|
    requires forall p | InDirectory(p, d) :: !forall t | lo <= t <= hi :: p in states[t].files
    ensures Snapshot(codec, states, lo, hi, committed, d, [])
  {
    hide InDirectory;
    forall p | InDirectory(p, d) ensures !Lasting(codec, states, lo, hi, committed, p) {
      var t :| lo <= t <= hi && p !in states[t].files;
    }
  }

  /** A listing taken in part of a window is one for the whole window. */
  lemma Widen(codec: MailCodec, states: seq<Fs>, lo: nat, from: nat, to: nat, hi: nat, committed: set<string>,
              d: string, messages: seq<StoredMessage>)
    requires lo <= from <= to <= hi < |states| && Snapshot(codec, states, from, to, committed, d, messages)
    ensures Snapshot(codec, states, lo, hi, committed, d, messages)
  {
    hide InDirectory, Named, MailCodec.MessagePath, MailCodec.MailboxDir, MailCodec.Tag;
    assert forall p | Lasting(codec, states, lo, hi, committed, p) :: Lasting(codec, states, from, to, committed, p);
    assert forall p, m | SeenAt(codec, states, from, to, p, m) :: SeenAt(codec, states, lo, hi, p, m);
  }

  lemma LastingIsPresent(codec: MailCodec, states: seq<Fs>, lo: nat, hi: nat, committed: set<string>, p: Path)
    requires lo <= hi < |states| && Lasting(codec, states, lo, hi, committed, p)
    ensures forall t | lo <= t <= hi :: p in states[t].files
  {
  }

  /** Waiting keeps what was seen, and makes lasting harder. */
  lemma Later(codec: MailCodec, states: seq<Fs>, lo: nat, mid: nat, hi: nat, committed: set<string>, directory: string)
    requires lo <= mid <= hi < |states|
    ensures forall m | Listed(codec, states, lo, mid, committed, directory, m) ::
      Listed(codec, states, lo, hi, committed, directory, m)
    ensures forall p | Lasting(codec, states, lo, hi, committed, p) :: Lasting(codec, states, lo, mid, committed, p)
  {
    hide Named, MailCodec.MessagePath, MailCodec.MailboxDir, MailCodec.Tag;
  }

  lemma NotLasting(codec: MailCodec, states: seq<Fs>, lo: nat, hi: nat, committed: set<string>, p: Path)
    requires lo <= hi < |states|
    requires p in states[hi].files ==> !Named(codec.Tag(states[hi].files[p]), committed)
    ensures !Lasting(codec, states, lo, hi, committed, p)
  {
  }

  lemma NowSeen(codec: MailCodec, states: seq<Fs>, lo: nat, hi: nat, p: Path, m: StoredMessage)
    requires lo <= hi < |states| && p in states[hi].files && codec.decodeMessage(states[hi].files[p]) == Some(m)
    ensures SeenAt(codec, states, lo, hi, p, m)
  {
  }

  /** At every instant, a document in a mailbox directory is a whole message filed there. */
  lemma DocumentIsMessage(codec: MailCodec, states: seq<Fs>, t: nat, p: Path)
    requires Chain(codec.Journal(), states) && t < |states| && p in states[t].files
    requires |p| == 2 && Document(p) && p[0] != RECORDS
    ensures var m := codec.decodeMessage(states[t].files[p]);
      m.Some? && codec.MessagePath(m.value.mailbox, m.value.id) == p && codec.MailboxDir(m.value.mailbox) == p[0]
      && codec.Tag(states[t].files[p]) == m.value.tx
  {
    assert codec.Journal().Inv(states[t]);
    assert codec.Journal().accepts(p, states[t].files[p]);
  }

  lemma MessageOrder()
    ensures TotalOrder(MESSAGE_LE)
  {
    forall a, b ensures MESSAGE_LE(a, b) || MESSAGE_LE(b, a) {
      StrLeTotal(a.id, b.id);
    }
    forall a, b, c | MESSAGE_LE(a, b) && MESSAGE_LE(b, c) ensures MESSAGE_LE(a, c) {
      if a.receivedAt == b.receivedAt == c.receivedAt {
        StrLeTransitive(a.id, b.id, c.id);
      }
    }
  }

  lemma CommittedHasEntry(codec: Codec, states: seq<Fs>, i: nat, t: nat, id: string)
    requires Chain(codec, states) && i <= t < |states| && Committed(states[i], id)
    ensures id in states[t].txs
  {
    CommittedPersists(codec, states, i, t, id);
    assert codec.Inv(states[t]);
    TxNames(id);
  }

  // ---- Isolation ----

  /** The document at `p` is there and names `id` at every instant from `lo` to `hi`. */
  ghost predicate Stays(codec: MailCodec, states: seq<Fs>, lo: nat, hi: nat, p: Path, id: string)
    requires lo <= hi < |states|
  {
    forall t | lo <= t <= hi :: p in states[t].files && codec.Tag(states[t].files[p]) == id
  }

  /** Between `a` and `b` the document at `p`, if it is committed mail, is not deleted and keeps its transaction. */
  ghost predicate KeepsDocument(codec: Codec, a: Fs, b: Fs, p: Path) {
    p in codec.Recovered(a).files ==>
      p in codec.Recovered(b).files && codec.tag(codec.Recovered(b).files[p]) == codec.tag(codec.Recovered(a).files[p])
  }

  /** A committed copy that no concurrent delete removes stays for the whole listing. */
  lemma {:induction false} CopyStays(codec: MailCodec, states: seq<Fs>, lo: nat, hi: nat, p: Path, id: string)
    requires lo <= hi < |states| && p in codec.Journal().Recovered(states[lo]).files
    requires codec.Tag(states[lo].files[p]) == id
    requires forall t | lo <= t < hi :: KeepsDocument(codec.Journal(), states[t], states[t + 1], p)
    ensures Stays(codec, states, lo, hi, p, id) && p in codec.Journal().Recovered(states[hi]).files
    decreases hi - lo
  {
    hide MailCodec.Tag;
    if lo < hi {
      CopyStays(codec, states, lo, hi - 1, p, id);
      assert KeepsDocument(codec.Journal(), states[hi - 1], states[hi - 1 + 1], p);
    }
  }

  /**
   A listing that overlaps any writer shows none of a published batch's copies, or every copy in
   the directory that is not deleted before or while it runs; one committed set decides, for every
   directory listed under it. Deletes of other messages do not matter.
   */
  lemma SnapshotIsolation(codec: MailCodec, states: seq<Fs>, lo: nat, hi: nat, committed: set<string>,
                          directory: string, messages: seq<StoredMessage>, i: nat, batch: Batch)
    requires lo <= hi < |states| && 0 < i < |states|
    requires Snapshot(codec, states, lo, hi, committed, directory, messages)
    requires Publishes(codec.Journal(), states[i - 1], states[i], batch)
    ensures batch.id in committed ==>
      forall f | f in batch.files && InDirectory(f.path, directory) && Stays(codec, states, lo, hi, f.path, batch.id) ::
        Shows(codec, messages, f.path, batch.id)
    ensures batch.id !in committed ==> forall m | m in messages :: m.tx != batch.id
  {
    assert batch.id != "";
    hide Publishes, InDirectory, MailCodec.MessagePath, MailCodec.MailboxDir, NoRepeats, Stays;
    if batch.id in committed {
      forall f | f in batch.files && InDirectory(f.path, directory) && Stays(codec, states, lo, hi, f.path, batch.id)
        ensures Shows(codec, messages, f.path, batch.id)
      {
        StaysLasting(codec, states, lo, hi, committed, f.path, batch.id);
        hide Lasting, SeenAt;
        var m :| m in messages && codec.MessagePath(m.mailbox, m.id) == f.path;
        assert Listed(codec, states, lo, hi, committed, directory, m);
      }
    }
  }

  /** A message of transaction `id` at `p` is among `messages`. */
  ghost predicate Shows(codec: MailCodec, messages: seq<StoredMessage>, p: Path, id: string) {
    exists m | m in messages :: codec.MessagePath(m.mailbox, m.id) == p && m.tx == id
  }

  lemma StaysLasting(codec: MailCodec, states: seq<Fs>, lo: nat, hi: nat, committed: set<string>, p: Path, id: string)
    requires lo <= hi < |states| && Stays(codec, states, lo, hi, p, id) && id in committed
    ensures Lasting(codec, states, lo, hi, committed, p)
    ensures forall m :: SeenAt(codec, states, lo, hi, p, m) ==> m.tx == id
  {
  }

  /**
   With no concurrent delete of the batch's copies: if none had been deleted when the committed set
   was complete, the listing shows all of them in the directory or none.
   */
  lemma AllOrNone(codec: MailCodec, states: seq<Fs>, lo: nat, hi: nat, committed: set<string>,
                  directory: string, messages: seq<StoredMessage>, i: nat, batch: Batch)
    requires codec.Lawful() && Chain(codec.Journal(), states) && lo <= hi < |states| && 0 < i < |states|
    requires forall id | id in committed :: Committed(states[lo], id)
    requires Snapshot(codec, states, lo, hi, committed, directory, messages)
    requires Publishes(codec.Journal(), states[i - 1], states[i], batch)
    requires forall f | f in batch.files && InDirectory(f.path, directory) && i <= lo ::
      && f.path in codec.Journal().Recovered(states[lo]).files && codec.Tag(states[lo].files[f.path]) == batch.id
      && forall t | lo <= t < hi :: KeepsDocument(codec.Journal(), states[t], states[t + 1], f.path)
    ensures (forall f | f in batch.files && InDirectory(f.path, directory) :: Shows(codec, messages, f.path, batch.id))
      || (forall m | m in messages :: m.tx != batch.id)
  {
    hide Chain, Snapshot, Publishes, InDirectory, Shows, Stays, KeepsDocument, Marker, MailCodec.Lawful, MailCodec.Tag;
    SnapshotIsolation(codec, states, lo, hi, committed, directory, messages, i, batch);
    MarkerTiming(codec.Journal(), states, i, batch, lo);
    if batch.id in committed {
      forall f | f in batch.files && InDirectory(f.path, directory) ensures Shows(codec, messages, f.path, batch.id) {
        CopyStays(codec, states, lo, hi, f.path, batch.id);
      }
    }
  }

  /** A batch that never commits is never shown. */
  lemma AbortedNeverShown(codec: MailCodec, states: seq<Fs>, lo: nat, hi: nat, committed: set<string>,
                          directory: string, messages: seq<StoredMessage>, id: string)
    requires lo <= hi < |states| && id != "" && !Committed(states[lo], id)
    requires forall c | c in committed :: Committed(states[lo], c)
    requires Snapshot(codec, states, lo, hi, committed, directory, messages)
    ensures forall m | m in messages :: m.tx != id
  {
    hide Document, MailCodec.MessagePath, MailCodec.MailboxDir, Marker, SeenAt;
    forall m | m in messages ensures m.tx != id {
      assert Listed(codec, states, lo, hi, committed, directory, m);
    }
  }
}
