/**
 The fallback fan-out and the atomic batch agree: when a batch can be published at all, both
 leave the same mail in the same mailboxes.
 */
module FanOutRefines {
  import opened Common
  import opened Sorting
  import opened Journal
  import opened Capture
  import opened History
  import opened Budget
  import opened MailFiles
  import opened MailStoreModel
  import opened FanOut

  predicate DistinctTargets(targets: seq<Target>) {
    forall i, j | 0 <= i < j < |targets| :: targets[i].mailbox != targets[j].mailbox || targets[i].id != targets[j].id
  }

  /** Every message has its own id, and none is addressed to the account-wide mailbox. */
  predicate Separate(messages: seq<(string, Message)>) {
    && DistinctIds(messages)
    && (forall i | 0 <= i < |messages| :: ALL_MAILBOX !in messages[i].1.recipients)
  }

  lemma SplitDistinct(a: seq<Target>, b: seq<Target>)
    ensures DistinctTargets(a + b) <==> DistinctTargets(a) && DistinctTargets(b) && TargetKeys(a) !! TargetKeys(b)
  {
    var s := a + b;
    if DistinctTargets(s) {
      assert forall i | 0 <= i < |a| :: a[i] == s[i];
      assert forall i | 0 <= i < |b| :: b[i] == s[|a| + i];
      forall i, j | 0 <= i < |a| && 0 <= j < |b| ensures Key(a[i].mailbox, a[i].id) != Key(b[j].mailbox, b[j].id) {
        assert s[i] == a[i] && s[|a| + j] == b[j];
      }
      assert TargetKeys(a) !! TargetKeys(b);
    }
    if DistinctTargets(a) && DistinctTargets(b) && TargetKeys(a) !! TargetKeys(b) {
      forall i, j | 0 <= i < j < |s| ensures s[i].mailbox != s[j].mailbox || s[i].id != s[j].id {
        if i < |a| <= j {
          assert a[i] in a && b[j - |a|] in b;
          assert Key(s[i].mailbox, s[i].id) in TargetKeys(a) && Key(s[j].mailbox, s[j].id) in TargetKeys(b);
        }
      }
    }
  }

  lemma MessageDistinct(id: string, m: Message)
    ensures DistinctTargets(MessageTargets(id, m)) <==> ALL_MAILBOX !in m.recipients
  {
    var boxes := [ALL_MAILBOX] + SortedSet(m.recipients);
    var targets := MessageTargets(id, m);
    SortedSetFacts(m.recipients);
    hide SortedSet, Sorted;
    if ALL_MAILBOX in m.recipients {
      var i :| 0 <= i < |SortedSet(m.recipients)| && SortedSet(m.recipients)[i] == ALL_MAILBOX;
      assert targets[0].mailbox == targets[i + 1].mailbox;
    }
  }

  /** A batch addresses no copy twice exactly when its messages are separate. */
  lemma {:induction false} TargetsDistinct(messages: seq<(string, Message)>)
    ensures DistinctTargets(BatchTargets(messages)) <==> Separate(messages)
  {
    if messages != [] {
      var rest, last := messages[..|messages| - 1], Last(messages);
      TargetsDistinct(rest);
      MessageDistinct(last.0, last.1);
      SplitDistinct(BatchTargets(rest), MessageTargets(last.0, last.1));
      NewKeys(rest, last);
      hide MessageTargets, DistinctTargets, TargetKeys;
      assert messages == rest + [last];
    }
  }

  lemma {:induction false} DistinctKeysCount(targets: seq<Target>)
    requires DistinctTargets(targets)
    ensures |TargetKeys(targets)| == |targets|
  {
    if targets != [] {
      var n := |targets| - 1;
      assert targets == targets[..n] + [targets[n]];
      SplitDistinct(targets[..n], [targets[n]]);
      DistinctKeysCount(targets[..n]);
      KeysConcat(targets[..n], [targets[n]]);
      assert TargetKeys([targets[n]]) == {Key(targets[n].mailbox, targets[n].id)};
    }
  }

  /** A recipient keyed `_all` shares its key with the account-wide copy. */
  lemma AllSharesKey(id: string, m: Message)
    ensures |TargetKeys(MessageTargets(id, m))| ==
      |MessageTargets(id, m)| - if ALL_MAILBOX in m.recipients then 1 else 0
  {
    hide SortedSet, TargetKeys, DistinctTargets;
    MessageDistinct(id, m);
    if ALL_MAILBOX in m.recipients {
      TailHasAllKeys(id, m);
      DistinctKeysCount(MessageTargets(id, m)[1..]);
    } else {
      DistinctKeysCount(MessageTargets(id, m));
    }
  }

  lemma TailHasAllKeys(id: string, m: Message)
    requires ALL_MAILBOX in m.recipients
    ensures var targets := MessageTargets(id, m);
      DistinctTargets(targets[1..]) && TargetKeys(targets) == TargetKeys(targets[1..])
  {
    hide SortedSet, DistinctTargets, TargetKeys, MessageTargets, Sorted;
    var targets, boxes := MessageTargets(id, m), SortedSet(m.recipients);
    TailTargets(id, m);
    SortedSetFacts(m.recipients);
    var i :| 0 <= i < |boxes| && boxes[i] == ALL_MAILBOX;
    DistinctBoxes(targets[1..], boxes);
    hide Distinct;
    KeyOfTarget(targets[1..], i);
    HeadKeyElsewhere(targets);
  }

  /** A first target whose key occurs again adds no key. */
  lemma HeadKeyElsewhere(targets: seq<Target>)
    requires targets != [] && Key(targets[0].mailbox, targets[0].id) in TargetKeys(targets[1..])
    ensures TargetKeys(targets) == TargetKeys(targets[1..])
  {
    assert targets == [targets[0]] + targets[1..];
    KeysConcat([targets[0]], targets[1..]);
    OneKey(targets[0]);
    hide TargetKeys;
  }

  lemma TailTargets(id: string, m: Message)
    ensures var targets, boxes := MessageTargets(id, m), SortedSet(m.recipients);
      && |targets| == |boxes| + 1 && targets[0] == Target(ALL_MAILBOX, id, m)
      && forall j | 0 <= j < |boxes| :: targets[1..][j] == Target(boxes[j], id, m)
  {
    hide SortedSet;
  }

  lemma KeyOfTarget(targets: seq<Target>, i: nat)
    requires i < |targets|
    ensures Key(targets[i].mailbox, targets[i].id) in TargetKeys(targets)
  {
    assert targets[i] in targets;
  }

  lemma OneKey(t: Target)
    ensures TargetKeys([t]) == {Key(t.mailbox, t.id)}
  {
  }

  lemma DistinctBoxes(targets: seq<Target>, boxes: seq<string>)
    requires |targets| == |boxes| && Distinct(boxes) && forall j | 0 <= j < |boxes| :: targets[j].mailbox == boxes[j]
    ensures DistinctTargets(targets)
  {
  }

  /** Where the atomic batch refuses such a recipient, the fallback files one copy for its two targets. */
  lemma FallbackFilesAllOnce(id: string, m: Message, copies: seq<StoredMessage>)
    requires Delivers(copies, MessageTargets(id, m)) && ALL_MAILBOX in m.recipients
    ensures |PutCopies(map[], copies)| == |copies| - 1 && !Separate([(id, m)])
  {
    var boxes, targets := PutCopies(map[], copies), MessageTargets(id, m);
    AllSharesKey(id, m);
    forall k ensures k in boxes <==> k in TargetKeys(targets) {
      PutCopiesKeys(map[], copies, k);
      if c :| c in copies && KeyOf(c) == k {
        var i :| 0 <= i < |copies| && copies[i] == c;
        assert targets[i] in targets;
      }
      if t :| t in targets && Key(t.mailbox, t.id) == k {
        var i :| 0 <= i < |targets| && targets[i] == t;
        assert copies[i] in copies && KeyOf(copies[i]) == k;
      }
    }
    hide PutCopies, MessageTargets;
    assert boxes.Keys == TargetKeys(targets);
    AllIsNotSeparate(id, m);
  }

  lemma AllIsNotSeparate(id: string, m: Message)
    ensures Separate([(id, m)]) <==> ALL_MAILBOX !in m.recipients
  {
    var messages := [(id, m)];
    assert messages[0].1 == m;
  }

  // ---- The files of a batch ----

  lemma {:induction false} FilesPrefix(codec: MailCodec, all: seq<StoredMessage>, j: nat)
    requires j < |all|
    ensures codec.FilesOf(all[..j]) + codec.CopyFiles(all[j]) <= codec.FilesOf(all)
  {
    if j < |all| - 1 {
      FilesPrefix(codec, all[..|all| - 1], j);
      assert all[..|all| - 1][..j] == all[..j];
    }
  }

  lemma {:induction false} FilesMember(codec: MailCodec, all: seq<StoredMessage>, f: File)
    ensures f in codec.FilesOf(all) <==> exists c :: c in all && f in codec.CopyFiles(c)
  {
    hide MailCodec.CopyFiles;
    if all != [] {
      FilesMember(codec, all[..|all| - 1], f);
      assert all == all[..|all| - 1] + [Last(all)];
    }
  }

  predicate DistinctPaths(files: seq<File>) {
    forall i, j | 0 <= i < j < |files| :: files[i].path != files[j].path
  }

  predicate DistinctRecords(records: seq<Record>) {
    forall i, j | 0 <= i < j < |records| :: records[i].key != records[j].key
  }

  lemma PathsSplit(a: seq<File>, b: seq<File>)
    ensures DistinctPaths(a + b) <==>
      DistinctPaths(a) && DistinctPaths(b) && forall f, g | f in a && g in b :: f.path != g.path
  {
    var s := a + b;
    if DistinctPaths(s) {
      assert forall i | 0 <= i < |a| :: a[i] == s[i];
      assert forall i | 0 <= i < |b| :: b[i] == s[|a| + i];
      forall f, g | f in a && g in b ensures f.path != g.path {
        var i :| 0 <= i < |a| && a[i] == f;
        var j :| 0 <= j < |b| && b[j] == g;
        assert s[i] == f && s[|a| + j] == g;
      }
    }
    if DistinctPaths(a) && DistinctPaths(b) && forall f, g | f in a && g in b :: f.path != g.path {
      forall i, j | 0 <= i < j < |s| ensures s[i].path != s[j].path {
        if i < |a| <= j { assert a[i] in a && b[j - |a|] in b; }
      }
    }
  }

  /** Copies under different keys share no path. */
  lemma CopyPathsDiffer(codec: MailCodec, c: StoredMessage, d: StoredMessage, f: File, g: File)
    requires codec.Lawful() && KeyOf(c) != KeyOf(d) && f in codec.CopyFiles(c) && g in codec.CopyFiles(d)
    ensures f.path != g.path
  {
    codec.PathKinds(c.mailbox, c.id, d.mailbox, d.id, "");
    codec.PathKinds(d.mailbox, d.id, c.mailbox, c.id, "");
    if codec.MessagePath(c.mailbox, c.id) == codec.MessagePath(d.mailbox, d.id) {
      codec.MessagePathInjective(c.mailbox, c.id, d.mailbox, d.id);
    }
    if codec.RawPath(c.mailbox, c.id) == codec.RawPath(d.mailbox, d.id) {
      codec.RawPathInjective(c.mailbox, c.id, d.mailbox, d.id);
    }
    hide MailCodec.MessagePath, MailCodec.RawPath;
  }

  lemma {:induction false} CopiesDistinctPaths(codec: MailCodec, all: seq<StoredMessage>, targets: seq<Target>)
    requires codec.Lawful() && Delivers(all, targets) && DistinctTargets(targets)
    ensures DistinctPaths(codec.FilesOf(all))
  {
    if all != [] {
      var n := |all| - 1;
      CopiesDistinctPaths(codec, all[..n], targets[..n]);
      codec.PathKinds(all[n].mailbox, all[n].id, all[n].mailbox, all[n].id, "");
      assert DistinctPaths(codec.CopyFiles(all[n]));
      hide MailCodec.CopyFiles, MailCodec.MessagePath, MailCodec.RawPath, DistinctPaths, MailCodec.Lawful;
      forall f, g | f in codec.FilesOf(all[..n]) && g in codec.CopyFiles(all[n]) ensures f.path != g.path {
        FilesMember(codec, all[..n], f);
        var c :| c in all[..n] && f in codec.CopyFiles(c);
        var i :| 0 <= i < n && all[i] == c;
        assert KeyOf(all[i]) != KeyOf(all[n]);
        CopyPathsDiffer(codec, c, all[n], f, g);
      }
      PathsSplit(codec.FilesOf(all[..n]), codec.CopyFiles(all[n]));
    }
  }

  lemma RecordPathsDistinct(codec: MailCodec, records: seq<Record>, tx: string)
    requires codec.Lawful()
    ensures DistinctPaths(codec.RecordFiles(records, tx)) <==> DistinctRecords(records)
  {
    var files := codec.RecordFiles(records, tx);
    forall i, j | 0 <= i < j < |records| ensures files[i].path == files[j].path <==> records[i].key == records[j].key {
      if files[i].path == files[j].path { codec.RecordPathInjective(records[i].key, records[j].key); }
    }
    hide MailCodec.RecordPath, MailCodec.Lawful;
  }

  lemma CopyIsNoRecord(codec: MailCodec, all: seq<StoredMessage>, records: seq<Record>, tx: string, f: File, g: File)
    requires f in codec.FilesOf(all) && g in codec.RecordFiles(records, tx)
    ensures f.path != g.path
  {
    FilesMember(codec, all, f);
    var c :| c in all && f in codec.CopyFiles(c);
    var i :| 0 <= i < |records| && g == codec.RecordFile(records[i], tx);
    codec.PathKinds(c.mailbox, c.id, c.mailbox, c.id, records[i].key);
    hide MailCodec.MessagePath, MailCodec.RawPath, MailCodec.RecordPath, MailCodec.FilesOf;
  }

  /** The files of a batch have distinct paths exactly if its messages are separate and its record keys differ. */
  lemma BatchPathsExactly(codec: MailCodec, messages: seq<(string, Message)>, records: seq<Record>, tx: string,
                          all: seq<StoredMessage>)
    requires codec.Lawful() && Delivers(all, BatchTargets(messages))
    ensures DistinctPaths(codec.FilesOf(all) + codec.RecordFiles(records, tx)) <==>
      Separate(messages) && DistinctRecords(records)
  {
    TargetsDistinct(messages);
    RecordPathsDistinct(codec, records, tx);
    forall f, g | f in codec.FilesOf(all) && g in codec.RecordFiles(records, tx) ensures f.path != g.path {
      CopyIsNoRecord(codec, all, records, tx, f, g);
    }
    hide MailCodec.FilesOf, MailCodec.RecordFiles, Separate, DistinctRecords, BatchTargets, MailCodec.Lawful;
    PathsSplit(codec.FilesOf(all), codec.RecordFiles(records, tx));
    if DistinctTargets(BatchTargets(messages)) {
      CopiesDistinctPaths(codec, all, BatchTargets(messages));
    }
    if DistinctPaths(codec.FilesOf(all)) {
      CopiesDistinct(codec, all, BatchTargets(messages), codec.FilesOf(all));
    }
  }

  ghost predicate AllFree(pre: Fs, files: seq<File>) { forall f | f in files :: f.path !in pre.files }

  /** Neither the copy nor its raw sidecar would replace a file. */
  ghost predicate CopyFree(codec: MailCodec, pre: Fs, t: Target) {
    && codec.MessagePath(t.mailbox, t.id) !in pre.files
    && (t.message.rawMime.Some? ==> codec.RawPath(t.mailbox, t.id) !in pre.files)
  }

  /** No destination of the batch is taken. */
  ghost predicate DestinationsFree(codec: MailCodec, pre: Fs, messages: seq<(string, Message)>, records: seq<Record>) {
    && (forall t | t in BatchTargets(messages) :: CopyFree(codec, pre, t))
    && (forall r | r in records :: codec.RecordPath(r.key) !in pre.files)
  }

  lemma CopiesFree(codec: MailCodec, pre: Fs, targets: seq<Target>, all: seq<StoredMessage>)
    requires Delivers(all, targets)
    ensures AllFree(pre, codec.FilesOf(all)) <==> forall t | t in targets :: CopyFree(codec, pre, t)
  {
    hide MailCodec.MessagePath, MailCodec.RawPath;
    forall i | 0 <= i < |all| ensures AllFree(pre, codec.CopyFiles(all[i])) <==> CopyFree(codec, pre, targets[i]) {
      var files := codec.CopyFiles(all[i]);
      assert files[0] in files;
      assert |files| == 2 ==> files[1] in files;
    }
    hide MailCodec.CopyFiles, CopyFree, MailCodec.FilesOf;
    forall f ensures f in codec.FilesOf(all) <==> exists i :: 0 <= i < |all| && f in codec.CopyFiles(all[i]) {
      FilesMember(codec, all, f);
      if c :| c in all && f in codec.CopyFiles(c) {
        var i :| 0 <= i < |all| && all[i] == c;
      }
    }
    if AllFree(pre, codec.FilesOf(all)) {
      forall i | 0 <= i < |all| ensures AllFree(pre, codec.CopyFiles(all[i])) {
      }
    }
  }

  lemma RecordsFree(codec: MailCodec, pre: Fs, records: seq<Record>, tx: string)
    ensures AllFree(pre, codec.RecordFiles(records, tx)) <==>
      forall r | r in records :: codec.RecordPath(r.key) !in pre.files
  {
    hide MailCodec.RecordPath;
    var files := codec.RecordFiles(records, tx);
    forall i | 0 <= i < |records| ensures files[i] in files && files[i].path == codec.RecordPath(records[i].key) {
    }
  }

  lemma FreeExactly(codec: MailCodec, pre: Fs, messages: seq<(string, Message)>, records: seq<Record>, tx: string,
                    all: seq<StoredMessage>)
    requires Delivers(all, BatchTargets(messages))
    ensures AllFree(pre, codec.FilesOf(all) + codec.RecordFiles(records, tx)) <==>
      DestinationsFree(codec, pre, messages, records)
  {
    CopiesFree(codec, pre, BatchTargets(messages), all);
    RecordsFree(codec, pre, records, tx);
    hide MailCodec.FilesOf, MailCodec.RecordFiles, CopyFree, MailCodec.RecordPath, Delivers, BatchTargets;
  }

  /** Every id can be part of a file name. */
  predicate SlashFree(messages: seq<(string, Message)>) { forall i | 0 <= i < |messages| :: '/' !in messages[i].0 }

  predicate TargetsSlashFree(targets: seq<Target>) { forall i | 0 <= i < |targets| :: '/' !in targets[i].id }

  lemma TargetIds(messages: seq<(string, Message)>)
    ensures TargetsSlashFree(BatchTargets(messages)) <==> SlashFree(messages)
  {
    var targets := BatchTargets(messages);
    BatchKeys(messages);
    hide BatchTargets;
    if SlashFree(messages) {
      forall i | 0 <= i < |targets| ensures '/' !in targets[i].id {
        KeyOfTarget(targets, i);
        var m :| m in messages && m.0 == targets[i].id;
      }
    }
    if TargetsSlashFree(targets) {
      forall i | 0 <= i < |messages| ensures '/' !in messages[i].0 {
        assert messages[i] in messages;
        var t :| t in targets && Key(t.mailbox, t.id) == Key(ALL_MAILBOX, messages[i].0);
      }
    }
  }

  lemma {:induction false} CopiesValid(codec: MailCodec, all: seq<StoredMessage>)
    requires codec.Lawful()
    ensures (forall f | f in codec.FilesOf(all) :: ValidRelative(f.path)) <==>
      forall i | 0 <= i < |all| :: '/' !in all[i].id
  {
    if all != [] {
      var n := |all| - 1;
      CopiesValid(codec, all[..n]);
      codec.MessagePathValid(all[n].mailbox, all[n].id);
      hide ValidRelative, MailCodec.MessagePath, MailCodec.RawPath;
      var files := codec.CopyFiles(all[n]);
      assert files[0].path == codec.MessagePath(all[n].mailbox, all[n].id) && files[0] in files;
      assert (forall f | f in files :: ValidRelative(f.path)) <==> '/' !in all[n].id;
      assert forall f :: f in codec.FilesOf(all) <==> f in codec.FilesOf(all[..n]) || f in files;
      assert (forall i | 0 <= i < |all| :: '/' !in all[i].id) <==>
        (forall i | 0 <= i < n :: '/' !in all[..n][i].id) && '/' !in all[n].id;
    }
  }

  lemma ValidExactly(codec: MailCodec, messages: seq<(string, Message)>, records: seq<Record>, tx: string,
                     all: seq<StoredMessage>)
    requires codec.Lawful() && Delivers(all, BatchTargets(messages))
    ensures (forall f | f in codec.FilesOf(all) + codec.RecordFiles(records, tx) :: ValidRelative(f.path)) <==>
      SlashFree(messages)
  {
    CopiesValid(codec, all);
    TargetIds(messages);
    assert forall i | 0 <= i < |all| :: all[i].id == BatchTargets(messages)[i].id;
    forall f | f in codec.RecordFiles(records, tx) ensures ValidRelative(f.path) {
      var i :| 0 <= i < |records| && f == codec.RecordFile(records[i], tx);
      codec.RecordPaths(records[i].key);
    }
    hide MailCodec.FilesOf, MailCodec.RecordFiles, SlashFree, ValidRelative, Delivers, BatchTargets, MailCodec.Lawful;
  }

  /**
   The journal admits a batch exactly if its ids differ and hold no slash, nobody is keyed `_all`,
   its record keys differ, and none of its destinations is taken.
   */
  lemma AdmissibleExactly(codec: MailCodec, pre: Fs, messages: seq<(string, Message)>, records: seq<Record>, tx: string,
                          all: seq<StoredMessage>)
    requires codec.Lawful() && Delivers(all, BatchTargets(messages))
    ensures Admissible(pre, codec.FilesOf(all) + codec.RecordFiles(records, tx)) <==>
      && Separate(messages) && DistinctRecords(records) && SlashFree(messages)
      && DestinationsFree(codec, pre, messages, records)
  {
    BatchPathsExactly(codec, messages, records, tx, all);
    FreeExactly(codec, pre, messages, records, tx, all);
    ValidExactly(codec, messages, records, tx, all);
    hide MailCodec.FilesOf, MailCodec.RecordFiles, Separate, DistinctRecords, SlashFree, ValidRelative, Delivers;
    hide BatchTargets, MailCodec.Lawful, DestinationsFree;
  }

  /**
   When no call fails, a capture within its budget succeeds exactly if every message has a
   recipient and a usable id, every mailbox has a name and no foreign sidecar, ids and record keys
   differ, nobody is keyed `_all`, and no destination is taken.
   */
  lemma CaptureSucceedsExactly(codec: MailCodec, start: Fs, messages: seq<(string, Message)>, records: seq<Record>,
                               tx: string, files: seq<File>, all: seq<StoredMessage>, ok: bool)
    requires codec.Lawful() && Decided(codec, start, messages, records, tx, files, all, ok)
    ensures ok <==>
      && AllPreparable(codec, start, messages) && Separate(messages) && DistinctRecords(records)
      && DestinationsFree(codec, codec.Journal().Recovered(start), messages, records)
  {
    hide MailCodec.Lawful, Codec.Recovered, MailCodec.FilesOf, MailCodec.RecordFiles, Separate, DistinctRecords;
    hide DestinationsFree, Admissible, BatchTargets, Delivers;
    if AllPreparable(codec, start, messages) {
      forall i | 0 <= i < |messages| ensures '/' !in messages[i].0 {
        PreparableId(codec, start, messages[i].0, messages[i].1);
      }
      AdmissibleExactly(codec, codec.Journal().Recovered(start), messages, records, tx, all);
    }
  }

  /** A published batch addresses no copy twice: ids differ, `_all` is nobody's mailbox, and record keys differ. */
  lemma PublishedIsSeparate(codec: MailCodec, a: Fs, b: Fs, messages: seq<(string, Message)>, records: seq<Record>,
                            tx: string, all: seq<StoredMessage>)
    requires codec.Lawful() && CopiesOf(all, BatchTargets(messages), tx)
    requires Publishes(codec.Journal(), a, b, Batch(tx, codec.FilesOf(all) + codec.RecordFiles(records, tx)))
    ensures Separate(messages) && DistinctRecords(records)
  {
    var files := codec.FilesOf(all) + codec.RecordFiles(records, tx);
    ReadyDistinct(codec.Journal(), codec.Journal().Recovered(a), tx, files);
    hide Publishes, MailCodec.Journal;
    BatchPathsExactly(codec, messages, records, tx, all);
  }

  lemma CopiesDistinct(codec: MailCodec, all: seq<StoredMessage>, targets: seq<Target>, files: seq<File>)
    requires Delivers(all, targets) && codec.FilesOf(all) <= files
    requires forall x, y | 0 <= x < y < |files| :: files[x].path != files[y].path
    ensures DistinctTargets(targets)
  {
    hide MailCodec.FilesOf;
    forall i, j | 0 <= i < j < |targets|
      ensures targets[i].mailbox != targets[j].mailbox || targets[i].id != targets[j].id
    {
      FilesPrefix(codec, all, j);
      FilesPrefix(codec, all[..j], i);
      var y := |codec.FilesOf(all[..j])|;
      var x := |codec.FilesOf(all[..j][..i])|;
      assert files[y] == codec.FilesOf(all)[y] == codec.CopyFiles(all[j])[0];
      assert files[x] == codec.FilesOf(all[..j])[x] == codec.CopyFiles(all[i])[0];
    }
  }

  // ---- The same mailboxes ----

  /** The committed files and the fallback store hold the same messages. */
  ghost predicate SameMail(codec: MailCodec, fs: Fs, boxes: Boxes) {
    forall k: Key :: SameAt(codec, fs, boxes, k)
  }

  ghost predicate SameAt(codec: MailCodec, fs: Fs, boxes: Boxes, k: Key) {
    var p := codec.MessagePath(k.mailbox, k.id);
    && (k in boxes <==> p in fs.files)
    && (k in boxes ==> SameContent(codec.decodeMessage(fs.files[p]), Some(boxes[k])))
  }

  predicate SameContent(a: Option<StoredMessage>, b: Option<StoredMessage>) {
    && a.Some? && b.Some? && a.value.mailbox == b.value.mailbox
    && a.value.id == b.value.id && a.value.message == b.value.message && a.value.status == b.value.status
  }

  lemma {:induction false} PutCopiesKeys(boxes: Boxes, copies: seq<StoredMessage>, k: Key)
    ensures k in PutCopies(boxes, copies) <==> k in boxes || exists c :: c in copies && KeyOf(c) == k
    ensures (forall c | c in copies :: KeyOf(c) != k) && k in boxes ==> PutCopies(boxes, copies)[k] == boxes[k]
  {
    if copies != [] {
      PutCopiesKeys(boxes, copies[..|copies| - 1], k);
      assert copies == copies[..|copies| - 1] + [Last(copies)];
    }
  }

  /** Which copy a message path of the batch holds. */
  lemma MessageFileIsCopy(codec: MailCodec, all: seq<StoredMessage>, records: seq<Record>, tx: string, f: File, k: Key)
    requires codec.Lawful() && f in codec.FilesOf(all) + codec.RecordFiles(records, tx)
    requires f.path == codec.MessagePath(k.mailbox, k.id)
    ensures exists c :: c in all && KeyOf(c) == k && f.data == codec.encodeMessage(c)
  {
    var json := k.id + ".json";
    assert json[|json| - 1] == 'n' && codec.MailboxDir(k.mailbox)[0] == 'm' && RECORDS[0] == '.';
    assert forall c: StoredMessage :: Last(codec.RawPath(c.mailbox, c.id)[1]) == 'w';
    FilesMember(codec, all, f);
    assert f in codec.FilesOf(all);
    var c :| c in all && f in codec.CopyFiles(c);
    codec.MessagePathInjective(k.mailbox, k.id, c.mailbox, c.id);
  }

  lemma CopyHasFile(codec: MailCodec, all: seq<StoredMessage>, c: StoredMessage)
    requires c in all
    ensures File(codec.MessagePath(c.mailbox, c.id), codec.encodeMessage(c)) in codec.FilesOf(all)
  {
    FilesMember(codec, all, File(codec.MessagePath(c.mailbox, c.id), codec.encodeMessage(c)));
  }

  /** Two deliveries of the same distinct targets hold the same content under each key. */
  lemma SameCopy(all: seq<StoredMessage>, others: seq<StoredMessage>, targets: seq<Target>, c: StoredMessage,
                 d: StoredMessage)
    requires Delivers(all, targets) && Delivers(others, targets) && DistinctTargets(targets)
    requires c in all && d in others && KeyOf(c) == KeyOf(d)
    ensures SameContent(Some(c), Some(d))
  {
    var i :| 0 <= i < |all| && all[i] == c;
    var j :| 0 <= j < |others| && others[j] == d;
  }

  /**
   A batch published atomically and the same batch fanned out over a fallback store that held
   the same mail leave the same mail: the marker stands for the whole loop of store calls.
   */
  lemma FallbackMatchesAtomic(codec: MailCodec, a: Fs, b: Fs, messages: seq<(string, Message)>, records: seq<Record>,
                              tx: string, all: seq<StoredMessage>, boxes: Boxes, copies: seq<StoredMessage>)
    requires codec.Lawful() && CopiesOf(all, BatchTargets(messages), tx)
    requires Publishes(codec.Journal(), a, b, Batch(tx, codec.FilesOf(all) + codec.RecordFiles(records, tx)))
    requires SameMail(codec, codec.Journal().Recovered(a), boxes) && Delivers(copies, BatchTargets(messages))
    ensures SameMail(codec, codec.Journal().Recovered(b), PutCopies(boxes, copies))
  {
    PublishedIsSeparate(codec, a, b, messages, records, tx, all);
    TargetsDistinct(messages);
    var files := codec.FilesOf(all) + codec.RecordFiles(records, tx);
    var pre, post := codec.Journal().Recovered(a), codec.Journal().Recovered(b);
    assert Ready(codec.Journal(), pre, tx, files) && post == codec.Journal().Published(pre, tx, files);
    hide Publishes, BatchTargets, Separate, Ready, Codec.Published, Codec.Recovered, SameAt;
    forall k: Key ensures SameAt(codec, post, PutCopies(boxes, copies), k) {
      assert SameAt(codec, pre, boxes, k);
      SameMailAt(codec, pre, messages, records, tx, all, boxes, copies, k);
    }
  }

  /** Mailbox sidecars hold no mail. */
  lemma SidecarsKeepMail(codec: MailCodec, a: Fs, b: Fs, boxes: Boxes)
    requires SameButSidecars(a, b) && SameMail(codec, a, boxes)
    ensures SameMail(codec, b, boxes)
  {
    forall k: Key ensures SameAt(codec, b, boxes, k) {
      assert SameAt(codec, a, boxes, k);
      var name := k.id + ".json";
      assert name[|name| - 1] == 'n' && ".mailbox"[7] == 'x' && ".mailbox.tmp"[11] == 'p';
      assert !IsSidecar(codec.MessagePath(k.mailbox, k.id));
    }
  }

  /** A capture that does not publish leaves the mail as it was before the call, in every state. */
  lemma FailedCaptureKeepsMail(codec: MailCodec, trace: seq<Fs>, n: nat, batch: Batch, point: nat, boxes: Boxes, i: nat)
    requires 0 < n <= i < |trace| && i < point && Attempt(codec.Journal(), trace, n, batch, point)
    requires SameMail(codec, codec.Journal().Recovered(trace[n - 1]), boxes)
    ensures SameMail(codec, codec.Journal().Recovered(trace[i]), boxes)
  {
    hide SameMail, Codec.Recovered, Codec.Published, Publishes, SameButSidecars, Marker;
    assert SameMailFiles(codec.Journal(), trace[n - 1], trace[i]);
    SidecarsKeepMail(codec, codec.Journal().Recovered(trace[n - 1]), codec.Journal().Recovered(trace[i]), boxes);
  }

  /**
   The contracts of the two ways to file a batch agree: from the same mail before the calls, a
   capture that publishes and a fan-out that succeeds leave the same mail, and one that does not
   publish leaves the mail as it was.
   */
  lemma CaptureMatchesFanOut(codec: MailCodec, trace: seq<Fs>, n: nat, messages: seq<(string, Message)>,
                             records: seq<Record>, tx: string, all: seq<StoredMessage>, files: seq<File>, point: nat,
                             boxes: Boxes, copies: seq<StoredMessage>)
    requires codec.Lawful() && 0 < n <= |trace| && Attempt(codec.Journal(), trace, n, Batch(tx, files), point)
    requires point < |trace| ==>
      CopiesOf(all, BatchTargets(messages), tx) && files == codec.FilesOf(all) + codec.RecordFiles(records, tx)
    requires SameMail(codec, codec.Journal().Recovered(trace[n - 1]), boxes) && Delivers(copies, BatchTargets(messages))
    ensures SameMail(codec, codec.Journal().Recovered(Last(trace)),
                     if point < |trace| then PutCopies(boxes, copies) else boxes)
  {
    hide SameMail, Codec.Recovered, Codec.Published, Publishes, MailCodec.Journal, MailCodec.Lawful, Marker, CopiesOf;
    hide Delivers;
    var last := |trace| - 1;
    if point < |trace| {
      if point - 1 >= n { FailedCaptureKeepsMail(codec, trace, n, Batch(tx, files), point, boxes, point - 1); }
      FallbackMatchesAtomic(codec, trace[point - 1], trace[point], messages, records, tx, all, boxes, copies);
      assert trace[last] == trace[point];
    } else if n < |trace| {
      FailedCaptureKeepsMail(codec, trace, n, Batch(tx, files), point, boxes, last);
    }
  }

  /** What the journal files when no call fails, the fan-out files from the same mail when no call fails. */
  lemma CapturableIsFileable(codec: MailCodec, start: Fs, messages: seq<(string, Message)>, records: seq<Record>,
                             tx: string, files: seq<File>, all: seq<StoredMessage>, boxes: Boxes)
    requires codec.Lawful() && Decided(codec, start, messages, records, tx, files, all, true)
    requires SameMail(codec, codec.Journal().Recovered(start), boxes)
    ensures Fileable(boxes, messages)
  {
    CaptureSucceedsExactly(codec, start, messages, records, tx, files, all, true);
    hide MailCodec.Lawful, Codec.Recovered, Decided, MailCodec.MessagePath, MailCodec.RawPath, BatchTargets, Usable;
    hide ValidSegment, DistinctIds;
    var pre := codec.Journal().Recovered(start);
    forall k | k in TargetKeys(BatchTargets(messages)) ensures k !in boxes {
      var t :| t in BatchTargets(messages) && Key(t.mailbox, t.id) == k;
      assert SameAt(codec, pre, boxes, k) && CopyFree(codec, pre, t);
    }
  }

  lemma SameMailAt(codec: MailCodec, pre: Fs, messages: seq<(string, Message)>, records: seq<Record>,
                   tx: string, all: seq<StoredMessage>, boxes: Boxes, copies: seq<StoredMessage>, k: Key)
    requires codec.Lawful() && CopiesOf(all, BatchTargets(messages), tx) && DistinctTargets(BatchTargets(messages))
    requires Ready(codec.Journal(), pre, tx, codec.FilesOf(all) + codec.RecordFiles(records, tx))
    requires SameAt(codec, pre, boxes, k) && Delivers(copies, BatchTargets(messages))
    ensures SameAt(codec, codec.Journal().Published(pre, tx, codec.FilesOf(all) + codec.RecordFiles(records, tx)),
                   PutCopies(boxes, copies), k)
  {
    hide Ready, BatchTargets, Codec.Published, PutCopies, MailCodec.MessagePath, MailCodec.Lawful, SameAt;
    hide DistinctTargets;
    if exists c :: c in copies && KeyOf(c) == k {
      TakenKey(codec, pre, codec.FilesOf(all) + codec.RecordFiles(records, tx), tx, BatchTargets(messages), all, boxes,
               copies, k);
    } else {
      forall c | c in all ensures KeyOf(c) != k {
        TakenAt(copies, all, BatchTargets(messages), c);
      }
      FreeKey(codec, pre, records, tx, all, boxes, copies, k);
    }
  }

  /** A key of the batch. */
  lemma TakenKey(codec: MailCodec, pre: Fs, files: seq<File>, tx: string, targets: seq<Target>, all: seq<StoredMessage>,
                 boxes: Boxes, copies: seq<StoredMessage>, k: Key)
    requires codec.Lawful() && Delivers(all, targets) && Delivers(copies, targets) && DistinctTargets(targets)
    requires Ready(codec.Journal(), pre, tx, files) && codec.FilesOf(all) <= files
    requires exists c :: c in copies && KeyOf(c) == k
    ensures SameAt(codec, codec.Journal().Published(pre, tx, files), PutCopies(boxes, copies), k)
  {
    hide Ready, Codec.Published, PutCopies, MailCodec.MessagePath, MailCodec.Lawful, SameContent, DistinctTargets;
    hide Delivers, MailCodec.FilesOf;
    PathPublished(codec, pre, tx, files, k);
    FiledAt(codec, targets, all, boxes, copies, files, k);
  }

  /** A key the batch does not touch. */
  lemma FreeKey(codec: MailCodec, pre: Fs, records: seq<Record>, tx: string, all: seq<StoredMessage>,
                boxes: Boxes, copies: seq<StoredMessage>, k: Key)
    requires codec.Lawful() && Ready(codec.Journal(), pre, tx, codec.FilesOf(all) + codec.RecordFiles(records, tx))
    requires SameAt(codec, pre, boxes, k)
    requires (forall c | c in all :: KeyOf(c) != k) && (forall c | c in copies :: KeyOf(c) != k)
    ensures SameAt(codec, codec.Journal().Published(pre, tx, codec.FilesOf(all) + codec.RecordFiles(records, tx)),
                   PutCopies(boxes, copies), k)
  {
    var files := codec.FilesOf(all) + codec.RecordFiles(records, tx);
    hide Ready, Codec.Published, PutCopies, MailCodec.MessagePath, MailCodec.Lawful, SameContent, MailCodec.FilesOf;
    hide MailCodec.RecordFiles;
    PathPublished(codec, pre, tx, files, k);
    PutCopiesKeys(boxes, copies, k);
    forall f | f in files ensures f.path != codec.MessagePath(k.mailbox, k.id) {
      if f.path == codec.MessagePath(k.mailbox, k.id) { MessageFileIsCopy(codec, all, records, tx, f, k); }
    }
  }

  lemma PathPublished(codec: MailCodec, pre: Fs, tx: string, files: seq<File>, k: Key)
    requires Ready(codec.Journal(), pre, tx, files)
    ensures var p := codec.MessagePath(k.mailbox, k.id);
      var post := codec.Journal().Published(pre, tx, files);
      && (p in pre.files ==> p in post.files && post.files[p] == pre.files[p])
      && (p in post.files ==> p in pre.files || exists f :: f in files && f.path == p)
      && (forall f | f in files && f.path == p :: p in post.files && post.files[p] == f.data)
  {
    var p := codec.MessagePath(k.mailbox, k.id);
    assert |p| == 2 && |IntentFile(tx)| == 3 && |Marker(tx)| == 3;
    hide Ready, Codec.Published, IntentFile, Marker, MailCodec.MessagePath;
    PublishedFiles(codec.Journal(), pre, tx, files, p);
  }

  /** A key of the batch: its file and its fallback copy have the same content. */
  lemma FiledAt(codec: MailCodec, targets: seq<Target>, all: seq<StoredMessage>, boxes: Boxes,
                copies: seq<StoredMessage>, files: seq<File>, k: Key)
    requires codec.Lawful() && Delivers(all, targets) && Delivers(copies, targets) && DistinctTargets(targets)
    requires codec.FilesOf(all) <= files && exists c :: c in copies && KeyOf(c) == k
    ensures k in PutCopies(boxes, copies)
    ensures exists f :: f in files && f.path == codec.MessagePath(k.mailbox, k.id)
                        && SameContent(codec.decodeMessage(f.data), Some(PutCopies(boxes, copies)[k]))
  {
    var c :| c in copies && KeyOf(c) == k;
    TakenAt(all, copies, targets, c);
    var i :| 0 <= i < |all| && KeyOf(all[i]) == k;
    CopyHasFile(codec, all, all[i]);
    HeldAt(boxes, copies, targets, c);
    SameCopy(all, copies, targets, all[i], PutCopies(boxes, copies)[k]);
    hide MailCodec.FilesOf, PutCopies, Delivers, DistinctTargets, MailCodec.MessagePath;
    var f := File(codec.MessagePath(all[i].mailbox, all[i].id), codec.encodeMessage(all[i]));
    assert f in files && codec.decodeMessage(f.data) == Some(all[i]);
  }

  /** Deliveries of the same targets use the same keys. */
  lemma TakenAt(all: seq<StoredMessage>, copies: seq<StoredMessage>, targets: seq<Target>, c: StoredMessage)
    requires Delivers(all, targets) && Delivers(copies, targets) && c in copies
    ensures exists i | 0 <= i < |all| :: KeyOf(all[i]) == KeyOf(c)
  {
    var i :| 0 <= i < |copies| && copies[i] == c;
    assert KeyOf(all[i]) == KeyOf(c);
  }

  lemma HeldAt(boxes: Boxes, copies: seq<StoredMessage>, targets: seq<Target>, c: StoredMessage)
    requires Delivers(copies, targets) && c in copies
    ensures KeyOf(c) in PutCopies(boxes, copies)
    ensures PutCopies(boxes, copies)[KeyOf(c)] in copies && KeyOf(PutCopies(boxes, copies)[KeyOf(c)]) == KeyOf(c)
  {
    var i :| 0 <= i < |copies| && copies[i] == c;
    PutCopiesHolds(boxes, copies, targets, targets[i]);
  }
}
