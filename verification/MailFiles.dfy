/**
 How mail is laid out below a store root (src/mail/filesystem.rs:23-132): mailbox directories
 named by a hash, one JSON document per copy, an optional raw sidecar, and replay records.
 */
module MailFiles {
  import opened Common
  import opened Sorting
  import opened Journal
  import opened History
  import opened Budget

  /** A captured message; `recipients` are the mailbox keys of To, Cc and Bcc in order. */
  datatype Message = Message(recipients: seq<string>, rawMime: Option<Bytes>, body: Bytes)

  /** A message as filed in one mailbox, with the transaction it was captured in. */
  datatype StoredMessage = StoredMessage(id: string, mailbox: string, message: Message, tx: string,
                                         receivedAt: int, status: string)

  datatype Record = Record(key: string, tx: string, result: Bytes)

  /** One copy that a batch has to file. */
  datatype Target = Target(mailbox: string, id: string, message: Message)

  predicate ValidSegment(s: string) {
    s != "" && '/' !in s && '\\' !in s && forall i | 0 < i < |s| :: s[i] != '.' || s[i - 1] != '.'
  }

  /** str::contains on a fixed text. */
  predicate Contains(s: string, t: string) { exists i | 0 <= i <= |s| :: t <= s[i..] }

  /** An id is usable exactly if it is not empty and contains no slash, backslash or double dot. */
  lemma SegmentExactly(s: string)
    ensures ValidSegment(s) <==> s != "" && !Contains(s, "/") && !Contains(s, "\\") && !Contains(s, "..")
  {
    if s != "" {
      HoldsChar(s, '/');
      HoldsChar(s, '\\');
      if i :| 0 < i < |s| && s[i] == '.' && s[i - 1] == '.' { assert ".." <= s[i - 1..]; }
      if i :| 0 <= i <= |s| && ".." <= s[i..] { assert s[i..][0] == s[i] == '.' && s[i..][1] == s[i + 1] == '.'; }
    }
  }

  lemma HoldsChar(s: string, c: char)
    ensures Contains(s, [c]) <==> c in s
  {
    if i :| 0 <= i < |s| && s[i] == c { assert [c] <= s[i..]; }
    if i :| 0 <= i <= |s| && [c] <= s[i..] { assert s[i..][0] == s[i] == c; }
  }

  predicate IsSidecar(p: Path) {
    |p| == 2 && (p[1] == ".mailbox" || p[1] == ".mailbox.tmp")
  }

  /** The same files apart from mailbox sidecars. */
  ghost predicate SameButSidecars(a: Fs, b: Fs) {
    && b.txs == a.txs
    && forall p | !IsSidecar(p) :: (p in a.files <==> p in b.files) && (p in a.files ==> a.files[p] == b.files[p])
  }

  /** The copies of one message: the account-wide mailbox first, then each recipient once, in order. */
  function MessageTargets(id: string, message: Message): seq<Target> {
    var mailboxes := [ALL_MAILBOX] + SortedSet(message.recipients);
    seq(|mailboxes|, i requires 0 <= i < |mailboxes| => Target(mailboxes[i], id, message))
  }

  /** The account-wide copy comes first, then one per recipient in text order, none twice. */
  lemma TargetsInOrder(id: string, message: Message)
    ensures var targets := MessageTargets(id, message);
      && targets != [] && targets[0] == Target("_all", id, message)
      && (forall i | 1 <= i < |targets| ::
            targets[i].mailbox in message.recipients && targets[i] == Target(targets[i].mailbox, id, message))
      && (forall r | r in message.recipients :: exists i | 1 <= i < |targets| :: targets[i].mailbox == r)
      && (forall i, j | 1 <= i < j < |targets| ::
            targets[i].mailbox != targets[j].mailbox && TextBefore(targets[i].mailbox, targets[j].mailbox))
  {
    var boxes, targets := SortedSet(message.recipients), MessageTargets(id, message);
    SortedSetFacts(message.recipients);
    hide SortedSet, TextBefore, StrLe;
    assert forall i | 1 <= i < |targets| :: targets[i].mailbox == boxes[i - 1];
    forall r | r in message.recipients ensures exists i | 1 <= i < |targets| :: targets[i].mailbox == r {
      var k :| 0 <= k < |boxes| && boxes[k] == r;
      assert targets[k + 1].mailbox == r;
    }
    forall i, j | 1 <= i < j < |targets|
      ensures targets[i].mailbox != targets[j].mailbox && TextBefore(targets[i].mailbox, targets[j].mailbox)
    {
      StrLeMeans(boxes[i - 1], boxes[j - 1]);
      assert STR_LE(boxes[i - 1], boxes[j - 1]);
    }
  }

  /** The copies of a batch, message by message. */
  function BatchTargets(messages: seq<(string, Message)>): seq<Target> {
    if messages == [] then []
    else BatchTargets(messages[..|messages| - 1]) + MessageTargets(Last(messages).0, Last(messages).1)
  }

  /** `copies` files exactly `targets`, in order, each as accepted. */
  predicate Delivers(copies: seq<StoredMessage>, targets: seq<Target>) {
    && |copies| == |targets|
    && forall i | 0 <= i < |copies| ::
         && copies[i].mailbox == targets[i].mailbox && copies[i].id == targets[i].id
         && copies[i].message == targets[i].message && copies[i].status == "accepted"
  }

  /** `copies` files exactly `targets`, in order, under transaction `tx`. */
  predicate CopiesOf(copies: seq<StoredMessage>, targets: seq<Target>, tx: string) {
    Delivers(copies, targets) && forall i | 0 <= i < |copies| :: copies[i].tx == tx
  }

  /** The targets a capture reports: all but the account-wide ones. */
  function ShownTargets(targets: seq<Target>): seq<Target> {
    if targets == [] then []
    else ShownTargets(targets[..|targets| - 1]) + if Last(targets).mailbox == ALL_MAILBOX then [] else [Last(targets)]
  }

  /** With nobody keyed after it, only the first, account-wide target is not reported. */
  lemma {:induction false} ShownIsTail(id: string, message: Message, n: nat)
    requires ALL_MAILBOX !in message.recipients && 0 < n <= |MessageTargets(id, message)|
    ensures ShownTargets(MessageTargets(id, message)[..n]) == MessageTargets(id, message)[1..n]
  {
    var targets := MessageTargets(id, message);
    SortedSetFacts(message.recipients);
    hide SortedSet, Sorted, Distinct;
    assert targets[..n][..n - 1] == targets[..n - 1];
    if n == 1 {
      assert ShownTargets(targets[..0]) == [];
    } else {
      ShownIsTail(id, message, n - 1);
      assert targets[n - 1].mailbox == SortedSet(message.recipients)[n - 2];
      assert targets[1..n] == targets[1..n - 1] + [targets[n - 1]];
    }
  }

  /** Hashing and serialisation, as functions of the deployment. */
  datatype MailCodec = MailCodec(
    hash: string -> string,
    text: string -> Bytes,
    encodeIntent: seq<Path> -> Bytes, decodeIntent: Bytes -> Option<seq<Path>>,
    messageJson: Message -> Bytes,
    encodeMessage: StoredMessage -> Bytes, decodeMessage: Bytes -> Option<StoredMessage>,
    encodeRecord: Record -> Bytes, decodeRecord: Bytes -> Option<Record>)
  {
    /** Serialisation round-trips, record and message documents differ, and hashes do not collide. */
    ghost predicate Lawful() {
      && (forall paths :: decodeIntent(encodeIntent(paths)) == Some(paths))
      && (forall m :: decodeMessage(encodeMessage(m)) == Some(m))
      && (forall r :: decodeRecord(encodeRecord(r)) == Some(r) && decodeMessage(encodeRecord(r)) == None)
      && (forall s :: '/' !in hash(s))
      && (forall s, t :: hash(s) == hash(t) ==> s == t)
    }

    function MailboxDir(mailbox: string): string { "mbx-" + hash(mailbox) }
    function MessagePath(mailbox: string, id: string): Path { [MailboxDir(mailbox), id + ".json"] }
    function RawPath(mailbox: string, id: string): Path { [MailboxDir(mailbox), id + ".raw"] }
    function SidecarPath(mailbox: string): Path { [MailboxDir(mailbox), ".mailbox"] }
    function RecordPath(key: string): Path { [RECORDS, hash(key) + ".json"] }

    /** The bytes a reader of `p` can use. */
    predicate Accepts(p: Path, data: Bytes) {
      if p != [] && p[0] == RECORDS then
        decodeMessage(data) == None && decodeRecord(data).Some? && p == RecordPath(decodeRecord(data).value.key)
      else
        decodeMessage(data).Some?
        && p == MessagePath(decodeMessage(data).value.mailbox, decodeMessage(data).value.id)
    }

    /** The transaction a document names. */
    function Tag(data: Bytes): string {
      match decodeMessage(data)
      case Some(m) => m.tx
      case None => (match decodeRecord(data) case Some(r) => r.tx case None => "")
    }

    function Journal(): Codec {
      Codec(encodeIntent, decodeIntent, (p, data) => Accepts(p, data), data => Tag(data))
    }

    function CopyFiles(c: StoredMessage): seq<File> {
      [File(MessagePath(c.mailbox, c.id), encodeMessage(c))]
      + match c.message.rawMime case Some(raw) => [File(RawPath(c.mailbox, c.id), raw)] case None => []
    }

    function FilesOf(copies: seq<StoredMessage>): seq<File> {
      if copies == [] then [] else FilesOf(copies[..|copies| - 1]) + CopyFiles(Last(copies))
    }

    /** record_file, after the record was given its transaction. */
    function RecordFile(r: Record, tx: string): File {
      File(RecordPath(r.key), encodeRecord(r.(tx := tx)))
    }

    function RecordFiles(records: seq<Record>, tx: string): seq<File> {
      seq(|records|, i requires 0 <= i < |records| => RecordFile(records[i], tx))
    }

    // ---- Facts about the layout ----

    lemma MailboxPaths(mailbox: string, id: string)
      requires Lawful() && ValidSegment(id)
      ensures Destination(MessagePath(mailbox, id)) && Document(MessagePath(mailbox, id))
      ensures !Kept(MessagePath(mailbox, id))
      ensures Destination(RawPath(mailbox, id)) && !Document(RawPath(mailbox, id)) && !Kept(RawPath(mailbox, id))
      ensures !IsSidecar(MessagePath(mailbox, id)) && !IsSidecar(RawPath(mailbox, id))
    {
      var dir := MailboxDir(mailbox);
      assert dir[0] == 'm' && JOURNAL[0] == '.' && RECORDS[0] == '.';
      var json, raw := id + ".json", id + ".raw";
      assert json[|json| - 1] == 'n' && raw[|raw| - 1] == 'w' && ".json"[4] == 'n';
      assert ".mailbox"[7] == 'x' && ".mailbox.tmp"[11] == 'p';
      assert NormalComponent(dir) && NormalComponent(json) && NormalComponent(raw);
    }

    lemma SidecarPaths(mailbox: string)
      requires Lawful()
      ensures var p := SidecarPath(mailbox);
        !Kept(p) && !Document(p) && IsSidecar(p) && IsSidecar(TmpPath(p))
    {
      assert MailboxDir(mailbox)[0] == 'm' && JOURNAL[0] == '.' && RECORDS[0] == '.';
      assert ".mailbox"[7] == 'x' && ".json"[4] == 'n';
      assert ".mailbox" + ".tmp" == ".mailbox.tmp";
    }

    lemma SidecarPathsApart(a: string, b: string)
      requires Lawful()
      ensures SidecarPath(a) == SidecarPath(b) ==> a == b
      ensures SidecarPath(a) != TmpPath(SidecarPath(b))
    {
      assert MailboxDir(a)[4..] == hash(a) && MailboxDir(b)[4..] == hash(b);
      assert SidecarPath(a)[0] == MailboxDir(a) && SidecarPath(b)[0] == MailboxDir(b);
      assert |SidecarPath(a)[1]| == 8 && |TmpPath(SidecarPath(b))[1]| == 12;
    }

    lemma RecordPaths(key: string)
      requires Lawful()
      ensures Destination(RecordPath(key)) && Document(RecordPath(key)) && Kept(RecordPath(key))
      ensures !IsSidecar(RecordPath(key))
    {
      var name := hash(key) + ".json";
      assert name[|name| - 1] == 'n' && ".mailbox"[7] == 'x' && ".mailbox.tmp"[11] == 'p';
      assert NormalComponent(name) && NormalComponent(RECORDS);
      assert JOURNAL[1] != RECORDS[1];
    }

    lemma RecordPathInjective(a: string, b: string)
      requires Lawful() && RecordPath(a) == RecordPath(b)
      ensures a == b
    {
      assert RecordPath(a)[1][..|hash(a)|] == hash(a) && RecordPath(b)[1][..|hash(b)|] == hash(b);
      assert |RecordPath(a)[1]| == |hash(a)| + 5 && |RecordPath(b)[1]| == |hash(b)| + 5;
    }

    lemma MessagePathInjective(mailbox: string, id: string, mailbox': string, id': string)
      requires Lawful() && MessagePath(mailbox, id) == MessagePath(mailbox', id')
      ensures mailbox == mailbox' && id == id'
    {
      assert MailboxDir(mailbox)[4..] == hash(mailbox) && MailboxDir(mailbox')[4..] == hash(mailbox');
      assert MessagePath(mailbox, id)[1][..|id|] == id && MessagePath(mailbox', id')[1][..|id'|] == id';
      assert |MessagePath(mailbox, id)[1]| == |id| + 5 && |MessagePath(mailbox', id')[1]| == |id'| + 5;
    }

    lemma RawPathInjective(mailbox: string, id: string, mailbox': string, id': string)
      requires Lawful() && RawPath(mailbox, id) == RawPath(mailbox', id')
      ensures mailbox == mailbox' && id == id'
    {
      assert MailboxDir(mailbox)[4..] == hash(mailbox) && MailboxDir(mailbox')[4..] == hash(mailbox');
      assert RawPath(mailbox, id)[1][..|id|] == id && RawPath(mailbox', id')[1][..|id'|] == id';
      assert |RawPath(mailbox, id)[1]| == |id| + 4 && |RawPath(mailbox', id')[1]| == |id'| + 4;
    }

    /** Messages, raw sidecars and records never share a path. */
    lemma PathKinds(mailbox: string, id: string, mailbox': string, id': string, key: string)
      ensures MessagePath(mailbox, id) != RawPath(mailbox', id')
      ensures MessagePath(mailbox, id) != RecordPath(key) && RawPath(mailbox, id) != RecordPath(key)
    {
      var json, raw := id + ".json", id' + ".raw";
      assert json[|json| - 1] == 'n' && raw[|raw| - 1] == 'w';
      assert MailboxDir(mailbox)[0] == 'm' && RECORDS[0] == '.';
    }

    /** A message's paths are acceptable exactly if its id holds no slash. */
    lemma MessagePathValid(mailbox: string, id: string)
      requires Lawful()
      ensures ValidRelative(MessagePath(mailbox, id)) <==> '/' !in id
      ensures ValidRelative(RawPath(mailbox, id)) <==> '/' !in id
    {
      var dir, json, raw := MailboxDir(mailbox), id + ".json", id + ".raw";
      assert '/' !in "mbx-" && dir[0] == 'm' && NormalComponent(dir);
      assert '/' !in ".json" && '/' !in ".raw";
      assert json[|json| - 1] == 'n' && raw[|raw| - 1] == 'w';
      assert forall i | 0 <= i < |id| :: json[i] == id[i] && raw[i] == id[i];
      assert NormalComponent(json) <==> '/' !in id;
      assert NormalComponent(raw) <==> '/' !in id;
      assert MessagePath(mailbox, id)[0] == RawPath(mailbox, id)[0] == dir;
      assert MessagePath(mailbox, id)[1] == json && RawPath(mailbox, id)[1] == raw;
    }

    /** No mail or record path can be mistaken for a staging name. */
    lemma NotPending(stem: string, suffix: string, tx: string)
      requires TxId(tx) && (suffix == ".json" || suffix == ".raw" || suffix == ".mailbox" || suffix == ".mailbox.tmp")
      ensures !EndsWith(stem + suffix, PendingSuffix(tx))
    {
      var name, pending := stem + suffix, PendingSuffix(tx);
      assert suffix[0] == '.' && name[|name| - |suffix|] == '.';
      assert pending[|pending| - |suffix|] == tx[36 - |suffix|] && tx[36 - |suffix|] in tx;
      assert |pending| <= |name| ==> name[|name| - |pending|..][|pending| - |suffix|] == '.';
    }

    /** What publishing needs of one file of a batch. */
    ghost predicate Publishable(f: File, tx: string) {
      && !Journalled(f.path) && !IsSidecar(f.path) && f.path != [] && !EndsWith(Last(f.path), PendingSuffix(tx))
      && (Document(f.path) ==> Accepts(f.path, f.data) && Tag(f.data) == tx)
    }

    lemma CopyPublishable(c: StoredMessage, tx: string)
      requires Lawful() && ValidSegment(c.id) && c.tx == tx && TxId(tx)
      ensures forall f | f in CopyFiles(c) :: Publishable(f, tx)
    {
      MailboxPaths(c.mailbox, c.id);
      NotPending(c.id, ".json", tx);
      NotPending(c.id, ".raw", tx);
      assert decodeMessage(encodeMessage(c)) == Some(c);
      hide ValidSegment, Document, EndsWith, PendingSuffix;
    }

    lemma {:induction false} CopiesPublishable(copies: seq<StoredMessage>, tx: string)
      requires Lawful() && TxId(tx) && forall c | c in copies :: ValidSegment(c.id) && c.tx == tx
      ensures forall f | f in FilesOf(copies) :: Publishable(f, tx)
    {
      if copies != [] {
        CopiesPublishable(copies[..|copies| - 1], tx);
        CopyPublishable(Last(copies), tx);
      }
    }

    lemma RecordsPublishable(records: seq<Record>, tx: string)
      requires Lawful() && TxId(tx)
      ensures forall f | f in RecordFiles(records, tx) :: Publishable(f, tx)
    {
      forall f | f in RecordFiles(records, tx) ensures Publishable(f, tx) {
        var i :| 0 <= i < |records| && f == RecordFile(records[i], tx);
        RecordPaths(records[i].key);
        NotPending(hash(records[i].key), ".json", tx);
        assert decodeRecord(encodeRecord(records[i].(tx := tx))) == Some(records[i].(tx := tx));
      }
    }
  }

  /** A transaction id that is new to a store. */
  ghost predicate NewTx(fs: Fs, tx: string) {
    TxId(tx) && tx !in fs.txs && forall p | p in fs.files :: p != [] ==> !EndsWith(Last(p), PendingSuffix(tx))
  }

  lemma SidecarsKeepNewTx(codec: MailCodec, a: Fs, b: Fs, tx: string)
    requires SameButSidecars(a, b) && NewTx(a, tx)
    ensures NewTx(b, tx)
  {
    codec.NotPending("", ".mailbox", tx);
    codec.NotPending("", ".mailbox.tmp", tx);
    assert "" + ".mailbox" == ".mailbox" && "" + ".mailbox.tmp" == ".mailbox.tmp";
    hide EndsWith, PendingSuffix;
  }

  lemma SidecarsTransitive(a: Fs, b: Fs, c: Fs)
    requires SameButSidecars(a, b) && SameButSidecars(b, c)
    ensures SameButSidecars(a, c)
  {
    hide IsSidecar;
  }
}
