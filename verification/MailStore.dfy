/**
 The filesystem mail store (src/mail/filesystem.rs): its writers. Every method keeps
 `Valid()`, which says that all states the disk has ever been in form one run.
 */
module MailStoreModel {
  import opened Common
  import opened Sorting
  import opened Journal
  import opened DiskModel
  import Capture
  import opened History
  import opened Budget
  import opened MailFiles

  datatype Error = TooLarge | InvalidRequest | Internal
  datatype Result<+T> = Ok(value: T) | Err(error: Error)

  // ---- Runs grow by edits of one file ----

  /** `b` is `a` with the file `p`, and perhaps its temporary file, written; documents are not created. */
  ghost predicate RewriteOf(codec: Codec, a: Fs, b: Fs, p: Path) {
    && b.txs == a.txs && AgreeOff(a, b, p) && Rewrites(codec, a, b, p)
    && (Document(p) ==> (p in a.files <==> p in b.files))
  }

  lemma RewritesExtendChain(codec: Codec, trace: seq<Fs>, n: nat, p: Path)
    requires 0 < n <= |trace| && Chain(codec, trace[..n]) && p != [] && !Kept(p)
    requires forall i | n <= i < |trace| :: RewriteOf(codec, trace[n - 1], trace[i], p)
    ensures Chain(codec, trace)
  {
    hide Codec.Inv, Codec.Recovered, Document;
    assert forall i | 0 <= i < n :: trace[..n][i] == trace[i];
    var base := trace[n - 1];
    forall i | n <= i < |trace| ensures codec.Inv(trace[i]) {
      assert RewriteOf(codec, base, trace[i], p);
      EditIsStep(codec, base, trace[i], p);
    }
    forall i | n <= i < |trace| ensures Linked(codec, trace[i - 1], trace[i]) {
      assert RewriteOf(codec, base, trace[i], p);
      assert i > n ==> RewriteOf(codec, base, trace[i - 1], p);
      EditIsStep(codec, trace[i - 1], trace[i], p);
    }
  }

  lemma RemovalExtendsChain(codec: Codec, trace: seq<Fs>, p: Path)
    requires |trace| > 0 && Chain(codec, trace) && p != [] && !Kept(p)
    ensures Chain(codec, trace + [Without(Last(trace), p)])
  {
    hide Codec.Inv, Codec.Recovered, Document;
    assert codec.Inv(trace[|trace| - 1]);
    EditIsStep(codec, Last(trace), Without(Last(trace), p), p);
  }

  lemma StandingExtendsChain(codec: Codec, trace: seq<Fs>)
    requires |trace| > 0 && Chain(codec, trace)
    ensures Chain(codec, trace + [Last(trace)])
  {
    hide Codec.Inv, Codec.Recovered;
    assert codec.Inv(trace[|trace| - 1]);
    assert Linked(codec, Last(trace), Last(trace));
  }

  // ---- Files that are replaced whole ----

  /** `p` is in `b` as it is in `a`. */
  ghost predicate SameFile(a: Fs, b: Fs, p: Path) {
    (p in a.files <==> p in b.files) && (p in a.files ==> b.files[p] == a.files[p])
  }

  /** `p` is as it was in `a`, or holds exactly `data`. */
  ghost predicate OldOrNew(a: Fs, b: Fs, p: Path, data: Bytes) {
    SameFile(a, b, p) || (p in b.files && b.files[p] == data)
  }

  /** The document `p` is as it was in `a`, or differs in its status only. */
  ghost predicate OldOrNewStatus(codec: MailCodec, a: Fs, b: Fs, p: Path, status: string) {
    SameFile(a, b, p) || HasStatus(codec, a, b, p, status)
  }

  ghost predicate HasStatus(codec: MailCodec, a: Fs, b: Fs, p: Path, status: string) {
    && p in a.files && codec.decodeMessage(a.files[p]).Some? && p in b.files
    && codec.decodeMessage(b.files[p]) == Some(codec.decodeMessage(a.files[p]).value.(status := status))
  }

  /** The mailbox has no sidecar yet, or one with its own address. */
  ghost predicate SidecarFits(codec: MailCodec, fs: Fs, mailbox: string) {
    codec.SidecarPath(mailbox) in fs.files ==> fs.files[codec.SidecarPath(mailbox)] == codec.text(mailbox)
  }

  /** Only sidecars differ, and the same mailboxes can be used. */
  ghost predicate SidecarStep(codec: MailCodec, a: Fs, b: Fs) {
    SameButSidecars(a, b) && forall m :: SidecarFits(codec, a, m) <==> SidecarFits(codec, b, m)
  }

  /** A copy for this mailbox can be prepared. */
  ghost predicate Usable(codec: MailCodec, fs: Fs, mailbox: string) {
    mailbox != "" && SidecarFits(codec, fs, mailbox)
  }

  lemma UsableAfter(codec: MailCodec, a: Fs, b: Fs)
    requires SidecarStep(codec, a, b)
    ensures forall m :: Usable(codec, a, m) <==> Usable(codec, b, m)
  {
    hide SidecarFits, SameButSidecars;
  }

  ghost predicate AllUsable(codec: MailCodec, fs: Fs, mailboxes: seq<string>) {
    forall m | m in mailboxes :: Usable(codec, fs, m)
  }

  lemma UsableNext(codec: MailCodec, a: Fs, b: Fs, mailboxes: seq<string>, i: nat)
    requires SidecarStep(codec, a, b) && i < |mailboxes|
    ensures AllUsable(codec, a, mailboxes[..i + 1]) <==>
      AllUsable(codec, a, mailboxes[..i]) && Usable(codec, b, mailboxes[i])
    ensures AllUsable(codec, a, mailboxes) ==> Usable(codec, b, mailboxes[i])
  {
    UsableAfter(codec, a, b);
    hide Usable, SidecarStep;
    assert mailboxes[..i + 1] == mailboxes[..i] + [mailboxes[i]];
  }

  /** Every copy of this message can be prepared. */
  ghost predicate Preparable(codec: MailCodec, fs: Fs, id: string, message: Message) {
    && message.recipients != [] && ValidSegment(id)
    && Usable(codec, fs, ALL_MAILBOX) && forall t | t in message.recipients :: Usable(codec, fs, t)
  }

  lemma PreparableId(codec: MailCodec, fs: Fs, id: string, message: Message)
    requires Preparable(codec, fs, id, message)
    ensures ValidSegment(id)
  {
  }

  ghost predicate AllPreparable(codec: MailCodec, fs: Fs, messages: seq<(string, Message)>) {
    forall k | 0 <= k < |messages| :: Preparable(codec, fs, messages[k].0, messages[k].1)
  }

  lemma PreparableAfter(codec: MailCodec, a: Fs, b: Fs, id: string, message: Message)
    requires SidecarStep(codec, a, b)
    ensures Preparable(codec, a, id, message) <==> Preparable(codec, b, id, message)
  {
    UsableAfter(codec, a, b);
    hide Usable, SidecarStep, ValidSegment;
  }

  lemma StepFacts(codec: MailCodec, a: Fs, b: Fs, tx: string)
    requires SidecarStep(codec, a, b) && NewTx(a, tx)
    ensures NewTx(b, tx) && TxId(tx)
  {
    SidecarsKeepNewTx(codec, a, b, tx);
    hide EndsWith, PendingSuffix;
  }

  lemma SidecarWritten(codec: MailCodec, a: Fs, b: Fs, mailbox: string)
    requires codec.Lawful() && codec.SidecarPath(mailbox) !in a.files
    requires RewriteOf(codec.Journal(), a, b, codec.SidecarPath(mailbox))
    requires OldOrNew(a, b, codec.SidecarPath(mailbox), codec.text(mailbox))
    ensures SidecarStep(codec, a, b)
  {
    codec.SidecarPaths(mailbox);
    RewriteIsSidecar(codec.Journal(), a, b, codec.SidecarPath(mailbox));
    forall m ensures SidecarFits(codec, a, m) <==> SidecarFits(codec, b, m) {
      codec.SidecarPathsApart(m, mailbox);
    }
    hide SameButSidecars;
  }

  lemma TmpIsElsewhere(p: Path)
    requires p != [] && !Kept(p)
    ensures TmpPath(p) != p
  {
    TmpIsSeparate(p);
  }

  lemma TmpIsRewrite(codec: Codec, a: Fs, p: Path, data: Bytes)
    requires p != [] && !Kept(p) && codec.Inv(a)
    ensures RewriteOf(codec, a, a, p) && RewriteOf(codec, a, With(a, TmpPath(p), data), p)
  {
    TmpIsSeparate(p);
    assert codec.Whole(a);
    hide TmpPath, Document, Kept, Codec.Inv;
    var b := With(a, TmpPath(p), data);
    assert Rewrites(codec, a, a, p) && Rewrites(codec, a, b, p);
    hide Rewrites, Codec.Whole;
    assert AgreeOff(a, a, p) && AgreeOff(a, b, p);
  }

  class MailStore {
    const codec: MailCodec
    const disk: Disk

    ghost predicate Valid()
      reads this, disk
    {
      codec.Lawful() && disk.Valid() && Chain(codec.Journal(), disk.trace)
    }

    /** Wraps a disk whose history is a run; `Reopen` completes the opening. */
    constructor (codec: MailCodec, disk: Disk)
      requires codec.Lawful() && disk.Valid() && Chain(codec.Journal(), disk.trace)
      ensures Valid() && this.codec == codec && this.disk == disk
    {
      this.codec := codec;
      this.disk := disk;
    }

    /** The part of `open` that runs recovery. */
    method Reopen() returns (ok: bool)
      requires Valid()
      modifies disk
      ensures Valid() && old(disk.trace) <= disk.trace
      ensures codec.Journal().Recovered(disk.fs) == codec.Journal().Recovered(old(disk.fs))
      ensures ok ==> disk.fs == codec.Journal().Recovered(old(disk.fs))
    {
      hide Codec.Recovered, Codec.Inv, Linked;
      ghost var n := |disk.trace|;
      ghost var before := disk.trace;
      assert codec.Journal().Inv(disk.trace[n - 1]);
      LastIsSane(codec.Journal(), disk.trace);
      var r := Capture.Recover(codec.Journal(), disk);
      assert disk.trace[..n] == before;
      RecoveryExtendsChain(codec.Journal(), disk.trace, n);
      ok := r == Capture.Ok;
    }

    /** An operation without an effect on files: reading one, or creating a directory. */
    method Touch() returns (ok: bool)
      requires Valid()
      modifies disk
      ensures Valid() && disk.fs == old(disk.fs) && disk.trace == old(disk.trace) + [disk.fs]
      ensures old(disk.faults) <= disk.faults && (ok <==> disk.faults == old(disk.faults))
    {
      StandingExtendsChain(codec.Journal(), disk.trace);
      ok := disk.Scan();
    }

    /** remove_file, where absence is not an error. */
    method RemoveFile(p: Path) returns (ok: bool)
      requires Valid() && p != [] && !Kept(p)
      modifies disk
      ensures Valid() && disk.trace == old(disk.trace) + [disk.fs]
      ensures disk.fs == old(disk.fs) || disk.fs == Without(old(disk.fs), p)
      ensures ok ==> disk.fs == Without(old(disk.fs), p)
      ensures old(disk.faults) <= disk.faults && (ok <==> disk.faults == old(disk.faults))
    {
      RemovalExtendsChain(codec.Journal(), disk.trace, p);
      StandingExtendsChain(codec.Journal(), disk.trace);
      ok := disk.RemoveIfPresent(p);
    }

    /** delete_message: the document, then its raw sidecar. */
    method DeleteMessage(mailbox: string, id: string) returns (ok: bool)
      requires Valid()
      modifies disk
      ensures Valid() && old(disk.trace) <= disk.trace
      ensures old(disk.faults) <= disk.faults
      ensures ok <==> mailbox != "" && ValidSegment(id) && disk.faults == old(disk.faults)
      ensures ok ==>
        disk.fs == Without(Without(old(disk.fs), codec.MessagePath(mailbox, id)), codec.RawPath(mailbox, id))
      ensures mailbox == "" || !ValidSegment(id) ==> disk.trace == old(disk.trace)
      ensures disk.fs == old(disk.fs) || disk.fs == Without(old(disk.fs), codec.MessagePath(mailbox, id))
        || disk.fs == Without(Without(old(disk.fs), codec.MessagePath(mailbox, id)), codec.RawPath(mailbox, id))
    {
      if mailbox == "" || !ValidSegment(id) { return false; }
      codec.MailboxPaths(mailbox, id);
      ok := RemoveFile(codec.MessagePath(mailbox, id));
      if !ok { return; }
      ok := RemoveFile(codec.RawPath(mailbox, id));
    }

    /** update_delivery_status: rewrites the document with a new status and nothing else. */
    method UpdateDeliveryStatus(mailbox: string, id: string, status: string) returns (ok: bool)
      requires Valid()
      modifies disk
      ensures Valid() && old(disk.trace) <= disk.trace
      ensures forall i | |old(disk.trace)| <= i < |disk.trace| ::
        && AgreeOff(old(disk.fs), disk.trace[i], codec.MessagePath(mailbox, id))
        && OldOrNewStatus(codec, old(disk.fs), disk.trace[i], codec.MessagePath(mailbox, id), status)
      ensures AgreeOff(old(disk.fs), disk.fs, codec.MessagePath(mailbox, id))
      ensures ok ==> HasStatus(codec, old(disk.fs), disk.fs, codec.MessagePath(mailbox, id), status)
      ensures !ok ==> SameFile(old(disk.fs), disk.fs, codec.MessagePath(mailbox, id))
      ensures old(disk.faults) <= disk.faults
      ensures ok <==>
        && mailbox != "" && ValidSegment(id) && codec.MessagePath(mailbox, id) in old(disk.fs).files
        && disk.faults == old(disk.faults)
    {
      hide Chain, MailCodec.Lawful, ValidSegment;
      var p := codec.MessagePath(mailbox, id);
      SameAgrees(disk.fs, p);
      if mailbox == "" || !ValidSegment(id) { return false; }
      ok := Touch();
      if !ok || p !in disk.fs.files { return false; }
      ok := RewriteStatus(mailbox, id, status);
    }

    /** The rewrite of a document that was read. */
    method RewriteStatus(mailbox: string, id: string, status: string) returns (ok: bool)
      requires Valid() && ValidSegment(id) && codec.MessagePath(mailbox, id) in disk.fs.files
      modifies disk
      ensures Valid() && old(disk.trace) <= disk.trace
      ensures forall i | |old(disk.trace)| <= i < |disk.trace| ::
        && AgreeOff(old(disk.fs), disk.trace[i], codec.MessagePath(mailbox, id))
        && OldOrNewStatus(codec, old(disk.fs), disk.trace[i], codec.MessagePath(mailbox, id), status)
      ensures AgreeOff(old(disk.fs), disk.fs, codec.MessagePath(mailbox, id))
      ensures ok ==> HasStatus(codec, old(disk.fs), disk.fs, codec.MessagePath(mailbox, id), status)
      ensures !ok ==> SameFile(old(disk.fs), disk.fs, codec.MessagePath(mailbox, id))
      ensures old(disk.faults) <= disk.faults && (ok <==> disk.faults == old(disk.faults))
    {
      ghost var start := disk.fs;
      var p := codec.MessagePath(mailbox, id);
      codec.MailboxPaths(mailbox, id);
      DocumentDecodes(codec, disk.trace, p);
      var stored := codec.decodeMessage(disk.fs.files[p]).value;
      var data := codec.encodeMessage(stored.(status := status));
      assert codec.decodeMessage(data) == Some(stored.(status := status));
      assert Rewrites(codec.Journal(), start, With(start, p, data), p);
      hide Document, ValidSegment, Chain, MailCodec.MessagePath, MailCodec.Lawful, MailCodec.Journal, Kept, AgreeOff;
      ok := WriteAtomic(p, data);
    }

    /** ensure_mailbox_dir: records the address beside the mailbox's files. */
    method EnsureMailboxDir(mailbox: string) returns (r: Result<()>)
      requires Valid()
      modifies disk
      ensures Valid() && old(disk.trace) <= disk.trace
      ensures SidecarStep(codec, old(disk.fs), disk.fs)
      ensures SidecarsOnly(codec, old(disk.fs), disk.trace, |old(disk.trace)|)
      ensures r != Err(TooLarge)
      ensures old(disk.faults) <= disk.faults
      ensures r.Ok? <==> Usable(codec, old(disk.fs), mailbox) && disk.faults == old(disk.faults)
      ensures disk.faults == old(disk.faults) && r == Err(Internal) ==> !SidecarFits(codec, old(disk.fs), mailbox)
      ensures mailbox == "" ==> r == Err(InvalidRequest)
      ensures r.Ok? ==> codec.SidecarPath(mailbox) in disk.fs.files
      ensures r.Ok? ==> disk.fs.files[codec.SidecarPath(mailbox)] == codec.text(mailbox)
    {
      SameIsSame(codec, disk.fs, disk.trace);
      if mailbox == "" { return Err(InvalidRequest); }
      var p := codec.SidecarPath(mailbox);
      codec.SidecarPaths(mailbox);
      hide Document, Chain, MailCodec.Journal, MailCodec.Lawful, IsSidecar, Kept, MailCodec.SidecarPath, TmpPath;
      hide SidecarStep, RewriteOf, OldOrNew;
      var ok := Touch();
      if !ok { return Err(Internal); }
      if p in disk.fs.files {
        return if disk.fs.files[p] == codec.text(mailbox) then Ok(()) else Err(Internal);
      }
      ok := WriteAtomic(p, codec.text(mailbox));
      forall s | RewriteOf(codec.Journal(), old(disk.fs), s, p) && OldOrNew(old(disk.fs), s, p, codec.text(mailbox))
        ensures SidecarStep(codec, old(disk.fs), s)
      {
        SidecarWritten(codec, old(disk.fs), s, mailbox);
      }
      r := if ok then Ok(()) else Err(Internal);
    }

    /** prepare_copy: one copy and the files that hold it. */
    method PrepareCopy(mailbox: string, id: string, message: Message, tx: string)
      returns (r: Result<StoredMessage>, files: seq<File>)
      requires Valid()
      modifies disk
      ensures Valid() && old(disk.trace) <= disk.trace
      ensures SidecarStep(codec, old(disk.fs), disk.fs)
      ensures SidecarsOnly(codec, old(disk.fs), disk.trace, |old(disk.trace)|)
      ensures old(disk.faults) <= disk.faults
      ensures r != Err(TooLarge)
      ensures r.Ok? <==> Usable(codec, old(disk.fs), mailbox) && ValidSegment(id) && disk.faults == old(disk.faults)
      ensures disk.faults == old(disk.faults) && r == Err(Internal) ==> !SidecarFits(codec, old(disk.fs), mailbox)
      ensures r.Ok? ==> CopiesOf([r.value], [Target(mailbox, id, message)], tx) && r.value.status == "accepted"
      ensures r.Ok? ==> files == codec.CopyFiles(r.value)
    {
      hide SidecarStep, SidecarsOnly, Usable, Chain, MailCodec.Lawful, MailCodec.Journal, ValidSegment, SidecarFits;
      hide MailCodec.MessagePath, MailCodec.RawPath, MailCodec.SidecarPath;
      files := [];
      var made := EnsureMailboxDir(mailbox);
      if made.Err? { return Err(made.error), []; }
      if !ValidSegment(id) { return Err(InvalidRequest), []; }
      var now: int := *;
      var stored := StoredMessage(id, mailbox, message, tx, now, "accepted");
      files := [File(codec.MessagePath(mailbox, id), codec.encodeMessage(stored))];
      if stored.message.rawMime.Some? {
        files := files + [File(codec.RawPath(mailbox, id), stored.message.rawMime.value)];
      }
      r := Ok(stored);
    }

    /** Prepares every copy of one message; `all` also holds the account-wide copy. */
    method PrepareMessage(id: string, message: Message, tx: string)
      returns (r: Result<seq<StoredMessage>>, files: seq<File>, ghost all: seq<StoredMessage>)
      requires Valid()
      modifies disk
      ensures Valid() && old(disk.trace) <= disk.trace
      ensures SidecarStep(codec, old(disk.fs), disk.fs)
      ensures SidecarsOnly(codec, old(disk.fs), disk.trace, |old(disk.trace)|)
      ensures old(disk.faults) <= disk.faults
      ensures r != Err(TooLarge) && (message.recipients == [] ==> r == Err(InvalidRequest))
      ensures r.Ok? <==> Preparable(codec, old(disk.fs), id, message) && disk.faults == old(disk.faults)
      ensures r.Ok? ==> CopiesOf(all, MessageTargets(id, message), tx)
      ensures r.Ok? ==> files == codec.FilesOf(all) && r.value == Filed(all)
    {
      hide MailCodec.Lawful, Chain, SidecarStep, SidecarsOnly, ValidSegment, MailCodec.CopyFiles, SortedSet;
      SameIsSame(codec, disk.fs, disk.trace);
      files, all := [], [];
      var targets := SortedSet(message.recipients);
      SortedSetFacts(message.recipients);
      AppendNothing(codec, tx);
      hide MailCodec.FilesOf, Filed, CopiesOf, Sorted, Distinct, Usable;
      if targets == [] { return Err(InvalidRequest), [], []; }
      targets := [ALL_MAILBOX] + targets;
      r, files, all := PrepareTargets(targets, id, message, tx);
    }

    /** Prepares one copy per target, the account-wide mailbox first. */
    method PrepareTargets(targets: seq<string>, id: string, message: Message, tx: string)
      returns (r: Result<seq<StoredMessage>>, files: seq<File>, ghost all: seq<StoredMessage>)
      requires Valid() && targets == [ALL_MAILBOX] + SortedSet(message.recipients)
      modifies disk
      ensures Valid() && old(disk.trace) <= disk.trace
      ensures SidecarStep(codec, old(disk.fs), disk.fs)
      ensures SidecarsOnly(codec, old(disk.fs), disk.trace, |old(disk.trace)|)
      ensures old(disk.faults) <= disk.faults
      ensures r != Err(TooLarge)
      ensures r.Ok? <==>
        AllUsable(codec, old(disk.fs), targets) && ValidSegment(id) && disk.faults == old(disk.faults)
      ensures r.Ok? ==> CopiesOf(all, MessageTargets(id, message), tx)
      ensures r.Ok? ==> files == codec.FilesOf(all) && r.value == Filed(all)
    {
      hide MailCodec.Lawful, Chain, SidecarStep, SidecarsOnly, ValidSegment, MailCodec.CopyFiles, SortedSet;
      hide MailCodec.Journal;
      SameIsSame(codec, disk.fs, disk.trace);
      AppendNothing(codec, tx);
      ghost var plan := MessageTargets(id, message);
      assert |plan| == |targets| && forall i | 0 <= i < |plan| :: plan[i] == Target(targets[i], id, message);
      assert plan[..0] == [];
      files, all := [], [];
      var copies := [];
      assert PreparedSoFar(codec, all, plan, 0, tx, files, copies);
      assert targets[..0] == [];
      hide PreparedSoFar, MessageTargets, CopiesOf, Usable, AllUsable, Filed, MailCodec.FilesOf;
      for i := 0 to |targets|
        invariant Valid() && old(disk.trace) <= disk.trace && SidecarStep(codec, old(disk.fs), disk.fs)
        invariant SidecarsOnly(codec, old(disk.fs), disk.trace, |old(disk.trace)|)
        invariant PreparedSoFar(codec, all, plan, i, tx, files, copies) && (i > 0 ==> ValidSegment(id))
        invariant disk.faults == old(disk.faults) && AllUsable(codec, old(disk.fs), targets[..i])
      {
        ghost var before, past := disk.fs, disk.trace;
        UsableNext(codec, old(disk.fs), before, targets, i);
        var stored, copyFiles := PrepareCopy(targets[i], id, message, tx);
        SidecarsJoin(codec, old(disk.fs), before, disk.fs, past, disk.trace, |old(disk.trace)|);
        if stored.Err? { return Err(stored.error), [], []; }
        PreparedNext(codec, all, plan, i, tx, files, copies, stored.value);
        files := files + copyFiles;
        if targets[i] != ALL_MAILBOX {
          copies := copies + [stored.value];
        }
        all := all + [stored.value];
      }
      PreparedAll(codec, all, plan, tx, files, copies);
      assert targets[..|targets|] == targets;
      r := Ok(copies);
    }

    /** Hands a prepared batch to the journal. */
    method Publish(files: seq<File>, tx: string) returns (error: Option<Error>, ghost point: nat)
      requires Valid() && NewTx(disk.fs, tx) && forall f | f in files :: codec.Publishable(f, tx)
      modifies disk
      ensures Valid() && old(disk.trace) < disk.trace
      ensures Attempt(codec.Journal(), disk.trace, |old(disk.trace)|, Batch(tx, files), point)
      ensures error == None ==> point < |disk.trace|
      ensures old(disk.faults) <= disk.faults
      ensures disk.faults == old(disk.faults) ==>
        error == if Admissible(codec.Journal().Recovered(old(disk.fs)), files) then None else Some(InvalidRequest)
      ensures error == Some(InvalidRequest) ==> !Admissible(codec.Journal().Recovered(old(disk.fs)), files)
      ensures error != Some(TooLarge)
      ensures error.Some? && point >= |disk.trace| && disk.refused == old(disk.refused) ==>
        disk.fs == codec.Journal().Recovered(old(disk.fs))
    {
      ghost var before, n := disk.trace, |disk.trace|;
      ghost var pre := codec.Journal().Recovered(disk.fs);
      LastIsSane(codec.Journal(), disk.trace);
      JournalIsLawful(codec);
      PublishableBatch(codec, disk.fs, files, tx);
      hide Codec.Recovered, Codec.Inv, Codec.Published, Capture.Ready, Linked, MailCodec.Journal, MailCodec.Lawful;
      hide MailCodec.Publishable, NewTx, FreshId, Codec.AcceptsAll, Codec.Lawful, Marker;
      var r;
      r, point := Capture.Commit(codec.Journal(), disk, tx, files);
      assert disk.trace[..n] == before;
      CommitExtendsChain(codec.Journal(), disk.trace, n, Batch(tx, files), point);
      PhasesAreAttempt(codec.Journal(), disk.trace, n, Batch(tx, files), point);
      error := match r
        case Ok => None
        case Err(e) => Some(if e == Capture.InvalidRequest then InvalidRequest else Internal);
    }

    /** store_message: a batch of one copy. */
    method StoreMessage(mailbox: string, id: string, message: Message, tx: string)
      returns (r: Result<StoredMessage>, files: seq<File>, ghost point: nat)
      requires Valid() && NewTx(disk.fs, tx) && Sizes(codec, [(id, message)], []) && Length(|mailbox|)
      requires Length(|id| + ENVELOPE_BYTES)
      modifies disk
      ensures Valid() && old(disk.trace) <= disk.trace
      ensures r == Err(TooLarge) <==> OneCopyTotal(codec, mailbox, id, message) > MAX_CAPTURE_BYTES
      ensures r == Err(TooLarge) ==> disk.trace == old(disk.trace)
      ensures Attempt(codec.Journal(), disk.trace, |old(disk.trace)|, Batch(tx, files), point)
      ensures r.Ok? ==> point < |disk.trace| && files == codec.CopyFiles(r.value)
      ensures r.Ok? ==> CopiesOf([r.value], [Target(mailbox, id, message)], tx) && r.value.status == "accepted"
      ensures r != Err(TooLarge) && disk.faults == old(disk.faults) ==>
        (r.Ok? <==>
           && Usable(codec, old(disk.fs), mailbox) && ValidSegment(id)
           && Admissible(codec.Journal().Recovered(old(disk.fs)), files))
      ensures disk.faults == old(disk.faults) && r == Err(Internal) ==> !SidecarFits(codec, old(disk.fs), mailbox)
    {
      hide Chain, MailCodec.Lawful, SidecarStep, SidecarsOnly, NewTx, ValidSegment, Marker, Usable, Admissible;
      hide MailCodec.Publishable, CopiesOf, MailCodec.CopyFiles, Attempt;
      files, point := [], |disk.trace|;
      AttemptNothing(codec.Journal(), disk.trace, Batch(tx, []));
      assert (id, message) in [(id, message)];
      var ok := CheckSingleCopy(Charge(codec, message), mailbox, id);
      if !ok { return Err(TooLarge), [], point; }
      ghost var start, n := disk.fs, |disk.trace|;
      r, files := PrepareCopy(mailbox, id, message, tx);
      NoMarkerYet(codec, start, tx, disk.trace, n, if r.Err? then [] else files);
      point := |disk.trace|;
      if r.Err? { return r, [], point; }
      StepFacts(codec, start, disk.fs, tx);
      CopyTags([r.value], [Target(mailbox, id, message)], tx);
      assert [r.value][0] == r.value && [Target(mailbox, id, message)][0].id == id;
      codec.CopyPublishable(r.value, tx);
      AdmissibleAfter(codec, start, disk.fs, files, tx);
      ghost var past := disk.trace;
      var error;
      error, point := Publish(files, tx);
      AttemptJoin(codec.Journal(), past, disk.trace, n, Batch(tx, files), point);
      if error.Some? { r := Err(error.value); }
    }

    /** capture_batch */
    method CaptureBatch(messages: seq<(string, Message)>, records: seq<Record>, tx: string)
      returns (r: Result<seq<seq<StoredMessage>>>, files: seq<File>, ghost all: seq<StoredMessage>, ghost point: nat)
      requires Valid() && NewTx(disk.fs, tx) && Sizes(codec, messages, records)
      modifies disk
      ensures Valid() && old(disk.trace) <= disk.trace
      ensures r == Err(TooLarge) <==>
        MailTotal(Charges(codec, messages), RecordCharges(codec, records)) > MAX_CAPTURE_BYTES
      ensures r == Err(TooLarge) ==> disk.trace == old(disk.trace)
      ensures Attempt(codec.Journal(), disk.trace, |old(disk.trace)|, Batch(tx, files), point)
      ensures files == [] || files == codec.FilesOf(all) + codec.RecordFiles(records, tx)
      ensures files != [] || point < |disk.trace| ==> CopiesOf(all, BatchTargets(messages), tx)
      ensures point < |disk.trace| ==> files == codec.FilesOf(all) + codec.RecordFiles(records, tx)
      ensures r.Ok? ==> point < |disk.trace| && |r.value| == |messages|
      ensures r.Ok? ==> forall k | 0 <= k < |messages| :: Reported(r.value[k], messages[k].0, messages[k].1, tx)
      ensures point < |disk.trace| ==> AllAccepted(all)
      ensures r.Ok? ==> forall k | 0 <= k < |messages| :: AllAccepted(r.value[k])
      ensures old(disk.faults) <= disk.faults
      ensures r != Err(TooLarge) && disk.faults == old(disk.faults) ==>
        Decided(codec, old(disk.fs), messages, records, tx, files, all, r.Ok?)
      ensures r != Err(TooLarge) && disk.faults == old(disk.faults) && AllPreparable(codec, old(disk.fs), messages) ==>
        r.Ok? || r == Err(InvalidRequest)
    {
      hide MailCodec.Lawful, NewTx, CopiesOf, Reported, Attempt, Decided, MailCodec.FilesOf, BatchTargets, AllAccepted;
      files, all, point := [], [], |disk.trace|;
      AttemptNothing(codec.Journal(), disk.trace, Batch(tx, []));
      SizesAreLengths(codec, messages, records);
      var ok := CheckMail(Charges(codec, messages), RecordCharges(codec, records));
      if !ok { return Err(TooLarge), [], [], point; }
      hide MailTotal, Charges, RecordCharges, Sizes, Chain;
      r, files, all, point := FileBatch(messages, records, tx);
    }

    /** A batch within its budget: every copy is prepared, then all are published. */
    method FileBatch(messages: seq<(string, Message)>, records: seq<Record>, tx: string)
      returns (r: Result<seq<seq<StoredMessage>>>, files: seq<File>, ghost all: seq<StoredMessage>, ghost point: nat)
      requires Valid() && NewTx(disk.fs, tx)
      modifies disk
      ensures Valid() && old(disk.trace) <= disk.trace && r != Err(TooLarge)
      ensures Attempt(codec.Journal(), disk.trace, |old(disk.trace)|, Batch(tx, files), point)
      ensures files == [] || files == codec.FilesOf(all) + codec.RecordFiles(records, tx)
      ensures files != [] || point < |disk.trace| ==> CopiesOf(all, BatchTargets(messages), tx)
      ensures point < |disk.trace| ==> files == codec.FilesOf(all) + codec.RecordFiles(records, tx)
      ensures r.Ok? ==> point < |disk.trace| && |r.value| == |messages|
      ensures r.Ok? ==> forall k | 0 <= k < |messages| :: Reported(r.value[k], messages[k].0, messages[k].1, tx)
      ensures point < |disk.trace| ==> AllAccepted(all)
      ensures r.Ok? ==> forall k | 0 <= k < |messages| :: AllAccepted(r.value[k])
      ensures old(disk.faults) <= disk.faults
      ensures disk.faults == old(disk.faults) ==>
        Decided(codec, old(disk.fs), messages, records, tx, files, all, r.Ok?)
      ensures disk.faults == old(disk.faults) && AllPreparable(codec, old(disk.fs), messages) ==>
        r.Ok? || r == Err(InvalidRequest)
    {
      hide Chain, MailCodec.Lawful, SidecarStep, SidecarsOnly, NewTx, SortedSet, ValidSegment, Marker, AllPreparable;
      hide MailCodec.Publishable, MailCodec.FilesOf, CopiesOf, BatchTargets, Filed, MessageTargets, Reported;
      hide Attempt, Admissible, MailCodec.RecordFiles, AllAccepted;
      ghost var start, n := disk.fs, |disk.trace|;
      var error, result;
      error, result, files, all := PrepareBatch(messages, tx);
      point := |disk.trace|;
      if error.Some? {
        NoMarkerYet(codec, start, tx, disk.trace, n, []);
        return Err(error.value), [], all, point;
      }
      files := files + codec.RecordFiles(records, tx);
      NoMarkerYet(codec, start, tx, disk.trace, n, files);
      StepFacts(codec, start, disk.fs, tx);
      codec.CopiesPublishable(all, tx);
      codec.RecordsPublishable(records, tx);
      AdmissibleAfter(codec, start, disk.fs, files, tx);
      ghost var past := disk.trace;
      error, point := Publish(files, tx);
      AttemptJoin(codec.Journal(), past, disk.trace, n, Batch(tx, files), point);
      r := if error == None then Ok(result) else Err(error.value);
    }

    /** Prepares the copies of every message of a batch. */
    method PrepareBatch(messages: seq<(string, Message)>, tx: string)
      returns (error: Option<Error>, result: seq<seq<StoredMessage>>, files: seq<File>, ghost all: seq<StoredMessage>)
      requires Valid()
      modifies disk
      ensures Valid() && old(disk.trace) <= disk.trace
      ensures SidecarStep(codec, old(disk.fs), disk.fs)
      ensures SidecarsOnly(codec, old(disk.fs), disk.trace, |old(disk.trace)|)
      ensures old(disk.faults) <= disk.faults
      ensures error.Some? ==> error.value != TooLarge
      ensures error.None? <==> AllPreparable(codec, old(disk.fs), messages) && disk.faults == old(disk.faults)
      ensures error.None? ==> CopiesOf(all, BatchTargets(messages), tx) && files == codec.FilesOf(all)
      ensures error.None? ==> forall c | c in all :: ValidSegment(c.id) && c.tx == tx
      ensures error.None? ==> |result| == |messages|
      ensures error.None? ==> forall k | 0 <= k < |messages| :: Reported(result[k], messages[k].0, messages[k].1, tx)
      ensures error.None? ==> AllAccepted(all) && forall k | 0 <= k < |messages| :: AllAccepted(result[k])
    {
      hide MailCodec.Lawful, Chain, SidecarStep, SidecarsOnly, ValidSegment, MailCodec.CopyFiles, SortedSet;
      AppendNothing(codec, tx);
      hide MailCodec.FilesOf, CopiesOf, Filed, MessageTargets, Reported, Preparable, AllAccepted;
      SameIsSame(codec, disk.fs, disk.trace);
      result, files, all := [], [], [];
      for k := 0 to |messages|
        invariant Valid() && old(disk.trace) <= disk.trace && SidecarStep(codec, old(disk.fs), disk.fs)
        invariant SidecarsOnly(codec, old(disk.fs), disk.trace, |old(disk.trace)|)
        invariant CopiesOf(all, BatchTargets(messages[..k]), tx) && files == codec.FilesOf(all)
        invariant forall c | c in all :: ValidSegment(c.id) && c.tx == tx
        invariant disk.faults == old(disk.faults)
        invariant forall j | 0 <= j < k :: Preparable(codec, old(disk.fs), messages[j].0, messages[j].1)
        invariant |result| == k && forall j | 0 <= j < k :: Reported(result[j], messages[j].0, messages[j].1, tx)
      {
        ghost var before, past := disk.fs, disk.trace;
        var (id, message) := messages[k];
        PreparableAfter(codec, old(disk.fs), before, id, message);
        var r, copyFiles;
        ghost var copies;
        r, copyFiles, copies := PrepareMessage(id, message, tx);
        SidecarsJoin(codec, old(disk.fs), before, disk.fs, past, disk.trace, |old(disk.trace)|);
        if r.Err? { return Some(r.error), result, files, all; }
        PreparableId(codec, old(disk.fs), id, message);
        AppendMessage(codec, all, copies, messages[..k], id, message, tx);
        assert messages[..k + 1] == messages[..k] + [(id, message)];
        files, all, result := files + copyFiles, all + copies, result + [r.value];
      }
      assert messages[..|messages|] == messages;
      CopiesAccepted(all, BatchTargets(messages), tx);
      forall k | 0 <= k < |messages| ensures AllAccepted(result[k]) {
        ReportedAccepted(result[k], messages[k].0, messages[k].1, tx);
      }
      error := None;
    }

    /** write_atomic: writes beside `p`, then renames over it. */
    method WriteAtomic(p: Path, data: Bytes) returns (ok: bool)
      requires Valid() && p != [] && !Kept(p)
      requires Document(p) ==> p in disk.fs.files
      requires Rewrites(codec.Journal(), disk.fs, With(disk.fs, p, data), p)
      modifies disk
      ensures Valid() && old(disk.trace) <= disk.trace
      ensures forall i | |old(disk.trace)| <= i < |disk.trace| ::
        RewriteOf(codec.Journal(), old(disk.fs), disk.trace[i], p)
      ensures forall i | |old(disk.trace)| <= i < |disk.trace| :: OldOrNew(old(disk.fs), disk.trace[i], p, data)
      ensures RewriteOf(codec.Journal(), old(disk.fs), disk.fs, p)
      ensures ok ==> p in disk.fs.files && disk.fs.files[p] == data
      ensures !ok ==> SameFile(old(disk.fs), disk.fs, p)
      ensures OldOrNew(old(disk.fs), disk.fs, p, data)
      ensures old(disk.faults) <= disk.faults && (ok <==> disk.faults == old(disk.faults))
    {
      hide Codec.Recovered, Codec.Inv, Linked, Document, MailCodec.Journal, MailCodec.Lawful;
      ghost var before, n, start := disk.trace, |disk.trace|, disk.fs;
      var tmp := TmpPath(p);
      ok := WriteTmp(p, data);
      if ok {
        RenameIsRewrite(codec.Journal(), start, p, data);
        ok := disk.Rename(tmp, p);
      }
      assert disk.trace[..n] == before;
      RewritesExtendChain(codec.Journal(), disk.trace, n, p);
    }

    method WriteTmp(p: Path, data: Bytes) returns (ok: bool)
      requires Valid() && p != [] && !Kept(p)
      modifies disk
      ensures disk.Valid() && old(disk.trace) <= disk.trace
      ensures forall i | |old(disk.trace)| <= i < |disk.trace| ::
        RewriteOf(codec.Journal(), old(disk.fs), disk.trace[i], p)
      ensures forall i | |old(disk.trace)| <= i < |disk.trace| :: SameFile(old(disk.fs), disk.trace[i], p)
      ensures RewriteOf(codec.Journal(), old(disk.fs), disk.fs, p) && SameFile(old(disk.fs), disk.fs, p)
      ensures ok ==> disk.fs == With(old(disk.fs), TmpPath(p), data)
      ensures old(disk.faults) <= disk.faults && (ok <==> disk.faults == old(disk.faults))
    {
      hide RewriteOf, TmpPath, MailCodec.Journal, MailCodec.Lawful, Codec.Inv, Codec.Sane, Kept;
      ghost var start := disk.fs;
      var tmp := TmpPath(p);
      LastIsSane(codec.Journal(), disk.trace);
      TmpIsRewrite(codec.Journal(), start, p, []);
      TmpIsElsewhere(p);
      forall d
        ensures RewriteOf(codec.Journal(), start, With(start, tmp, d), p) && SameFile(start, With(start, tmp, d), p)
      {
        TmpIsRewrite(codec.Journal(), start, p, d);
      }
      hide Chain;
      ok := disk.Truncate(tmp);
      if !ok { return; }
      assert forall d :: With(disk.fs, tmp, d) == With(start, tmp, d);
      assert [] + data == data;
      ok := disk.WriteAll(tmp, data);
    }
  }

  /** A process that stops in some state of a run is replaced by one that opens the store again. */
  method Restart(codec: MailCodec, ghost run: seq<Fs>, ghost stop: nat, left: Fs) returns (store: MailStore, ok: bool)
    requires codec.Lawful() && Chain(codec.Journal(), run) && stop < |run| && left == run[stop]
    ensures fresh(store) && fresh(store.disk) && store.Valid() && store.codec == codec
    ensures run[..stop + 1] <= store.disk.trace
    ensures codec.Journal().Recovered(store.disk.fs) == codec.Journal().Recovered(left)
    ensures ok ==> store.disk.fs == codec.Journal().Recovered(left)
  {
    hide Chain, MailCodec.Lawful, Codec.Recovered;
    ChainPrefix(codec.Journal(), run, stop + 1);
    var disk := new Disk(left, run[..stop]);
    assert run[..stop] + [left] == run[..stop + 1];
    store := new MailStore(codec, disk);
    ok := store.Reopen();
  }

  lemma RenameIsRewrite(codec: Codec, a: Fs, p: Path, data: Bytes)
    requires p != [] && !Kept(p) && Rewrites(codec, a, With(a, p, data), p) && (Document(p) ==> p in a.files)
    ensures RewriteOf(codec, a, With(Without(With(a, TmpPath(p), data), TmpPath(p)), p, data), p)
  {
    TmpIsSeparate(p);
    hide TmpPath, Document;
  }

  ghost predicate SidecarsOnly(codec: MailCodec, start: Fs, trace: seq<Fs>, n: nat) {
    forall i | n <= i < |trace| :: SidecarStep(codec, start, trace[i])
  }

  lemma SameIsSame(codec: MailCodec, a: Fs, trace: seq<Fs>)
    ensures SidecarStep(codec, a, a) && SidecarsOnly(codec, a, trace, |trace|)
  {
  }

  lemma SameAgrees(a: Fs, p: Path)
    ensures AgreeOff(a, a, p) && SameFile(a, a, p)
  {
  }

  lemma StepTransitive(codec: MailCodec, a: Fs, b: Fs, c: Fs)
    requires SidecarStep(codec, a, b) && SidecarStep(codec, b, c)
    ensures SidecarStep(codec, a, c)
  {
    SidecarsTransitive(a, b, c);
    hide SameButSidecars, SidecarFits;
  }

  lemma SidecarsJoin(codec: MailCodec, start: Fs, middle: Fs, end: Fs, past: seq<Fs>, trace: seq<Fs>, n: nat)
    requires n <= |past| && past <= trace
    requires SidecarsOnly(codec, start, past, n) && SidecarsOnly(codec, middle, trace, |past|)
    requires SidecarStep(codec, start, middle) && SidecarStep(codec, middle, end)
    ensures SidecarsOnly(codec, start, trace, n) && SidecarStep(codec, start, end)
  {
    hide SidecarStep;
    StepTransitive(codec, start, middle, end);
    forall i | n <= i < |trace| ensures SidecarStep(codec, start, trace[i]) {
      if i < |past| {
        assert past[i] == trace[i];
      } else {
        StepTransitive(codec, start, middle, trace[i]);
      }
    }
  }

  lemma RewriteIsSidecar(codec: Codec, a: Fs, b: Fs, p: Path)
    requires RewriteOf(codec, a, b, p) && IsSidecar(p) && IsSidecar(TmpPath(p))
    ensures SameButSidecars(a, b)
  {
    hide IsSidecar, TmpPath, Document;
  }

  /** The copies a batch reports: all but the account-wide one. */
  function Filed(all: seq<StoredMessage>): seq<StoredMessage> {
    if all == [] then []
    else Filed(all[..|all| - 1]) + if Last(all).mailbox == ALL_MAILBOX then [] else [Last(all)]
  }

  lemma AppendNothing(codec: MailCodec, tx: string)
    ensures codec.FilesOf([]) == [] && Filed([]) == [] && CopiesOf([], [], tx)
  {
  }

  /** The first `i` targets of `plan` are prepared. */
  ghost predicate PreparedSoFar(codec: MailCodec, all: seq<StoredMessage>, plan: seq<Target>, i: nat, tx: string,
                                files: seq<File>, copies: seq<StoredMessage>)
  {
    i <= |plan| && CopiesOf(all, plan[..i], tx) && files == codec.FilesOf(all) && copies == Filed(all)
  }

  lemma PreparedNext(codec: MailCodec, all: seq<StoredMessage>, plan: seq<Target>, i: nat, tx: string,
                     files: seq<File>, copies: seq<StoredMessage>, c: StoredMessage)
    requires PreparedSoFar(codec, all, plan, i, tx, files, copies) && i < |plan| && CopiesOf([c], [plan[i]], tx)
    ensures PreparedSoFar(codec, all + [c], plan, i + 1, tx, files + codec.CopyFiles(c),
                          if plan[i].mailbox == ALL_MAILBOX then copies else copies + [c])
  {
    hide MailCodec.FilesOf, Filed, CopiesOf, MailCodec.CopyFiles;
    AppendCopy(codec, all, c, plan[..i], plan[i], tx);
    assert plan[..i + 1] == plan[..i] + [plan[i]];
    assert Filed(all) + [] == Filed(all);
  }

  lemma PreparedAll(codec: MailCodec, all: seq<StoredMessage>, plan: seq<Target>, tx: string, files: seq<File>,
                    copies: seq<StoredMessage>)
    requires PreparedSoFar(codec, all, plan, |plan|, tx, files, copies)
    ensures CopiesOf(all, plan, tx) && files == codec.FilesOf(all) && copies == Filed(all)
  {
    hide MailCodec.FilesOf, Filed, CopiesOf;
    assert plan[..|plan|] == plan;
  }

  lemma AppendCopy(codec: MailCodec, all: seq<StoredMessage>, c: StoredMessage, plan: seq<Target>, t: Target,
                   tx: string)
    requires CopiesOf(all, plan, tx) && CopiesOf([c], [t], tx)
    ensures codec.FilesOf(all + [c]) == codec.FilesOf(all) + codec.CopyFiles(c)
    ensures Filed(all + [c]) == Filed(all) + if t.mailbox == ALL_MAILBOX then [] else [c]
    ensures CopiesOf(all + [c], plan + [t], tx)
  {
    assert (all + [c])[..|all|] == all;
    assert [c][0] == c && [t][0] == t;
  }

  /**
   Whether a batch within its budget is published when nothing fails: every copy can be prepared,
   and the journal admits the files.
   */
  ghost predicate Decided(codec: MailCodec, start: Fs, messages: seq<(string, Message)>, records: seq<Record>,
                          tx: string, files: seq<File>, all: seq<StoredMessage>, ok: bool)
  {
    && (AllPreparable(codec, start, messages) ==>
          CopiesOf(all, BatchTargets(messages), tx) && files == codec.FilesOf(all) + codec.RecordFiles(records, tx))
    && (ok <==> AllPreparable(codec, start, messages) && Admissible(codec.Journal().Recovered(start), files))
  }

  /** The recipients' copies of one message, in order. */
  ghost predicate Reported(copies: seq<StoredMessage>, id: string, message: Message, tx: string) {
    Delivers(copies, ShownTargets(MessageTargets(id, message))) && forall c | c in copies :: c.tx == tx
  }

  predicate AllAccepted(copies: seq<StoredMessage>) { forall c | c in copies :: c.status == "accepted" }

  lemma CopiesAccepted(copies: seq<StoredMessage>, targets: seq<Target>, tx: string)
    requires CopiesOf(copies, targets, tx)
    ensures AllAccepted(copies)
  {
  }

  lemma ReportedAccepted(copies: seq<StoredMessage>, id: string, message: Message, tx: string)
    requires Reported(copies, id, message, tx)
    ensures AllAccepted(copies)
  {
    hide MessageTargets, ShownTargets;
  }

  /**
   From `n` on, a run tries to publish `batch`. Until state `point` the store recovers to the mail
   before the attempt, mailbox sidecars aside; from `point` on it is that with the batch published.
   */
  ghost predicate Attempt(codec: Codec, trace: seq<Fs>, n: nat, batch: Batch, point: nat)
    requires 0 < n <= |trace|
  {
    && (point < |trace| ==> n <= point && Publishes(codec, trace[point - 1], trace[point], batch))
    && (forall i | n <= i < |trace| :: Committed(trace[i], batch.id) <==> point <= i)
    && (forall i | n <= i < |trace| && i < point :: SameMailFiles(codec, trace[n - 1], trace[i]))
    && (forall i | n <= point <= i < |trace| ::
          trace[i] == codec.Published(codec.Recovered(trace[point - 1]), batch.id, batch.files))
  }

  /** Both stores recover to the same files, mailbox sidecars aside. */
  ghost predicate SameMailFiles(codec: Codec, a: Fs, b: Fs) {
    SameButSidecars(codec.Recovered(a), codec.Recovered(b))
  }

  lemma AttemptNothing(codec: Codec, trace: seq<Fs>, batch: Batch)
    requires trace != []
    ensures Attempt(codec, trace, |trace|, batch, |trace|)
  {
  }

  /** Sidecars do not change what else is recovered. */
  lemma SidecarsKeepRecovered(codec: Codec, a: Fs, b: Fs)
    requires SameButSidecars(a, b)
    ensures SameMailFiles(codec, a, b)
  {
    forall id ensures Committed(b, id) == Committed(a, id) && codec.Listed(b, id) == codec.Listed(a, id) {
      assert !IsSidecar(Marker(id)) && !IsSidecar(IntentFile(id));
    }
    hide Marker, IntentFile, Codec.Listed, IsSidecar;
    forall p ensures codec.Doomed(a, p) == codec.Doomed(b, p) {
      if id :| id in a.txs && codec.Owns(a, id, p) { assert codec.Owns(b, id, p); }
      if id :| id in b.txs && codec.Owns(b, id, p) { assert codec.Owns(a, id, p); }
    }
    hide Codec.Doomed;
  }

  /** Sidecars do not decide whether a batch is admitted. */
  lemma AdmissibleAfter(codec: MailCodec, a: Fs, b: Fs, files: seq<File>, tx: string)
    requires SidecarStep(codec, a, b) && forall f | f in files :: codec.Publishable(f, tx)
    ensures Admissible(codec.Journal().Recovered(a), files) <==> Admissible(codec.Journal().Recovered(b), files)
  {
    SidecarsKeepRecovered(codec.Journal(), a, b);
    assert forall f | f in files :: !IsSidecar(f.path);
    hide Codec.Recovered, ValidRelative, IsSidecar, MailCodec.Publishable, SidecarFits;
  }

  /** All states of a commit form one attempt. */
  lemma PhasesAreAttempt(codec: Codec, trace: seq<Fs>, n: nat, batch: Batch, point: nat)
    requires 0 < n <= |trace|
    requires Capture.Phases(codec, codec.Recovered(trace[n - 1]), batch.id, batch.files, trace, n, point)
    requires point < |trace| ==> n <= point && Publishes(codec, trace[point - 1], trace[point], batch)
    ensures Attempt(codec, trace, n, batch, point)
  {
    hide Codec.Recovered, Codec.Published, Publishes, SameMailFiles, Capture.Phases, Marker;
    PhaseStates(codec, trace, n, batch, point);
    if point < |trace| { PublishesMarks(codec, trace[point - 1], trace[point], batch); }
  }

  lemma PhaseStates(codec: Codec, trace: seq<Fs>, n: nat, batch: Batch, point: nat)
    requires 0 < n <= |trace|
    requires Capture.Phases(codec, codec.Recovered(trace[n - 1]), batch.id, batch.files, trace, n, point)
    ensures forall i | n <= i < |trace| && i < point ::
      !Committed(trace[i], batch.id) && SameMailFiles(codec, trace[n - 1], trace[i])
    ensures n <= point < |trace| ==> codec.Recovered(trace[point - 1]) == codec.Recovered(trace[n - 1])
    ensures forall i | n <= point <= i < |trace| ::
      trace[i] == codec.Published(codec.Recovered(trace[n - 1]), batch.id, batch.files)
  {
    hide Codec.Recovered, Codec.Published, SameMailFiles, Capture.Phases, Marker;
    forall i | n <= i < |trace| && i < point
      ensures !Committed(trace[i], batch.id) && SameMailFiles(codec, trace[n - 1], trace[i])
    {
      PhaseState(codec, trace, n, batch, point, i);
    }
    forall i | n <= point <= i < |trace|
      ensures trace[i] == codec.Published(codec.Recovered(trace[n - 1]), batch.id, batch.files)
    {
      PhaseState(codec, trace, n, batch, point, i);
    }
    if n < point < |trace| { PhaseState(codec, trace, n, batch, point, point - 1); }
  }

  lemma PhaseState(codec: Codec, trace: seq<Fs>, n: nat, batch: Batch, point: nat, i: nat)
    requires 0 < n <= i < |trace|
    requires Capture.Phases(codec, codec.Recovered(trace[n - 1]), batch.id, batch.files, trace, n, point)
    ensures var pre := codec.Recovered(trace[n - 1]);
      && (point <= i ==> trace[i] == codec.Published(pre, batch.id, batch.files))
      && (i < point ==> !Committed(trace[i], batch.id) && codec.Recovered(trace[i]) == pre)
      && (i < point ==> SameMailFiles(codec, trace[n - 1], trace[i]))
  {
    hide Codec.Recovered, Codec.Published, Marker, Codec.Inv;
    assert i < point ==> Capture.Before(codec, codec.Recovered(trace[n - 1]), batch.id, trace[i]);
    hide IsSidecar;
  }

  lemma PublishesMarks(codec: Codec, a: Fs, b: Fs, batch: Batch)
    requires Publishes(codec, a, b, batch)
    ensures Committed(codec.Published(codec.Recovered(a), batch.id, batch.files), batch.id)
  {
    hide Codec.Recovered, Codec.Published, Marker;
    MarkerIsNew(codec, codec.Recovered(a), batch.id, batch.files);
  }

  lemma AttemptJoin(codec: Codec, past: seq<Fs>, trace: seq<Fs>, n: nat, batch: Batch, point: nat)
    requires 0 < n <= |past| && past <= trace && Attempt(codec, past, n, batch, |past|)
    requires Attempt(codec, trace, |past|, batch, point)
    ensures Attempt(codec, trace, n, batch, point)
  {
    hide Publishes, Marker, Codec.Recovered, Codec.Published, SameButSidecars;
    assert forall i | 0 <= i < |past| :: past[i] == trace[i];
    forall i | n <= i < |trace| && i < point ensures SameMailFiles(codec, trace[n - 1], trace[i]) {
      if i >= |past| {
        assert SameMailFiles(codec, trace[|past| - 1], trace[i]);
        if |past| > n {
          SidecarsTransitive(codec.Recovered(trace[n - 1]), codec.Recovered(trace[|past| - 1]),
                             codec.Recovered(trace[i]));
        }
      }
    }
  }

  function Charges(codec: MailCodec, messages: seq<(string, Message)>): seq<MailCharge>
    requires forall m | m in messages :: Length(|codec.messageJson(m.1)|)
    requires forall m | m in messages :: m.1.rawMime.Some? ==> Length(|m.1.rawMime.value|)
  {
    seq(|messages|, i requires 0 <= i < |messages| => assert messages[i] in messages; Charge(codec, messages[i].1))
  }

  function Charge(codec: MailCodec, m: Message): MailCharge
    requires Length(|codec.messageJson(m)|) && (m.rawMime.Some? ==> Length(|m.rawMime.value|))
  {
    MailCharge([|codec.messageJson(m)|], if m.rawMime.Some? then |m.rawMime.value| else 0, m.recipients)
  }

  function RecordCharges(codec: MailCodec, records: seq<Record>): seq<RecordCharge>
    requires forall r | r in records :: Length(|codec.encodeRecord(r)|)
  {
    seq(|records|, i requires 0 <= i < |records| => assert records[i] in records; ChargeRecord(codec, records[i]))
  }

  function ChargeRecord(codec: MailCodec, r: Record): RecordCharge
    requires Length(|codec.encodeRecord(r)|)
  {
    RecordCharge([|codec.encodeRecord(r)|])
  }

  /** What one stored copy is charged. */
  ghost function OneCopyTotal(codec: MailCodec, mailbox: string, id: string, message: Message): nat
    requires Sizes(codec, [(id, message)], [])
  {
    assert (id, message) in [(id, message)];
    SingleCopyTotal(Charge(codec, message), mailbox, id)
  }

  lemma CopyTags(copies: seq<StoredMessage>, targets: seq<Target>, tx: string)
    requires CopiesOf(copies, targets, tx)
    ensures |copies| == |targets| && forall i | 0 <= i < |copies| :: copies[i].tx == tx && copies[i].id == targets[i].id
  {
  }

  /** Everything submitted fits in memory. */
  ghost predicate Sizes(codec: MailCodec, messages: seq<(string, Message)>, records: seq<Record>) {
    && (forall m | m in messages :: Length(|codec.messageJson(m.1)|))
    && (forall m | m in messages :: m.1.rawMime.Some? ==> Length(|m.1.rawMime.value|))
    && (forall m, t | m in messages && t in m.1.recipients :: Length(|t|))
    && (forall r | r in records :: Length(|codec.encodeRecord(r)|))
  }

  lemma SizesAreLengths(codec: MailCodec, messages: seq<(string, Message)>, records: seq<Record>)
    requires Sizes(codec, messages, records)
    ensures forall m, t | m in Charges(codec, messages) && t in m.recipients :: Length(|t|)
  {
    forall m, t | m in Charges(codec, messages) && t in m.recipients ensures Length(|t|) {
      var i :| 0 <= i < |messages| && m == Charges(codec, messages)[i];
      assert messages[i] in messages;
    }
  }

  lemma JournalIsLawful(codec: MailCodec)
    requires codec.Lawful()
    ensures codec.Journal().Lawful()
  {
  }

  lemma PublishableBatch(codec: MailCodec, fs: Fs, files: seq<File>, tx: string)
    requires NewTx(fs, tx) && forall f | f in files :: codec.Publishable(f, tx)
    ensures FreshId(fs, tx, files) && codec.Journal().AcceptsAll(files, tx)
    ensures forall f | f in files :: !Journalled(f.path)
  {
  }

  /** Sidecars do not commit anything. */
  lemma NoMarkerYet(codec: MailCodec, start: Fs, tx: string, trace: seq<Fs>, n: nat, files: seq<File>)
    requires 0 < n <= |trace| && Chain(codec.Journal(), trace) && start == trace[n - 1] && NewTx(start, tx)
    requires SidecarsOnly(codec, start, trace, n)
    ensures Attempt(codec.Journal(), trace, n, Batch(tx, files), |trace|)
  {
    TxNames(tx);
    assert codec.Journal().Inv(trace[n - 1]);
    assert !Committed(start, tx) && !IsSidecar(Marker(tx));
    hide Marker, SameMailFiles, Codec.Published, Codec.Recovered, Publishes, Chain, SidecarFits;
    forall i | n <= i < |trace| ensures SameMailFiles(codec.Journal(), start, trace[i]) {
      assert SidecarStep(codec, start, trace[i]);
      SidecarsKeepRecovered(codec.Journal(), start, trace[i]);
    }
  }

  lemma AppendMessage(codec: MailCodec, all: seq<StoredMessage>, copies: seq<StoredMessage>,
                      messages: seq<(string, Message)>, id: string, message: Message, tx: string)
    requires CopiesOf(all, BatchTargets(messages), tx) && CopiesOf(copies, MessageTargets(id, message), tx)
    ensures CopiesOf(all + copies, BatchTargets(messages + [(id, message)]), tx)
    ensures codec.FilesOf(all + copies) == codec.FilesOf(all) + codec.FilesOf(copies)
    ensures Reported(Filed(copies), id, message, tx)
    ensures forall c | c in copies :: c.id == id && c.tx == tx
  {
    hide SortedSet, MailCodec.FilesOf, Filed;
    assert (messages + [(id, message)])[..|messages|] == messages;
    FilesOfConcat(codec, all, copies);
    CopiesOfConcat(all, BatchTargets(messages), copies, MessageTargets(id, message), tx);
    assert forall i | 0 <= i < |copies| :: copies[i].id == MessageTargets(id, message)[i].id == id;
    assert Delivers(copies, MessageTargets(id, message)) && |copies| > 0;
    hide CopiesOf, BatchTargets, Delivers;
    FiledReports(copies, MessageTargets(id, message));
    FiledTags(copies, tx);
  }

  lemma CopiesOfConcat(a: seq<StoredMessage>, s: seq<Target>, b: seq<StoredMessage>, t: seq<Target>, tx: string)
    requires CopiesOf(a, s, tx) && CopiesOf(b, t, tx)
    ensures CopiesOf(a + b, s + t, tx) && (forall c | c in b :: c.tx == tx)
  {
  }

  lemma {:induction false} FilesOfConcat(codec: MailCodec, a: seq<StoredMessage>, b: seq<StoredMessage>)
    ensures codec.FilesOf(a + b) == codec.FilesOf(a) + codec.FilesOf(b)
  {
    hide MailCodec.CopyFiles;
    if b == [] {
      assert a + b == a;
    } else {
      FilesOfConcat(codec, a, b[..|b| - 1]);
      assert (a + b)[..|a + b| - 1] == a + b[..|b| - 1] && Last(a + b) == Last(b);
    }
  }

  /** The reported copies are those of the reported targets, in order. */
  lemma {:induction false} FiledReports(copies: seq<StoredMessage>, targets: seq<Target>)
    requires Delivers(copies, targets)
    ensures Delivers(Filed(copies), ShownTargets(targets))
  {
    if copies != [] {
      var n := |copies| - 1;
      FiledReports(copies[..n], targets[..n]);
      hide Filed, ShownTargets;
      FiledLast(copies);
      ShownLast(targets);
    }
  }

  lemma FiledLast(copies: seq<StoredMessage>)
    requires copies != []
    ensures Filed(copies) ==
      Filed(copies[..|copies| - 1]) + if Last(copies).mailbox == ALL_MAILBOX then [] else [Last(copies)]
  {
  }

  lemma ShownLast(targets: seq<Target>)
    requires targets != []
    ensures ShownTargets(targets) ==
      ShownTargets(targets[..|targets| - 1]) + if Last(targets).mailbox == ALL_MAILBOX then [] else [Last(targets)]
  {
  }

  lemma {:induction false} FiledTags(copies: seq<StoredMessage>, tx: string)
    requires forall c | c in copies :: c.tx == tx
    ensures forall c | c in Filed(copies) :: c.tx == tx
  {
    if copies != [] {
      FiledTags(copies[..|copies| - 1], tx);
    }
  }

  /** A document of a mailbox in the last state of a run is whole. */
  lemma DocumentDecodes(codec: MailCodec, trace: seq<Fs>, p: Path)
    requires |trace| > 0 && Chain(codec.Journal(), trace) && p in Last(trace).files && Document(p) && !Kept(p)
    ensures codec.decodeMessage(Last(trace).files[p]).Some?
    ensures p == codec.MessagePath(codec.decodeMessage(Last(trace).files[p]).value.mailbox,
                                   codec.decodeMessage(Last(trace).files[p]).value.id)
  {
    assert codec.Journal().Inv(trace[|trace| - 1]);
    assert codec.Journal().accepts(p, Last(trace).files[p]);
  }

  lemma LastIsSane(codec: Codec, trace: seq<Fs>)
    requires |trace| > 0 && Chain(codec, trace)
    ensures codec.Sane(Last(trace)) && codec.Inv(Last(trace))
  {
  }
}
